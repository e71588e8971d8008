/** The CSR file of emulator/src/cpu/csr.c as an object whose registers are updated in place. Registers with bit
    fields hold their packed bits. Every method is specified by the function of module Csr with the same role. */
module CsrFile {
  import opened Riscv
  import opened Csr
  import opened Packed
  import Arith
  import Sv39

  /** The bits of a number below 2^64. */
  function BitsOf(n: nat): Bits {
    seq(64, i requires i >= 0 => n / Arith.Pow2(i) % 2 == 1)
  }

  /** The fields of satp. */
  function SatpOf(v: nat): Sv39.Satp {
    Sv39.Satp(v / 0x1000_0000_0000_0000 % 16, v / 0x1000_0000_0000 % 0x1_0000, v % 0x1000_0000_0000)
  }

  /** A written value as the registers of each kind read it. */
  function Views(v: nat): Written {
    var b := BitsOf(v);
    Written(v, UnpackStatus(b), UnpackIrqs(b), UnpackCodes(b), UnpackCounters(b), SatpOf(v))
  }

  /** csr_reg_t, with the bit-field registers packed. */
  datatype RawRegs = RawRegs(
    mstatus: Bits, misa: nat, medeleg: Bits, mideleg: Bits, mie: Bits, mip: Bits, m: TrapRegs, s: TrapRegs,
    count: RawCounters, satp: Sv39.Satp, mtime: nat)

  /** mcounteren, scounteren, mcountinhibit, mcycle and minstret. */
  datatype RawCounters = RawCounters(menable: Bits, senable: Bits, inhibit: Bits, cycle: nat, instret: nat)

  function UnpackCount(c: RawCounters): CounterRegs {
    CounterRegs(UnpackCounters(c.menable), UnpackCounters(c.senable), UnpackCounters(c.inhibit), c.cycle, c.instret)
  }

  function Unpack(r: RawRegs): Regs {
    Regs(UnpackStatus(r.mstatus), r.misa, UnpackCodes(r.medeleg),
         IrqRegs(UnpackIrqs(r.mideleg), UnpackIrqs(r.mie), UnpackIrqs(r.mip)),
         r.m, r.s, UnpackCount(r.count), r.satp, r.mtime)
  }

  /** The delegation tests of trap_enter. */
  method HandlingMode(r: RawRegs, ghost u: Regs, cause: Cause, priv: nat) returns (target: nat)
    requires u.irq.deleg == UnpackIrqs(r.mideleg) && u.medeleg == UnpackCodes(r.medeleg)
    ensures target == Target(u, cause, priv)
  {
    target := PRIV_M;
    if priv < PRIV_M {
      match cause
      case Interrupt(id) =>
        if IrqBit(id) && r.mideleg[id] {
          target := PRIV_S;
        }
      case Exception(code) =>
        PositionsExact(r.medeleg, code);
        if code < 64 && r.medeleg[code] {
          target := PRIV_S;
        }
    }
  }

  /** check_interrupt on the packed registers. */
  method Check(r: RawRegs, ghost u: Regs, priv: nat, id: nat) returns (fire: bool)
    requires id < 64 && u.irq.deleg.Has(id) == r.mideleg[id] && u.irq.enable.Has(id) == r.mie[id]
    requires u.irq.pending.Has(id) == r.mip[id]
    requires u.mstatus.mie == r.mstatus[3] && u.mstatus.sie == r.mstatus[1]
    ensures fire == Fires(u, priv, id)
  {
    var target := if r.mideleg[id] then PRIV_S else PRIV_M;
    fire := false;
    if priv < target {
      fire := r.mip[id] && r.mie[id];
    } else if priv == target {
      fire := r.mip[id] && r.mie[id] && (if target == PRIV_M then r.mstatus[3] else r.mstatus[1]);
    }
  }

  // The methods below are given, as ghosts, the unpacked registers u and the written value w as the registers read it.

  /** The write half of csr_access for mstatus and sstatus. */
  method WriteStatus(r: RawRegs, ghost u: Regs, n: Name, op: Op, v: Bits, ghost w: Written) returns (r': RawRegs)
    requires u == Unpack(r) && w.status == UnpackStatus(v) && (n.Mstatus_? || n.Sstatus?)
    ensures Unpack(r') == Put(u, n, op, w)
  {
    var status: Bits;
    if n.Mstatus_? {
      MstatusWritten(op, r.mstatus, v);
      status := Masked(op, r.mstatus, v, MstatusMask());
      if TwoBits(status[11], status[12]) == 2 {
        status := FieldSet(FieldSet(status, 11, false), 12, false);
      }
    } else {
      SstatusWritten(op, r.mstatus, v);
      status := Masked(op, r.mstatus, v, SstatusMask());
    }
    WithStatusUnpacked(r, status);
    r' := r.(mstatus := status);
  }

  lemma WithStatusUnpacked(r: RawRegs, bits: Bits)
    ensures Unpack(r.(mstatus := bits)) == Unpack(r).(mstatus := UnpackStatus(bits))
  {
  }

  /** The same for mie, mip and mideleg. */
  method WriteInterrupts(r: RawRegs, ghost u: Regs, n: Name, op: Op, v: Bits, ghost w: Written) returns (r': RawRegs)
    requires u == Unpack(r) && w.irqs == UnpackIrqs(v) && (n.Mie? || n.Mip? || n.Mideleg?)
    ensures Unpack(r') == Put(u, n, op, w)
  {
    var was := if n.Mie? then r.mie else if n.Mip? then r.mip else r.mideleg;
    var mask := if n.Mie? then IrqAllMask() else IrqSMask();
    MachineIrqsWritten(op, was, v, n.Mie?);
    WithIrqsUnpacked(r, n, Masked(op, was, v, mask));
    r' := WithIrqs(r, n, Masked(op, was, v, mask));
  }

  /** The same for sie and sip, the views of mie and mip that mideleg opens. */
  method WriteDelegated(r: RawRegs, ghost u: Regs, n: Name, op: Op, v: Bits, ghost w: Written) returns (r': RawRegs)
    requires u == Unpack(r) && w.irqs == UnpackIrqs(v) && (n.Sie? || n.Sip?)
    ensures Unpack(r') == Put(u, n, op, w)
  {
    DelegatedMasks(r.mideleg);
    var was := if n.Sie? then r.mie else r.mip;
    var mask := And(if n.Sie? then IrqSMask() else SsipMask(), r.mideleg);
    IrqsWritten(op, was, v, mask);
    r' := WithIrqs(r, if n.Sie? then Mie else Mip, Masked(op, was, v, mask));
  }

  /** One of the interrupt registers replaced. */
  function WithIrqs(r: RawRegs, n: Name, bits: Bits): (r': RawRegs)
    requires n.Mie? || n.Mip? || n.Mideleg?
  {
    if n.Mie? then r.(mie := bits) else if n.Mip? then r.(mip := bits) else r.(mideleg := bits)
  }

  lemma WithIrqsUnpacked(r: RawRegs, n: Name, bits: Bits)
    requires n.Mie? || n.Mip? || n.Mideleg?
    ensures var u, b := Unpack(r), UnpackIrqs(bits);
            Unpack(WithIrqs(r, n, bits)) ==
              if n.Mie? then u.(irq := u.irq.(enable := b))
              else if n.Mip? then u.(irq := u.irq.(pending := b)) else u.(irq := u.irq.(deleg := b))
  {
  }

  /** The same for medeleg. */
  method WriteCauses(r: RawRegs, ghost u: Regs, op: Op, v: Bits, ghost w: Written) returns (r': RawRegs)
    requires u == Unpack(r) && w.codes == UnpackCodes(v)
    ensures Unpack(r') == Put(u, Medeleg, op, w)
  {
    CodesWritten(op, r.medeleg, v);
    r' := r.(medeleg := Masked(op, r.medeleg, v, MedelegMask()));
  }

  /** The same for the counter registers. */
  method WriteCounting(r: RawRegs, ghost u: Regs, n: Name, op: Op, v: Bits, ghost w: Written) returns (r': RawRegs)
    requires u == Unpack(r) && w.counters == UnpackCounters(v)
    requires n.Scounteren? || n.Mcounteren? || n.Mcountinhibit?
    ensures Unpack(r') == Put(u, n, op, w)
  {
    var c := r.count;
    var was := if n.Scounteren? then c.senable else if n.Mcounteren? then c.menable else c.inhibit;
    CountersWritten(op, was, v, !n.Mcountinhibit?);
    var bits := Masked(op, was, v, CounterMask(!n.Mcountinhibit?));
    WithCounterUnpacked(r, n, bits);
    r' := WithCounter(r, n, bits);
  }

  /** One of the counter registers replaced. */
  function WithCounter(r: RawRegs, n: Name, bits: Bits): (r': RawRegs)
    requires n.Scounteren? || n.Mcounteren? || n.Mcountinhibit?
  {
    var c := r.count;
    r.(count := if n.Scounteren? then c.(senable := bits) else if n.Mcounteren? then c.(menable := bits)
       else c.(inhibit := bits))
  }

  lemma WithCounterUnpacked(r: RawRegs, n: Name, bits: Bits)
    requires n.Scounteren? || n.Mcounteren? || n.Mcountinhibit?
    ensures var u, b := Unpack(r), UnpackCounters(bits);
            var c := u.count;
            Unpack(WithCounter(r, n, bits)) ==
              u.(count := if n.Scounteren? then c.(senable := b) else if n.Mcounteren? then c.(menable := b)
                 else c.(inhibit := b))
  {
  }

  /** The same for the registers without packed bits, with their WARL fix-ups. */
  method WriteOther(r: RawRegs, ghost u: Regs, n: Name, op: Op, value: nat, ghost w: Written) returns (r': RawRegs)
    requires !(n.Mstatus_? || n.Sstatus? || n.Mie? || n.Mip? || n.Mideleg? || n.Sie? || n.Sip?)
    requires !(n.Medeleg? || n.Scounteren? || n.Mcounteren? || n.Mcountinhibit?)
    requires u == Unpack(r) && w.num == value && w.satp == SatpOf(value)
    ensures Unpack(r') == Put(u, n, op, w)
  {
    var c, m, s := r.count, r.m, r.s;
    match n
    case Mcycle => r' := r.(count := c.(cycle := MergeNum(op, c.cycle, value)));
    case Minstret => r' := r.(count := c.(instret := MergeNum(op, c.instret, value)));
    case Satp =>
      var v := SatpOf(value);
      var mode, ppn := MergeNum(op, r.satp.mode, v.mode), MergeNum(op, r.satp.ppn, v.ppn);
      r' := r;
      if mode == 0 || mode == 8 {
        r' := r.(satp := Sv39.Satp(mode, r.satp.asid, ppn));
      }
    case Stvec => r' := r.(s := s.(tvec := LegalTvec(MergeNum(op, s.tvec, value))));
    case Mtvec => r' := r.(m := m.(tvec := LegalTvec(MergeNum(op, m.tvec, value))));
    case Sepc => r' := r.(s := s.(epc := Align(MergeNum(op, s.epc, value))));
    case Mepc => r' := r.(m := m.(epc := Align(MergeNum(op, m.epc, value))));
    case Sscratch => r' := r.(s := s.(scratch := MergeNum(op, s.scratch, value)));
    case Mscratch => r' := r.(m := m.(scratch := MergeNum(op, m.scratch, value)));
    case Scause => r' := r.(s := s.(cause := MergeNum(op, s.cause, value)));
    case Mcause => r' := r.(m := m.(cause := MergeNum(op, m.cause, value)));
    case Stval => r' := r.(s := s.(tval := MergeNum(op, s.tval, value)));
    case Mtval => r' := r.(m := m.(tval := MergeNum(op, m.tval, value)));
    case _ => r' := r;
  }

  /** The write half of csr_access. */
  method Write(r: RawRegs, ghost u: Regs, n: Name, op: Op, value: nat, ghost w: Written) returns (r': RawRegs)
    requires u == Unpack(r) && w == Views(value)
    ensures Unpack(r') == Put(u, n, op, w)
  {
    var v := BitsOf(value);
    if n.Mstatus_? || n.Sstatus? {
      r' := WriteStatus(r, u, n, op, v, w);
    } else if n.Mie? || n.Mip? || n.Mideleg? {
      r' := WriteInterrupts(r, u, n, op, v, w);
    } else if n.Sie? || n.Sip? {
      r' := WriteDelegated(r, u, n, op, v, w);
    } else if n.Medeleg? {
      r' := WriteCauses(r, u, op, v, w);
    } else if n.Scounteren? || n.Mcounteren? || n.Mcountinhibit? {
      r' := WriteCounting(r, u, n, op, v, w);
    } else {
      r' := WriteOther(r, u, n, op, value, w);
    }
  }

  /** The tests csr_access makes before it reads or writes. */
  method Accepts(r: RawRegs, ghost u: Regs, addr: nat, read: bool, write: bool, priv: nat) returns (ok: bool)
    requires u == Unpack(r)
    ensures ok == Legal(u, addr, read, write, priv)
  {
    var addrPriv := addr / 256 % 4;
    if priv == PRIV_U && addrPriv > PRIV_U {
      return false;
    }
    if priv == PRIV_S && addrPriv > PRIV_S {
      return false;
    }
    if Decode(addr).None? {
      return false;
    }
    var n := Decode(addr).value;
    if n.Satp? && priv == PRIV_S && r.mstatus[20] {
      return false;
    }
    if write && ReadOnly(n) {
      return false;
    }
    if read {
      var m, s := r.count.menable, r.count.senable;
      if n.Cycle? && !CounterEnabled(m[0], s[0], priv) {
        return false;
      }
      if n.Time? && !CounterEnabled(m[1], s[1], priv) {
        return false;
      }
      if n.Instret? && !CounterEnabled(m[2], s[2], priv) {
        return false;
      }
    }
    return true;
  }

  /** A delivered word: packed bits, or the value of a register without packed bits. */
  datatype Data = Word(bits: Bits) | Value(num: nat) | SatpWord(satp: Sv39.Satp)

  /** The word as software sees it. */
  function NumberOf(d: Data): nat {
    match d
    case Word(bits) => Arith.FromBits(bits)
    case Value(num) => num
    case SatpWord(satp) => satp.mode * 0x1000_0000_0000_0000 + satp.asid * 0x1000_0000_0000 + satp.ppn
  }

  /** A delivered word as the register's kind reads it. */
  function ShownBy(d: Data, n: Name): Shown {
    match d
    case Value(num) => Number(num)
    case SatpWord(satp) => SatpFields(satp)
    case Word(bits) =>
      if n.Sstatus? || n.Mstatus_? then StatusBits(UnpackStatus(bits))
      else if n.Medeleg? then CodeBits(UnpackCodes(bits))
      else if n.Scounteren? || n.Mcounteren? || n.Mcountinhibit? then CounterBits(UnpackCounters(bits))
      else IrqBits(UnpackIrqs(bits))
  }

  predicate IsView(n: Name) {
    n.Sstatus? || n.Sie? || n.Sip?
  }

  predicate IsPacked(n: Name) {
    n.Mstatus_? || n.Mie? || n.Mip? || n.Mideleg? || n.Medeleg? || n.Scounteren? || n.Mcounteren? || n.Mcountinhibit?
  }

  /** The read half of csr_access. The identification registers are never written and read 0. */
  function DataOf(r: RawRegs, n: Name): Data {
    match n
    case Sstatus => Word(And(r.mstatus, SstatusReadMask()))
    case Sie => Word(And(And(r.mie, IrqSMask()), r.mideleg))
    case Sip => Word(And(And(r.mip, IrqSMask()), r.mideleg))
    case Mstatus_ => Word(r.mstatus)
    case Mie => Word(r.mie)
    case Mip => Word(r.mip)
    case Mideleg => Word(r.mideleg)
    case Medeleg => Word(r.medeleg)
    case Scounteren => Word(r.count.senable)
    case Mcounteren => Word(r.count.menable)
    case Mcountinhibit => Word(r.count.inhibit)
    case Satp => SatpWord(r.satp)
    case Misa => Value(r.misa)
    case Stvec => Value(r.s.tvec)
    case Sscratch => Value(r.s.scratch)
    case Sepc => Value(r.s.epc)
    case Scause => Value(r.s.cause)
    case Stval => Value(r.s.tval)
    case Mtvec => Value(r.m.tvec)
    case Mscratch => Value(r.m.scratch)
    case Mepc => Value(r.m.epc)
    case Mcause => Value(r.m.cause)
    case Mtval => Value(r.m.tval)
    case Mcycle => Value(r.count.cycle)
    case Cycle => Value(r.count.cycle)
    case Minstret => Value(r.count.instret)
    case Instret => Value(r.count.instret)
    case Time => Value(r.mtime)
    case _ => Value(0)
  }

  /** A delivered word, read as the register's kind, is what the register shows. */
  lemma DataShows(r: RawRegs, n: Name)
    ensures ShownBy(DataOf(r, n), n) == Show(Unpack(r), n)
  {
    if IsView(n) {
      ViewShows(r, n);
    } else if IsPacked(n) {
      BitsShow(r, n);
    } else {
      NumberShows(r, Unpack(r), n);
    }
  }

  lemma ViewShows(r: RawRegs, n: Name)
    requires IsView(n)
    ensures ShownBy(DataOf(r, n), n) == Show(Unpack(r), n)
  {
    SstatusRead(r.mstatus);
    DelegatedRead(r.mie, r.mideleg);
    DelegatedRead(r.mip, r.mideleg);
  }

  lemma BitsShow(r: RawRegs, n: Name)
    requires IsPacked(n)
    ensures ShownBy(DataOf(r, n), n) == Show(Unpack(r), n)
  {
  }

  lemma NumberShows(r: RawRegs, u: Regs, n: Name)
    requires u.m == r.m && u.s == r.s && u.misa == r.misa && u.mtime == r.mtime && u.satp == r.satp
    requires u.count.cycle == r.count.cycle && u.count.instret == r.count.instret
    requires !IsPacked(n) && !IsView(n)
    ensures ShownBy(DataOf(r, n), n) == Show(u, n)
  {
  }

  /** The number a CSR instruction brings to rd. */
  function NumberRead(r: RawRegs, addr: nat, time: nat): nat {
    if Decode(addr).Some? then NumberOf(DataOf(r.(mtime := time), Decode(addr).value)) else 0
  }

  /** The register an accepted access writes. */
  function WrittenName(r: Regs, addr: nat, read: bool, write: bool, priv: nat): Option<Name> {
    if Legal(r, addr, read, write, priv) && write then Decode(addr) else None
  }

  function WrittenRegs(r: Regs, n: Option<Name>, op: Op, v: Written): Regs {
    if n.Some? then Put(r, n.value, op, v) else r
  }

  method AccessRegs(r: RawRegs, ghost u: Regs, addr: nat, op: Op, value: nat, ghost w: Written, read: bool, write: bool,
                    priv: nat)
    returns (ok: bool, r': RawRegs, n: Option<Name>)
    requires u == Unpack(r) && w == Views(value)
    ensures ok == Legal(u, addr, read, write, priv)
    ensures n == WrittenName(u, addr, read, write, priv)
    ensures Unpack(r') == WrittenRegs(u, n, op, w)
  {
    r', n := r, None;
    ok := Accepts(r, u, addr, read, write, priv);
    if ok && write {
      n := Decode(addr);
      r' := Write(r, u, n.value, op, value, w);
    }
  }

  lemma AccessSplit(f: File, addr: nat, op: Op, v: Written, read: bool, write: bool, time: nat, priv: nat)
    ensures var n := WrittenName(f.reg.(mtime := time), addr, read, write, priv);
            Csr.Access(f, addr, op, v, read, write, time, priv)
            == File(WrittenRegs(f.reg.(mtime := time), n, op, v), f.startingMcountinhibit,
                    f.mcycleWritten || n == Some(Mcycle), f.minstretWritten || n == Some(Minstret),
                    f.satpWritten || n == Some(Satp))
  {
  }

  /** mcycle_written, minstret_written and satp_written. */
  datatype Flags = Flags(mcycle: bool, minstret: bool, satp: bool)

  function FileOf(reg: RawRegs, starting: Bits, written: Flags): File {
    File(Unpack(reg), UnpackCounters(starting), written.mcycle, written.minstret, written.satp)
  }

  /** csr_access on values; f and w are the file and the written value by fields. */
  method AccessFile(r: RawRegs, starting: Bits, flags: Flags, ghost f: File, addr: nat, op: Op, value: nat,
                    ghost w: Written,
                    read: bool, write: bool, time: nat, priv: nat)
    returns (ok: bool, r': RawRegs, flags': Flags, ghost f': File)
    requires f == FileOf(r, starting, flags) && w == Views(value)
    ensures ok == Legal(f.reg.(mtime := time), addr, read, write, priv)
    ensures f' == FileOf(r', starting, flags') && f' == Csr.Access(f, addr, op, w, read, write, time, priv)
  {
    var n;
    ok, r', n := AccessRegs(r.(mtime := time), f.reg.(mtime := time), addr, op, value, w, read, write, priv);
    AccessSplit(f, addr, op, w, read, write, time, priv);
    flags' := Flags(flags.mcycle || n == Some(Mcycle), flags.minstret || n == Some(Minstret),
                    flags.satp || n == Some(Satp));
    f' := FileOf(r', starting, flags');
  }

  /** The four interrupt lines in mip. */
  function WithLines(r: RawRegs, meip: bool, msip: bool, mtip: bool, seip: bool): RawRegs {
    r.(mip := FieldSet(FieldSet(FieldSet(FieldSet(r.mip, 11, meip), 3, msip), 7, mtip), 9, seip))
  }

  /** csr_t. */
  class Registers {
    var reg: RawRegs
    var startingMcountinhibit: Bits
    var written: Flags

    /** The file as a value of module Csr. */
    ghost function View(): File
      reads this
    {
      FileOf(reg, startingMcountinhibit, written)
    }

    /** csr_init. */
    constructor ()
      ensures View() == Reset()
    {
      var zero: Bits := seq(64, _ => false);
      var xlen: Bits := FieldSet(FieldSet(zero, 33, true), 35, true);
      NoneOutside(xlen, StatusFields());
      NoneOutside(zero, IrqFields());
      NoneOutside(zero, CounterFields());
      assert Positions(zero) == {} by {
        forall i: nat
          ensures i !in Positions(zero)
        {
          PositionsExact(zero, i);
        }
      }
      var none := TrapRegs(0, 0, 0, 0, 0);
      reg := RawRegs(xlen, 0x8000_0000_0014_1101, zero, zero, zero, zero, none, none,
                     RawCounters(zero, zero, zero, 0, 0), Sv39.Satp(0, 0, 0), 0);
      startingMcountinhibit := zero;
      written := Flags(false, false, false);
    }

    /** New values of all fields; f is the file they make. */
    method Store(r: RawRegs, starting: Bits, flags: Flags, ghost f: File)
      requires f == FileOf(r, starting, flags)
      modifies this
      ensures View() == f && reg == r
    {
      reg, startingMcountinhibit, written := r, starting, flags;
    }

    method EnterMachine(ghost f: File, cause: Cause, tval: nat, pc: nat, priv: nat)
      requires f == View()
      modifies this
      ensures View() == EnterM(f, cause, tval, pc, priv)
    {
      var r, status := reg, reg.mstatus;
      MachineTrapWritten(status, priv);
      status := FieldSet(status, 7, status[3]);
      status := FieldSet(status, 3, false);
      status := FieldSet(FieldSet(status, 11, LowBit(priv)), 12, HighBit(priv));
      r := r.(mstatus := status, m := r.m.(tval := tval, cause := CauseWord(cause), epc := Align(pc)));
      Store(r, startingMcountinhibit, written, EnterM(f, cause, tval, pc, priv));
    }

    method EnterSupervisor(ghost f: File, cause: Cause, tval: nat, pc: nat, priv: nat)
      requires f == View()
      modifies this
      ensures View() == EnterS(f, cause, tval, pc, priv)
    {
      var r, status := reg, reg.mstatus;
      SupervisorTrapWritten(status, priv);
      status := FieldSet(status, 5, status[1]);
      status := FieldSet(status, 1, false);
      status := FieldSet(status, 8, LowBit(priv));
      r := r.(mstatus := status, s := r.s.(tval := tval, cause := CauseWord(cause), epc := Align(pc)));
      Store(r, startingMcountinhibit, written, EnterS(f, cause, tval, pc, priv));
    }

    /** trap_enter, on the file f. */
    method Enter(ghost f: File, cause: Cause, tval: nat, pc: nat, priv: nat) returns (vector: nat, newPriv: nat)
      requires f == View()
      modifies this
      ensures Trap(View(), vector, newPriv) == TrapEnter(f, cause, tval, pc, priv)
    {
      newPriv := HandlingMode(reg, f.reg, cause, priv);
      if newPriv == PRIV_M {
        vector := Vector(reg.m.tvec, cause);
        EnterMachine(f, cause, tval, pc, priv);
      } else {
        vector := Vector(reg.s.tvec, cause);
        EnterSupervisor(f, cause, tval, pc, priv);
      }
    }

    /** trap_exit_mret, on the file f. */
    method ExitMret(ghost f: File) returns (pc: nat, priv: nat)
      requires f == View()
      modifies this
      ensures Trap(View(), pc, priv) == Mret(f)
    {
      var status := reg.mstatus;
      MretStatusWritten(status);
      priv := TwoBits(status[11], status[12]);
      status := FieldSet(status, 3, status[7]);
      status := FieldSet(status, 7, true);
      status := FieldSet(FieldSet(status, 11, false), 12, false);
      if priv < PRIV_M {
        status := FieldSet(status, 17, false);
      }
      pc := Align(reg.m.epc);
      Store(reg.(mstatus := status), startingMcountinhibit, written, Mret(f).file);
    }

    /** trap_exit_sret, on the file f. */
    method ExitSret(ghost f: File) returns (pc: nat, priv: nat)
      requires f == View()
      modifies this
      ensures Trap(View(), pc, priv) == Sret(f)
    {
      var status := reg.mstatus;
      SretStatusWritten(status);
      priv := if status[8] then 1 else 0;
      status := FieldSet(status, 1, status[5]);
      status := FieldSet(status, 5, true);
      status := FieldSet(status, 8, false);
      if priv < PRIV_M {
        status := FieldSet(status, 17, false);
      }
      pc := Align(reg.s.epc);
      Store(reg.(mstatus := status), startingMcountinhibit, written, Sret(f).file);
    }

    /** csr_access; f and w are the file and the written value by fields. */
    method Access(ghost f: File, addr: nat, op: Op, value: nat, ghost w: Written, read: bool, write: bool, time: nat,
                  priv: nat)
      returns (ok: bool, rdata: nat)
      requires f == View() && w == Views(value)
      modifies this
      ensures ok == Legal(f.reg.(mtime := time), addr, read, write, priv)
      ensures View() == Csr.Access(f, addr, op, w, read, write, time, priv)
      ensures ok && read ==> rdata == NumberRead(old(reg), addr, time)
    {
      var r, flags;
      ghost var f';
      rdata := NumberRead(reg, addr, time);
      ok, r, flags, f' := AccessFile(reg, startingMcountinhibit, written, f, addr, op, value, w, read, write, time,
                                     priv);
      Store(r, startingMcountinhibit, flags, f');
    }

    /** interrupt_pending_and_enabled, on the file f: the scan. */
    method PendingAndEnabled(ghost f: File, priv: nat) returns (id: Option<nat>)
      requires f == View()
      ensures id == Select(f.reg, priv, 0)
    {
      var r := reg;
      for k := 0 to 6
        invariant Select(f.reg, priv, 0) == Select(f.reg, priv, k)
      {
        HasBit(r.mideleg, SCAN[k]);
        HasBit(r.mie, SCAN[k]);
        HasBit(r.mip, SCAN[k]);
        var fire := Check(r, f.reg, priv, SCAN[k]);
        if fire {
          return Some(SCAN[k]);
        }
      }
      return None;
    }

    /** interrupt_pending: mip is not zero. */
    method Pending(ghost f: File) returns (any: bool)
      requires f == View()
      ensures any == f.reg.irq.pending.Any()
    {
      var mip := reg.mip;
      any := exists i :: 0 <= i < 64 && mip[i];
      OutsideExact(mip, IrqFields());
      assert any ==> exists i :: 0 <= i < 64 && mip[i] && (IrqBit(i) || !IrqFields()[i]);
    }

    /** csr_begin_update, on the file f. */
    method Begin(ghost f: File, meip: bool, msip: bool, mtip: bool, seip: bool)
      requires f == View()
      modifies this
      ensures View() == BeginUpdate(f, meip, msip, mtip, seip)
      ensures reg == WithLines(old(reg), meip, msip, mtip, seip)
    {
      var mip := reg.mip;
      LinesWritten(mip, meip, msip, mtip, seip);
      mip := FieldSet(mip, 11, meip);
      mip := FieldSet(mip, 3, msip);
      mip := FieldSet(mip, 7, mtip);
      mip := FieldSet(mip, 9, seip);
      Store(reg.(mip := mip), reg.count.inhibit, Flags(false, false, false), BeginUpdate(f, meip, msip, mtip, seip));
    }

    /** csr_end_update, on the file f. */
    method End(ghost f: File, retired: bool)
      requires f == View()
      modifies this
      ensures View() == EndUpdate(f, retired)
    {
      var c := reg.count;
      if !startingMcountinhibit[2] && !written.minstret && retired {
        c := c.(instret := (c.instret + 1) % MODULUS);
      }
      if !startingMcountinhibit[0] && !written.mcycle {
        c := c.(cycle := (c.cycle + 1) % MODULUS);
      }
      Store(reg.(count := c), startingMcountinhibit, Flags(false, false, false), EndUpdate(f, retired));
    }
  }
}
