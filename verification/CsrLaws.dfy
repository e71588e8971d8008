/** The CSR file in the numbers of the RISC-V Privileged Architecture (chapters 2 to 4): addresses, bit positions, cause
    codes and privilege encodings are literals here, so that each law can be read beside the manual. */
module CsrLaws {
  import opened Riscv
  import Arith
  import opened Csr
  import opened Packed
  import opened CsrFile
  import Sv39

  predicate Legitimate(priv: nat) {
    priv == 0 || priv == 1 || priv == 3
  }

  // ---------------------------------------------------------------- bit positions

  /** Interrupt id of mip, mie or mideleg. */
  predicate Irq(irqs: Irqs, id: nat) {
    || (id == 1 && irqs.ssi) || (id == 3 && irqs.msi) || (id == 5 && irqs.sti)
    || (id == 7 && irqs.mti) || (id == 9 && irqs.sei) || (id == 11 && irqs.mei)
  }

  /** The fields of the packed words. */
  lemma FieldsExact(w: Bits, id: nat)
    ensures var m := UnpackStatus(w);
            && m.sie == w[1] && m.mie == w[3] && m.spie == w[5] && m.mpie == w[7] && m.spp == w[8] && m.mprv == w[17]
            && m.sum == w[18] && m.mxr == w[19] && m.tvm == w[20] && m.tw == w[21] && m.tsr == w[22]
            && m.Spp() == (if w[8] then 1 else 0)
            && m.Mpp() == (if w[11] then 1 else 0) + (if w[12] then 2 else 0)
            && m.uxl == (if w[32] then 1 else 0) + (if w[33] then 2 else 0)
            && m.sxl == (if w[34] then 1 else 0) + (if w[35] then 2 else 0)
    ensures id < 64 && id in {1, 3, 5, 7, 9, 11} ==> (Irq(UnpackIrqs(w), id) <==> w[id])
    ensures var c := UnpackCounters(w); c.cy == w[0] && c.tm == w[1] && c.ir == w[2]
    ensures id in UnpackCodes(w) <==> id < 64 && w[id]
  {
    PositionsExact(w, id);
  }

  /** How a written number is read as bits and as satp. */
  lemma BitsExact(v: nat, k: nat)
    requires k < 64
    ensures BitsOf(v)[k] <==> v / Arith.Pow2(k) % 2 == 1
  {
  }

  lemma ViewsExact(v: nat)
    ensures var w := Views(v);
            && w.num == v && w.status == UnpackStatus(BitsOf(v)) && w.irqs == UnpackIrqs(BitsOf(v))
            && w.codes == UnpackCodes(BitsOf(v)) && w.counters == UnpackCounters(BitsOf(v))
            && w.satp.mode == v / 0x1000_0000_0000_0000 % 16 && w.satp.ppn == v % 0x1000_0000_0000
  {
  }

  /** The three write operations, bit by bit. */
  lemma MergeExact(op: Op, was: bool, v: bool)
    ensures Merge(op, was, v) <==> (op.Rw? && v) || (op.Rs? && (was || v)) || (op.Rc? && was && !v)
  {
  }

  lemma {:induction false} MergeNumExact(op: Op, was: nat, v: nat, k: nat)
    ensures MergeNum(op, was, v) / Arith.Pow2(k) % 2 == 1 <==>
            Merge(op, was / Arith.Pow2(k) % 2 == 1, v / Arith.Pow2(k) % 2 == 1)
  {
    match op
    case Rw =>
    case Rs => OrBit(was, v, k);
    case Rc => AndNotBit(was, v, k);
  }

  lemma {:induction false} OrBit(a: nat, b: nat, k: nat)
    ensures BitOr(a, b) / Arith.Pow2(k) % 2 == 1 <==> a / Arith.Pow2(k) % 2 == 1 || b / Arith.Pow2(k) % 2 == 1
  {
    if k > 0 {
      Arith.HalvedBit(a, k);
      Arith.HalvedBit(b, k);
      Arith.HalvedBit(BitOr(a, b), k);
      OrBit(a / 2, b / 2, k - 1);
      OrHalf(a, b);
    } else {
      assert Arith.Pow2(0) == 1;
    }
  }

  lemma OrHalf(a: nat, b: nat)
    ensures BitOr(a, b) / 2 == BitOr(a / 2, b / 2)
  {
    if a == 0 && b == 0 {
      assert BitOr(0, 0) == 0;
    }
  }

  lemma {:induction false} AndNotBit(a: nat, b: nat, k: nat)
    ensures BitAndNot(a, b) / Arith.Pow2(k) % 2 == 1 <==> a / Arith.Pow2(k) % 2 == 1 && b / Arith.Pow2(k) % 2 != 1
  {
    if k > 0 {
      Arith.HalvedBit(a, k);
      Arith.HalvedBit(b, k);
      Arith.HalvedBit(BitAndNot(a, b), k);
      AndNotBit(a / 2, b / 2, k - 1);
      AndNotHalf(a, b);
    } else {
      assert Arith.Pow2(0) == 1;
    }
  }

  lemma AndNotHalf(a: nat, b: nat)
    ensures BitAndNot(a, b) / 2 == BitAndNot(a / 2, b / 2)
  {
    if a == 0 {
      assert BitAndNot(0, b) == 0 && BitAndNot(0, b / 2) == 0;
    }
  }

  // ---------------------------------------------------------------- which accesses are legal

  /** An access is legal exactly if the register exists, its address grants the mode (bits 9 and 8), it is not a write
      of a read-only address (bits 11 and 10), TVM does not keep satp from supervisor mode, and the counter-enable
      registers admit a read of a counter. */
  lemma LegalExact(r: Regs, addr: nat, read: bool, write: bool, priv: nat)
    requires Legitimate(priv)
    ensures Legal(r, addr, read, write, priv) <==>
            && addr in {0x100, 0x104, 0x105, 0x106, 0x140, 0x141, 0x142, 0x143, 0x144, 0x180,
                        0x300, 0x301, 0x302, 0x303, 0x304, 0x305, 0x306, 0x320, 0x340, 0x341, 0x342, 0x343, 0x344,
                        0xB00, 0xB02, 0xC00, 0xC01, 0xC02, 0xF11, 0xF12, 0xF13, 0xF14}
            && addr / 256 % 4 <= priv
            && !(write && addr / 1024 == 3)
            && !(addr == 0x180 && priv == 1 && r.mstatus.tvm)
            && (read && addr == 0xC00 && priv < 3 ==> r.count.menable.cy && (priv == 0 ==> r.count.senable.cy))
            && (read && addr == 0xC01 && priv < 3 ==> r.count.menable.tm && (priv == 0 ==> r.count.senable.tm))
            && (read && addr == 0xC02 && priv < 3 ==> r.count.menable.ir && (priv == 0 ==> r.count.senable.ir))
  {
  }

  // ---------------------------------------------------------------- addresses

  /** Which register stands at which address. */
  lemma SupervisorAddresses()
    ensures Decode(0x100) == Some(Sstatus) && Decode(0x104) == Some(Sie) && Decode(0x105) == Some(Stvec)
    ensures Decode(0x106) == Some(Scounteren) && Decode(0x140) == Some(Sscratch) && Decode(0x141) == Some(Sepc)
    ensures Decode(0x142) == Some(Scause) && Decode(0x143) == Some(Stval) && Decode(0x144) == Some(Sip)
    ensures Decode(0x180) == Some(Satp)
  {
  }

  lemma MachineAddresses()
    ensures Decode(0x300) == Some(Mstatus_) && Decode(0x301) == Some(Misa) && Decode(0x302) == Some(Medeleg)
    ensures Decode(0x303) == Some(Mideleg) && Decode(0x304) == Some(Mie) && Decode(0x305) == Some(Mtvec)
    ensures Decode(0x306) == Some(Mcounteren) && Decode(0x320) == Some(Mcountinhibit)
    ensures Decode(0x340) == Some(Mscratch) && Decode(0x341) == Some(Mepc) && Decode(0x342) == Some(Mcause)
    ensures Decode(0x343) == Some(Mtval) && Decode(0x344) == Some(Mip)
  {
  }

  lemma CounterAddresses()
    ensures Decode(0xB00) == Some(Mcycle) && Decode(0xB02) == Some(Minstret)
    ensures Decode(0xC00) == Some(Cycle) && Decode(0xC01) == Some(Time) && Decode(0xC02) == Some(Instret)
    ensures Decode(0xF11) == Some(Mvendorid) && Decode(0xF12) == Some(Marchid)
    ensures Decode(0xF13) == Some(Mimpid) && Decode(0xF14) == Some(Mhartid)
  {
  }

  // ---------------------------------------------------------------- what an accepted write does

  /** The fields sstatus can write, and those mstatus can, where MPP = 2 settles to 0. */
  lemma StatusWrites(r: Regs, op: Op, v: Written)
    ensures var m, s := r.mstatus, v.status;
            var m' := m.(sie := Merge(op, m.sie, s.sie), spie := Merge(op, m.spie, s.spie),
                         spp := Merge(op, m.spp, s.spp), sum := Merge(op, m.sum, s.sum),
                         mxr := Merge(op, m.mxr, s.mxr));
            var lo, hi := Merge(op, m.mppLo, s.mppLo), Merge(op, m.mppHi, s.mppHi);
            && Put(r, Sstatus, op, v) == r.(mstatus := m')
            && Put(r, Mstatus_, op, v) == r.(mstatus := m'.(
                 mie := Merge(op, m.mie, s.mie), mpie := Merge(op, m.mpie, s.mpie), mppLo := lo, mppHi := lo && hi,
                 mprv := Merge(op, m.mprv, s.mprv), tvm := Merge(op, m.tvm, s.tvm), tw := Merge(op, m.tw, s.tw),
                 tsr := Merge(op, m.tsr, s.tsr)))
  {
  }

  /** Bit id of the interrupt register, merged where it is open and kept elsewhere. */
  predicate Opened(op: Op, after: Irqs, before: Irqs, v: Irqs, id: nat, open: bool) {
    after.other == before.other && (Irq(after, id) <==> if open then Merge(op, Irq(before, id), Irq(v, id))
                                                        else Irq(before, id))
  }

  /** sie writes the supervisor bits of mie that mideleg delegates, sip only the software interrupt's of mip. */
  lemma SupervisorIrqWrites(r: Regs, op: Op, v: Written, id: nat)
    ensures var r' := Put(r, Sie, op, v);
            && r' == r.(irq := r.irq.(enable := r'.irq.enable))
            && Opened(op, r'.irq.enable, r.irq.enable, v.irqs, id, id in {1, 5, 9} && Irq(r.irq.deleg, id))
    ensures var r' := Put(r, Sip, op, v);
            && r' == r.(irq := r.irq.(pending := r'.irq.pending))
            && Opened(op, r'.irq.pending, r.irq.pending, v.irqs, id, id == 1 && Irq(r.irq.deleg, id))
  {
  }

  /** mie writes all six bits, mip and mideleg the three supervisor ones. */
  lemma MachineIrqWrites(r: Regs, op: Op, v: Written, id: nat)
    ensures var r' := Put(r, Mie, op, v);
            && r' == r.(irq := r.irq.(enable := r'.irq.enable))
            && Opened(op, r'.irq.enable, r.irq.enable, v.irqs, id, id in {1, 3, 5, 7, 9, 11})
    ensures var r' := Put(r, Mip, op, v);
            && r' == r.(irq := r.irq.(pending := r'.irq.pending))
            && Opened(op, r'.irq.pending, r.irq.pending, v.irqs, id, id in {1, 5, 9})
    ensures var r' := Put(r, Mideleg, op, v);
            && r' == r.(irq := r.irq.(deleg := r'.irq.deleg))
            && Opened(op, r'.irq.deleg, r.irq.deleg, v.irqs, id, id in {1, 5, 9})
  {
  }

  /** A trap vector loses the reserved modes, an exception program counter its two low bits; the other trap registers
      take any number. */
  lemma SupervisorTrapWrites(r: Regs, op: Op, v: Written)
    ensures var tvec, epc := MergeNum(op, r.s.tvec, v.num), MergeNum(op, r.s.epc, v.num);
            && Put(r, Stvec, op, v) == r.(s := r.s.(tvec := if tvec % 4 < 2 then tvec else tvec / 4 * 4))
            && Put(r, Sscratch, op, v) == r.(s := r.s.(scratch := MergeNum(op, r.s.scratch, v.num)))
            && Put(r, Sepc, op, v) == r.(s := r.s.(epc := epc / 4 * 4))
            && Put(r, Scause, op, v) == r.(s := r.s.(cause := MergeNum(op, r.s.cause, v.num)))
            && Put(r, Stval, op, v) == r.(s := r.s.(tval := MergeNum(op, r.s.tval, v.num)))
  {
  }

  lemma MachineTrapWrites(r: Regs, op: Op, v: Written)
    ensures var tvec, epc := MergeNum(op, r.m.tvec, v.num), MergeNum(op, r.m.epc, v.num);
            && Put(r, Mtvec, op, v) == r.(m := r.m.(tvec := if tvec % 4 < 2 then tvec else tvec / 4 * 4))
            && Put(r, Mscratch, op, v) == r.(m := r.m.(scratch := MergeNum(op, r.m.scratch, v.num)))
            && Put(r, Mepc, op, v) == r.(m := r.m.(epc := epc / 4 * 4))
            && Put(r, Mcause, op, v) == r.(m := r.m.(cause := MergeNum(op, r.m.cause, v.num)))
            && Put(r, Mtval, op, v) == r.(m := r.m.(tval := MergeNum(op, r.m.tval, v.num)))
  {
  }

  /** satp keeps its ASID and ignores modes other than Bare and Sv39; misa ignores writes. */
  lemma SatpWrites(r: Regs, op: Op, v: Written)
    ensures var mode, ppn := MergeNum(op, r.satp.mode, v.satp.mode), MergeNum(op, r.satp.ppn, v.satp.ppn);
            && Put(r, Satp, op, v) ==
                 (if mode == 0 || mode == 8 then r.(satp := Sv39.Satp(mode, r.satp.asid, ppn)) else r)
            && Put(r, Misa, op, v) == r
  {
  }

  /** The counter-enable registers write CY, TM and IR, the inhibit register not TM; the counters take any
      number. */
  lemma EnableWrites(r: Regs, op: Op, v: Written)
    ensures var c, w := r.count.senable, v.counters;
            Put(r, Scounteren, op, v) == r.(count := r.count.(senable := Counters(
              Merge(op, c.cy, w.cy), Merge(op, c.tm, w.tm), Merge(op, c.ir, w.ir), c.other)))
  {
  }

  lemma CounterWrites(r: Regs, op: Op, v: Written)
    ensures var c, w := r.count.menable, v.counters;
            Put(r, Mcounteren, op, v) == r.(count := r.count.(menable := Counters(
              Merge(op, c.cy, w.cy), Merge(op, c.tm, w.tm), Merge(op, c.ir, w.ir), c.other)))
    ensures var c, w := r.count.inhibit, v.counters;
            Put(r, Mcountinhibit, op, v) == r.(count := r.count.(inhibit := Counters(
              Merge(op, c.cy, w.cy), c.tm, Merge(op, c.ir, w.ir), c.other)))
  {
  }

  lemma CycleWrites(r: Regs, op: Op, v: Written)
    ensures Put(r, Mcycle, op, v) == r.(count := r.count.(cycle := MergeNum(op, r.count.cycle, v.num)))
    ensures Put(r, Minstret, op, v) == r.(count := r.count.(instret := MergeNum(op, r.count.instret, v.num)))
  {
  }

  /** medeleg takes the codes that can be delegated: all below 16 but 10, 11 and 14. */
  lemma DelegationWrites(r: Regs, op: Op, v: Written, code: nat)
    ensures var r' := Put(r, Medeleg, op, v);
            && r' == r.(medeleg := r'.medeleg)
            && (code in r'.medeleg <==>
                  if code < 16 && code != 10 && code != 11 && code != 14
                  then Merge(op, code in r.medeleg, code in v.codes) else code in r.medeleg)
  {
  }

  /** An accepted write reaches the register at its address, beside the shadow of the clock, and raises the flag of
      satp, mcycle or minstret. A rejected access, and one that does not write, leave everything but that shadow. */
  lemma AccessExact(f: File, addr: nat, op: Op, v: Written, read: bool, write: bool, time: nat, priv: nat)
    requires Legitimate(priv)
    ensures var f', r := Access(f, addr, op, v, read, write, time, priv), f.reg.(mtime := time);
            var accepted := Legal(r, addr, read, write, priv) && write;
            && (accepted ==> Decode(addr).Some? && f'.reg == Put(r, Decode(addr).value, op, v))
            && (!accepted ==> f'.reg == r)
            && f'.startingMcountinhibit == f.startingMcountinhibit
            && (f'.satpWritten <==> f.satpWritten || (accepted && addr == 0x180))
            && (f'.mcycleWritten <==> f.mcycleWritten || (accepted && addr == 0xB00))
            && (f'.minstretWritten <==> f.minstretWritten || (accepted && addr == 0xB02))
  {
  }

  // ---------------------------------------------------------------- what a read delivers

  /** The number of a packed word has its bits. */
  lemma {:induction false} NumberBits(w: seq<bool>, k: nat)
    requires k < |w|
    ensures Arith.FromBits(w) / Arith.Pow2(k) % 2 == 1 <==> w[k]
  {
    if k > 0 {
      Arith.HalvedBit(Arith.FromBits(w), k);
      NumberBits(w[1..], k - 1);
    } else {
      assert Arith.Pow2(0) == 1;
    }
  }

  /** The number an accepted read delivers is that of the register at the address, with the clock as it is. */
  lemma ReadExact(r: RawRegs, addr: nat, time: nat)
    ensures Decode(addr).Some? ==> NumberRead(r, addr, time) == Delivered(r.(mtime := time), Decode(addr).value)
  {
  }

  function Delivered(r: RawRegs, n: Name): nat {
    NumberOf(DataOf(r, n))
  }

  /** The registers that are read as they are .. */
  lemma SupervisorRead(r: RawRegs)
    ensures Delivered(r, Stvec) == r.s.tvec && Delivered(r, Sscratch) == r.s.scratch && Delivered(r, Sepc) == r.s.epc
    ensures Delivered(r, Scause) == r.s.cause && Delivered(r, Stval) == r.s.tval
    ensures Delivered(r, Satp) == r.satp.mode * 0x1000_0000_0000_0000 + r.satp.asid * 0x1000_0000_0000 + r.satp.ppn
  {
  }

  lemma MachineRead(r: RawRegs)
    ensures Delivered(r, Mtvec) == r.m.tvec && Delivered(r, Mscratch) == r.m.scratch && Delivered(r, Mepc) == r.m.epc
    ensures Delivered(r, Mcause) == r.m.cause && Delivered(r, Mtval) == r.m.tval && Delivered(r, Misa) == r.misa
  {
  }

  lemma CountersRead(r: RawRegs)
    ensures Delivered(r, Mcycle) == r.count.cycle == Delivered(r, Cycle)
    ensures Delivered(r, Minstret) == r.count.instret == Delivered(r, Instret) && Delivered(r, Time) == r.mtime
  {
  }

  lemma IdentityRead(r: RawRegs)
    ensures Delivered(r, Mvendorid) == 0 && Delivered(r, Marchid) == 0 && Delivered(r, Mimpid) == 0
    ensures Delivered(r, Mhartid) == 0
  {
  }

  predicate DeliveredBit(r: RawRegs, n: Name, k: nat) {
    Delivered(r, n) / Arith.Pow2(k) % 2 == 1
  }

  /** .. those read as bits .. */
  lemma StatusRead(r: RawRegs, k: nat)
    requires k < 64
    ensures DeliveredBit(r, Mstatus_, k) == r.mstatus[k] && DeliveredBit(r, Mie, k) == r.mie[k]
    ensures DeliveredBit(r, Mip, k) == r.mip[k] && DeliveredBit(r, Mideleg, k) == r.mideleg[k]
  {
    NumberBits(r.mstatus, k);
    NumberBits(r.mie, k);
    NumberBits(r.mip, k);
    NumberBits(r.mideleg, k);
  }

  lemma MasksRead(r: RawRegs, k: nat)
    requires k < 64
    ensures DeliveredBit(r, Medeleg, k) == r.medeleg[k] && DeliveredBit(r, Scounteren, k) == r.count.senable[k]
    ensures DeliveredBit(r, Mcounteren, k) == r.count.menable[k]
    ensures DeliveredBit(r, Mcountinhibit, k) == r.count.inhibit[k]
  {
    NumberBits(r.medeleg, k);
    NumberBits(r.count.senable, k);
    NumberBits(r.count.menable, k);
    NumberBits(r.count.inhibit, k);
  }

  /** .. and the supervisor's views: seven bits of mstatus, and the delegated supervisor bits of mie and mip. */
  lemma ViewsRead(r: RawRegs, k: nat)
    requires k < 64
    ensures DeliveredBit(r, Sstatus, k) == (r.mstatus[k] && k in {1, 5, 8, 18, 19, 32, 33})
    ensures DeliveredBit(r, Sie, k) == (r.mie[k] && r.mideleg[k] && k in {1, 5, 9})
    ensures DeliveredBit(r, Sip, k) == (r.mip[k] && r.mideleg[k] && k in {1, 5, 9})
  {
    NumberBits(And(r.mstatus, SstatusReadMask()), k);
    NumberBits(And(And(r.mie, IrqSMask()), r.mideleg), k);
    NumberBits(And(And(r.mip, IrqSMask()), r.mideleg), k);
  }

  // ---------------------------------------------------------------- traps

  /** mcause and scause: bit 63 tells interrupts, the rest is the number of the cause. */
  function CauseNumber(cause: Cause): nat {
    match cause case Exception(code) => code case Interrupt(id) => id
  }

  predicate IsDelegated(r: Regs, cause: Cause) {
    match cause case Exception(code) => code in r.medeleg case Interrupt(id) => Irq(r.irq.deleg, id)
  }

  function VectorOf(tvec: nat, cause: Cause): nat {
    if tvec % 4 == 1 && cause.Interrupt? then (tvec / 4 * 4 + 4 * CauseNumber(cause)) % MODULUS else tvec / 4 * 4
  }

  /** A trap enters supervisor mode if it is delegated and comes from below machine mode, machine mode otherwise .. */
  function ModeEntered(r: Regs, cause: Cause, priv: nat): nat {
    if priv < 3 && IsDelegated(r, cause) then 1 else 3
  }

  /** .. which gets cause, program counter and value, and whose interrupts go off, the old setting and the old privilege
      being kept .. */
  function Entered(r: Regs, cause: Cause, tval: nat, pc: nat, priv: nat): Regs {
    var m := r.mstatus;
    var word := (if cause.Interrupt? then 0x8000_0000_0000_0000 else 0) + CauseNumber(cause);
    if ModeEntered(r, cause, priv) == 1 then
      r.(mstatus := m.(spie := m.sie, sie := false, spp := priv == 1),
         s := TrapRegs(r.s.tvec, r.s.scratch, pc / 4 * 4, word, tval))
    else
      r.(mstatus := m.(mpie := m.mie, mie := false, mppLo := priv != 0, mppHi := priv == 3),
         m := TrapRegs(r.m.tvec, r.m.scratch, pc / 4 * 4, word, tval))
  }

  /** .. while control goes to the base of its vector, or 4 bytes per interrupt beyond it in vectored mode. */
  function Handler(r: Regs, cause: Cause, priv: nat): nat {
    VectorOf(if ModeEntered(r, cause, priv) == 1 then r.s.tvec else r.m.tvec, cause)
  }

  lemma TrapExact(f: File, cause: Cause, tval: nat, pc: nat, priv: nat)
    requires Legitimate(priv)
    ensures TrapEnter(f, cause, tval, pc, priv) ==
            Trap(f.(reg := Entered(f.reg, cause, tval, pc, priv)), Handler(f.reg, cause, priv),
                 ModeEntered(f.reg, cause, priv))
  {
  }

  /** The cause register tells interrupts by its bit 63, and which one by the rest. */
  lemma CauseExact(f: File, cause: Cause, tval: nat, pc: nat, priv: nat)
    requires Legitimate(priv) && CauseNumber(cause) < 64
    ensures var t := TrapEnter(f, cause, tval, pc, priv);
            var word := if t.priv == 1 then t.file.reg.s.cause else t.file.reg.m.cause;
            && (word / 0x8000_0000_0000_0000 == 1 <==> cause.Interrupt?)
            && word % 0x8000_0000_0000_0000 == CauseNumber(cause)
  {
  }

  /** MRET and SRET return to the saved program counter and privilege, restore the interrupt enable, and leave MPRV only
      to machine mode. */
  lemma ReturnExact(f: File)
    ensures var t, r, m := Mret(f), f.reg, f.reg.mstatus;
            var back := (if m.mppLo then 1 else 0) + (if m.mppHi then 2 else 0);
            && t.pc == r.m.epc / 4 * 4 && t.priv == back
            && t.file == f.(reg := r.(mstatus := m.(mie := m.mpie, mpie := true, mppLo := false, mppHi := false,
                                                    mprv := m.mprv && back == 3)))
    ensures var t, r, m := Sret(f), f.reg, f.reg.mstatus;
            && t.pc == r.s.epc / 4 * 4 && t.priv == (if m.spp then 1 else 0)
            && t.file == f.(reg := r.(mstatus := m.(sie := m.spie, spie := true, spp := false, mprv := false)))
  {
  }

  // ---------------------------------------------------------------- interrupts

  /** The interrupt is pending and enabled, and is handled above the present mode, or in it with its interrupts on. */
  predicate MayInterrupt(r: Regs, priv: nat, id: nat) {
    var mode := if Irq(r.irq.deleg, id) then 1 else 3;
    && Irq(r.irq.pending, id) && Irq(r.irq.enable, id)
    && (mode > priv || (mode == priv && if mode == 3 then r.mstatus.mie else r.mstatus.sie))
  }

  /** The one taken is the first such among external, software and timer of machine mode, then of supervisor mode the
      external, software and timer one; none is taken if there is none such. */
  lemma InterruptExact(r: Regs, priv: nat)
    ensures Select(r, priv, 0) ==
              if MayInterrupt(r, priv, 11) then Some(11)
              else if MayInterrupt(r, priv, 3) then Some(3)
              else if MayInterrupt(r, priv, 7) then Some(7)
              else if MayInterrupt(r, priv, 9) then Some(9)
              else if MayInterrupt(r, priv, 1) then Some(1)
              else if MayInterrupt(r, priv, 5) then Some(5)
              else None
  {
    FiresExact(r, priv, 11);
    FiresExact(r, priv, 3);
    FiresExact(r, priv, 7);
    FiresExact(r, priv, 9);
    FiresExact(r, priv, 1);
    FiresExact(r, priv, 5);
    ScanFrom(r, priv);
  }

  lemma FiresExact(r: Regs, priv: nat, id: nat)
    requires id in {1, 3, 5, 7, 9, 11}
    ensures Fires(r, priv, id) <==> MayInterrupt(r, priv, id)
  {
  }

  lemma ScanFrom(r: Regs, priv: nat)
    ensures Select(r, priv, 0) ==
              if Fires(r, priv, 11) then Some(11) else if Fires(r, priv, 3) then Some(3)
              else if Fires(r, priv, 7) then Some(7) else if Fires(r, priv, 9) then Some(9)
              else if Fires(r, priv, 1) then Some(1) else if Fires(r, priv, 5) then Some(5) else None
  {
    assert SCAN == [11, 3, 7, 9, 1, 5];
    assert Select(r, priv, 5) == if Fires(r, priv, 5) then Some(5) else None;
    assert Select(r, priv, 4) == if Fires(r, priv, 1) then Some(1) else Select(r, priv, 5);
    assert Select(r, priv, 3) == if Fires(r, priv, 9) then Some(9) else Select(r, priv, 4);
    assert Select(r, priv, 2) == if Fires(r, priv, 7) then Some(7) else Select(r, priv, 3);
    assert Select(r, priv, 1) == if Fires(r, priv, 3) then Some(3) else Select(r, priv, 2);
  }

  // ---------------------------------------------------------------- start and end of a step, reset

  /** The lines are sampled into mip, the inhibit bits latched and the flags cleared; at the end the cycle counter
      counts unless inhibited or written, and the instruction counter so for a retired instruction. */
  lemma CountingExact(f: File, meip: bool, msip: bool, mtip: bool, seip: bool, retired: bool)
    ensures var b := BeginUpdate(f, meip, msip, mtip, seip);
            var p := f.reg.irq.pending;
            && b.reg == f.reg.(irq := f.reg.irq.(pending := Irqs(p.ssi, msip, p.sti, mtip, seip, meip, p.other)))
            && b.startingMcountinhibit == f.reg.count.inhibit
            && !b.mcycleWritten && !b.minstretWritten && !b.satpWritten
    ensures var e, c, held := EndUpdate(f, retired), f.reg.count, f.startingMcountinhibit;
            && e.reg == f.reg.(count := c.(
                 cycle := if held.cy || f.mcycleWritten then c.cycle else (c.cycle + 1) % MODULUS,
                 instret := if held.ir || f.minstretWritten || !retired then c.instret else (c.instret + 1) % MODULUS))
            && !e.mcycleWritten && !e.minstretWritten && !e.satpWritten
  {
  }

  /** After reset misa tells RV64 with A, I, M, S and U, UXL and SXL say 64 bits, and everything else is zero. */
  lemma ResetExact(k: nat)
    ensures var f := Csr.Reset();
            var r := f.reg;
            && r.misa == 2 * Arith.Pow2(62) + Arith.Pow2(0) + Arith.Pow2(8) + Arith.Pow2(12) + Arith.Pow2(18)
                         + Arith.Pow2(20)
            && r.mstatus.uxl == 2 && r.mstatus.sxl == 2 && !r.mstatus.sie && !r.mstatus.mie && !r.mstatus.mprv
            && !r.mstatus.spie && !r.mstatus.mpie && !r.mstatus.spp && !r.mstatus.mppLo && !r.mstatus.mppHi
            && !r.mstatus.sum && !r.mstatus.mxr && !r.mstatus.tvm && !r.mstatus.tw && !r.mstatus.tsr
            && r.medeleg == {} && !r.irq.deleg.Any() && !r.irq.enable.Any() && !r.irq.pending.Any()
            && r.m == TrapRegs(0, 0, 0, 0, 0) && r.s == r.m && r.satp == Sv39.Satp(0, 0, 0)
            && r.count.cycle == 0 && r.count.instret == 0
            && !r.count.menable.cy && !r.count.menable.tm && !r.count.menable.ir && !r.count.senable.cy
            && !r.count.senable.tm && !r.count.senable.ir && !r.count.inhibit.cy && !r.count.inhibit.ir
            && !f.mcycleWritten && !f.minstretWritten && !f.satpWritten
  {
    MisaValue(62);
  }

  lemma MisaValue(width: nat)
    requires width == 62
    ensures 2 * Arith.Pow2(width) + Arith.Pow2(0) + Arith.Pow2(8) + Arith.Pow2(12) + Arith.Pow2(18) + Arith.Pow2(20) ==
            0x8000_0000_0014_1101
  {
    Arith.Pow2Values();
    assert Arith.Pow2(width + 1) == 2 * Arith.Pow2(width);
    assert Arith.Pow2(8) == 256 && Arith.Pow2(4) == 16;
    Arith.Pow2Add(8, 4);
    Arith.Pow2Add(8, 8);
    Arith.Pow2Add(16, 4);
    assert Arith.Pow2(18) == 4 * Arith.Pow2(16);
  }
}
