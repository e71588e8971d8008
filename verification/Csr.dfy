/** The control and status registers, traps and interrupt selection of emulator/src/cpu/csr.c, on register
    values. Registers whose single bits matter are records here; module CsrFile keeps the packed words of the
    source and ties them to these records. The other registers are natural numbers below 2^64. */
module Csr {
  import opened Riscv
  import Sv39

  /** mstatus; `other` says whether any bit outside the fields is set. */
  datatype Mstatus = Mstatus(
    sie: bool, mie: bool, spie: bool, mpie: bool, spp: bool, mppLo: bool, mppHi: bool, mprv: bool,
    sum: bool, mxr: bool, tvm: bool, tw: bool, tsr: bool, uxl: nat, sxl: nat, other: bool)
  {
    function Mpp(): nat {
      (if mppLo then 1 else 0) + (if mppHi then 2 else 0)
    }

    function Spp(): nat {
      if spp then 1 else 0
    }

    /** The part translation looks at. */
    function Xlate(): Sv39.Status {
      Sv39.Status(mprv, Mpp(), sum, mxr)
    }
  }

  /** The six interrupt bits of mip, mie and mideleg; `other` says whether any other bit is set. */
  datatype Irqs = Irqs(ssi: bool, msi: bool, sti: bool, mti: bool, sei: bool, mei: bool, other: bool)
  {
    predicate Has(id: nat) {
      if id == INT_SSIP then ssi else if id == INT_MSIP then msi else if id == INT_STIP then sti
      else if id == INT_MTIP then mti else if id == INT_SEIP then sei else id == INT_MEIP && mei
    }

    predicate Any() {
      ssi || msi || sti || mti || sei || mei || other
    }
  }

  const S_BITS: Irqs := Irqs(true, false, true, false, true, false, false)
  const SSI_BIT: Irqs := Irqs(true, false, false, false, false, false, false)
  const ALL_BITS: Irqs := Irqs(true, true, true, true, true, true, false)

  /** The CY, TM and IR bits of mcounteren, scounteren and mcountinhibit; `other` as above. */
  datatype Counters = Counters(cy: bool, tm: bool, ir: bool, other: bool)

  /** The trap registers of one mode. */
  datatype TrapRegs = TrapRegs(tvec: nat, scratch: nat, epc: nat, cause: nat, tval: nat)

  /** mideleg, mie and mip. */
  datatype IrqRegs = IrqRegs(deleg: Irqs, enable: Irqs, pending: Irqs)

  /** mcounteren, scounteren, mcountinhibit, mcycle and minstret. */
  datatype CounterRegs = CounterRegs(menable: Counters, senable: Counters, inhibit: Counters, cycle: nat, instret: nat)

  /** csr_reg_t: m and s hold mtvec..mtval and stvec..stval, medeleg is the set of delegated exception codes. */
  datatype Regs = Regs(
    mstatus: Mstatus, misa: nat, medeleg: set<nat>, irq: IrqRegs, m: TrapRegs, s: TrapRegs, count: CounterRegs,
    satp: Sv39.Satp, mtime: nat)

  /** csr_t: the registers and the flags of the current step. */
  datatype File = File(reg: Regs, startingMcountinhibit: Counters,
                       mcycleWritten: bool, minstretWritten: bool, satpWritten: bool)

  /** A value software writes, as the registers of each kind read it. */
  datatype Written = Written(num: nat, status: Mstatus, irqs: Irqs, codes: set<nat>, counters: Counters,
                             satp: Sv39.Satp)

  // ---------------------------------------------------------------- software access

  datatype Name =
    | Sstatus | Sie | Stvec | Scounteren | Sscratch | Sepc | Scause | Stval | Sip | Satp
    | Mstatus_ | Misa | Medeleg | Mideleg | Mie | Mtvec | Mcounteren | Mscratch | Mepc | Mcause | Mtval | Mip
    | Mcountinhibit | Mcycle | Minstret | Mvendorid | Marchid | Mimpid | Mhartid | Cycle | Time | Instret

  datatype Op = Rw | Rs | Rc

  function Decode(addr: nat): Option<Name> {
    match addr
    case 0x100 => Some(Sstatus)
    case 0x104 => Some(Sie)
    case 0x105 => Some(Stvec)
    case 0x106 => Some(Scounteren)
    case 0x140 => Some(Sscratch)
    case 0x141 => Some(Sepc)
    case 0x142 => Some(Scause)
    case 0x143 => Some(Stval)
    case 0x144 => Some(Sip)
    case 0x180 => Some(Satp)
    case 0x300 => Some(Mstatus_)
    case 0x301 => Some(Misa)
    case 0x302 => Some(Medeleg)
    case 0x303 => Some(Mideleg)
    case 0x304 => Some(Mie)
    case 0x305 => Some(Mtvec)
    case 0x306 => Some(Mcounteren)
    case 0x320 => Some(Mcountinhibit)
    case 0x340 => Some(Mscratch)
    case 0x341 => Some(Mepc)
    case 0x342 => Some(Mcause)
    case 0x343 => Some(Mtval)
    case 0x344 => Some(Mip)
    case 0xB00 => Some(Mcycle)
    case 0xB02 => Some(Minstret)
    case 0xC00 => Some(Cycle)
    case 0xC01 => Some(Time)
    case 0xC02 => Some(Instret)
    case 0xF11 => Some(Mvendorid)
    case 0xF12 => Some(Marchid)
    case 0xF13 => Some(Mimpid)
    case 0xF14 => Some(Mhartid)
    case _ => None
  }

  predicate ReadOnly(n: Name) {
    n.Mvendorid? || n.Marchid? || n.Mimpid? || n.Mhartid? || n.Cycle? || n.Time? || n.Instret?
  }

  /** check_counteren, for one bit of the two enable registers. */
  predicate CounterEnabled(m: bool, s: bool, priv: nat) {
    ((priv == PRIV_S || priv == PRIV_U) ==> m) && (priv == PRIV_U ==> s)
  }

  /** The accesses csr_access accepts. */
  predicate Legal(r: Regs, addr: nat, read: bool, write: bool, priv: nat) {
    && !(priv == PRIV_U && addr / 256 % 4 > PRIV_U)
    && !(priv == PRIV_S && addr / 256 % 4 > PRIV_S)
    && Decode(addr).Some?
    && (var n := Decode(addr).value;
        && !(n.Satp? && priv == PRIV_S && r.mstatus.tvm)
        && !(write && ReadOnly(n))
        && (read && n.Cycle? ==> CounterEnabled(r.count.menable.cy, r.count.senable.cy, priv))
        && (read && n.Time? ==> CounterEnabled(r.count.menable.tm, r.count.senable.tm, priv))
        && (read && n.Instret? ==> CounterEnabled(r.count.menable.ir, r.count.senable.ir, priv)))
  }

  /** One bit under a read-write, read-set or read-clear instruction. */
  predicate Merge(op: Op, was: bool, v: bool) {
    match op
    case Rw => v
    case Rs => was || v
    case Rc => was && !v
  }

  function BitOr(a: nat, b: nat): nat {
    if a == 0 && b == 0 then 0 else 2 * BitOr(a / 2, b / 2) + (if a % 2 == 1 || b % 2 == 1 then 1 else 0)
  }

  function BitAndNot(a: nat, b: nat): nat {
    if a == 0 then 0 else 2 * BitAndNot(a / 2, b / 2) + (if a % 2 == 1 && b % 2 == 0 then 1 else 0)
  }

  /** A number under the same instructions. */
  function MergeNum(op: Op, was: nat, v: nat): nat {
    match op
    case Rw => v
    case Rs => BitOr(was, v)
    case Rc => BitAndNot(was, v)
  }

  function WriteSstatus(op: Op, was: Mstatus, v: Mstatus): Mstatus {
    was.(sie := Merge(op, was.sie, v.sie), spie := Merge(op, was.spie, v.spie), spp := Merge(op, was.spp, v.spp),
         sum := Merge(op, was.sum, v.sum), mxr := Merge(op, was.mxr, v.mxr))
  }

  /** MPP = 2 names no mode and settles to 0. */
  function WriteMstatus(op: Op, was: Mstatus, v: Mstatus): Mstatus {
    var lo, hi := Merge(op, was.mppLo, v.mppLo), Merge(op, was.mppHi, v.mppHi);
    WriteSstatus(op, was, v).(
      mie := Merge(op, was.mie, v.mie), mpie := Merge(op, was.mpie, v.mpie), mppLo := lo, mppHi := hi && lo,
      mprv := Merge(op, was.mprv, v.mprv), tvm := Merge(op, was.tvm, v.tvm), tw := Merge(op, was.tw, v.tw),
      tsr := Merge(op, was.tsr, v.tsr))
  }

  function WriteIrqs(op: Op, was: Irqs, v: Irqs, mask: Irqs): Irqs {
    Irqs(if mask.ssi then Merge(op, was.ssi, v.ssi) else was.ssi,
         if mask.msi then Merge(op, was.msi, v.msi) else was.msi,
         if mask.sti then Merge(op, was.sti, v.sti) else was.sti,
         if mask.mti then Merge(op, was.mti, v.mti) else was.mti,
         if mask.sei then Merge(op, was.sei, v.sei) else was.sei,
         if mask.mei then Merge(op, was.mei, v.mei) else was.mei,
         was.other)
  }

  /** The supervisor's view of the interrupt bits: those delegated to it. */
  function Delegated(mideleg: Irqs, mask: Irqs): Irqs {
    Irqs(mask.ssi && mideleg.ssi, false, mask.sti && mideleg.sti, false, mask.sei && mideleg.sei, false, false)
  }

  /** The exception codes that can be delegated. */
  predicate Delegable(code: nat) {
    code < 10 || code == 12 || code == 13 || code == 15
  }

  function WriteCodes(op: Op, was: set<nat>, v: set<nat>): set<nat> {
    var v' := set c | c in v && Delegable(c);
    match op
    case Rw => (set c | c in was && !Delegable(c)) + v'
    case Rs => was + v'
    case Rc => was - v'
  }

  function WriteCounters(op: Op, was: Counters, v: Counters, tm: bool): Counters {
    Counters(Merge(op, was.cy, v.cy), if tm then Merge(op, was.tm, v.tm) else was.tm,
             Merge(op, was.ir, v.ir), was.other)
  }

  /** The two low bits of an address dropped. */
  function Align(a: nat): (r: nat)
    ensures r % 4 == 0 && r <= a < r + 4
  {
    a / 4 * 4
  }

  /** Vector modes 2 and 3 settle to 0. */
  function LegalTvec(v: nat): nat {
    if v % 4 >= 2 then Align(v) else v
  }

  /** The ASID cannot be written, and a write that leaves a mode other than Bare and Sv39 has no effect at all. */
  function WriteSatp(op: Op, was: Sv39.Satp, v: Sv39.Satp): Sv39.Satp {
    var mode := MergeNum(op, was.mode, v.mode);
    if mode == 0 || mode == 8 then Sv39.Satp(mode, was.asid, MergeNum(op, was.ppn, v.ppn)) else was
  }

  function Put(r: Regs, n: Name, op: Op, v: Written): Regs {
    match n
    case Sstatus => r.(mstatus := WriteSstatus(op, r.mstatus, v.status))
    case Mstatus_ => r.(mstatus := WriteMstatus(op, r.mstatus, v.status))
    case Sie => r.(irq := r.irq.(enable := WriteIrqs(op, r.irq.enable, v.irqs, Delegated(r.irq.deleg, S_BITS))))
    case Mie => r.(irq := r.irq.(enable := WriteIrqs(op, r.irq.enable, v.irqs, ALL_BITS)))
    case Sip => r.(irq := r.irq.(pending := WriteIrqs(op, r.irq.pending, v.irqs, Delegated(r.irq.deleg, SSI_BIT))))
    case Mip => r.(irq := r.irq.(pending := WriteIrqs(op, r.irq.pending, v.irqs, S_BITS)))
    case Mideleg => r.(irq := r.irq.(deleg := WriteIrqs(op, r.irq.deleg, v.irqs, S_BITS)))
    case Medeleg => r.(medeleg := WriteCodes(op, r.medeleg, v.codes))
    case Scounteren => r.(count := r.count.(senable := WriteCounters(op, r.count.senable, v.counters, true)))
    case Mcounteren => r.(count := r.count.(menable := WriteCounters(op, r.count.menable, v.counters, true)))
    case Mcountinhibit => r.(count := r.count.(inhibit := WriteCounters(op, r.count.inhibit, v.counters, false)))
    case Mcycle => r.(count := r.count.(cycle := MergeNum(op, r.count.cycle, v.num)))
    case Minstret => r.(count := r.count.(instret := MergeNum(op, r.count.instret, v.num)))
    case Satp => r.(satp := WriteSatp(op, r.satp, v.satp))
    case Stvec => r.(s := r.s.(tvec := LegalTvec(MergeNum(op, r.s.tvec, v.num))))
    case Sscratch => r.(s := r.s.(scratch := MergeNum(op, r.s.scratch, v.num)))
    case Sepc => r.(s := r.s.(epc := Align(MergeNum(op, r.s.epc, v.num))))
    case Scause => r.(s := r.s.(cause := MergeNum(op, r.s.cause, v.num)))
    case Stval => r.(s := r.s.(tval := MergeNum(op, r.s.tval, v.num)))
    case Mtvec => r.(m := r.m.(tvec := LegalTvec(MergeNum(op, r.m.tvec, v.num))))
    case Mscratch => r.(m := r.m.(scratch := MergeNum(op, r.m.scratch, v.num)))
    case Mepc => r.(m := r.m.(epc := Align(MergeNum(op, r.m.epc, v.num))))
    case Mcause => r.(m := r.m.(cause := MergeNum(op, r.m.cause, v.num)))
    case Mtval => r.(m := r.m.(tval := MergeNum(op, r.m.tval, v.num)))
    case _ => r
  }

  /** csr_access: the file after an access, accepted or not. */
  function Access(f: File, addr: nat, op: Op, v: Written, read: bool, write: bool, time: nat, priv: nat): File {
    var r := f.reg.(mtime := time);
    if !Legal(r, addr, read, write, priv) || !write then f.(reg := r)
    else
      var n := Decode(addr).value;
      f.(reg := Put(r, n, op, v),
         mcycleWritten := f.mcycleWritten || n.Mcycle?,
         minstretWritten := f.minstretWritten || n.Minstret?,
         satpWritten := f.satpWritten || n.Satp?)
  }

  // ---------------------------------------------------------------- what a read shows

  /** A delivered value, as the register's kind reads it. */
  datatype Shown =
    | StatusBits(status: Mstatus) | IrqBits(irqs: Irqs) | CodeBits(codes: set<nat>) | CounterBits(counters: Counters)
    | SatpFields(satp: Sv39.Satp) | Number(num: nat)

  /** The fields of mstatus that sstatus shows. */
  function SupervisorStatus(m: Mstatus): Mstatus {
    m.(mie := false, mpie := false, mppLo := false, mppHi := false, mprv := false, tvm := false, tw := false,
       tsr := false, sxl := 0, other := false)
  }

  /** The interrupt bits that sie and sip show. */
  function SupervisorIrqs(irqs: Irqs, mideleg: Irqs): Irqs {
    Irqs(irqs.ssi && mideleg.ssi, false, irqs.sti && mideleg.sti, false, irqs.sei && mideleg.sei, false, false)
  }

  /** The read half of csr_access. The identification registers are never written and read 0. */
  function Show(r: Regs, n: Name): Shown {
    match n
    case Sstatus => StatusBits(SupervisorStatus(r.mstatus))
    case Mstatus_ => StatusBits(r.mstatus)
    case Sie => IrqBits(SupervisorIrqs(r.irq.enable, r.irq.deleg))
    case Sip => IrqBits(SupervisorIrqs(r.irq.pending, r.irq.deleg))
    case Mie => IrqBits(r.irq.enable)
    case Mip => IrqBits(r.irq.pending)
    case Mideleg => IrqBits(r.irq.deleg)
    case Medeleg => CodeBits(r.medeleg)
    case Scounteren => CounterBits(r.count.senable)
    case Mcounteren => CounterBits(r.count.menable)
    case Mcountinhibit => CounterBits(r.count.inhibit)
    case Satp => SatpFields(r.satp)
    case Misa => Number(r.misa)
    case Stvec => Number(r.s.tvec)
    case Sscratch => Number(r.s.scratch)
    case Sepc => Number(r.s.epc)
    case Scause => Number(r.s.cause)
    case Stval => Number(r.s.tval)
    case Mtvec => Number(r.m.tvec)
    case Mscratch => Number(r.m.scratch)
    case Mepc => Number(r.m.epc)
    case Mcause => Number(r.m.cause)
    case Mtval => Number(r.m.tval)
    case Mcycle => Number(r.count.cycle)
    case Cycle => Number(r.count.cycle)
    case Minstret => Number(r.count.instret)
    case Instret => Number(r.count.instret)
    case Time => Number(r.mtime)
    case _ => Number(0)
  }

  /** v is the shown value written back. */
  predicate Carries(v: Written, shown: Shown) {
    match shown
    case StatusBits(status) => v.status == status
    case IrqBits(irqs) => v.irqs == irqs
    case CodeBits(codes) => v.codes == codes
    case CounterBits(counters) => v.counters == counters
    case SatpFields(satp) => v.satp == satp
    case Number(num) => v.num == num
  }

  // ---------------------------------------------------------------- traps

  datatype Cause = Exception(code: nat) | Interrupt(id: nat)

  function CauseWord(cause: Cause): nat {
    match cause
    case Exception(code) => code
    case Interrupt(id) => 0x8000_0000_0000_0000 + id
  }

  datatype Trap = Trap(file: File, pc: nat, priv: nat)

  /** The mode that handles a cause raised at `priv`. */
  function Target(r: Regs, cause: Cause, priv: nat): nat {
    var delegated := match cause case Interrupt(id) => r.irq.deleg.Has(id) case Exception(code) => code in r.medeleg;
    if priv < PRIV_M && delegated then PRIV_S else PRIV_M
  }

  function Vector(tvec: nat, cause: Cause): (pc: nat)
    ensures pc % 4 == 0
  {
    if tvec % 4 == 1 && cause.Interrupt? then (Align(tvec) + 4 * cause.id) % MODULUS else Align(tvec)
  }

  /** The two bits of a privilege number. */
  predicate LowBit(priv: nat) {
    priv == 1 || priv == 3
  }

  predicate HighBit(priv: nat) {
    priv == 2 || priv == 3
  }

  function EnterM(f: File, cause: Cause, tval: nat, pc: nat, priv: nat): File {
    var m := f.reg.mstatus;
    f.(reg := f.reg.(
      mstatus := m.(mpie := m.mie, mie := false, mppLo := LowBit(priv), mppHi := HighBit(priv)),
      m := f.reg.m.(tval := tval, cause := CauseWord(cause), epc := Align(pc))))
  }

  function EnterS(f: File, cause: Cause, tval: nat, pc: nat, priv: nat): File {
    var m := f.reg.mstatus;
    f.(reg := f.reg.(
      mstatus := m.(spie := m.sie, sie := false, spp := LowBit(priv)),
      s := f.reg.s.(tval := tval, cause := CauseWord(cause), epc := Align(pc))))
  }

  /** trap_enter. */
  function TrapEnter(f: File, cause: Cause, tval: nat, pc: nat, priv: nat): Trap {
    if Target(f.reg, cause, priv) == PRIV_M
    then Trap(EnterM(f, cause, tval, pc, priv), Vector(f.reg.m.tvec, cause), PRIV_M)
    else Trap(EnterS(f, cause, tval, pc, priv), Vector(f.reg.s.tvec, cause), PRIV_S)
  }

  /** trap_exit_mret. */
  function Mret(f: File): Trap {
    var m := f.reg.mstatus;
    var priv := m.Mpp();
    var m' := m.(mie := m.mpie, mpie := true, mppLo := false, mppHi := false, mprv := m.mprv && priv >= PRIV_M);
    Trap(f.(reg := f.reg.(mstatus := m')), Align(f.reg.m.epc), priv)
  }

  /** trap_exit_sret. */
  function Sret(f: File): Trap {
    var m := f.reg.mstatus;
    var m' := m.(sie := m.spie, spie := true, spp := false, mprv := false);
    Trap(f.(reg := f.reg.(mstatus := m')), Align(f.reg.s.epc), m.Spp())
  }

  // ---------------------------------------------------------------- interrupts

  /** check_interrupt. */
  predicate Fires(r: Regs, priv: nat, id: nat) {
    var target := if r.irq.deleg.Has(id) then PRIV_S else PRIV_M;
    && r.irq.pending.Has(id) && r.irq.enable.Has(id)
    && (priv < target || (priv == target && (if target == PRIV_M then r.mstatus.mie else r.mstatus.sie)))
  }

  /** The scan order of interrupt_pending_and_enabled. */
  const SCAN: seq<nat> := [INT_MEIP, INT_MSIP, INT_MTIP, INT_SEIP, INT_SSIP, INT_STIP]

  /** The first interrupt of the scan order, from position `k`, that fires. */
  function Select(r: Regs, priv: nat, k: nat): (id: Option<nat>)
    requires k <= 6
    ensures id.Some? ==> id.value in SCAN[k..] && Fires(r, priv, id.value)
    ensures id.None? <==> forall i :: k <= i < 6 ==> !Fires(r, priv, SCAN[i])
    decreases 6 - k
  {
    if k == 6 then None else if Fires(r, priv, SCAN[k]) then Some(SCAN[k]) else Select(r, priv, k + 1)
  }

  /** csr_begin_update. */
  function BeginUpdate(f: File, meip: bool, msip: bool, mtip: bool, seip: bool): File {
    var pending := f.reg.irq.pending.(mei := meip, msi := msip, mti := mtip, sei := seip);
    File(f.reg.(irq := f.reg.irq.(pending := pending)), f.reg.count.inhibit, false, false, false)
  }

  /** csr_end_update. */
  function EndUpdate(f: File, retired: bool): File {
    var c := f.reg.count;
    var instret := if !f.startingMcountinhibit.ir && !f.minstretWritten && retired then (c.instret + 1) % MODULUS
        else c.instret;
    var cycle := if !f.startingMcountinhibit.cy && !f.mcycleWritten then (c.cycle + 1) % MODULUS else c.cycle;
    File(f.reg.(count := c.(instret := instret, cycle := cycle)), f.startingMcountinhibit, false, false, false)
  }

  /** csr_init on zeroed storage. */
  function Reset(): File {
    var none := Irqs(false, false, false, false, false, false, false);
    var off := Counters(false, false, false, false);
    var zero := TrapRegs(0, 0, 0, 0, 0);
    File(Regs(Mstatus(false, false, false, false, false, false, false, false, false, false, false, false, false, 2, 2,
                      false),
              0x8000_0000_0014_1101, {}, IrqRegs(none, none, none), zero, zero, CounterRegs(off, off, off, 0, 0),
              Sv39.Satp(0, 0, 0), 0),
         off, false, false, false)
  }

  // ---------------------------------------------------------------- the register invariant

  predicate SatpOk(satp: Sv39.Satp) {
    (satp.mode == 0 || satp.mode == 8) && satp.asid == 0
  }

  /** What every reachable state of the registers satisfies at privilege `priv`. */
  predicate Inv(r: Regs, priv: nat) {
    && (priv == PRIV_U || priv == PRIV_S || priv == PRIV_M)
    && r.mstatus.Mpp() != 2
    && (r.mstatus.mprv ==> priv == PRIV_M)
    && r.mstatus.uxl == 2 && r.mstatus.sxl == 2 && !r.mstatus.other
    && !r.irq.deleg.msi && !r.irq.deleg.mti && !r.irq.deleg.mei && !r.irq.deleg.other
    && !r.irq.enable.other && !r.irq.pending.other
    && (forall c :: c in r.medeleg ==> Delegable(c))
    && !r.count.menable.other && !r.count.senable.other && !r.count.inhibit.other && !r.count.inhibit.tm
    && r.m.tvec % 4 < 2 && r.s.tvec % 4 < 2
    && r.m.epc % 4 == 0 && r.s.epc % 4 == 0
    && SatpOk(r.satp)
  }

  lemma ResetInv()
    ensures Inv(Reset().reg, PRIV_M)
  {
  }

  lemma PutInv(r: Regs, n: Name, op: Op, v: Written, priv: nat)
    requires Inv(r, priv) && (n.Mstatus_? ==> priv == PRIV_M)
    ensures Inv(Put(r, n, op, v), priv)
  {
    match n
    case Sstatus =>
    case Mstatus_ =>
    case Medeleg =>
    case _ =>
  }

  /** In every reachable state, writing back what a read of a register shows changes nothing. */
  lemma WriteBackIsNeutral(r: Regs, n: Name, v: Written, priv: nat)
    requires Inv(r, priv) && Carries(v, Show(r, n))
    ensures Put(r, n, Rw, v) == r
  {
    match n
    case Sstatus => StatusWrittenBack(r.mstatus);
    case Mstatus_ => StatusWrittenBack(r.mstatus);
    case Sie => WriteBackIrqs(r, n, v);
    case Sip => WriteBackIrqs(r, n, v);
    case Mie => WriteBackIrqs(r, n, v);
    case Mip => WriteBackIrqs(r, n, v);
    case Mideleg => WriteBackIrqs(r, n, v);
    case Medeleg => assert WriteCodes(Rw, r.medeleg, v.codes) == r.medeleg;
    case _ => WriteBackOther(r, n, v, priv);
  }

  lemma StatusWrittenBack(m: Mstatus)
    ensures WriteSstatus(Rw, m, SupervisorStatus(m)) == m
    ensures m.Mpp() != 2 ==> WriteMstatus(Rw, m, m) == m
  {
  }

  lemma WriteBackIrqs(r: Regs, n: Name, v: Written)
    requires (n.Sie? || n.Sip? || n.Mie? || n.Mip? || n.Mideleg?) && Carries(v, Show(r, n))
    ensures Put(r, n, Rw, v) == r
  {
  }

  lemma WriteBackOther(r: Regs, n: Name, v: Written, priv: nat)
    requires !(n.Sstatus? || n.Mstatus_? || n.Sie? || n.Sip? || n.Mie? || n.Mip? || n.Mideleg? || n.Medeleg?)
    requires Inv(r, priv) && Carries(v, Show(r, n))
    ensures Put(r, n, Rw, v) == r
  {
  }

  lemma AccessInv(f: File, addr: nat, op: Op, v: Written, read: bool, write: bool, time: nat, priv: nat)
    requires Inv(f.reg, priv)
    ensures Inv(Access(f, addr, op, v, read, write, time, priv).reg, priv)
  {
    var r := f.reg.(mtime := time);
    if Legal(r, addr, read, write, priv) && write {
      PutInv(r, Decode(addr).value, op, v, priv);
    }
  }

  lemma EnterInv(f: File, cause: Cause, tval: nat, pc: nat, priv: nat)
    requires Inv(f.reg, priv)
    ensures Inv(EnterM(f, cause, tval, pc, priv).reg, PRIV_M)
    ensures priv < PRIV_M ==> Inv(EnterS(f, cause, tval, pc, priv).reg, PRIV_S)
  {
  }

  lemma TrapInv(f: File, cause: Cause, tval: nat, pc: nat, priv: nat)
    requires Inv(f.reg, priv)
    ensures var t := TrapEnter(f, cause, tval, pc, priv); Inv(t.file.reg, t.priv) && t.priv >= priv && t.pc % 4 == 0
  {
    EnterInv(f, cause, tval, pc, priv);
  }

  lemma ReturnInv(f: File, priv: nat)
    requires Inv(f.reg, priv)
    ensures Inv(Mret(f).file.reg, Mret(f).priv) && Inv(Sret(f).file.reg, Sret(f).priv)
    ensures Mret(f).pc % 4 == 0 && Sret(f).pc % 4 == 0
  {
  }
}
