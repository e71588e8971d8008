/** cpu_step of emulator/src/cpu/cpu.c as a function of the processor state and of what the step reads from
    outside: interrupt lines, address translations, bus answers, and the instruction with its operand values.
    Theorems about it quantify over all of these, so they hold for every program, every memory and every
    device behaviour. Module Hart supplies the translations from the two TLBs. */
module Cpu {
  import opened Riscv
  import Sv39
  import Csr

  const RST_VEC: nat := 0x8000_0000

  datatype Reservation = Reservation(valid: bool, start: nat, end: nat)

  datatype State = State(
    regs: seq<nat>, pc: nat, csr: Csr.File, wfi: bool, priv: nat, res: Reservation)

  /** A decoded instruction. Addresses, jump targets, branch outcomes and results that depend on general
      registers are given as values. */
  datatype Inst =
    | Compute(rd: nat, result: nat)
    | Jump(rd: nat, target: nat)
    | Branch(taken: bool, target: nat)
    | Load(rd: nat, va: nat, size: nat)
    | Store(va: nat, size: nat)
    | LoadReserved(rd: nat, va: nat, size: nat)
    | StoreConditional(rd: nat, va: nat, size: nat)
    | AtomicOp(rd: nat, va: nat, size: nat)
    | CsrOp(op: Csr.Op, addr: nat, v: Csr.Written, rd: nat, rs1: nat)
    | Fence | Ecall | Ebreak | Mret | Sret | Wfi | SfenceVma | Illegal

  /** One step's surroundings: the interrupt lines, the clock, the instruction and its word, the translations of
      the fetch, the load and the store that the step may perform, whether the bus accepts each access, and the
      value a load or a CSR read delivers. */
  datatype Env = Env(
    meip: bool, msip: bool, mtip: bool, seip: bool, time: nat, inst: Inst, word: nat,
    fetch: Sv39.Translation, load: Sv39.Translation, store: Sv39.Translation,
    fetchOk: bool, readOk: bool, writeOk: bool, data: nat)

  /** How an instruction ends, before the common tail of cpu_step. */
  datatype Exec = Done(cpu: State, next: nat) | Raise(cpu: State, cause: Csr.Cause, tval: nat)

  function Plus4(pc: nat): (next: nat)
    ensures pc % 4 == 0 ==> next % 4 == 0
  {
    (pc + 4) % MODULUS
  }

  function SetReg(s: State, rd: nat, v: nat): State {
    if rd < |s.regs| then s.(regs := s.regs[rd := v]) else s
  }

  // ---------------------------------------------------------------- memory access

  /** CHECK_MA_LS. */
  predicate MisalignedAccess(addr: nat, size: nat) {
    (size == 2 && addr % 2 != 0) || (size == 4 && addr % 4 != 0) || (size == 8 && addr % 8 != 0)
  }

  /** Translation, alignment check and bus access of a load (EXEC_LOAD_HELPER): the exception, if any. */
  function LoadFault(e: Env, size: nat, busFault: nat): Option<nat> {
    match e.load
    case Fault(cause) => Some(cause)
    case Valid(pa) =>
      if MisalignedAccess(pa, size) then Some(LOAD_ADDR_MISALIGNED) else if !e.readOk then Some(busFault) else None
  }

  /** The same for a store (EXEC_STORE). */
  function StoreFault(e: Env, size: nat): Option<nat> {
    match e.store
    case Fault(cause) => Some(cause)
    case Valid(pa) =>
      if MisalignedAccess(pa, size) then Some(STORE_AMO_ADDR_MISALIGNED)
      else if !e.writeOk then Some(STORE_AMO_ACCESS_FAULT) else None
  }

  // ---------------------------------------------------------------- LR/SC

  function Reserve(va: nat, size: nat): Reservation {
    Reservation(true, va, (va + size) % MODULUS)
  }

  /** The test of EXEC_SC, with the wrap-around of `addr_end - size`. */
  predicate ScPasses(res: Reservation, va: nat, size: nat) {
    res.valid && va >= res.start && va <= (res.end - size) % MODULUS
  }

  // ---------------------------------------------------------------- execution

  function ExecLoad(s: State, e: Env, rd: nat, va: nat, size: nat, res: Reservation): Exec {
    match LoadFault(e, size, LOAD_ACCESS_FAULT)
    case Some(cause) => Raise(s, Csr.Exception(cause), va)
    case None => Done(SetReg(s, rd, e.data).(res := res), Plus4(s.pc))
  }

  function ExecStore(s: State, e: Env, rd: nat, va: nat, size: nat): Exec {
    match StoreFault(e, size)
    case Some(cause) => Raise(s, Csr.Exception(cause), va)
    case None => Done(SetReg(s, rd, 0), Plus4(s.pc))
  }

  function ExecAmo(s: State, e: Env, rd: nat, va: nat, size: nat): Exec {
    if MisalignedAccess(va, size) then Raise(s, Csr.Exception(STORE_AMO_ADDR_MISALIGNED), va)
    else match LoadFault(e, size, STORE_AMO_ACCESS_FAULT)
      case Some(cause) => Raise(s, Csr.Exception(cause), va)
      case None =>
        match StoreFault(e, size)
        case Some(cause) => Raise(s, Csr.Exception(cause), va)
        case None => Done(SetReg(s, rd, e.data), Plus4(s.pc))
  }

  function ExecSc(s: State, e: Env, rd: nat, va: nat, size: nat): Exec {
    if MisalignedAccess(va, size) then Raise(s, Csr.Exception(STORE_AMO_ADDR_MISALIGNED), va)
    else
      var s1 := s.(res := s.res.(valid := false));
      if ScPasses(s.res, va, size) then ExecStore(s1, e, rd, va, size)
      else Done(SetReg(s1, rd, 1), Plus4(s.pc))
  }

  /** EXEC_CSR: whether the instruction reads and writes its register. */
  predicate CsrReads(i: Inst) requires i.CsrOp? {
    !(i.rd == 0 && i.op.Rw?)
  }

  predicate CsrWrites(i: Inst) requires i.CsrOp? {
    !(i.rs1 == 0 && !i.op.Rw?)
  }

  predicate CsrLegal(s: State, e: Env)
    requires e.inst.CsrOp?
  {
    Csr.Legal(s.csr.reg.(mtime := e.time), e.inst.addr, CsrReads(e.inst), CsrWrites(e.inst), s.priv)
  }

  function ExecCsr(s: State, e: Env): Exec
    requires e.inst.CsrOp?
  {
    var i := e.inst;
    var file := Csr.Access(s.csr, i.addr, i.op, i.v, CsrReads(i), CsrWrites(i), e.time, s.priv);
    AfterCsr(s, e, CsrLegal(s, e), file)
  }

  function AfterCsr(s: State, e: Env, legal: bool, file: Csr.File): Exec
    requires e.inst.CsrOp?
  {
    var s1 := s.(csr := file);
    if !legal then Raise(s1, Csr.Exception(ILLEGAL_INSTRUCTION), e.word)
    else Done(if e.inst.rd == 0 then s1 else SetReg(s1, e.inst.rd, e.data), Plus4(s.pc))
  }

  function EcallCause(priv: nat): nat {
    if priv == PRIV_M then ECALL_FROM_M_MODE else if priv == PRIV_S then ECALL_FROM_S_MODE else ECALL_FROM_U_MODE
  }

  /** check_mret_privilege, check_sret_trap, check_wfi_trap and check_sfence_vma: the illegal cases. */
  predicate Forbidden(s: State, i: Inst) {
    var m := s.csr.reg.mstatus;
    match i
    case Mret => s.priv == PRIV_S || s.priv == PRIV_U
    case Sret => (s.priv == PRIV_S && m.tsr) || s.priv == PRIV_U
    case Wfi => (m.tw && s.priv == PRIV_S) || s.priv == PRIV_U
    case SfenceVma => s.priv == PRIV_U || (s.priv == PRIV_S && m.tvm)
    case Illegal => true
    case _ => false
  }

  function Return(s: State, t: Csr.Trap): Exec {
    Done(s.(csr := t.file, priv := t.priv), t.pc)
  }

  /** The instructions that leave the CSR file and the privilege alone. */
  function ExecPlain(s: State, e: Env): Exec {
    var next := Plus4(s.pc);
    match e.inst
    case Compute(rd, result) => Done(SetReg(s, rd, result), next)
    case Jump(rd, target) =>
      if target % 4 != 0 then Raise(s, Csr.Exception(INST_ADDR_MISALIGNED), target)
      else Done(SetReg(s, rd, next), target)
    case Branch(taken, target) =>
      if taken && target % 4 != 0 then Raise(s, Csr.Exception(INST_ADDR_MISALIGNED), target)
      else Done(s, if taken then target else next)
    case Load(rd, va, size) => ExecLoad(s, e, rd, va, size, s.res)
    case Store(va, size) => ExecStore(s, e, 0, va, size)
    case LoadReserved(rd, va, size) => ExecLoad(s, e, rd, va, size, Reserve(va, size))
    case StoreConditional(rd, va, size) => ExecSc(s, e, rd, va, size)
    case AtomicOp(rd, va, size) => ExecAmo(s, e, rd, va, size)
    case Ecall => Raise(s, Csr.Exception(EcallCause(s.priv)), 0)
    case Ebreak => Raise(s, Csr.Exception(BREAKPOINT), s.pc)
    case Wfi => Done(s.(wfi := true), next)
    case _ => Done(s, next) // FENCE, FENCE.I, and SFENCE.VMA, whose flush is in module Hart
  }

  /** The switch over opcodes. */
  function Execute(s: State, e: Env): Exec {
    if Forbidden(s, e.inst) then Raise(s, Csr.Exception(ILLEGAL_INSTRUCTION), e.word)
    else if e.inst.CsrOp? then ExecCsr(s, e)
    else if e.inst.Mret? then Return(s, Csr.Mret(s.csr))
    else if e.inst.Sret? then Return(s, Csr.Sret(s.csr))
    else ExecPlain(s, e)
  }

  // ---------------------------------------------------------------- the step

  function Begin(s: State, e: Env): State {
    s.(csr := Csr.BeginUpdate(s.csr, e.meip, e.msip, e.mtip, e.seip))
  }

  /** Asleep in WFI with nothing pending. */
  predicate Sleeps(s: State, e: Env) {
    s.wfi && !Begin(s, e).csr.reg.irq.pending.Any()
  }

  /** The step gets past the fetch. */
  predicate Fetches(s: State, e: Env) {
    !Sleeps(s, e) && e.fetch.Valid? && e.fetchOk
  }

  /** The interrupt the step takes, if any: it is looked for only after a successful fetch. */
  function TakenInterrupt(s: State, e: Env): Option<nat> {
    if Fetches(s, e) then Csr.Select(Begin(s, e).csr.reg, s.priv, 0) else None
  }

  /** The step reaches the instruction. */
  predicate Executes(s: State, e: Env) {
    Fetches(s, e) && TakenInterrupt(s, e).None?
  }

  /** What follows csr_begin_update in a processor that is awake, up to the common tail. */
  function Body(s: State, e: Env): Exec {
    match e.fetch
    case Fault(cause) => Raise(s, Csr.Exception(cause), s.pc)
    case Valid(_) =>
      if !e.fetchOk then Raise(s, Csr.Exception(INST_ACCESS_FAULT), s.pc)
      else match Csr.Select(s.csr.reg, s.priv, 0)
        case Some(id) => Raise(s, Csr.Interrupt(id), 0)
        case None => Execute(s, e)
  }

  /** The tail after `end_exec`; the TLB flush for a written satp is in module Hart. */
  function Finish(s: State, next: nat, retired: bool): State {
    s.(regs := if |s.regs| > 0 then s.regs[0 := 0] else s.regs,
       pc := next,
       csr := Csr.EndUpdate(s.csr, retired))
  }

  function Conclude(x: Exec): State {
    match x
    case Done(c, next) => Finish(c, next, true)
    case Raise(c, cause, tval) =>
      var t := Csr.TrapEnter(c.csr, cause, tval, c.pc, c.priv);
      Finish(c.(csr := t.file, priv := t.priv), t.pc, false)
  }

  function Step(s: State, e: Env): State {
    if Sleeps(s, e) then Begin(s, e) else Conclude(Body(Begin(s, e).(wfi := false), e))
  }

  /** cpu_init. */
  function Reset(): State {
    State(seq(32, _ => 0), RST_VEC, Csr.Reset(), false, PRIV_M, Reservation(false, 0, 0))
  }
}
