/** cpu_step of emulator/src/cpu/cpu.c in its own form: one object that owns the registers, the CSR file and the two
    TLBs and updates them in place. Each method is specified by the functions of modules Cpu and Hart, about which the
    theorems are proved. */
module Processor {
  import opened Riscv
  import opened Cpu
  import Csr
  import CsrFile
  import Packed
  import Sv39
  import Tlb
  import Hart

  /** cpu_t but for the CSR file and the TLBs. */
  datatype Core = Core(regs: seq<nat>, pc: nat, wfi: bool, priv: nat, res: Reservation)

  /** Where the code of an instruction jumps: end_exec, or raise_exception with its cause and value. */
  datatype Outcome = EndExec(next: nat) | RaiseException(cause: Csr.Cause, tval: nat)

  function StateOf(core: Core, csr: Csr.File): State {
    State(core.regs, core.pc, csr, core.wfi, core.priv, core.res)
  }

  function ExecOf(o: Outcome, core: Core, csr: Csr.File): Exec {
    match o
    case EndExec(next) => Done(StateOf(core, csr), next)
    case RaiseException(cause, tval) => Raise(StateOf(core, csr), cause, tval)
  }

  function Set(core: Core, rd: nat, v: nat): Core {
    if rd < |core.regs| then core.(regs := core.regs[rd := v]) else core
  }

  predicate IsMemory(i: Inst) {
    i.Load? || i.LoadReserved? || i.Store? || i.StoreConditional? || i.AtomicOp?
  }

  predicate IsPlain(i: Inst) {
    !IsMemory(i) && !(i.CsrOp? || i.Mret? || i.Sret? || i.SfenceVma? || i.Illegal?)
  }

  /** satp and mstatus as translation sees them. */
  predicate Sees(s: State, satp: Sv39.Satp, st: Sv39.Status) {
    satp == s.csr.reg.satp && st == s.csr.reg.mstatus.Xlate()
  }

  /** The registers with the interrupt lines of the step. */
  function WithLines(reg: CsrFile.RawRegs, x: Hart.Around): CsrFile.RawRegs {
    CsrFile.WithLines(reg, x.outside.meip, x.outside.msip, x.outside.mtip, x.outside.seip)
  }

  /** The surroundings with the data that comes to rd: what the bus delivers, or the CSR that is read. */
  function WithData(x: Hart.Around, reg: CsrFile.RawRegs): Hart.Around {
    var i := x.outside.inst;
    if i.CsrOp? then x.(outside := x.outside.(data := CsrFile.NumberRead(reg, i.addr, x.outside.time))) else x
  }

  /** An SFENCE.VMA that is permitted. */
  predicate Fences(s: State, e: Env) {
    e.inst.SfenceVma? && !Forbidden(s, e.inst)
  }

  /** e is the surroundings but for the translations, and for the data of a CSR instruction. */
  predicate IsFor(x: Hart.Around, e: Env) {
    && e == x.outside.(fetch := e.fetch, load := e.load, store := e.store, data := e.data)
    && (!e.inst.CsrOp? ==> e.data == x.outside.data)
  }

  /** The data of a CSR instruction is the register it reads. */
  predicate DataIsRead(e: Env, reg: CsrFile.RawRegs) {
    e.inst.CsrOp? ==> e.data == CsrFile.NumberRead(reg, e.inst.addr, e.time)
  }

  /** e holds the surroundings with the answers the data TLB t will give to the instruction. */
  ghost predicate Answered(x: Hart.Around, e: Env, s: State, t: seq<Tlb.Entry>)
    requires |t| == Tlb.TLB_SIZE
  {
    var i := x.outside.inst;
    var t' := if i.AtomicOp? then Hart.Refill(t, x.mem, s, i.va, Sv39.Amo, Hart.DataPriv(s)) else t;
    && IsFor(x, e)
    && e.load == Hart.Lookup(t, x.mem, s, Hart.LoadVa(i), Hart.LoadMode(i), Hart.DataPriv(s))
    && e.store == Hart.Lookup(t', x.mem, s, Hart.LoadVa(i), Sv39.Write, Hart.DataPriv(s))
  }

  /** The data TLB after an instruction that is executed and does not flush. */
  ghost function DataTlb(x: Hart.Around, e: Env, s: State, t: seq<Tlb.Entry>): seq<Tlb.Entry>
    requires |t| == Tlb.TLB_SIZE
  {
    var i := e.inst;
    var t' := if i.Load? || i.LoadReserved? || (i.AtomicOp? && !MisalignedAccess(i.va, i.size))
              then Hart.Refill(t, x.mem, s, i.va, Hart.LoadMode(i), Hart.DataPriv(s)) else t;
    if || i.Store?
       || (i.StoreConditional? && !MisalignedAccess(i.va, i.size) && ScPasses(s.res, i.va, i.size))
       || (i.AtomicOp? && !MisalignedAccess(i.va, i.size) && LoadFault(e, i.size, STORE_AMO_ACCESS_FAULT).None?)
    then Hart.Refill(t', x.mem, s, i.va, Sv39.Write, Hart.DataPriv(s)) else t'
  }

  function FetchFault(e: Env): Option<nat> {
    match e.fetch
    case Fault(cause) => Some(cause)
    case Valid(_) => if e.fetchOk then None else Some(INST_ACCESS_FAULT)
  }

  /** The instruction is reached: fetched, and no interrupt taken instead. */
  predicate Reaches(s: State, e: Env) {
    FetchFault(e).None? && Csr.Select(s.csr.reg, s.priv, 0).None?
  }

  /** Translation looks at satp, mstatus and the privilege only. */
  lemma SameTranslation(t: seq<Tlb.Entry>, mem: PhysMem, s: State, s': State, va: nat, mode: Sv39.Access)
    requires |t| == Tlb.TLB_SIZE && s.csr.reg.satp == s'.csr.reg.satp && s.csr.reg.mstatus == s'.csr.reg.mstatus
    requires s.priv == s'.priv
    ensures Hart.DataPriv(s) == Hart.DataPriv(s')
    ensures forall priv :: Hart.Lookup(t, mem, s, va, mode, priv) == Hart.Lookup(t, mem, s', va, mode, priv)
    ensures forall priv :: Hart.Refill(t, mem, s, va, mode, priv) == Hart.Refill(t, mem, s', va, mode, priv)
  {
  }

  lemma AnswersAreAnswered(h: Hart.Hart, x: Hart.Around, reg: CsrFile.RawRegs, s: State)
    requires h.Shape() && s == Begin(h.cpu, Hart.Answers(h, WithData(x, reg))).(wfi := false)
    ensures var e := Hart.Answers(h, WithData(x, reg));
            && Answered(x, e, s, h.dtlb) && DataIsRead(e, reg)
            && e.fetch == Hart.Lookup(h.itlb, x.mem, s, s.pc, Sv39.Execute, s.priv)
  {
    var i := x.outside.inst;
    var t := Hart.BeforeStore(h, x);
    SameTranslation(h.itlb, x.mem, h.cpu, s, s.pc, Sv39.Execute);
    SameTranslation(h.dtlb, x.mem, h.cpu, s, Hart.LoadVa(i), Hart.LoadMode(i));
    SameTranslation(t, x.mem, h.cpu, s, Hart.LoadVa(i), Sv39.Write);
  }

  lemma HartSleeps(h: Hart.Hart, x: Hart.Around, e: Env)
    requires h.Shape() && Sleeps(h.cpu, e)
    ensures Hart.StepWith(h, x, e) == h.(cpu := Begin(h.cpu, e))
  {
  }

  /** h' is what the tail makes of h after the execution b, from the state s after the wake-up. */
  ghost predicate Stepped(h: Hart.Hart, x: Hart.Around, e: Env, s: State, b: Exec, h': Hart.Hart)
    requires h.Shape()
  {
    && h'.cpu == Conclude(b)
    && var flushed := b.cpu.csr.satpWritten || (Reaches(s, e) && Fences(s, e));
       && h'.itlb == (if flushed then Tlb.Empty() else Hart.Refill(h.itlb, x.mem, s, s.pc, Sv39.Execute, s.priv))
       && h'.dtlb == (if flushed then Tlb.Empty() else if Reaches(s, e) then DataTlb(x, e, s, h.dtlb) else h.dtlb)
  }

  lemma HartSteps(h: Hart.Hart, x: Hart.Around, e: Env, s: State, b: Exec, h': Hart.Hart)
    requires h.Shape() && !Sleeps(h.cpu, e) && s == Begin(h.cpu, e).(wfi := false)
    requires b == Body(s, e) && Stepped(h, x, e, s, b, h')
    ensures Hart.StepWith(h, x, e) == h'
  {
  }

  lemma ExecutedCsr(s: State, e: Env, ok: bool, f: Csr.File)
    requires e.inst.CsrOp? && ok == CsrLegal(s, e)
    requires var i := e.inst;
             f == Csr.Access(s.csr, i.addr, i.op, i.v, CsrReads(i), CsrWrites(i), e.time, s.priv)
    ensures ExecCsr(s, e) == AfterCsr(s, e, ok, f)
  {
  }

  lemma SystemKeepsTlb(x: Hart.Around, e: Env, s: State, t: seq<Tlb.Entry>)
    requires |t| == Tlb.TLB_SIZE && (e.inst.CsrOp? || e.inst.Mret? || e.inst.Sret?)
    ensures !Fences(s, e) && DataTlb(x, e, s, t) == t
  {
  }

  class Unit {
    var core: Core
    const csr: CsrFile.Registers
    const itlb: Tlb.Cache
    const dtlb: Tlb.Cache

    ghost predicate Valid()
      reads this, csr, itlb, dtlb
    {
      itlb.Valid() && dtlb.Valid() && itlb != dtlb && itlb.entries != dtlb.entries
    }

    ghost function CpuState(): State
      reads this, csr
    {
      StateOf(core, csr.View())
    }

    ghost function View(): (h: Hart.Hart)
      requires Valid()
      reads this, csr, itlb, dtlb, itlb.entries, dtlb.entries
      ensures h.Shape()
    {
      Hart.Hart(CpuState(), itlb.entries[..], dtlb.entries[..])
    }

    /** cpu_init and the tlb_init calls of cpu_exec. */
    constructor ()
      ensures Valid() && View() == Hart.Reset()
      ensures fresh(csr) && fresh(itlb) && fresh(dtlb) && fresh(itlb.entries) && fresh(dtlb.entries)
    {
      core := Core(seq(32, _ => 0), RST_VEC, false, PRIV_M, Reservation(false, 0, 0));
      csr := new CsrFile.Registers();
      itlb := new Tlb.Cache();
      dtlb := new Tlb.Cache();
    }

    // The ghost s is the processor state on entry, e the surroundings with the answers of the TLBs. The methods that
    // access memory leave the CSR file alone and are given the part of it that translation sees.

    /** MMU and CHECK_MA_LS of EXEC_LOAD_HELPER, and its bus access. */
    method LoadAccess(x: Hart.Around, ghost e: Env, ghost s: State, satp: Sv39.Satp, st: Sv39.Status,
                      va: nat, size: nat, busFault: nat, mode: Sv39.Access)
      returns (fault: Option<nat>)
      requires dtlb.Valid() && StateOf(core, s.csr) == s && Sees(s, satp, st) && IsFor(x, e)
      requires e.load == Hart.Lookup(dtlb.entries[..], x.mem, s, va, mode, Hart.DataPriv(s))
      modifies dtlb`hit, dtlb`miss, dtlb.entries
      ensures dtlb.Valid() && fault == LoadFault(e, size, busFault)
      ensures dtlb.entries[..] == Hart.Refill(old(dtlb.entries[..]), x.mem, s, va, mode, Hart.DataPriv(s))
    {
      var priv := if st.mprv then st.mpp else core.priv;
      var out := dtlb.Lookup(x.mem, va, satp, st, mode, priv);
      match out
      case Fault(cause) => fault := Some(cause);
      case Valid(pa) =>
        fault := if MisalignedAccess(pa, size) then Some(LOAD_ADDR_MISALIGNED)
                 else if !x.outside.readOk then Some(busFault) else None;
    }

    /** EXEC_STORE up to its bus access. */
    method StoreAccess(x: Hart.Around, ghost e: Env, ghost s: State, satp: Sv39.Satp, st: Sv39.Status, va: nat,
                       size: nat)
      returns (fault: Option<nat>)
      requires dtlb.Valid() && core.priv == s.priv && Sees(s, satp, st) && IsFor(x, e)
      requires e.store == Hart.Lookup(dtlb.entries[..], x.mem, s, va, Sv39.Write, Hart.DataPriv(s))
      modifies dtlb`hit, dtlb`miss, dtlb.entries
      ensures dtlb.Valid() && fault == StoreFault(e, size)
      ensures dtlb.entries[..] == Hart.Refill(old(dtlb.entries[..]), x.mem, s, va, Sv39.Write, Hart.DataPriv(s))
    {
      var priv := if st.mprv then st.mpp else core.priv;
      var out := dtlb.Lookup(x.mem, va, satp, st, Sv39.Write, priv);
      match out
      case Fault(cause) => fault := Some(cause);
      case Valid(pa) =>
        fault := if MisalignedAccess(pa, size) then Some(STORE_AMO_ADDR_MISALIGNED)
                 else if !x.outside.writeOk then Some(STORE_AMO_ACCESS_FAULT) else None;
    }

    /** EXEC_LOAD and EXEC_LR. */
    method DoLoad(x: Hart.Around, ghost e: Env, ghost s: State, satp: Sv39.Satp, st: Sv39.Status,
                  rd: nat, va: nat, size: nat, res: Reservation)
      returns (o: Outcome)
      requires dtlb.Valid() && StateOf(core, s.csr) == s && Sees(s, satp, st) && IsFor(x, e) && e.data == x.outside.data
      requires e.load == Hart.Lookup(dtlb.entries[..], x.mem, s, va, Sv39.Read, Hart.DataPriv(s))
      modifies this`core, dtlb`hit, dtlb`miss, dtlb.entries
      ensures dtlb.Valid() && ExecOf(o, core, s.csr) == ExecLoad(s, e, rd, va, size, res)
      ensures dtlb.entries[..] == Hart.Refill(old(dtlb.entries[..]), x.mem, s, va, Sv39.Read, Hart.DataPriv(s))
    {
      var fault := LoadAccess(x, e, s, satp, st, va, size, LOAD_ACCESS_FAULT, Sv39.Read);
      if fault.Some? {
        return RaiseException(Csr.Exception(fault.value), va);
      }
      o := EndExec(Plus4(core.pc));
      core := Set(core, rd, x.outside.data).(res := res);
    }

    /** EXEC_STORE, and the end of EXEC_SC. */
    method DoStore(x: Hart.Around, ghost e: Env, ghost s: State, satp: Sv39.Satp, st: Sv39.Status, rd: nat, va: nat,
                   size: nat)
      returns (o: Outcome)
      requires dtlb.Valid() && StateOf(core, s.csr) == s && Sees(s, satp, st) && IsFor(x, e)
      requires e.store == Hart.Lookup(dtlb.entries[..], x.mem, s, va, Sv39.Write, Hart.DataPriv(s))
      modifies this`core, dtlb`hit, dtlb`miss, dtlb.entries
      ensures dtlb.Valid() && ExecOf(o, core, s.csr) == ExecStore(s, e, rd, va, size)
      ensures dtlb.entries[..] == Hart.Refill(old(dtlb.entries[..]), x.mem, s, va, Sv39.Write, Hart.DataPriv(s))
    {
      var fault := StoreAccess(x, e, s, satp, st, va, size);
      if fault.Some? {
        return RaiseException(Csr.Exception(fault.value), va);
      }
      o := EndExec(Plus4(core.pc));
      core := Set(core, rd, 0);
    }

    /** EXEC_SC: the reservation is given up before the store is tried. */
    method DoSc(x: Hart.Around, ghost e: Env, ghost s: State, satp: Sv39.Satp, st: Sv39.Status, rd: nat, va: nat,
                size: nat)
      returns (o: Outcome)
      requires dtlb.Valid() && StateOf(core, s.csr) == s && Sees(s, satp, st) && IsFor(x, e)
      requires e.store == Hart.Lookup(dtlb.entries[..], x.mem, s, va, Sv39.Write, Hart.DataPriv(s))
      modifies this`core, dtlb`hit, dtlb`miss, dtlb.entries
      ensures dtlb.Valid() && ExecOf(o, core, s.csr) == ExecSc(s, e, rd, va, size)
      ensures dtlb.entries[..] == if !MisalignedAccess(va, size) && ScPasses(s.res, va, size)
                then Hart.Refill(old(dtlb.entries[..]), x.mem, s, va, Sv39.Write, Hart.DataPriv(s))
                    else old(dtlb.entries[..])
    {
      if MisalignedAccess(va, size) {
        return RaiseException(Csr.Exception(STORE_AMO_ADDR_MISALIGNED), va);
      }
      var res := core.res;
      core := core.(res := res.(valid := false));
      if !res.valid || va < res.start || va > (res.end - size) % MODULUS {
        o := EndExec(Plus4(core.pc));
        core := Set(core, rd, 1);
      } else {
        o := DoStore(x, e, s.(res := res.(valid := false)), satp, st, rd, va, size);
      }
    }

    /** EXEC_AMO: load and store translations one after the other. */
    method DoAmo(x: Hart.Around, ghost e: Env, ghost s: State, satp: Sv39.Satp, st: Sv39.Status, rd: nat, va: nat,
                 size: nat)
      returns (o: Outcome)
      requires dtlb.Valid() && StateOf(core, s.csr) == s && Sees(s, satp, st) && IsFor(x, e) && e.data == x.outside.data
      requires var t := dtlb.entries[..];
               && e.load == Hart.Lookup(t, x.mem, s, va, Sv39.Amo, Hart.DataPriv(s))
               && var t' := Hart.Refill(t, x.mem, s, va, Sv39.Amo, Hart.DataPriv(s));
                  e.store == Hart.Lookup(t', x.mem, s, va, Sv39.Write, Hart.DataPriv(s))
      modifies this`core, dtlb`hit, dtlb`miss, dtlb.entries
      ensures dtlb.Valid() && ExecOf(o, core, s.csr) == ExecAmo(s, e, rd, va, size)
      ensures var t := old(dtlb.entries[..]);
              var t' := if MisalignedAccess(va, size) then t
                  else Hart.Refill(t, x.mem, s, va, Sv39.Amo, Hart.DataPriv(s));
              dtlb.entries[..] == if MisalignedAccess(va, size) || LoadFault(e, size, STORE_AMO_ACCESS_FAULT).Some?
                  then t'
                                  else Hart.Refill(t', x.mem, s, va, Sv39.Write, Hart.DataPriv(s))
    {
      if MisalignedAccess(va, size) {
        return RaiseException(Csr.Exception(STORE_AMO_ADDR_MISALIGNED), va);
      }
      var fault := LoadAccess(x, e, s, satp, st, va, size, STORE_AMO_ACCESS_FAULT, Sv39.Amo);
      if fault.Some? {
        return RaiseException(Csr.Exception(fault.value), va);
      }
      fault := StoreAccess(x, e, s, satp, st, va, size);
      if fault.Some? {
        return RaiseException(Csr.Exception(fault.value), va);
      }
      o := EndExec(Plus4(core.pc));
      core := Set(core, rd, x.outside.data);
    }

    /** The instructions that access memory. */
    method DoMemory(x: Hart.Around, ghost e: Env, ghost s: State, satp: Sv39.Satp, st: Sv39.Status) returns (o: Outcome)
      requires dtlb.Valid() && StateOf(core, s.csr) == s && Sees(s, satp, st)
      requires Answered(x, e, s, dtlb.entries[..]) && IsMemory(e.inst)
      modifies this`core, dtlb`hit, dtlb`miss, dtlb.entries
      ensures dtlb.Valid() && ExecOf(o, core, s.csr) == ExecPlain(s, e)
      ensures dtlb.entries[..] == DataTlb(x, e, s, old(dtlb.entries[..]))
    {
      match x.outside.inst
      case Load(rd, va, size) => o := DoLoad(x, e, s, satp, st, rd, va, size, core.res);
      case LoadReserved(rd, va, size) => o := DoLoad(x, e, s, satp, st, rd, va, size, Reserve(va, size));
      case Store(va, size) => o := DoStore(x, e, s, satp, st, 0, va, size);
      case StoreConditional(rd, va, size) => o := DoSc(x, e, s, satp, st, rd, va, size);
      case AtomicOp(rd, va, size) => o := DoAmo(x, e, s, satp, st, rd, va, size);
    }

    /** Computation, control transfer, fences, environment calls and WFI. */
    method DoPlain(x: Hart.Around, ghost e: Env, ghost s: State) returns (o: Outcome)
      requires StateOf(core, s.csr) == s && IsFor(x, e) && IsPlain(e.inst)
      modifies this`core
      ensures ExecOf(o, core, s.csr) == ExecPlain(s, e)
    {
      var next := Plus4(core.pc);
      o := EndExec(next);
      match x.outside.inst
      case Compute(rd, result) => core := Set(core, rd, result);
      case Jump(rd, target) =>
        if target % 4 != 0 {
          return RaiseException(Csr.Exception(INST_ADDR_MISALIGNED), target);
        }
        core := Set(core, rd, next);
        o := EndExec(target);
      case Branch(taken, target) =>
        if taken {
          if target % 4 != 0 {
            return RaiseException(Csr.Exception(INST_ADDR_MISALIGNED), target);
          }
          o := EndExec(target);
        }
      case Fence =>
      case Ecall => o := RaiseException(Csr.Exception(EcallCause(core.priv)), 0);
      case Ebreak => o := RaiseException(Csr.Exception(BREAKPOINT), core.pc);
      case Wfi => core := core.(wfi := true);
    }

    /** The call of csr_access, for the value the instruction writes; f is the file afterwards. */
    method AccessCsr(x: Hart.Around, value: nat, ghost e: Env, ghost s: State)
      returns (ok: bool, rdata: nat, ghost f: Csr.File)
      requires csr.View() == s.csr && core.priv == s.priv
      requires IsFor(x, e) && e.inst.CsrOp? && e.inst.v == CsrFile.Views(value)
      modifies csr
      ensures csr.View() == f && ExecCsr(s, e) == AfterCsr(s, e, ok, f)
      ensures ok && CsrReads(e.inst) ==> rdata == CsrFile.NumberRead(old(csr.reg), e.inst.addr, e.time)
    {
      var i := x.outside.inst;
      f := Csr.Access(s.csr, i.addr, i.op, i.v, CsrReads(i), CsrWrites(i), x.outside.time, s.priv);
      ok, rdata := csr.Access(s.csr, i.addr, i.op, value, i.v, CsrReads(i), CsrWrites(i), x.outside.time, core.priv);
      ExecutedCsr(s, e, ok, f);
    }

    /** EXEC_CSR. */
    method DoCsr(x: Hart.Around, value: nat, ghost e: Env, ghost s: State) returns (o: Outcome, ghost f: Csr.File)
      requires CpuState() == s && IsFor(x, e) && e.inst.CsrOp? && e.inst.v == CsrFile.Views(value)
      requires e.data == CsrFile.NumberRead(csr.reg, e.inst.addr, e.time)
      modifies this`core, csr
      ensures csr.View() == f && ExecOf(o, core, f) == ExecCsr(s, e)
    {
      var ok, rdata;
      ok, rdata, f := AccessCsr(x, value, e, s);
      o := FinishCsr(x, ok, rdata, e, s, f);
    }

    method FinishCsr(x: Hart.Around, ok: bool, rdata: nat, ghost e: Env, ghost s: State, ghost f: Csr.File)
        returns (o: Outcome)
      requires StateOf(core, s.csr) == s && IsFor(x, e) && e.inst.CsrOp?
      requires ok && CsrReads(e.inst) ==> rdata == e.data
      modifies this`core
      ensures ExecOf(o, core, f) == AfterCsr(s, e, ok, f)
    {
      if !ok {
        return RaiseException(Csr.Exception(ILLEGAL_INSTRUCTION), x.outside.word);
      }
      o := EndExec(Plus4(core.pc));
      if x.outside.inst.rd != 0 {
        core := Set(core, x.outside.inst.rd, rdata);
      }
    }

    /** check_mret_privilege, check_sret_trap, check_wfi_trap and check_sfence_vma. */
    method IsForbidden(i: Inst, m: Csr.Mstatus, ghost s: State) returns (illegal: bool)
      requires m == s.csr.reg.mstatus && core.priv == s.priv
      ensures illegal == Forbidden(s, i)
    {
      var priv := core.priv;
      match i
      case Mret => illegal := priv == PRIV_S || priv == PRIV_U;
      case Sret => illegal := (priv == PRIV_S && m.tsr) || priv == PRIV_U;
      case Wfi => illegal := (m.tw && priv == PRIV_S) || priv == PRIV_U;
      case SfenceVma => illegal := priv == PRIV_U || (priv == PRIV_S && m.tvm);
      case Illegal => illegal := true;
      case _ => illegal := false;
    }

    /** MRET and SRET. */
    method DoReturn(machine: bool, ghost s: State) returns (o: Outcome, ghost f: Csr.File)
      requires CpuState() == s
      modifies this`core, csr
      ensures csr.View() == f && ExecOf(o, core, f) == Return(s, if machine then Csr.Mret(s.csr) else Csr.Sret(s.csr))
    {
      var pc, priv;
      f := if machine then Csr.Mret(s.csr).file else Csr.Sret(s.csr).file;
      if machine {
        pc, priv := csr.ExitMret(s.csr);
      } else {
        pc, priv := csr.ExitSret(s.csr);
      }
      core := core.(priv := priv);
      o := EndExec(pc);
    }

    /** The instructions that leave the CSR file alone, and those that are forbidden. */
    method DoOther(x: Hart.Around, illegal: bool, satp: Sv39.Satp, st: Sv39.Status, ghost e: Env, ghost s: State)
        returns (o: Outcome)
      requires itlb.Valid() && dtlb.Valid() && itlb != dtlb && itlb.entries != dtlb.entries
      requires StateOf(core, s.csr) == s && Sees(s, satp, st) && Answered(x, e, s, dtlb.entries[..])
      requires illegal == Forbidden(s, e.inst) && !e.inst.CsrOp? && (e.inst.Mret? || e.inst.Sret? ==> illegal)
      modifies this`core, itlb.entries, dtlb`hit, dtlb`miss, dtlb.entries
      ensures itlb.Valid() && dtlb.Valid() && ExecOf(o, core, s.csr) == Execute(s, e)
      ensures itlb.entries[..] == if Fences(s, e) then Tlb.Empty() else old(itlb.entries[..])
      ensures dtlb.entries[..] == if Fences(s, e) then Tlb.Empty() else DataTlb(x, e, s, old(dtlb.entries[..]))
    {
      var i := x.outside.inst;
      if illegal {
        o := RaiseException(Csr.Exception(ILLEGAL_INSTRUCTION), x.outside.word);
      } else if IsMemory(i) {
        o := DoMemory(x, e, s, satp, st);
      } else if i.SfenceVma? {
        itlb.Void();
        dtlb.Void();
        o := EndExec(Plus4(core.pc));
      } else {
        o := DoPlain(x, e, s);
      }
    }

    /** CSR instructions and permitted trap returns. */
    method DoSystem(x: Hart.Around, value: nat, ghost e: Env, ghost s: State) returns (o: Outcome, ghost f: Csr.File)
      requires CpuState() == s && IsFor(x, e) && DataIsRead(e, csr.reg)
      requires e.inst.CsrOp? || ((e.inst.Mret? || e.inst.Sret?) && !Forbidden(s, e.inst))
      requires x.outside.inst.CsrOp? ==> x.outside.inst.v == CsrFile.Views(value)
      modifies this`core, csr
      ensures csr.View() == f && ExecOf(o, core, f) == Execute(s, e)
    {
      if x.outside.inst.CsrOp? {
        o, f := DoCsr(x, value, e, s);
      } else {
        o, f := DoReturn(x.outside.inst.Mret?, s);
      }
    }

    /** The registers that translation and the privilege checks look at. */
    method Translation(ghost s: State) returns (satp: Sv39.Satp, m: Csr.Mstatus)
      requires CpuState() == s
      ensures satp == s.csr.reg.satp && m == s.csr.reg.mstatus
    {
      satp, m := csr.reg.satp, Packed.UnpackStatus(csr.reg.mstatus);
    }

    /** The switch over opcodes, up to the labels end_exec and raise_exception. */
    method Dispatch(x: Hart.Around, value: nat, ghost e: Env, ghost s: State)
      returns (o: Outcome, ghost f: Csr.File)
      requires Valid() && CpuState() == s && Answered(x, e, s, dtlb.entries[..]) && DataIsRead(e, csr.reg)
      requires x.outside.inst.CsrOp? ==> x.outside.inst.v == CsrFile.Views(value)
      modifies this`core, csr, itlb.entries, dtlb`hit, dtlb`miss, dtlb.entries
      ensures Valid() && csr.View() == f && ExecOf(o, core, f) == Execute(s, e)
      ensures itlb.entries[..] == if Fences(s, e) then Tlb.Empty() else old(itlb.entries[..])
      ensures dtlb.entries[..] == if Fences(s, e) then Tlb.Empty() else DataTlb(x, e, s, old(dtlb.entries[..]))
    {
      var i := x.outside.inst;
      var satp, m := Translation(s);
      var illegal := IsForbidden(i, m, s);
      if i.CsrOp? || ((i.Mret? || i.Sret?) && !illegal) {
        SystemKeepsTlb(x, e, s, dtlb.entries[..]);
        o, f := DoSystem(x, value, e, s);
      } else {
        o, f := DispatchOther(x, illegal, satp, m.Xlate(), e, s);
      }
    }

    method DispatchOther(x: Hart.Around, illegal: bool, satp: Sv39.Satp, st: Sv39.Status, ghost e: Env, ghost s: State)
      returns (o: Outcome, ghost f: Csr.File)
      requires Valid() && CpuState() == s && Sees(s, satp, st) && Answered(x, e, s, dtlb.entries[..])
      requires illegal == Forbidden(s, e.inst) && !e.inst.CsrOp? && (e.inst.Mret? || e.inst.Sret? ==> illegal)
      modifies this`core, itlb.entries, dtlb`hit, dtlb`miss, dtlb.entries
      ensures Valid() && csr.View() == f && ExecOf(o, core, f) == Execute(s, e)
      ensures itlb.entries[..] == if Fences(s, e) then Tlb.Empty() else old(itlb.entries[..])
      ensures dtlb.entries[..] == if Fences(s, e) then Tlb.Empty() else DataTlb(x, e, s, old(dtlb.entries[..]))
    {
      f := s.csr;
      o := DoOther(x, illegal, satp, st, e, s);
    }

    /** Translation of the program counter and the instruction fetch. */
    method Fetch(x: Hart.Around, ghost e: Env, ghost s: State) returns (fault: Option<nat>)
      requires Valid() && CpuState() == s && IsFor(x, e)
      requires e.fetch == Hart.Lookup(itlb.entries[..], x.mem, s, s.pc, Sv39.Execute, s.priv)
      modifies itlb`hit, itlb`miss, itlb.entries
      ensures Valid() && fault == FetchFault(e)
      ensures itlb.entries[..] == Hart.Refill(old(itlb.entries[..]), x.mem, s, s.pc, Sv39.Execute, s.priv)
    {
      var st := Packed.UnpackStatus(csr.reg.mstatus).Xlate();
      var out := itlb.Lookup(x.mem, core.pc, csr.reg.satp, st, Sv39.Execute, core.priv);
      match out
      case Fault(cause) => fault := Some(cause);
      case Valid(_) => fault := if x.outside.fetchOk then None else Some(INST_ACCESS_FAULT);
    }

    /** From the fetch to the labels. */
    method FetchAndExecute(x: Hart.Around, value: nat, ghost e: Env, ghost s: State)
      returns (o: Outcome, ghost f: Csr.File)
      requires Valid() && CpuState() == s && Answered(x, e, s, dtlb.entries[..]) && DataIsRead(e, csr.reg)
      requires e.fetch == Hart.Lookup(itlb.entries[..], x.mem, s, s.pc, Sv39.Execute, s.priv)
      requires x.outside.inst.CsrOp? ==> x.outside.inst.v == CsrFile.Views(value)
      modifies this`core, csr, itlb`hit, itlb`miss, itlb.entries, dtlb`hit, dtlb`miss, dtlb.entries
      ensures Valid() && csr.View() == f && ExecOf(o, core, f) == Body(s, e)
      ensures itlb.entries[..] == if Reaches(s, e) && Fences(s, e) then Tlb.Empty()
                else Hart.Refill(old(itlb.entries[..]), x.mem, s, s.pc, Sv39.Execute, s.priv)
      ensures dtlb.entries[..] == if !Reaches(s, e) then old(dtlb.entries[..])
                else if Fences(s, e) then Tlb.Empty() else DataTlb(x, e, s, old(dtlb.entries[..]))
    {
      f := s.csr;
      var fault := Fetch(x, e, s);
      if fault.Some? {
        o := RaiseException(Csr.Exception(fault.value), core.pc);
        return;
      }
      var id := csr.PendingAndEnabled(s.csr, core.priv);
      if id.Some? {
        o := RaiseException(Csr.Interrupt(id.value), 0);
        return;
      }
      o, f := Dispatch(x, value, e, s);
    }

    /** raise_exception. */
    method EnterTrap(cause: Csr.Cause, tval: nat, ghost s: State) returns (next: nat, ghost s': State)
      requires CpuState() == s
      modifies this`core, csr
      ensures var t := Csr.TrapEnter(s.csr, cause, tval, s.pc, s.priv);
              next == t.pc && s' == s.(csr := t.file, priv := t.priv)
      ensures CpuState() == s'
    {
      var priv;
      ghost var t := Csr.TrapEnter(s.csr, cause, tval, s.pc, s.priv);
      next, priv := csr.Enter(s.csr, cause, tval, core.pc, core.priv);
      core := core.(priv := priv);
      s' := s.(csr := t.file, priv := t.priv);
    }

    /** end_exec: x0, the new program counter, the flush after a write of satp, and the counters. */
    method EndExecution(next: nat, retired: bool, ghost s: State)
      requires Valid() && CpuState() == s
      modifies this`core, csr, itlb.entries, dtlb.entries
      ensures Valid() && CpuState() == Finish(s, next, retired)
      ensures itlb.entries[..] == if s.csr.satpWritten then Tlb.Empty() else old(itlb.entries[..])
      ensures dtlb.entries[..] == if s.csr.satpWritten then Tlb.Empty() else old(dtlb.entries[..])
    {
      core := core.(regs := if |core.regs| > 0 then core.regs[0 := 0] else core.regs, pc := next);
      if csr.written.satp {
        itlb.Void();
        dtlb.Void();
      }
      csr.End(s.csr, retired);
    }

    /** What follows the labels; b is the execution that led there. */
    method Tail(o: Outcome, ghost b: Exec)
      requires Valid() && ExecOf(o, core, csr.View()) == b
      modifies this`core, csr, itlb.entries, dtlb.entries
      ensures Valid() && CpuState() == Conclude(b)
      ensures itlb.entries[..] == if b.cpu.csr.satpWritten then Tlb.Empty() else old(itlb.entries[..])
      ensures dtlb.entries[..] == if b.cpu.csr.satpWritten then Tlb.Empty() else old(dtlb.entries[..])
    {
      match o
      case EndExec(next) => EndExecution(next, true, b.cpu);
      case RaiseException(cause, tval) =>
        ghost var s';
        var next;
        next, s' := EnterTrap(cause, tval, b.cpu);
        EndExecution(next, false, s');
    }

    /** A step that is not asleep, once csr_begin_update and the wake-up are done. */
    method Awake(x: Hart.Around, value: nat, ghost h: Hart.Hart, ghost e: Env, ghost s: State) returns (ghost b: Exec)
      requires Valid() && h.Shape() && itlb.entries[..] == h.itlb && dtlb.entries[..] == h.dtlb && CpuState() == s
      requires Answered(x, e, s, h.dtlb) && DataIsRead(e, csr.reg)
      requires e.fetch == Hart.Lookup(h.itlb, x.mem, s, s.pc, Sv39.Execute, s.priv)
      requires x.outside.inst.CsrOp? ==> x.outside.inst.v == CsrFile.Views(value)
      modifies this`core, csr, itlb`hit, itlb`miss, itlb.entries, dtlb`hit, dtlb`miss, dtlb.entries
      ensures Valid() && b == Body(s, e) && Stepped(h, x, e, s, b, View())
    {
      var o;
      ghost var f;
      o, f := FetchAndExecute(x, value, e, s);
      b := ExecOf(o, core, f);
      Tail(o, b);
    }

    /** csr_begin_update and the WFI test: whether the step goes on. s is the state before, s' the state if it does. */
    method Wake(x: Hart.Around, ghost e: Env, ghost s: State, ghost s': State) returns (awake: bool)
      requires CpuState() == s && IsFor(x, e) && s' == Begin(s, e).(wfi := false)
      modifies this`core, csr
      ensures awake == !Sleeps(s, e) && CpuState() == if awake then s' else Begin(s, e)
      ensures csr.reg == WithLines(old(csr.reg), x)
    {
      csr.Begin(s.csr, x.outside.meip, x.outside.msip, x.outside.mtip, x.outside.seip);
      awake := true;
      if core.wfi {
        awake := csr.Pending(s'.csr);
        core := core.(wfi := !awake);
      }
    }

    /** The same, as the step of the hart h in the surroundings x'. */
    method GoOn(x: Hart.Around, value: nat, ghost x': Hart.Around, ghost e: Env, ghost h: Hart.Hart, ghost s: State)
      requires Valid() && h.Shape() && itlb.entries[..] == h.itlb && dtlb.entries[..] == h.dtlb && CpuState() == s
      requires !Sleeps(h.cpu, e) && s == Begin(h.cpu, e).(wfi := false) && x'.mem == x.mem
      requires Answered(x, e, s, h.dtlb) && DataIsRead(e, csr.reg)
      requires e.fetch == Hart.Lookup(h.itlb, x.mem, s, s.pc, Sv39.Execute, s.priv)
      requires x.outside.inst.CsrOp? ==> x.outside.inst.v == CsrFile.Views(value)
      modifies this`core, csr, itlb`hit, itlb`miss, itlb.entries, dtlb`hit, dtlb`miss, dtlb.entries
      ensures Valid() && View() == Hart.StepWith(h, x', e)
    {
      ghost var b := Awake(x, value, h, e, s);
      HartSteps(h, x', e, s, b, View());
    }

    /** The processor keeps waiting. */
    ghost method Sleep(x': Hart.Around, e: Env, h: Hart.Hart)
      requires Valid() && h.Shape() && itlb.entries[..] == h.itlb && dtlb.entries[..] == h.dtlb
      requires Sleeps(h.cpu, e) && CpuState() == Begin(h.cpu, e)
      ensures View() == Hart.StepWith(h, x', e)
    {
      HartSleeps(h, x', e);
    }

    /** A step, given the answers e of the TLBs and the data of a CSR instruction, in the surroundings x'. */
    method StepWith(x: Hart.Around, value: nat, ghost x': Hart.Around, ghost e: Env, ghost h: Hart.Hart, ghost s: State,
                    ghost reg: CsrFile.RawRegs)
      requires Valid() && h.Shape() && itlb.entries[..] == h.itlb && dtlb.entries[..] == h.dtlb && CpuState() == h.cpu
      requires s == Begin(h.cpu, e).(wfi := false) && x'.mem == x.mem
      requires x.outside.inst.CsrOp? ==> x.outside.inst.v == CsrFile.Views(value)
      requires reg == WithLines(csr.reg, x) && DataIsRead(e, reg)
      requires Answered(x, e, s, h.dtlb) && e.fetch == Hart.Lookup(h.itlb, x.mem, s, s.pc, Sv39.Execute, s.priv)
      modifies this`core, csr, itlb`hit, itlb`miss, itlb.entries, dtlb`hit, dtlb`miss, dtlb.entries
      ensures Valid() && View() == Hart.StepWith(h, x', e)
    {
      var awake := Wake(x, e, h.cpu, s);
      assert itlb.entries[..] == h.itlb && dtlb.entries[..] == h.dtlb && csr.reg == reg;
      if awake {
        GoOn(x, value, x', e, h, s);
      } else {
        Sleep(x', e, h);
      }
    }

    /** cpu_step is the step of module Hart, for which the theorems are proved. The number a CSR instruction brings to
        rd is the register's, with the interrupt lines of the step; for other instructions it is given by the
        surroundings. */
    method Step(x: Hart.Around, value: nat)
      requires Valid()
      requires x.outside.inst.CsrOp? ==> x.outside.inst.v == CsrFile.Views(value)
      modifies this`core, csr, itlb`hit, itlb`miss, itlb.entries, dtlb`hit, dtlb`miss, dtlb.entries
      ensures Valid() && View() == Hart.Step(old(View()), WithData(x, WithLines(old(csr.reg), x)))
    {
      ghost var h, reg := View(), WithLines(csr.reg, x);
      ghost var x' := WithData(x, reg);
      ghost var e := Hart.Answers(h, x');
      ghost var s := Begin(h.cpu, e).(wfi := false);
      AnswersAreAnswered(h, x, reg, s);
      StepWith(x, value, x', e, h, s, reg);
    }
  }
}
