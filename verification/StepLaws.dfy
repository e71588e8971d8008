/** What one step of the processor does, instruction by instruction, in the terms of the ISA manual: which traps it
    raises with which cause and value, and otherwise what reaches registers, program counter and reservation. The laws
    are about whole steps of module Cpu; privilege levels, causes and sizes are literals. */
module StepLaws {
  import opened Riscv
  import opened Cpu
  import Csr
  import CsrLaws

  /** Privilege and registers as in every reachable state. */
  predicate Sane(s: State) {
    CsrLaws.Legitimate(s.priv) && |s.regs| == 32 && s.regs[0] == 0
  }

  // ---------------------------------------------------------------- the frame of a step

  /** The CSRs with the interrupt lines of the step in mip. */
  function Sampled(s: State, e: Env): Csr.Regs {
    var p := s.csr.reg.irq.pending;
    s.csr.reg.(irq := s.csr.reg.irq.(pending := Csr.Irqs(p.ssi, e.msip, p.sti, e.mtip, e.seip, e.meip, p.other)))
  }

  /** Not waiting for an interrupt, or one is pending. */
  predicate Awake(s: State, e: Env) {
    var p := s.csr.reg.irq.pending;
    !s.wfi || p.ssi || e.msip || p.sti || e.mtip || e.seip || e.meip || p.other
  }

  /** The interrupt to be taken, by the order of the manual. */
  function Due(s: State, e: Env): Option<nat> {
    var r := Sampled(s, e);
    if CsrLaws.MayInterrupt(r, s.priv, 11) then Some(11)
    else if CsrLaws.MayInterrupt(r, s.priv, 3) then Some(3)
    else if CsrLaws.MayInterrupt(r, s.priv, 7) then Some(7)
    else if CsrLaws.MayInterrupt(r, s.priv, 9) then Some(9)
    else if CsrLaws.MayInterrupt(r, s.priv, 1) then Some(1)
    else if CsrLaws.MayInterrupt(r, s.priv, 5) then Some(5)
    else None
  }

  /** The step gets to its instruction. */
  predicate Runs(s: State, e: Env) {
    Awake(s, e) && e.fetch.Valid? && e.fetchOk && Due(s, e).None?
  }

  /** The counters at the end of a step whose instruction wrote neither of them. */
  function Counted(r: Csr.Regs, held: Csr.Counters, retired: bool): Csr.Regs {
    r.(count := r.count.(
         cycle := if held.cy then r.count.cycle else (r.count.cycle + 1) % MODULUS,
         instret := if held.ir || !retired then r.count.instret else (r.count.instret + 1) % MODULUS))
  }

  function Closed(r: Csr.Regs, held: Csr.Counters): Csr.File {
    Csr.File(r, held, false, false, false)
  }

  /** rd gets the value, unless it is x0. */
  function WithReg(regs: seq<nat>, rd: nat, value: nat): seq<nat> {
    if 0 < rd < |regs| then regs[rd := value] else regs
  }

  /** The instruction completes: a value for rd, the next program counter, the reservation. */
  predicate Completes(s: State, e: Env, rd: nat, value: nat, pc: nat, res: Reservation) {
    var held := s.csr.reg.count.inhibit;
    Step(s, e) == State(WithReg(s.regs, rd, value), pc, Closed(Counted(Sampled(s, e), held, true), held), false, s.priv,
                        res)
  }

  /** The step traps. */
  predicate Traps(s: State, e: Env, cause: Csr.Cause, tval: nat, res: Reservation) {
    var r, held := Sampled(s, e), s.csr.reg.count.inhibit;
    Step(s, e) == State(s.regs, CsrLaws.Handler(r, cause, s.priv),
                        Closed(Counted(CsrLaws.Entered(r, cause, tval, s.pc, s.priv), held, false), held),
                        false, CsrLaws.ModeEntered(r, cause, s.priv), res)
  }

  predicate Raises(s: State, e: Env, code: nat, tval: nat) {
    Traps(s, e, Csr.Exception(code), tval, s.res)
  }

  lemma BeginExact(s: State, e: Env)
    ensures Begin(s, e).csr == Closed(Sampled(s, e), s.csr.reg.count.inhibit)
    ensures Begin(s, e) == s.(csr := Begin(s, e).csr)
  {
  }

  /** The three ways a step can go before its instruction. */
  lemma RunsExact(s: State, e: Env)
    ensures Sleeps(s, e) <==> !Awake(s, e)
    ensures TakenInterrupt(s, e) == if Awake(s, e) && e.fetch.Valid? && e.fetchOk then Due(s, e) else None
    ensures Executes(s, e) <==> Runs(s, e)
  {
    BeginExact(s, e);
    CsrLaws.InterruptExact(Sampled(s, e), s.priv);
  }

  lemma DoneIsCompletion(s: State, e: Env, rd: nat, value: nat, pc: nat, res: Reservation)
    requires Sane(s) && Runs(s, e)
    requires var s1 := Begin(s, e).(wfi := false);
             Execute(s1, e) == Done(SetReg(s1, rd, value).(res := res), pc)
    ensures Completes(s, e, rd, value, pc, res)
  {
    RunsExact(s, e);
    BeginExact(s, e);
  }

  /** The tail of a step that traps. */
  lemma TrapConclusion(c: State, cause: Csr.Cause, tval: nat, r: Csr.Regs, held: Csr.Counters)
    requires Sane(c) && c.csr == Closed(r, held)
    ensures Conclude(Raise(c, cause, tval)) ==
            c.(pc := CsrLaws.Handler(r, cause, c.priv), priv := CsrLaws.ModeEntered(r, cause, c.priv),
               csr := Closed(Counted(CsrLaws.Entered(r, cause, tval, c.pc, c.priv), held, false), held))
  {
    CsrLaws.TrapExact(c.csr, cause, tval, c.pc, c.priv);
    CountedTrap(CsrLaws.Entered(r, cause, tval, c.pc, c.priv), held);
    assert c.regs[0 := 0] == c.regs;
  }

  lemma CountedTrap(r: Csr.Regs, held: Csr.Counters)
    ensures Csr.EndUpdate(Closed(r, held), false) == Closed(Counted(r, held, false), held)
  {
  }

  lemma RaiseIsTrap(s: State, e: Env, cause: Csr.Cause, tval: nat, res: Reservation)
    requires Sane(s) && Awake(s, e)
    requires var s1 := Begin(s, e).(wfi := false); Body(s1, e) == Raise(s1.(res := res), cause, tval)
    ensures Traps(s, e, cause, tval, res)
  {
    var c := Begin(s, e).(wfi := false, res := res);
    BeginExact(s, e);
    TrapConclusion(c, cause, tval, Sampled(s, e), s.csr.reg.count.inhibit);
    StepsToBody(s, e);
  }

  lemma StepsToBody(s: State, e: Env)
    requires Awake(s, e)
    ensures Step(s, e) == Conclude(Body(Begin(s, e).(wfi := false), e))
  {
  }

  /** Asleep, nothing happens but the sampling of the lines. */
  lemma SleepLaw(s: State, e: Env)
    requires !Awake(s, e)
    ensures Step(s, e) == s.(csr := Closed(Sampled(s, e), s.csr.reg.count.inhibit))
  {
    RunsExact(s, e);
    BeginExact(s, e);
  }

  /** A failed fetch raises what translation says, or an access fault; then an interrupt that is due is taken. */
  lemma FetchLaw(s: State, e: Env)
    requires Sane(s) && Awake(s, e)
    ensures e.fetch.Fault? ==> Raises(s, e, e.fetch.cause, s.pc)
    ensures e.fetch.Valid? && !e.fetchOk ==> Raises(s, e, 1, s.pc)
    ensures e.fetch.Valid? && e.fetchOk && Due(s, e).Some? ==>
              Traps(s, e, Csr.Interrupt(Due(s, e).value), 0, s.res)
  {
    RunsExact(s, e);
    var s1 := Begin(s, e).(wfi := false);
    assert s1.(res := s.res) == s1;
    match Body(s1, e)
    case Done(_, _) =>
    case Raise(_, cause, tval) =>
      if !Runs(s, e) {
        RaiseIsTrap(s, e, cause, tval, s.res);
      }
  }

  // ---------------------------------------------------------------- plain instructions

  function NextPc(s: State): nat {
    (s.pc + 4) % MODULUS
  }

  lemma QuietCompletion(s: State, e: Env, pc: nat)
    requires Sane(s) && Runs(s, e)
    requires var s1 := Begin(s, e).(wfi := false); Execute(s1, e) == Done(s1, pc)
    ensures Completes(s, e, 0, 0, pc, s.res)
  {
    RunsExact(s, e);
    BeginExact(s, e);
    assert s.regs[0 := 0] == s.regs;
  }

  lemma ExecutedTrap(s: State, e: Env, cause: Csr.Cause, tval: nat, res: Reservation)
    requires Sane(s) && Runs(s, e)
    requires var s1 := Begin(s, e).(wfi := false); Execute(s1, e) == Raise(s1.(res := res), cause, tval)
    ensures Traps(s, e, cause, tval, res)
  {
    RunsExact(s, e);
    RaiseIsTrap(s, e, cause, tval, res);
  }

  /** A computation brings its result to rd; a jump pc + 4, and a taken branch or a jump to an address that is not a
      multiple of 4 raises exception 0 with that address. */
  lemma PlainLaw(s: State, e: Env)
    requires Sane(s) && Runs(s, e)
    ensures e.inst.Compute? ==> Completes(s, e, e.inst.rd, e.inst.result, NextPc(s), s.res)
    ensures e.inst.Jump? ==>
              if e.inst.target % 4 == 0 then Completes(s, e, e.inst.rd, NextPc(s), e.inst.target, s.res)
              else Raises(s, e, 0, e.inst.target)
    ensures e.inst.Branch? ==>
              if !e.inst.taken then Completes(s, e, 0, 0, NextPc(s), s.res)
              else if e.inst.target % 4 == 0 then Completes(s, e, 0, 0, e.inst.target, s.res)
              else Raises(s, e, 0, e.inst.target)
    ensures e.inst.Fence? ==> Completes(s, e, 0, 0, NextPc(s), s.res)
  {
    var s1 := Begin(s, e).(wfi := false);
    BeginExact(s, e);
    assert s1.(res := s.res) == s1;
    match e.inst
    case Compute(rd, result) => DoneIsCompletion(s, e, rd, result, NextPc(s), s.res);
    case Jump(rd, target) =>
      if target % 4 == 0 {
        DoneIsCompletion(s, e, rd, NextPc(s), target, s.res);
      } else {
        ExecutedTrap(s, e, Csr.Exception(0), target, s.res);
      }
    case Branch(taken, target) =>
      if taken && target % 4 != 0 {
        ExecutedTrap(s, e, Csr.Exception(0), target, s.res);
      } else {
        QuietCompletion(s, e, if taken then target else NextPc(s));
      }
    case Fence => QuietCompletion(s, e, NextPc(s));
    case _ =>
  }

  // ---------------------------------------------------------------- memory

  lemma MisalignedExact(a: nat, size: nat)
    requires size == 1 || size == 2 || size == 4 || size == 8
    ensures MisalignedAccess(a, size) <==> a % size != 0
  {
  }

  /** The exception of a load, and of a store: what translation says, then misalignment of the physical address, then
      the bus. */
  function LoadException(e: Env, size: nat, bus: nat): Option<nat> {
    if e.load.Fault? then Some(e.load.cause)
    else if MisalignedAccess(e.load.pa, size) then Some(4)
    else if !e.readOk then Some(bus) else None
  }

  function StoreException(e: Env, size: nat): Option<nat> {
    if e.store.Fault? then Some(e.store.cause)
    else if MisalignedAccess(e.store.pa, size) then Some(6)
    else if !e.writeOk then Some(7) else None
  }

  lemma LoadLaw(s: State, e: Env)
    requires Sane(s) && Runs(s, e) && (e.inst.Load? || e.inst.LoadReserved?)
    ensures match LoadException(e, e.inst.size, 5)
            case Some(code) => Raises(s, e, code, e.inst.va)
            case None =>
              Completes(s, e, e.inst.rd, e.data, NextPc(s),
                        if e.inst.Load? then s.res
                        else Reservation(true, e.inst.va, (e.inst.va + e.inst.size) % MODULUS))
  {
    var s1 := Begin(s, e).(wfi := false);
    BeginExact(s, e);
    assert s1.(res := s.res) == s1;
    match LoadException(e, e.inst.size, 5)
    case Some(code) => ExecutedTrap(s, e, Csr.Exception(code), e.inst.va, s.res);
    case None =>
      DoneIsCompletion(s, e, e.inst.rd, e.data, NextPc(s),
                       if e.inst.Load? then s.res
                       else Reservation(true, e.inst.va, (e.inst.va + e.inst.size) % MODULUS));
  }

  lemma StoreLaw(s: State, e: Env)
    requires Sane(s) && Runs(s, e) && e.inst.Store?
    ensures match StoreException(e, e.inst.size)
            case Some(code) => Raises(s, e, code, e.inst.va)
            case None => Completes(s, e, 0, 0, NextPc(s), s.res)
  {
    var s1 := Begin(s, e).(wfi := false);
    BeginExact(s, e);
    assert s1.(res := s.res) == s1;
    match StoreException(e, e.inst.size)
    case Some(code) => ExecutedTrap(s, e, Csr.Exception(code), e.inst.va, s.res);
    case None => DoneIsCompletion(s, e, 0, 0, NextPc(s), s.res);
  }

  /** A misaligned SC raises exception 6 and keeps the reservation. Any other gives it up: without a fitting one rd
      gets 1 and nothing is stored, with one the store decides, and rd gets 0. */
  lemma ScLaw(s: State, e: Env)
    requires Sane(s) && Runs(s, e) && e.inst.StoreConditional?
    ensures var va, size, spent := e.inst.va, e.inst.size, s.res.(valid := false);
            var fits := s.res.valid && s.res.start <= va <= (s.res.end - size) % MODULUS;
            if MisalignedAccess(va, size) then Raises(s, e, 6, va)
            else if !fits then Completes(s, e, e.inst.rd, 1, NextPc(s), spent)
            else match StoreException(e, size)
              case Some(code) => Traps(s, e, Csr.Exception(code), va, spent)
              case None => Completes(s, e, e.inst.rd, 0, NextPc(s), spent)
  {
    var s1, va, size, spent := Begin(s, e).(wfi := false), e.inst.va, e.inst.size, s.res.(valid := false);
    BeginExact(s, e);
    assert s1.(res := s.res) == s1;
    if MisalignedAccess(va, size) {
      ExecutedTrap(s, e, Csr.Exception(6), va, s.res);
    } else if !(s.res.valid && s.res.start <= va <= (s.res.end - size) % MODULUS) {
      DoneIsCompletion(s, e, e.inst.rd, 1, NextPc(s), spent);
    } else {
      match StoreException(e, size)
      case Some(code) => ExecutedTrap(s, e, Csr.Exception(code), va, spent);
      case None => DoneIsCompletion(s, e, e.inst.rd, 0, NextPc(s), spent);
    }
  }

  /** An AMO checks its address, loads, where the bus's refusal counts as one of the store, and stores. */
  lemma AmoLaw(s: State, e: Env)
    requires Sane(s) && Runs(s, e) && e.inst.AtomicOp?
    ensures var va, size := e.inst.va, e.inst.size;
            if MisalignedAccess(va, size) then Raises(s, e, 6, va)
            else match LoadException(e, size, 7)
              case Some(code) => Raises(s, e, code, va)
              case None =>
                match StoreException(e, size)
                case Some(code) => Raises(s, e, code, va)
                case None => Completes(s, e, e.inst.rd, e.data, NextPc(s), s.res)
  {
    var s1, va, size := Begin(s, e).(wfi := false), e.inst.va, e.inst.size;
    BeginExact(s, e);
    assert s1.(res := s.res) == s1;
    if MisalignedAccess(va, size) {
      ExecutedTrap(s, e, Csr.Exception(6), va, s.res);
    } else if LoadException(e, size, 7).Some? {
      ExecutedTrap(s, e, Csr.Exception(LoadException(e, size, 7).value), va, s.res);
    } else if StoreException(e, size).Some? {
      ExecutedTrap(s, e, Csr.Exception(StoreException(e, size).value), va, s.res);
    } else {
      DoneIsCompletion(s, e, e.inst.rd, e.data, NextPc(s), s.res);
    }
  }

  // ---------------------------------------------------------------- the system instructions

  /** Environment calls are told apart by the mode, 8, 9 and 11; a breakpoint carries its address, an illegal
      instruction its word. */
  lemma EnvironmentLaw(s: State, e: Env)
    requires Sane(s) && Runs(s, e)
    ensures e.inst.Ecall? ==> Raises(s, e, 8 + s.priv, 0)
    ensures e.inst.Ebreak? ==> Raises(s, e, 3, s.pc)
    ensures e.inst.Illegal? ==> Raises(s, e, 2, e.word)
  {
    BeginExact(s, e);
    var s1 := Begin(s, e).(wfi := false);
    assert s1.(res := s.res) == s1;
    match e.inst
    case Ecall => ExecutedTrap(s, e, Csr.Exception(8 + s.priv), 0, s.res);
    case Ebreak => ExecutedTrap(s, e, Csr.Exception(3), s.pc, s.res);
    case Illegal => ExecutedTrap(s, e, Csr.Exception(2), e.word, s.res);
    case _ =>
  }

  /** The step returns from a trap. */
  predicate ReturnsTo(s: State, e: Env, epc: nat, priv: nat, m: Csr.Mstatus) {
    var r, held := Sampled(s, e), s.csr.reg.count.inhibit;
    Step(s, e) == State(s.regs, epc / 4 * 4, Closed(Counted(r.(mstatus := m), held, true), held), false, priv, s.res)
  }

  lemma ReturnIsReturn(s: State, e: Env, t: Csr.Trap)
    requires Sane(s) && Runs(s, e) && Execute(Begin(s, e).(wfi := false), e) == Return(Begin(s, e).(wfi := false), t)
    ensures Step(s, e) == State(s.regs, t.pc, Csr.EndUpdate(t.file, true), false, t.priv, s.res)
  {
    RunsExact(s, e);
    BeginExact(s, e);
    assert s.regs[0 := 0] == s.regs;
  }

  /** MRET is for machine mode; it goes to mepc at the privilege in MPP, MIE gets MPIE, and MPRV stays only for machine
      mode. */
  lemma MretLaw(s: State, e: Env)
    requires Sane(s) && Runs(s, e) && e.inst.Mret?
    ensures var m, r := s.csr.reg.mstatus, s.csr.reg;
            var back := (if m.mppLo then 1 else 0) + (if m.mppHi then 2 else 0);
            if s.priv != 3 then Raises(s, e, 2, e.word)
            else ReturnsTo(s, e, r.m.epc, back, m.(mie := m.mpie, mpie := true, mppLo := false, mppHi := false,
                                                   mprv := m.mprv && back == 3))
  {
    var s1 := Begin(s, e).(wfi := false);
    BeginExact(s, e);
    if Forbidden(s1, e.inst) {
      assert s1.(res := s.res) == s1;
      ExecutedTrap(s, e, Csr.Exception(2), e.word, s.res);
    } else {
      CsrLaws.ReturnExact(s1.csr);
      ReturnIsReturn(s, e, Csr.Mret(s1.csr));
    }
  }

  /** SRET is for supervisor mode without TSR and for machine mode; it goes to sepc at the privilege in SPP, SIE gets
      SPIE, and MPRV is cleared. */
  lemma SretLaw(s: State, e: Env)
    requires Sane(s) && Runs(s, e) && e.inst.Sret?
    ensures var m, r := s.csr.reg.mstatus, s.csr.reg;
            if s.priv == 0 || (s.priv == 1 && m.tsr) then Raises(s, e, 2, e.word)
            else ReturnsTo(s, e, r.s.epc, if m.spp then 1 else 0,
                           m.(sie := m.spie, spie := true, spp := false, mprv := false))
  {
    var s1 := Begin(s, e).(wfi := false);
    BeginExact(s, e);
    if Forbidden(s1, e.inst) {
      assert s1.(res := s.res) == s1;
      ExecutedTrap(s, e, Csr.Exception(2), e.word, s.res);
    } else {
      CsrLaws.ReturnExact(s1.csr);
      ReturnIsReturn(s, e, Csr.Sret(s1.csr));
    }
  }

  /** WFI is not for user mode, nor for supervisor mode under TW; SFENCE.VMA not for user mode, nor for supervisor mode
      under TVM. */
  lemma WaitAndFenceLaw(s: State, e: Env)
    requires Sane(s) && Runs(s, e)
    ensures e.inst.Wfi? ==>
              if s.priv == 0 || (s.priv == 1 && s.csr.reg.mstatus.tw) then Raises(s, e, 2, e.word)
              else
                var held := s.csr.reg.count.inhibit;
                Step(s, e) == State(s.regs, NextPc(s), Closed(Counted(Sampled(s, e), held, true), held), true, s.priv,
                                    s.res)
    ensures e.inst.SfenceVma? ==>
              if s.priv == 0 || (s.priv == 1 && s.csr.reg.mstatus.tvm) then Raises(s, e, 2, e.word)
              else Completes(s, e, 0, 0, NextPc(s), s.res)
  {
    var s1 := Begin(s, e).(wfi := false);
    BeginExact(s, e);
    RunsExact(s, e);
    assert s1.(res := s.res) == s1 && s.regs[0 := 0] == s.regs;
    if (e.inst.Wfi? || e.inst.SfenceVma?) && Forbidden(s1, e.inst) {
      ExecutedTrap(s, e, Csr.Exception(2), e.word, s.res);
    } else if e.inst.SfenceVma? {
      QuietCompletion(s, e, NextPc(s));
    }
  }

  /** A CSR instruction reads unless it is CSRRW to x0, and writes unless it is CSRRS or CSRRC from x0. A legal access
      brings the old value to rd and leaves the file that csr_access leaves; an illegal one is an illegal instruction.
      The shadow of the clock is taken along in both cases. */
  lemma CsrLaw(s: State, e: Env)
    requires Sane(s) && Runs(s, e) && e.inst.CsrOp?
    ensures var i, f := e.inst, Closed(Sampled(s, e), s.csr.reg.count.inhibit);
            var rd, wr := i.rd != 0 || !i.op.Rw?, i.rs1 != 0 || i.op.Rw?;
            var r := f.reg.(mtime := e.time);
            if Csr.Legal(r, i.addr, rd, wr, s.priv) then
              Step(s, e) == State(WithReg(s.regs, i.rd, e.data), NextPc(s),
                                  Csr.EndUpdate(Csr.Access(f, i.addr, i.op, i.v, rd, wr, e.time, s.priv), true),
                                  false, s.priv, s.res)
            else
              var cause, held := Csr.Exception(2), s.csr.reg.count.inhibit;
              Step(s, e) == State(s.regs, CsrLaws.Handler(r, cause, s.priv),
                                  Closed(Counted(CsrLaws.Entered(r, cause, e.word, s.pc, s.priv), held, false), held),
                                  false, CsrLaws.ModeEntered(r, cause, s.priv), s.res)
  {
    var s1, i := Begin(s, e).(wfi := false), e.inst;
    BeginExact(s, e);
    RunsExact(s, e);
    assert s.regs[0 := 0] == s.regs;
    assert Body(s1, e) == ExecCsr(s1, e);
    if !CsrLegal(s1, e) {
      CsrLaws.AccessExact(s1.csr, i.addr, i.op, i.v, CsrReads(i), CsrWrites(i), e.time, s.priv);
      CsrLaws.TrapExact(s1.csr.(reg := s1.csr.reg.(mtime := e.time)), Csr.Exception(2), e.word, s.pc, s.priv);
    }
  }

  /** cpu_init: machine mode at the reset vector with cleared registers. */
  lemma ResetLaw()
    ensures var s := Cpu.Reset();
            && s.pc == 0x8000_0000 && s.priv == 3 && !s.wfi && !s.res.valid && s.csr == Csr.Reset()
            && |s.regs| == 32 && forall k :: 0 <= k < 32 ==> s.regs[k] == 0
  {
  }
}
