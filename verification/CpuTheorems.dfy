/** What holds along whole runs of the processor: machine-mode state is out of reach of lower modes, a taken
    interrupt stays masked, and trap returns restore the interrupted context. */
module CpuTheorems {
  import opened Riscv
  import opened Cpu
  import opened CpuRuns
  import Csr
  import Sv39

  // ---------------------------------------------------------------- isolation of machine mode

  /** The part of the CSR file that belongs to machine mode. */
  datatype MachinePart = MachinePart(
    mstatus: Csr.Mstatus, misa: nat, medeleg: set<nat>, mideleg: Csr.Irqs, mie: Csr.Irqs, traps: Csr.TrapRegs,
    mcounteren: Csr.Counters, mcountinhibit: Csr.Counters)

  /** Cleared in the part: SIE, SPIE, SPP, SUM and MXR of mstatus, and the mie bits of delegated interrupts. */
  function Machine(r: Csr.Regs): MachinePart {
    var d, mie := r.irq.deleg, r.irq.enable;
    MachinePart(
      r.mstatus.(sie := false, spie := false, spp := false, sum := false, mxr := false),
      r.misa, r.medeleg, d,
      mie.(ssi := mie.ssi && !d.ssi, sti := mie.sti && !d.sti, sei := mie.sei && !d.sei),
      r.m, r.count.menable, r.count.inhibit)
  }

  /** A rejected access changes nothing but the shadow of the clock. */
  lemma RejectedAccess(f: Csr.File, addr: nat, op: Csr.Op, v: Csr.Written, read: bool, write: bool, time: nat,
                       priv: nat)
    requires !Csr.Legal(f.reg, addr, read, write, priv)
    ensures Csr.Access(f, addr, op, v, read, write, time, priv) == f.(reg := f.reg.(mtime := time))
  {
  }

  lemma LowerAccess(f: Csr.File, addr: nat, op: Csr.Op, v: Csr.Written, read: bool, write: bool, time: nat, priv: nat)
    requires Csr.Inv(f.reg, priv) && priv < PRIV_M
    ensures Machine(Csr.Access(f, addr, op, v, read, write, time, priv).reg) == Machine(f.reg)
  {
    var r := f.reg.(mtime := time);
    if Csr.Legal(r, addr, read, write, priv) && write {
      LowerPut(r, Csr.Decode(addr).value, op, v);
    }
  }

  predicate LowerName(n: Csr.Name) {
    n.Sstatus? || n.Sie? || n.Stvec? || n.Scounteren? || n.Sscratch? || n.Sepc? || n.Scause? || n.Stval? || n.Sip?
    || n.Satp? || n.Cycle? || n.Time? || n.Instret?
  }

  lemma LowerPut(r: Csr.Regs, n: Csr.Name, op: Csr.Op, v: Csr.Written)
    requires LowerName(n)
    ensures Machine(Csr.Put(r, n, op, v)) == Machine(r)
  {
  }

  lemma LowerCsr(s: State, e: Env)
    requires MidOk(s) && s.priv < PRIV_M && e.inst.CsrOp?
    ensures Machine(ExecCsr(s, e).cpu.csr.reg) == Machine(s.csr.reg)
    ensures ExecCsr(s, e).cpu.priv == s.priv
  {
    var i := e.inst;
    LowerAccess(s.csr, i.addr, i.op, i.v, CsrReads(i), CsrWrites(i), e.time, s.priv);
  }

  lemma LowerExecute(s: State, e: Env)
    requires MidOk(s) && s.priv < PRIV_M
    ensures Machine(Execute(s, e).cpu.csr.reg) == Machine(s.csr.reg)
    ensures Execute(s, e).cpu.priv < PRIV_M
  {
    if !Forbidden(s, e.inst) {
      if e.inst.CsrOp? {
        LowerCsr(s, e);
      } else if e.inst.Sret? {
        assert Execute(s, e) == Return(s, Csr.Sret(s.csr));
      } else {
        PlainKeeps(s, e);
        assert Execute(s, e) == ExecPlain(s, e);
      }
    }
  }

  lemma LowerBody(s: State, e: Env)
    requires MidOk(s) && s.priv < PRIV_M
    ensures Machine(Body(s, e).cpu.csr.reg) == Machine(s.csr.reg)
    ensures Body(s, e).cpu.priv < PRIV_M
  {
    LowerExecute(s, e);
  }

  lemma LowerStep(s: State, e: Env)
    requires Ok(s) && s.priv < PRIV_M && Step(s, e).priv < PRIV_M
    ensures Machine(Step(s, e).csr.reg) == Machine(s.csr.reg)
  {
    if !Sleeps(s, e) {
      var s1 := Begin(s, e).(wfi := false);
      LowerBody(s1, e);
      LowerConclude(Body(s1, e));
    }
  }

  lemma LowerConclude(x: Exec)
    requires x.cpu.priv < PRIV_M && Conclude(x).priv < PRIV_M
    ensures Machine(Conclude(x).csr.reg) == Machine(x.cpu.csr.reg)
  {
  }

  /** A run that never enters machine mode leaves the machine-mode part of the CSR file as it found it. */
  lemma {:induction false} LowerModesCannotTouchMachine(s: State, evs: seq<Event>)
    requires Ok(s)
    requires forall k :: 0 <= k <= |evs| ==> Run(s, evs[..k]).priv < PRIV_M
    ensures Machine(Run(s, evs).csr.reg) == Machine(s.csr.reg)
    ensures Ok(Run(s, evs))
  {
    if evs == [] {
    } else {
      var before := evs[..|evs| - 1];
      assert evs[..|evs|] == evs;
      assert forall k :: 0 <= k <= |before| ==> before[..k] == evs[..k];
      LowerModesCannotTouchMachine(s, before);
      NextOk(Run(s, before), evs[|evs| - 1]);
      match evs[|evs| - 1]
      case Tick(env) => LowerStep(Run(s, before), env);
      case Reboot =>
    }
  }

  // ---------------------------------------------------------------- isolation of the supervisor from user mode

  /** All registers but the interrupt lines, the running counters and the shadow of the clock. */
  function Settings(r: Csr.Regs): Csr.Regs {
    r.(irq := r.irq.(pending := Csr.ALL_BITS), count := r.count.(cycle := 0, instret := 0), mtime := 0)
  }

  lemma UserAccess(f: Csr.File, addr: nat, op: Csr.Op, v: Csr.Written, read: bool, write: bool, time: nat)
    ensures Settings(Csr.Access(f, addr, op, v, read, write, time, PRIV_U).reg) == Settings(f.reg)
  {
  }

  lemma UserExecute(s: State, e: Env)
    requires s.priv == PRIV_U
    ensures Settings(Execute(s, e).cpu.csr.reg) == Settings(s.csr.reg)
  {
    if e.inst.CsrOp? {
      var i := e.inst;
      UserAccess(s.csr, i.addr, i.op, i.v, CsrReads(i), CsrWrites(i), e.time);
    } else if !Forbidden(s, e.inst) {
      PlainKeeps(s, e);
    }
  }

  lemma UserStep(s: State, e: Env)
    requires Ok(s) && s.priv == PRIV_U && Step(s, e).priv == PRIV_U
    ensures Settings(Step(s, e).csr.reg) == Settings(s.csr.reg)
  {
    if !Sleeps(s, e) {
      var s1 := Begin(s, e).(wfi := false);
      UserExecute(s1, e);
      UserConclude(Body(s1, e));
    }
  }

  /** A trap would have left user mode. */
  lemma UserConclude(x: Exec)
    requires Conclude(x).priv == PRIV_U
    ensures x.Done? && Settings(Conclude(x).csr.reg) == Settings(x.cpu.csr.reg)
  {
  }

  /** A run that stays in user mode leaves every setting of supervisor and machine mode as it found it: satp, the trap
      registers, mstatus, mie, the delegation and the enable registers. */
  lemma {:induction false} UserModeCannotTouchSupervisor(s: State, evs: seq<Event>)
    requires Ok(s)
    requires forall k :: 0 <= k <= |evs| ==> Run(s, evs[..k]).priv == 0
    ensures var r, r' := s.csr.reg, Run(s, evs).csr.reg;
            && r'.satp == r.satp && r'.mstatus == r.mstatus && r'.s == r.s && r'.m == r.m && r'.medeleg == r.medeleg
            && r'.irq.enable == r.irq.enable && r'.irq.deleg == r.irq.deleg && r'.misa == r.misa
            && r'.count.senable == r.count.senable && r'.count.menable == r.count.menable
            && r'.count.inhibit == r.count.inhibit
    ensures Settings(Run(s, evs).csr.reg) == Settings(s.csr.reg) && Ok(Run(s, evs))
  {
    if evs == [] {
    } else {
      var before := evs[..|evs| - 1];
      assert evs[..|evs|] == evs;
      assert forall k :: 0 <= k <= |before| ==> before[..k] == evs[..k];
      UserModeCannotTouchSupervisor(s, before);
      NextOk(Run(s, before), evs[|evs| - 1]);
      match evs[|evs| - 1]
      case Tick(env) => UserStep(Run(s, before), env);
      case Reboot =>
    }
  }

  // ---------------------------------------------------------------- interrupts

  /** The mode check_interrupt computes for an interrupt. */
  function InterruptMode(r: Csr.Regs, id: nat): nat {
    if r.irq.deleg.Has(id) then PRIV_S else PRIV_M
  }

  /** The mode whose handler the step enters by an interrupt. */
  function TakenInto(s: State, e: Env): Option<nat> {
    match TakenInterrupt(s, e)
    case None => None
    case Some(id) => Some(InterruptMode(s.csr.reg, id))
  }

  /** The interrupt selected is the first of the scan order that is pending, enabled and not masked; trap entry
      goes to the very mode the selection computed, which is never below the current one. */
  lemma SelectedInterruptIsTaken(s: State, e: Env, id: nat)
    requires Ok(s) && TakenInterrupt(s, e) == Some(id)
    ensures var mode := InterruptMode(s.csr.reg, id);
            && Step(s, e).priv == mode && mode >= s.priv
            && (if mode == PRIV_M then !Step(s, e).csr.reg.mstatus.mie else !Step(s, e).csr.reg.mstatus.sie)
            && Csr.Fires(Begin(s, e).csr.reg, s.priv, id)
            && exists k :: 0 <= k < 6 && Csr.SCAN[k] == id
                           && forall j :: 0 <= j < k ==> !Csr.Fires(Begin(s, e).csr.reg, s.priv, Csr.SCAN[j])
  {
    FirstOfScan(Begin(s, e).csr.reg, s.priv, 0);
  }

  lemma {:induction false} FirstOfScan(r: Csr.Regs, priv: nat, k: nat)
    requires k <= 6 && Csr.Select(r, priv, k).Some?
    ensures exists i :: k <= i < 6 && Csr.SCAN[i] == Csr.Select(r, priv, k).value
                        && forall j :: k <= j < i ==> !Csr.Fires(r, priv, Csr.SCAN[j])
    decreases 6 - k
  {
    if !Csr.Fires(r, priv, Csr.SCAN[k]) {
      FirstOfScan(r, priv, k + 1);
    }
  }

  /** Interrupts into `mode` are masked. */
  predicate MaskedFor(s: State, mode: nat) {
    if mode == PRIV_M then s.priv == PRIV_M && !s.csr.reg.mstatus.mie
    else s.priv == PRIV_M || (s.priv == PRIV_S && !s.csr.reg.mstatus.sie)
  }

  /** The instructions that can unmask: a write of mstatus or sstatus, and the trap returns. */
  predicate CanUnmask(i: Inst) {
    i.Mret? || i.Sret? || (i.CsrOp? && CsrWrites(i) && (i.addr == 0x100 || i.addr == 0x300))
  }

  predicate Unmasks(s: State, ev: Event) {
    ev.Tick? && Executes(s, ev.env) && CanUnmask(ev.env.inst)
  }

  /** The registers other than mstatus, sstatus and sepc. */
  lemma OtherPutKeeps(r: Csr.Regs, n: Csr.Name, op: Csr.Op, v: Csr.Written)
    requires !n.Sstatus? && !n.Mstatus_?
    ensures Csr.Put(r, n, op, v).mstatus == r.mstatus && (!n.Sepc? ==> Csr.Put(r, n, op, v).s.epc == r.s.epc)
  {
  }

  lemma OtherAccessKeepsStatus(f: Csr.File, addr: nat, op: Csr.Op, v: Csr.Written, read: bool, write: bool, time: nat,
                               priv: nat)
    requires addr != 0x100 && addr != 0x300
    ensures Csr.Access(f, addr, op, v, read, write, time, priv).reg.mstatus == f.reg.mstatus
  {
    var r := f.reg.(mtime := time);
    if Csr.Legal(r, addr, read, write, priv) && write {
      OtherPutKeeps(r, Csr.Decode(addr).value, op, v);
    }
  }

  lemma ExecuteKeepsStatus(s: State, e: Env)
    requires !CanUnmask(e.inst)
    ensures Execute(s, e).cpu.csr.reg.mstatus == s.csr.reg.mstatus && Execute(s, e).cpu.priv == s.priv
  {
    if e.inst.CsrOp? {
      var i := e.inst;
      if CsrWrites(i) {
        OtherAccessKeepsStatus(s.csr, i.addr, i.op, i.v, CsrReads(i), CsrWrites(i), e.time, s.priv);
      }
    } else {
      PlainKeeps(s, e);
    }
  }

  lemma ConcludeStaysMasked(x: Exec, mode: nat)
    requires mode == PRIV_S || mode == PRIV_M
    requires MaskedFor(x.cpu, mode)
    ensures MaskedFor(Conclude(x), mode)
  {
  }

  lemma MaskedStep(s: State, ev: Event, mode: nat)
    requires Ok(s) && (mode == PRIV_S || mode == PRIV_M) && MaskedFor(s, mode) && !Unmasks(s, ev)
    ensures MaskedFor(Next(s, ev), mode)
  {
    match ev
    case Reboot =>
    case Tick(e) =>
      if !Sleeps(s, e) {
        var s1 := Begin(s, e).(wfi := false);
        if Executes(s, e) {
          ExecuteKeepsStatus(s1, e);
        }
        ConcludeStaysMasked(Body(s1, e), mode);
      }
  }

  /** Once an interrupt has entered a mode, no run takes another one into that mode before the next write of
      mstatus or sstatus or the next trap return. */
  lemma {:induction false} NoReentrantInterrupt(s: State, e: Env, mode: nat, evs: seq<Event>)
    requires Ok(s) && TakenInto(s, e) == Some(mode)
    requires forall k :: 0 <= k < |evs| - 1 ==> !Unmasks(Run(Step(s, e), evs[..k]), evs[k])
    ensures forall k :: 0 <= k < |evs| && evs[k].Tick? ==>
        TakenInto(Run(Step(s, e), evs[..k]), evs[k].env) != Some(mode)
  {
    SelectedInterruptIsTaken(s, e, TakenInterrupt(s, e).value);
    StepOk(s, e);
    forall k | 0 <= k < |evs| && evs[k].Tick?
      ensures TakenInto(Run(Step(s, e), evs[..k]), evs[k].env) != Some(mode)
    {
      forall j | 0 <= j < k
        ensures !Unmasks(Run(Step(s, e), evs[..k][..j]), evs[..k][j])
      {
        assert evs[..k][..j] == evs[..j];
      }
      StaysMasked(Step(s, e), mode, evs[..k]);
      MaskedTakesNone(Run(Step(s, e), evs[..k]), evs[k].env, mode);
    }
  }

  lemma MaskedTakesNone(s: State, e: Env, mode: nat)
    requires Ok(s) && (mode == PRIV_S || mode == PRIV_M) && MaskedFor(s, mode)
    ensures TakenInto(s, e) != Some(mode)
  {
  }

  lemma {:induction false} StaysMasked(s: State, mode: nat, evs: seq<Event>)
    requires Ok(s) && (mode == PRIV_S || mode == PRIV_M) && MaskedFor(s, mode)
    requires forall k :: 0 <= k < |evs| ==> !Unmasks(Run(s, evs[..k]), evs[k])
    ensures Ok(Run(s, evs)) && MaskedFor(Run(s, evs), mode)
  {
    if evs == [] {
    } else {
      var before := evs[..|evs| - 1];
      forall k | 0 <= k < |before|
        ensures !Unmasks(Run(s, before[..k]), before[k])
      {
        assert before[..k] == evs[..k];
      }
      StaysMasked(s, mode, before);
      NextOk(Run(s, before), evs[|evs| - 1]);
      MaskedStep(Run(s, before), evs[|evs| - 1], mode);
    }
  }

  // ---------------------------------------------------------------- trap entry and return

  /** A trap into machine mode and its MRET: the context is back, and only MPIE, MPP and the trap registers differ. */
  lemma MachineRoundTrip(f: Csr.File, cause: Csr.Cause, tval: nat, pc: nat, priv: nat)
    requires Csr.Inv(f.reg, priv) && pc % 4 == 0 && Csr.Target(f.reg, cause, priv) == PRIV_M
    ensures var back := Csr.Mret(Csr.TrapEnter(f, cause, tval, pc, priv).file);
            && back.pc == pc && back.priv == priv
            && back.file.reg.mstatus == f.reg.mstatus.(mpie := true, mppLo := false, mppHi := false)
            && back.file == f.(reg := f.reg.(mstatus := back.file.reg.mstatus,
                                             m := f.reg.m.(epc := pc, tval := tval, cause := Csr.CauseWord(cause))))
  {
  }

  /** The same for supervisor mode and SRET. */
  lemma SupervisorRoundTrip(f: Csr.File, cause: Csr.Cause, tval: nat, pc: nat, priv: nat)
    requires Csr.Inv(f.reg, priv) && pc % 4 == 0 && Csr.Target(f.reg, cause, priv) == PRIV_S
    ensures var back := Csr.Sret(Csr.TrapEnter(f, cause, tval, pc, priv).file);
            && back.pc == pc && back.priv == priv
            && back.file.reg.mstatus == f.reg.mstatus.(spie := true, spp := false)
            && back.file == f.(reg := f.reg.(mstatus := back.file.reg.mstatus,
                                             s := f.reg.s.(epc := pc, tval := tval, cause := Csr.CauseWord(cause))))
  {
  }

  /** No trap return, and no write of mstatus, sstatus or sepc. */
  predicate Gentle(i: Inst) {
    !i.Mret? && !i.Sret? && !(i.CsrOp? && CsrWrites(i) && (i.addr == 0x100 || i.addr == 0x300 || i.addr == 0x141))
  }

  /** A step of a supervisor handler, or of the machine-mode excursions out of it, that leaves the saved context to the
      trap logic: the processor sleeps or completes an instruction that is neither a trap return nor a write of mstatus,
      sstatus or sepc; any trap into machine mode leaves the handler; an MRET resumes it. */
  predicate HandlerStep(s: State, e: Env) {
    || Sleeps(s, e)
    || (Executes(s, e) && Gentle(e.inst) && Body(Begin(s, e).(wfi := false), e).Done?)
    || (s.priv == PRIV_S && Step(s, e).priv == PRIV_M && Body(Begin(s, e).(wfi := false), e).Raise?)
    || (s.priv == PRIV_M && Executes(s, e) && e.inst.Mret?)
  }

  /** What a handler entered from context (pc, priv, m) finds in privilege, sepc and mstatus: the saved context. */
  predicate Saved(now: nat, sepc: nat, c: Csr.Mstatus, pc: nat, priv: nat, m: Csr.Mstatus) {
    && sepc == pc
    && c.spie == m.sie && c.spp == (priv == PRIV_S)
    && (if now == PRIV_S then c.mie == m.mie else now == PRIV_M && c.mpie == m.mie && !c.mie && c.mppLo && !c.mppHi)
    && c == m.(sie := false, spie := c.spie, spp := c.spp, mie := c.mie, mpie := c.mpie, mppLo := c.mppLo,
               mppHi := c.mppHi)
  }

  predicate InHandler(s: State, pc: nat, priv: nat, m: Csr.Mstatus) {
    Saved(s.priv, s.csr.reg.s.epc, s.csr.reg.mstatus, pc, priv, m)
  }

  /** The tail of the step after a completed instruction and after a trap into either mode. */
  lemma ConcludeEffect(x: Exec)
    ensures var s, c := Conclude(x), x.cpu;
            var m := c.csr.reg.mstatus;
            && (x.Done? ==>
                  && s.priv == c.priv && s.pc == x.next
                  && s.csr.reg.mstatus == m && s.csr.reg.s.epc == c.csr.reg.s.epc)
            && (x.Raise? && s.priv == PRIV_M ==>
                  && s.csr.reg.s.epc == c.csr.reg.s.epc
                  && s.csr.reg.mstatus == m.(mpie := m.mie, mie := false, mppLo := Csr.LowBit(c.priv),
                                             mppHi := Csr.HighBit(c.priv)))
            && (x.Raise? && s.priv == PRIV_S ==>
                  && s.csr.reg.s.epc == Csr.Align(c.pc)
                  && s.csr.reg.mstatus == m.(spie := m.sie, sie := false, spp := Csr.LowBit(c.priv)))
            && (x.Raise? ==> s.priv == PRIV_M || s.priv == PRIV_S)
  {
  }

  lemma OtherAccessKeepsContext(f: Csr.File, addr: nat, op: Csr.Op, v: Csr.Written, read: bool, write: bool, time: nat,
                                priv: nat)
    requires !Csr.Legal(f.reg.(mtime := time), addr, read, write, priv) || !write
        || (addr != 0x100 && addr != 0x300 && addr != 0x141)
    ensures var f' := Csr.Access(f, addr, op, v, read, write, time, priv);
            f'.reg.mstatus == f.reg.mstatus && f'.reg.s.epc == f.reg.s.epc
  {
    var r := f.reg.(mtime := time);
    if Csr.Legal(r, addr, read, write, priv) && write {
      OtherPutKeeps(r, Csr.Decode(addr).value, op, v);
    }
  }

  /** A CSR instruction that is rejected, writes nothing or writes another register. */
  lemma CsrKeeps(s: State, e: Env)
    requires e.inst.CsrOp? && (Gentle(e.inst) || ExecCsr(s, e).Raise?)
    ensures var c := ExecCsr(s, e).cpu;
            && c.csr.reg.mstatus == s.csr.reg.mstatus && c.csr.reg.s.epc == s.csr.reg.s.epc
            && c.priv == s.priv && c.pc == s.pc
  {
    var i := e.inst;
    OtherAccessKeepsContext(s.csr, i.addr, i.op, i.v, CsrReads(i), CsrWrites(i), e.time, s.priv);
  }

  lemma ExecuteKeeps(s: State, e: Env)
    requires Gentle(e.inst) || Execute(s, e).Raise?
    ensures var c := Execute(s, e).cpu;
            && c.csr.reg.mstatus == s.csr.reg.mstatus && c.csr.reg.s.epc == s.csr.reg.s.epc
            && c.priv == s.priv && c.pc == s.pc
  {
    if e.inst.CsrOp? {
      CsrKeeps(s, e);
    } else {
      PlainKeeps(s, e);
    }
  }

  /** Before the tail, a step that traps, and one that completes a gentle instruction, have kept privilege, program
      counter, mstatus and sepc. */
  lemma BodyKeeps(s: State, e: Env)
    requires !Sleeps(s, e)
    requires Body(Begin(s, e).(wfi := false), e).Raise? || (Executes(s, e) && Gentle(e.inst))
    ensures var c := Body(Begin(s, e).(wfi := false), e).cpu;
            && c.csr.reg.mstatus == s.csr.reg.mstatus && c.csr.reg.s.epc == s.csr.reg.s.epc
            && c.priv == s.priv && c.pc == s.pc
  {
    var s1 := Begin(s, e).(wfi := false);
    if Executes(s, e) {
      assert Body(s1, e) == Execute(s1, e);
      ExecuteKeeps(s1, e);
    }
  }

  function TrapStatus(m: Csr.Mstatus, priv: nat): Csr.Mstatus {
    m.(mpie := m.mie, mie := false, mppLo := Csr.LowBit(priv), mppHi := Csr.HighBit(priv))
  }

  function MretStatus(m: Csr.Mstatus): Csr.Mstatus {
    m.(mie := m.mpie, mpie := true, mppLo := false, mppHi := false, mprv := m.mprv && m.Mpp() >= PRIV_M)
  }

  /** The three things a handler step can do to privilege and mstatus; sepc stays. */
  lemma HandlerStepEffect(s: State, e: Env)
    requires HandlerStep(s, e)
    ensures var s', m := Step(s, e), s.csr.reg.mstatus;
            && s'.csr.reg.s.epc == s.csr.reg.s.epc
            && (|| (s'.priv == s.priv && s'.csr.reg.mstatus == m)
                || (s.priv == PRIV_S && s'.priv == PRIV_M && s'.csr.reg.mstatus == TrapStatus(m, PRIV_S))
                || (s.priv == PRIV_M && s'.priv == m.Mpp() && s'.csr.reg.mstatus == MretStatus(m)))
  {
    if !Sleeps(s, e) {
      var s1 := Begin(s, e).(wfi := false);
      if s.priv == PRIV_M && Executes(s, e) && e.inst.Mret? {
        MretEffect(s, e);
      } else {
        BodyKeeps(s, e);
        ConcludeEffect(Body(s1, e));
      }
    }
  }

  lemma MretEffect(s: State, e: Env)
    requires s.priv == PRIV_M && Executes(s, e) && e.inst.Mret?
    ensures var s', m := Step(s, e), s.csr.reg.mstatus;
            s'.csr.reg.s.epc == s.csr.reg.s.epc && s'.priv == m.Mpp() && s'.csr.reg.mstatus == MretStatus(m)
  {
    var s1 := Begin(s, e).(wfi := false);
    assert Body(s1, e) == Return(s1, Csr.Mret(s1.csr));
    ConcludeEffect(Body(s1, e));
  }

  lemma SavedByTrap(sepc: nat, c: Csr.Mstatus, pc: nat, priv: nat, m: Csr.Mstatus)
    requires Saved(PRIV_S, sepc, c, pc, priv, m)
    ensures Saved(PRIV_M, sepc, TrapStatus(c, PRIV_S), pc, priv, m)
  {
  }

  lemma SavedByMret(sepc: nat, c: Csr.Mstatus, pc: nat, priv: nat, m: Csr.Mstatus)
    requires !m.mprv && Saved(PRIV_M, sepc, c, pc, priv, m)
    ensures c.Mpp() == PRIV_S && Saved(PRIV_S, sepc, MretStatus(c), pc, priv, m)
  {
  }

  lemma SavedStep(now: nat, now': nat, sepc: nat, c: Csr.Mstatus, c': Csr.Mstatus, pc: nat, priv: nat, m: Csr.Mstatus)
    requires Saved(now, sepc, c, pc, priv, m) && !m.mprv
    requires || (now' == now && c' == c)
             || (now == PRIV_S && now' == PRIV_M && c' == TrapStatus(c, PRIV_S))
             || (now == PRIV_M && now' == c.Mpp() && c' == MretStatus(c))
    ensures Saved(now', sepc, c', pc, priv, m)
  {
    if now == PRIV_S {
      SavedByTrap(sepc, c, pc, priv, m);
    } else {
      SavedByMret(sepc, c, pc, priv, m);
    }
  }

  lemma HandlerStepKeeps(s: State, e: Env, pc: nat, priv: nat, m: Csr.Mstatus)
    requires HandlerStep(s, e) && InHandler(s, pc, priv, m) && !m.mprv && priv <= PRIV_S
    ensures InHandler(Step(s, e), pc, priv, m)
  {
    var s' := Step(s, e);
    HandlerStepEffect(s, e);
    SavedStep(s.priv, s'.priv, s.csr.reg.s.epc, s.csr.reg.mstatus, s'.csr.reg.mstatus, pc, priv, m);
  }

  lemma {:induction false} HandlerRunKeeps(s: State, evs: seq<Env>, pc: nat, priv: nat, m: Csr.Mstatus)
    requires Ok(s) && InHandler(s, pc, priv, m) && !m.mprv && priv <= PRIV_S
    requires forall k :: 0 <= k < |evs| ==> HandlerStep(Steps(s, evs[..k]), evs[k])
    ensures Ok(Steps(s, evs)) && InHandler(Steps(s, evs), pc, priv, m)
  {
    if evs == [] {
    } else {
      var before := evs[..|evs| - 1];
      forall k | 0 <= k < |before|
        ensures HandlerStep(Steps(s, before[..k]), before[k])
      {
        assert before[..k] == evs[..k];
      }
      HandlerRunKeeps(s, before, pc, priv, m);
      StepOk(Steps(s, before), evs[|evs| - 1]);
      HandlerStepKeeps(Steps(s, before), evs[|evs| - 1], pc, priv, m);
    }
  }

  function Steps(s: State, evs: seq<Env>): State {
    if evs == [] then s else Step(Steps(s, evs[..|evs| - 1]), evs[|evs| - 1])
  }

  /** The step traps from a lower mode into supervisor mode. */
  predicate TrapsToSupervisor(s: State, e: Env) {
    !Sleeps(s, e) && Body(Begin(s, e).(wfi := false), e).Raise? && s.priv < PRIV_M && Step(s, e).priv == PRIV_S
  }

  ghost predicate HandlerRun(s: State, evs: seq<Env>) {
    forall k :: 0 <= k < |evs| ==> HandlerStep(Steps(s, evs[..k]), evs[k])
  }

  /** The step executes a permitted SRET in supervisor mode. */
  predicate Sreturns(s: State, e: Env) {
    s.priv == PRIV_S && Executes(s, e) && e.inst.Sret? && !Forbidden(Begin(s, e), Sret)
  }

  /** A trap into supervisor mode, then a handler with any number of machine traps and MRETs inside it, then SRET:
      program counter, privilege and mstatus are those of the interrupted program, up to SPIE, SPP, MPIE and MPP. */
  lemma NestedTrapRestores(s: State, e: Env, evs: seq<Env>, last: Env)
    requires Ok(s) && TrapsToSupervisor(s, e) && HandlerRun(Step(s, e), evs) && Sreturns(Steps(Step(s, e), evs), last)
    ensures var s' := Step(Steps(Step(s, e), evs), last);
            var m := s'.csr.reg.mstatus;
            && s'.pc == s.pc && s'.priv == s.priv
            && m == s.csr.reg.mstatus.(spie := m.spie, spp := m.spp, mpie := m.mpie, mppLo := m.mppLo, mppHi := m.mppHi)
  {
    var m := s.csr.reg.mstatus;
    TrapEntersHandler(s, e);
    StepOk(s, e);
    HandlerRunKeeps(Step(s, e), evs, s.pc, s.priv, m);
    SretLeavesHandler(Steps(Step(s, e), evs), last, s.pc, s.priv, m);
  }

  lemma TrapEntersHandler(s: State, e: Env)
    requires Ok(s) && TrapsToSupervisor(s, e)
    ensures InHandler(Step(s, e), s.pc, s.priv, s.csr.reg.mstatus)
  {
    BodyKeeps(s, e);
    ConcludeEffect(Body(Begin(s, e).(wfi := false), e));
  }

  lemma SretLeavesHandler(h: State, last: Env, pc: nat, priv: nat, m: Csr.Mstatus)
    requires InHandler(h, pc, priv, m) && !m.mprv && priv <= PRIV_S && pc % 4 == 0
    requires Sreturns(h, last)
    ensures var s' := Step(h, last);
            var c := s'.csr.reg.mstatus;
            && s'.pc == pc && s'.priv == priv
            && c == m.(spie := c.spie, spp := c.spp, mpie := c.mpie, mppLo := c.mppLo, mppHi := c.mppHi)
  {
    var h1 := Begin(h, last).(wfi := false);
    assert Body(h1, last) == Return(h1, Csr.Sret(h1.csr));
    ConcludeEffect(Body(h1, last));
  }

  // ---------------------------------------------------------------- such runs exist

  /** A step with no interrupt line raised, whose accesses succeed. */
  function Quiet(inst: Inst): Env {
    Env(false, false, false, false, 0, inst, 0, Sv39.Valid(0), Sv39.Valid(0), Sv39.Valid(0), true, true, true, 0)
  }

  /** Awake, with nothing pending, and with environment calls from user mode delegated. */
  predicate Calm(s: State) {
    && !s.wfi && !s.csr.reg.irq.pending.Any() && s.csr.reg.medeleg == {ECALL_FROM_U_MODE}
    && !s.csr.reg.mstatus.tsr
  }

  lemma QuietExecutes(s: State, inst: Inst)
    requires Calm(s)
    ensures Executes(s, Quiet(inst)) && !Sleeps(s, Quiet(inst))
    ensures Begin(s, Quiet(inst)).csr.reg.mstatus == s.csr.reg.mstatus
  {
  }

  lemma EcallFromUser(s: State)
    requires Calm(s) && s.priv == PRIV_U
    ensures TrapsToSupervisor(s, Quiet(Ecall)) && Calm(Step(s, Quiet(Ecall)))
  {
    QuietExecutes(s, Ecall);
    assert Body(Begin(s, Quiet(Ecall)).(wfi := false), Quiet(Ecall)).Raise?;
  }

  lemma IllegalInHandler(s: State)
    requires Calm(s) && s.priv == PRIV_S
    ensures var s' := Step(s, Quiet(Illegal));
            HandlerStep(s, Quiet(Illegal)) && Calm(s') && s'.priv == PRIV_M && s'.csr.reg.mstatus.Mpp() == PRIV_S
  {
    QuietExecutes(s, Illegal);
    assert Body(Begin(s, Quiet(Illegal)).(wfi := false), Quiet(Illegal)).Raise?;
  }

  lemma MretToHandler(s: State)
    requires Calm(s) && s.priv == PRIV_M && s.csr.reg.mstatus.Mpp() == PRIV_S
    ensures HandlerStep(s, Quiet(Mret)) && Calm(Step(s, Quiet(Mret))) && Step(s, Quiet(Mret)).priv == PRIV_S
  {
    QuietExecutes(s, Mret);
    MretEffect(s, Quiet(Mret));
  }

  /** From every calm user-mode state a call into supervisor mode, a machine trap and its MRET inside the handler, and
      SRET make a run of the kind above. */
  lemma NestedTrapHappens(s: State)
    requires Ok(s) && Calm(s) && s.priv == PRIV_U
    ensures var e, evs, last := Quiet(Ecall), [Quiet(Illegal), Quiet(Mret)], Quiet(Sret);
            TrapsToSupervisor(s, e) && HandlerRun(Step(s, e), evs) && Sreturns(Steps(Step(s, e), evs), last)
  {
    var s1 := Step(s, Quiet(Ecall));
    EcallFromUser(s);
    IllegalInHandler(s1);
    var s2 := Step(s1, Quiet(Illegal));
    MretToHandler(s2);
    TwoSteps(s1, Quiet(Illegal), Quiet(Mret));
    QuietExecutes(Step(s2, Quiet(Mret)), Sret);
  }

  lemma TwoSteps(s: State, e1: Env, e2: Env)
    requires HandlerStep(s, e1) && HandlerStep(Step(s, e1), e2)
    ensures HandlerRun(s, [e1, e2]) && Steps(s, [e1, e2]) == Step(Step(s, e1), e2)
  {
    assert [e1, e2][..0] == [] && [e1, e2][..1] == [e1] && [e1][..0] == [];
  }
}
