/** Runs of the processor from reset, and what every reachable state satisfies. */
module CpuRuns {
  import opened Riscv
  import opened Cpu
  import Csr

  /** One turn of the loop in emulator/src/cpu/cpu_exec.c: a step, or the re-initialisation after a reboot. */
  datatype Event = Tick(env: Env) | Reboot

  function Next(s: State, ev: Event): State {
    match ev
    case Tick(env) => Step(s, env)
    case Reboot => Reset()
  }

  function Run(s: State, evs: seq<Event>): State {
    if evs == [] then s else Next(Run(s, evs[..|evs| - 1]), evs[|evs| - 1])
  }

  /** The invariant of every reachable processor state. */
  predicate Ok(s: State) {
    && Csr.Inv(s.csr.reg, s.priv)
    && s.pc % 4 == 0
    && |s.regs| == 32 && s.regs[0] == 0
  }

  /** The same between instruction and tail, where x0 may have been written. */
  predicate MidOk(s: State) {
    Csr.Inv(s.csr.reg, s.priv) && s.pc % 4 == 0 && |s.regs| == 32
  }

  predicate ExecOk(x: Exec) {
    MidOk(x.cpu) && (x.Done? ==> x.next % 4 == 0)
  }

  /** The instructions other than CSR instructions and trap returns leave the CSR file and the privilege alone. */
  lemma PlainKeeps(s: State, e: Env)
    ensures var x := ExecPlain(s, e);
            && x.cpu.csr == s.csr && x.cpu.priv == s.priv && x.cpu.pc == s.pc && |x.cpu.regs| == |s.regs|
            && (x.Done? && s.pc % 4 == 0 ==> x.next % 4 == 0)
  {
  }

  lemma ExecuteOk(s: State, e: Env)
    requires MidOk(s)
    ensures ExecOk(Execute(s, e))
  {
    if !Forbidden(s, e.inst) {
      if e.inst.CsrOp? {
        ExecCsrOk(s, e);
      } else if e.inst.Mret? || e.inst.Sret? {
        Csr.ReturnInv(s.csr, s.priv);
      } else {
        PlainKeeps(s, e);
      }
    }
  }

  lemma ExecCsrOk(s: State, e: Env)
    requires MidOk(s) && e.inst.CsrOp?
    ensures ExecOk(ExecCsr(s, e))
  {
    var i := e.inst;
    var file := Csr.Access(s.csr, i.addr, i.op, i.v, CsrReads(i), CsrWrites(i), e.time, s.priv);
    Csr.AccessInv(s.csr, i.addr, i.op, i.v, CsrReads(i), CsrWrites(i), e.time, s.priv);
    AfterCsrOk(s, e, CsrLegal(s, e), file);
  }

  lemma AfterCsrOk(s: State, e: Env, legal: bool, file: Csr.File)
    requires MidOk(s) && e.inst.CsrOp? && Csr.Inv(file.reg, s.priv)
    ensures ExecOk(AfterCsr(s, e, legal, file))
  {
  }

  lemma ConcludeOk(x: Exec)
    requires ExecOk(x)
    ensures Ok(Conclude(x))
  {
    match x
    case Done(c, next) =>
    case Raise(c, cause, tval) => Csr.TrapInv(c.csr, cause, tval, c.pc, c.priv);
  }

  lemma StepOk(s: State, e: Env)
    requires Ok(s)
    ensures Ok(Step(s, e))
  {
    if !Sleeps(s, e) {
      var s1 := Begin(s, e).(wfi := false);
      ExecuteOk(s1, e);
      ConcludeOk(Body(s1, e));
    }
  }

  lemma NextOk(s: State, ev: Event)
    requires Ok(s)
    ensures Ok(Next(s, ev))
  {
    match ev
    case Tick(env) => StepOk(s, env);
    case Reboot => Csr.ResetInv();
  }

  /** Every state the processor reaches from reset satisfies the invariant. */
  lemma {:induction false} ReachableOk(evs: seq<Event>)
    ensures Ok(Run(Reset(), evs))
  {
    if evs == [] {
      Csr.ResetInv();
    } else {
      ReachableOk(evs[..|evs| - 1]);
      NextOk(Run(Reset(), evs[..|evs| - 1]), evs[|evs| - 1]);
    }
  }
}
