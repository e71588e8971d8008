/** The processor together with its instruction and data TLBs, and the proof that the TLBs cannot be observed. */
module Hart {
  import opened Riscv
  import opened Cpu
  import CpuRuns
  import Sv39
  import Tlb
  import Csr

  datatype Hart = Hart(cpu: State, itlb: seq<Tlb.Entry>, dtlb: seq<Tlb.Entry>)
  {
    predicate Shape() {
      |itlb| == Tlb.TLB_SIZE && |dtlb| == Tlb.TLB_SIZE
    }
  }

  /** A step's memory, and its other surroundings; the translations in `outside` are replaced. */
  datatype Around = Around(mem: PhysMem, outside: Env)

  /** A turn of the execution loop: a step, or the re-initialisation after a reboot. */
  datatype Event = Tick(around: Around) | Reboot

  // ---------------------------------------------------------------- the step with TLBs

  /** effective_priv_mode. */
  function DataPriv(s: State): nat {
    if s.csr.reg.mstatus.mprv then s.csr.reg.mstatus.Mpp() else s.priv
  }

  /** The address and kind of access of the load an instruction performs. */
  function LoadVa(i: Inst): nat {
    if i.Load? || i.LoadReserved? || i.AtomicOp? || i.Store? || i.StoreConditional? then i.va else 0
  }

  function LoadMode(i: Inst): Sv39.Access {
    if i.AtomicOp? then Sv39.Amo else Sv39.Read
  }

  function Lookup(t: seq<Tlb.Entry>, mem: PhysMem, s: State, va: nat, mode: Sv39.Access, priv: nat): Sv39.Translation
    requires |t| == Tlb.TLB_SIZE
  {
    Tlb.Answer(t, mem, va, s.csr.reg.satp, s.csr.reg.mstatus.Xlate(), mode, priv)
  }

  function Refill(t: seq<Tlb.Entry>, mem: PhysMem, s: State, va: nat, mode: Sv39.Access,
                  priv: nat): (t': seq<Tlb.Entry>)
    requires |t| == Tlb.TLB_SIZE
    ensures |t'| == Tlb.TLB_SIZE
  {
    Tlb.After(t, mem, va, s.csr.reg.satp, s.csr.reg.mstatus.Xlate(), mode, priv)
  }

  /** The data TLB when the store of the instruction looks it up. */
  function BeforeStore(h: Hart, x: Around): (t: seq<Tlb.Entry>)
    requires h.Shape()
    ensures |t| == Tlb.TLB_SIZE
  {
    var i := x.outside.inst;
    if i.AtomicOp? then Refill(h.dtlb, x.mem, h.cpu, i.va, Sv39.Amo, DataPriv(h.cpu)) else h.dtlb
  }

  /** The surroundings of the processor's step, with the answers of the TLBs. */
  function Answers(h: Hart, x: Around): Env
    requires h.Shape()
  {
    var s, i := h.cpu, x.outside.inst;
    x.outside.(
      fetch := Lookup(h.itlb, x.mem, s, s.pc, Sv39.Execute, s.priv),
      load := Lookup(h.dtlb, x.mem, s, LoadVa(i), LoadMode(i), DataPriv(s)),
      store := Lookup(BeforeStore(h, x), x.mem, s, LoadVa(i), Sv39.Write, DataPriv(s)))
  }

  /** The step performs its load, its store. */
  predicate Loads(s: State, e: Env) {
    var i := e.inst;
    Executes(s, e) && (i.Load? || i.LoadReserved? || (i.AtomicOp? && !MisalignedAccess(i.va, i.size)))
  }

  predicate Stores(s: State, e: Env) {
    var i := e.inst;
    && Executes(s, e)
    && (|| i.Store?
        || (i.StoreConditional? && !MisalignedAccess(i.va, i.size) && ScPasses(s.res, i.va, i.size))
        || (i.AtomicOp? && !MisalignedAccess(i.va, i.size) && LoadFault(e, i.size, STORE_AMO_ACCESS_FAULT).None?))
  }

  /** The state before the common tail of the step. */
  function BeforeTail(s: State, e: Env): State {
    Body(Begin(s, e).(wfi := false), e).cpu
  }

  /** SFENCE.VMA, or a write of satp. */
  predicate Flushes(s: State, e: Env) {
    && !Sleeps(s, e)
    && (|| (Executes(s, e) && e.inst.SfenceVma? && !Forbidden(s, e.inst))
        || BeforeTail(s, e).csr.satpWritten)
  }

  function Step(h: Hart, x: Around): (h': Hart)
    requires h.Shape()
    ensures h'.Shape()
  {
    StepWith(h, x, Answers(h, x))
  }

  /** The step, given the answers of the TLBs. */
  function StepWith(h: Hart, x: Around, e: Env): (h': Hart)
    requires h.Shape()
    ensures h'.Shape()
  {
    var s := h.cpu;
    var va := LoadVa(e.inst);
    var itlb := if Sleeps(s, e) then h.itlb else Refill(h.itlb, x.mem, s, s.pc, Sv39.Execute, s.priv);
    var dtlb := if Loads(s, e) then Refill(h.dtlb, x.mem, s, va, LoadMode(e.inst), DataPriv(s)) else h.dtlb;
    var dtlb' := if Stores(s, e) then Refill(dtlb, x.mem, s, va, Sv39.Write, DataPriv(s)) else dtlb;
    if Flushes(s, e) then Hart(Cpu.Step(s, e), Tlb.Empty(), Tlb.Empty())
    else Hart(Cpu.Step(s, e), itlb, dtlb')
  }

  function Reset(): (h: Hart)
    ensures h.Shape()
  {
    Hart(Cpu.Reset(), Tlb.Empty(), Tlb.Empty())
  }

  function Next(h: Hart, ev: Event): (h': Hart)
    requires h.Shape()
    ensures h'.Shape()
  {
    match ev
    case Tick(x) => Step(h, x)
    case Reboot => Reset()
  }

  function Run(evs: seq<Event>): (h: Hart)
    ensures h.Shape()
  {
    if evs == [] then Reset() else Next(Run(evs[..|evs| - 1]), evs[|evs| - 1])
  }

  /** The processor of every run satisfies the invariant of module CpuRuns. */
  lemma {:induction false} ReachableOk(evs: seq<Event>)
    ensures CpuRuns.Ok(Run(evs).cpu)
  {
    if evs == [] {
      CpuRuns.ReachableOk([]);
    } else {
      ReachableOk(evs[..|evs| - 1]);
      var h := Run(evs[..|evs| - 1]);
      match evs[|evs| - 1]
      case Tick(x) => CpuRuns.StepOk(h.cpu, Answers(h, x));
      case Reboot => CpuRuns.ReachableOk([]);
    }
  }

  // ---------------------------------------------------------------- the step without TLBs

  /** The translation the architecture prescribes: a walk of current memory at the effective privilege. */
  function Walked(mem: PhysMem, s: State, va: nat, mode: Sv39.Access): Sv39.Translation {
    Sv39.Translate(mem, va, s.csr.reg.satp, s.csr.reg.mstatus.Xlate(), mode, s.priv)
  }

  function WalkedAnswers(s: State, x: Around): Env {
    var i := x.outside.inst;
    x.outside.(
      fetch := Walked(x.mem, s, s.pc, Sv39.Execute),
      load := Walked(x.mem, s, LoadVa(i), LoadMode(i)),
      store := Walked(x.mem, s, LoadVa(i), Sv39.Write))
  }

  /** The processor that walks the page tables for every access. */
  function UncachedNext(s: State, ev: Event): State {
    match ev
    case Tick(x) => Cpu.Step(s, WalkedAnswers(s, x))
    case Reboot => Cpu.Reset()
  }

  function UncachedRun(evs: seq<Event>): State {
    if evs == [] then Cpu.Reset() else UncachedNext(UncachedRun(evs[..|evs| - 1]), evs[|evs| - 1])
  }

  // ---------------------------------------------------------------- refinement

  /** The step gets as far as a data access. */
  predicate Accesses(s: State, e: Env) {
    var i := e.inst;
    && Executes(s, e)
    && (|| i.Load? || i.LoadReserved? || i.Store?
        || (i.StoreConditional? && !MisalignedAccess(i.va, i.size) && ScPasses(s.res, i.va, i.size))
        || (i.AtomicOp? && !MisalignedAccess(i.va, i.size)))
  }

  /** The surroundings differ at most in translations that the step does not ask for. */
  predicate Alike(s: State, e: Env, e': Env) {
    && e' == e.(fetch := e'.fetch, load := e'.load, store := e'.store)
    && (!Sleeps(s, e) ==> e'.fetch == e.fetch)
    && (Accesses(s, e) ==> e'.load == e.load && e'.store == e.store)
  }

  lemma StepAlike(s: State, e: Env, e': Env)
    requires Alike(s, e, e')
    ensures Cpu.Step(s, e') == Cpu.Step(s, e) && (Flushes(s, e') <==> Flushes(s, e))
  {
    if !Sleeps(s, e) {
      BodyAlike(s, e, e');
    }
  }

  lemma BodyAlike(s: State, e: Env, e': Env)
    requires Alike(s, e, e') && !Sleeps(s, e)
    ensures var s1 := Begin(s, e).(wfi := false); Body(s1, e') == Body(s1, e)
  {
    if Accesses(s, e) {
      assert e' == e;
    } else if Executes(s, e) {
      ExecuteAlike(Begin(s, e).(wfi := false), e, e');
    }
  }

  lemma ExecuteAlike(s: State, e: Env, e': Env)
    requires e' == e.(load := e'.load, store := e'.store)
    requires var i := e.inst;
             && !i.Load? && !i.LoadReserved? && !i.Store?
             && (i.AtomicOp? ==> MisalignedAccess(i.va, i.size))
             && (i.StoreConditional? ==> MisalignedAccess(i.va, i.size) || !ScPasses(s.res, i.va, i.size))
    ensures Execute(s, e') == Execute(s, e)
  {
  }

  /** The entry that the lookup hits, if it hits one, holds the leaf that memory holds. */
  predicate FreshAt(t: seq<Tlb.Entry>, mem: PhysMem, s: State, va: nat, mode: Sv39.Access, priv: nat)
    requires |t| == Tlb.TLB_SIZE
  {
    var satp := s.csr.reg.satp;
    || Sv39.Bypass(satp, s.csr.reg.mstatus.Xlate(), mode, priv) || !Tlb.Hit(t, va, satp)
    || Tlb.Matches(t[Tlb.Index(va)], mem, satp)
  }

  /** So for the lookups of a step. */
  predicate Fresh(h: Hart, x: Around)
    requires h.Shape()
  {
    var s, e := h.cpu, Answers(h, x);
    && (!Sleeps(s, e) ==> FreshAt(h.itlb, x.mem, s, s.pc, Sv39.Execute, s.priv))
    && (Accesses(s, e) ==> FreshAt(h.dtlb, x.mem, s, LoadVa(e.inst), LoadMode(e.inst), DataPriv(s)))
  }

  /** So for every step of the run. */
  predicate FreshRun(evs: seq<Event>) {
    if evs == [] then true
    else
      var before, ev := evs[..|evs| - 1], evs[|evs| - 1];
      FreshRun(before) && (ev.Tick? ==> Fresh(Run(before), ev.around))
  }

  /** Freshness does not depend on what the bus answers to loads and stores. */
  lemma FreshBefore(h: Hart, x: Around, x': Around)
    requires h.Shape() && x'.mem == x.mem
    requires var o := x'.outside; o == x.outside.(readOk := o.readOk, writeOk := o.writeOk, data := o.data)
    ensures Fresh(h, x') <==> Fresh(h, x)
  {
  }

  lemma LookupFresh(t: seq<Tlb.Entry>, mem: PhysMem, s: State, va: nat, mode: Sv39.Access, priv: nat)
    requires |t| == Tlb.TLB_SIZE && FreshAt(t, mem, s, va, mode, priv)
    requires priv == if mode.Execute? then s.priv else DataPriv(s)
    ensures Lookup(t, mem, s, va, mode, priv) == Walked(mem, s, va, mode)
    ensures FreshAt(Refill(t, mem, s, va, mode, priv), mem, s, va, mode, priv)
  {
    var satp, st := s.csr.reg.satp, s.csr.reg.mstatus.Xlate();
    if !Sv39.Bypass(satp, st, mode, priv) {
      if Tlb.Hit(t, va, satp) {
        Tlb.HitAgrees(t[Tlb.Index(va)], mem, va, satp, st, mode, priv);
      } else if Sv39.Translate(mem, va, satp, st, mode, priv).Valid? {
        Tlb.FillMatches(mem, va, satp, st, mode, priv);
      }
    }
  }

  /** The lookups of a fresh step answer as the walks. */
  lemma AnswersAlike(h: Hart, x: Around)
    requires h.Shape() && Fresh(h, x)
    ensures Alike(h.cpu, Answers(h, x), WalkedAnswers(h.cpu, x))
  {
    var s, e, i := h.cpu, Answers(h, x), x.outside.inst;
    if !Sleeps(s, e) {
      LookupFresh(h.itlb, x.mem, s, s.pc, Sv39.Execute, s.priv);
    }
    if Accesses(s, e) {
      LookupFresh(h.dtlb, x.mem, s, LoadVa(i), LoadMode(i), DataPriv(s));
      LookupFresh(BeforeStore(h, x), x.mem, s, LoadVa(i), Sv39.Write, DataPriv(s));
    }
  }

  lemma FreshStep(h: Hart, x: Around)
    requires h.Shape() && Fresh(h, x)
    ensures Step(h, x).cpu == Cpu.Step(h.cpu, WalkedAnswers(h.cpu, x))
    ensures Flushes(h.cpu, Answers(h, x)) <==> Flushes(h.cpu, WalkedAnswers(h.cpu, x))
  {
    AnswersAlike(h, x);
    StepAlike(h.cpu, Answers(h, x), WalkedAnswers(h.cpu, x));
  }

  /** Refinement: as long as no lookup hits an entry that memory no longer holds, the processor with TLBs goes through
      the very states of the processor that walks the tables for every access. */
  lemma {:induction false} TlbsAreInvisible(evs: seq<Event>)
    requires FreshRun(evs)
    ensures Run(evs).cpu == UncachedRun(evs)
  {
    if evs != [] {
      var before, ev := evs[..|evs| - 1], evs[|evs| - 1];
      TlbsAreInvisible(before);
      NextAgrees(Run(before), ev);
    }
  }

  lemma NextAgrees(h: Hart, ev: Event)
    requires h.Shape() && (ev.Tick? ==> Fresh(h, ev.around))
    ensures Next(h, ev).cpu == UncachedNext(h.cpu, ev)
  {
    if ev.Tick? {
      FreshStep(h, ev.around);
    }
  }

  lemma RunLast(evs: seq<Event>, ev: Event)
    ensures Run(evs + [ev]) == Next(Run(evs), ev) && UncachedRun(evs + [ev]) == UncachedNext(UncachedRun(evs), ev)
    ensures FreshRun(evs + [ev]) <==> FreshRun(evs) && (ev.Tick? ==> Fresh(Run(evs), ev.around))
  {
    assert (evs + [ev])[..|evs|] == evs;
  }

  /** A step and, if it has requested one, the reboot. */
  function Turn(x: Around, reboot: bool): seq<Event> {
    [Tick(x)] + if reboot then [Reboot] else []
  }

  lemma TurnEvents(evs: seq<Event>, x: Around, reboot: bool)
    ensures evs + Turn(x, reboot) == if reboot then evs + [Tick(x)] + [Reboot] else evs + [Tick(x)]
  {
  }

  lemma TurnLast(evs: seq<Event>, x: Around, reboot: bool)
    ensures Run(evs + Turn(x, reboot)) == if reboot then Reset() else Step(Run(evs), x)
    ensures var s := UncachedRun(evs);
            UncachedRun(evs + Turn(x, reboot)) == if reboot then Cpu.Reset() else Cpu.Step(s, WalkedAnswers(s, x))
    ensures FreshRun(evs + Turn(x, reboot)) <==> FreshRun(evs) && Fresh(Run(evs), x)
  {
    RunLast(evs, Tick(x));
    RunLast(evs + [Tick(x)], Reboot);
    TurnEvents(evs, x, reboot);
  }

  // ---------------------------------------------------------------- the flush

  /** SFENCE.VMA, where it is permitted, leaves both TLBs empty .. */
  lemma FenceEmptiesTlbs(h: Hart, x: Around)
    requires h.Shape() && Executes(h.cpu, Answers(h, x)) && x.outside.inst.SfenceVma?
    requires h.cpu.priv == 3 || (h.cpu.priv == 1 && !h.cpu.csr.reg.mstatus.tvm)
    ensures Step(h, x).itlb == Tlb.Empty() && Step(h, x).dtlb == Tlb.Empty()
  {
  }

  /** .. and so does a write of satp, where that is permitted, whether it changes satp or not. */
  lemma SatpWriteEmptiesTlbs(h: Hart, x: Around)
    requires h.Shape() && Executes(h.cpu, Answers(h, x))
    requires var i := x.outside.inst; i.CsrOp? && i.addr == 0x180 && (i.op.Rw? || i.rs1 != 0)
    requires h.cpu.priv == 3 || (h.cpu.priv == 1 && !h.cpu.csr.reg.mstatus.tvm)
    ensures Step(h, x).itlb == Tlb.Empty() && Step(h, x).dtlb == Tlb.Empty()
  {
    FlushesExact(h.cpu, Answers(h, x));
  }

  /** Nothing else counts as a flush where this module speaks of one. */
  lemma FlushesExact(s: State, e: Env)
    requires s.priv == 0 || s.priv == 1 || s.priv == 3
    ensures Flushes(s, e) <==>
            && Executes(s, e) && (s.priv == 3 || (s.priv == 1 && !s.csr.reg.mstatus.tvm))
            && (e.inst.SfenceVma? || (e.inst.CsrOp? && e.inst.addr == 0x180 && (e.inst.op.Rw? || e.inst.rs1 != 0)))
  {
    if Executes(s, e) {
      WritesSatpExact(Begin(s, e).(wfi := false), e);
    }
  }

  lemma WritesSatpExact(s: State, e: Env)
    requires (s.priv == 0 || s.priv == 1 || s.priv == 3) && !s.csr.satpWritten
    ensures Execute(s, e).cpu.csr.satpWritten <==>
            && (s.priv == 3 || (s.priv == 1 && !s.csr.reg.mstatus.tvm))
            && e.inst.CsrOp? && e.inst.addr == 0x180 && (e.inst.op.Rw? || e.inst.rs1 != 0)
  {
    if !e.inst.CsrOp? {
      CpuRuns.PlainKeeps(s, e);
    } else {
      SatpFlagExact(s.csr, e.inst, e.time, s.priv);
    }
  }

  lemma SatpFlagExact(f: Csr.File, i: Inst, time: nat, priv: nat)
    requires (priv == 0 || priv == 1 || priv == 3) && !f.satpWritten && i.CsrOp?
    ensures Csr.Access(f, i.addr, i.op, i.v, CsrReads(i), CsrWrites(i), time, priv).satpWritten <==>
            && (priv == 3 || (priv == 1 && !f.reg.mstatus.tvm)) && i.addr == 0x180 && (i.op.Rw? || i.rs1 != 0)
  {
  }

  /** Otherwise a step leaves what its lookups leave: of the fetch in the instruction TLB; in the data TLB of a load
      at its effective privilege, of a store, and of an AMO both in turn. */
  lemma LookupsFill(h: Hart, x: Around)
    requires h.Shape() && !Flushes(h.cpu, Answers(h, x)) && Executes(h.cpu, Answers(h, x))
    ensures var s, i, h' := h.cpu, x.outside.inst, Step(h, x);
            var m, satp := s.csr.reg.mstatus, s.csr.reg.satp;
            var st := Sv39.Status(m.mprv, m.Mpp(), m.sum, m.mxr);
            var priv := if m.mprv then m.Mpp() else s.priv;
            && h'.itlb == Tlb.After(h.itlb, x.mem, s.pc, satp, st, Sv39.Execute, s.priv)
            && (i.Load? || i.LoadReserved? ==>
                  h'.dtlb == Tlb.After(h.dtlb, x.mem, i.va, satp, st, Sv39.Read, priv))
            && (i.Store? ==> h'.dtlb == Tlb.After(h.dtlb, x.mem, i.va, satp, st, Sv39.Write, priv))
            && (i.StoreConditional? ==>
                  h'.dtlb == (if Stores(s, Answers(h, x))
                              then Tlb.After(h.dtlb, x.mem, i.va, satp, st, Sv39.Write, priv) else h.dtlb))
            && (i.AtomicOp? && Stores(s, Answers(h, x)) ==>
                  h'.dtlb == Tlb.After(Tlb.After(h.dtlb, x.mem, i.va, satp, st, Sv39.Amo, priv), x.mem, i.va, satp, st,
                                       Sv39.Write, priv))
            && (i.Compute? || i.Jump? || i.Branch? || i.CsrOp? ==> h'.dtlb == h.dtlb)
  {
  }

  /** What a step asks of the tables: the fetch at its own privilege, a data access at the privilege MPRV selects, an
      AMO for reading and writing at once. */
  lemma TranslationsAsked(s: State, x: Around)
    ensures var e, i := WalkedAnswers(s, x), x.outside.inst;
            var m, satp := s.csr.reg.mstatus, s.csr.reg.satp;
            var st := Sv39.Status(m.mprv, m.Mpp(), m.sum, m.mxr);
            && e.fetch == Sv39.Translate(x.mem, s.pc, satp, st, Sv39.Execute, s.priv)
            && (i.Load? || i.LoadReserved? ==>
                  e.load == Sv39.Translate(x.mem, i.va, satp, st, Sv39.Read, s.priv))
            && (i.AtomicOp? ==> e.load == Sv39.Translate(x.mem, i.va, satp, st, Sv39.Amo, s.priv))
            && (i.Store? || i.StoreConditional? || i.AtomicOp? ==>
                  e.store == Sv39.Translate(x.mem, i.va, satp, st, Sv39.Write, s.priv))
  {
  }

  // ---------------------------------------------------------------- page tables that are left alone

  ghost predicate Coherent(h: Hart, mem: PhysMem)
    requires h.Shape()
  {
    Tlb.Coherent(h.itlb, mem, h.cpu.csr.reg.satp) && Tlb.Coherent(h.dtlb, mem, h.cpu.csr.reg.satp)
  }

  /** Memory changes only outside the words that the cached walks read. */
  ghost predicate Unread(h: Hart, mem: PhysMem, mem': PhysMem)
    requires h.Shape()
  {
    var satp := h.cpu.csr.reg.satp;
    && (forall i, a :: 0 <= i < Tlb.TLB_SIZE && h.itlb[i].valid && a in Tlb.EntryReads(h.itlb[i], mem, satp) ==>
        mem(a) == mem'(a))
    && (forall i, a :: 0 <= i < Tlb.TLB_SIZE && h.dtlb[i].valid && a in Tlb.EntryReads(h.dtlb[i], mem, satp) ==>
        mem(a) == mem'(a))
  }

  /** No word read by a cached walk changes from one step to the next while it is cached. */
  ghost predicate PageTablesKept(evs: seq<Event>) {
    if |evs| < 2 then true
    else
      var before, last, ev := evs[..|evs| - 1], evs[|evs| - 2], evs[|evs| - 1];
      && PageTablesKept(before)
      && (last.Tick? && ev.Tick? ==> Unread(Run(before), last.around.mem, ev.around.mem))
  }

  lemma LookupAgrees(t: seq<Tlb.Entry>, mem: PhysMem, s: State, va: nat, mode: Sv39.Access, priv: nat)
    requires |t| == Tlb.TLB_SIZE && Tlb.Coherent(t, mem, s.csr.reg.satp)
    requires priv == if mode.Execute? then s.priv else DataPriv(s)
    ensures Lookup(t, mem, s, va, mode, priv) == Walked(mem, s, va, mode)
    ensures Tlb.Coherent(Refill(t, mem, s, va, mode, priv), mem, s.csr.reg.satp)
  {
    Tlb.LookupAgrees(t, mem, va, s.csr.reg.satp, s.csr.reg.mstatus.Xlate(), mode, priv);
  }

  /** In a coherent hart all three translations of the step are those of the walk. */
  lemma AnswersAgree(h: Hart, x: Around)
    requires h.Shape() && Coherent(h, x.mem)
    ensures Answers(h, x) == WalkedAnswers(h.cpu, x)
  {
    var s, i := h.cpu, x.outside.inst;
    LookupAgrees(h.itlb, x.mem, s, s.pc, Sv39.Execute, s.priv);
    LookupAgrees(h.dtlb, x.mem, s, LoadVa(i), LoadMode(i), DataPriv(s));
    LookupAgrees(BeforeStore(h, x), x.mem, s, LoadVa(i), Sv39.Write, DataPriv(s));
  }

  /** Only a step that flushes can change satp. */
  lemma SatpChangesFlush(s: State, e: Env)
    requires !Flushes(s, e)
    ensures Cpu.Step(s, e).csr.reg.satp == s.csr.reg.satp
  {
    if !Sleeps(s, e) {
      ExecuteSatp(Begin(s, e).(wfi := false), e);
    }
  }

  lemma ExecuteSatp(s: State, e: Env)
    ensures var c := Execute(s, e).cpu.csr; c.reg.satp == s.csr.reg.satp || c.satpWritten
  {
    if e.inst.CsrOp? {
      var i := e.inst;
      AccessSatp(s.csr, i.addr, i.op, i.v, CsrReads(i), CsrWrites(i), e.time, s.priv);
    } else {
      CpuRuns.PlainKeeps(s, e);
    }
  }

  lemma AccessSatp(f: Csr.File, addr: nat, op: Csr.Op, v: Csr.Written, read: bool, write: bool, time: nat, priv: nat)
    ensures var c := Csr.Access(f, addr, op, v, read, write, time, priv); c.reg.satp == f.reg.satp || c.satpWritten
  {
  }

  lemma StepKeepsCoherence(h: Hart, x: Around)
    requires h.Shape() && Coherent(h, x.mem)
    ensures Coherent(Step(h, x), x.mem)
  {
    var s, e := h.cpu, Answers(h, x);
    if !Flushes(s, e) {
      SatpChangesFlush(s, e);
      var va := LoadVa(e.inst);
      LookupAgrees(h.itlb, x.mem, s, s.pc, Sv39.Execute, s.priv);
      LookupAgrees(h.dtlb, x.mem, s, va, LoadMode(e.inst), DataPriv(s));
      var dtlb := if Loads(s, e) then Refill(h.dtlb, x.mem, s, va, LoadMode(e.inst), DataPriv(s)) else h.dtlb;
      LookupAgrees(dtlb, x.mem, s, va, Sv39.Write, DataPriv(s));
    }
  }

  /** One way to keep a run fresh: software leaves the page-table words of cached walks alone, fence or no fence. */
  lemma {:induction false} KeptIsFresh(evs: seq<Event>)
    requires PageTablesKept(evs)
    ensures FreshRun(evs)
  {
    if evs != [] {
      KeptIsFresh(evs[..|evs| - 1]);
      if evs[|evs| - 1].Tick? {
        KeptIsCoherent(evs);
      }
    }
  }

  /** In such a run both TLBs are coherent with the memory of each step, before it and after. */
  lemma {:induction false} KeptIsCoherent(evs: seq<Event>)
    requires evs != [] && evs[|evs| - 1].Tick? && PageTablesKept(evs)
    ensures Coherent(Run(evs[..|evs| - 1]), evs[|evs| - 1].around.mem)
    ensures Coherent(Run(evs), evs[|evs| - 1].around.mem)
  {
    var before := evs[..|evs| - 1];
    if before != [] && before[|before| - 1].Tick? {
      KeptIsCoherent(before);
    }
    CoherentNow(evs);
    StepKeepsCoherence(Run(before), evs[|evs| - 1].around);
  }

  lemma KeptLast(evs: seq<Event>, ev: Event)
    requires PageTablesKept(evs)
    requires evs != [] && evs[|evs| - 1].Tick? && ev.Tick? ==>
               Unread(Run(evs), evs[|evs| - 1].around.mem, ev.around.mem)
    ensures PageTablesKept(evs + [ev])
  {
    var more := evs + [ev];
    assert more[..|more| - 1] == evs && more[|more| - 1] == ev;
    if evs != [] {
      assert more[|more| - 2] == evs[|evs| - 1];
    }
  }

  /** Coherence carries over to the memory of the next step. */
  lemma CoherentNow(evs: seq<Event>)
    requires evs != [] && evs[|evs| - 1].Tick? && PageTablesKept(evs)
    requires var before := evs[..|evs| - 1];
             before != [] && before[|before| - 1].Tick? ==> Coherent(Run(before), before[|before| - 1].around.mem)
    ensures Coherent(Run(evs[..|evs| - 1]), evs[|evs| - 1].around.mem)
  {
    var before, mem := evs[..|evs| - 1], evs[|evs| - 1].around.mem;
    var h := Run(before);
    if before != [] && before[|before| - 1].Tick? {
      var was := before[|before| - 1].around.mem;
      assert Unread(Run(evs[..|evs| - 1]), was, mem);
      Tlb.UnreadChangesKeepCoherence(h.itlb, was, mem, h.cpu.csr.reg.satp);
      Tlb.UnreadChangesKeepCoherence(h.dtlb, was, mem, h.cpu.csr.reg.satp);
    }
  }

  // ---------------------------------------------------------------- with no assumption on stores

  /** The memory and the satp of one step. */
  datatype Moment = Moment(mem: PhysMem, satp: Sv39.Satp)

  /** The moments of a run since its last flush. */
  function SinceFlush(evs: seq<Event>): seq<Moment> {
    if evs == [] then []
    else
      var before, h := evs[..|evs| - 1], Run(evs[..|evs| - 1]);
      match evs[|evs| - 1]
      case Reboot => []
      case Tick(x) => Remember(SinceFlush(before), h.cpu, Answers(h, x), x.mem)
  }

  function Remember(past: seq<Moment>, s: State, e: Env, mem: PhysMem): seq<Moment> {
    if Flushes(s, e) then [] else past + [Moment(mem, s.csr.reg.satp)]
  }

  /** Memory held, at this moment and under this satp, the leaf that the entry caches. */
  predicate CapturedAt(e: Tlb.Entry, at: Moment, satp: Sv39.Satp) {
    at.satp == satp && Tlb.Matches(e, at.mem, satp)
  }

  ghost predicate Recent(t: seq<Tlb.Entry>, past: seq<Moment>, satp: Sv39.Satp)
    requires |t| == Tlb.TLB_SIZE
  {
    forall i :: 0 <= i < Tlb.TLB_SIZE && t[i].valid ==>
      t[i].asid == 0 && exists k :: 0 <= k < |past| && CapturedAt(t[i], past[k], satp)
  }

  /** An entry is older than the lookup, or the lookup has just filled it. */
  lemma RefillOrigin(t: seq<Tlb.Entry>, mem: PhysMem, s: State, va: nat, mode: Sv39.Access, priv: nat, i: nat)
    requires |t| == Tlb.TLB_SIZE && i < Tlb.TLB_SIZE
    ensures var e := Refill(t, mem, s, va, mode, priv)[i]; e == t[i] || Tlb.Matches(e, mem, s.csr.reg.satp)
  {
    var satp, st := s.csr.reg.satp, s.csr.reg.mstatus.Xlate();
    if !Sv39.Bypass(satp, st, mode, priv) && Sv39.Translate(mem, va, satp, st, mode, priv).Valid? {
      Tlb.FillMatches(mem, va, satp, st, mode, priv);
    }
  }

  lemma StepOrigin(h: Hart, x: Around, i: nat)
    requires h.Shape() && i < Tlb.TLB_SIZE && !Flushes(h.cpu, Answers(h, x))
    ensures var e := Step(h, x).itlb[i]; e == h.itlb[i] || Tlb.Matches(e, x.mem, h.cpu.csr.reg.satp)
    ensures var e := Step(h, x).dtlb[i]; e == h.dtlb[i] || Tlb.Matches(e, x.mem, h.cpu.csr.reg.satp)
  {
    var s, e := h.cpu, Answers(h, x);
    var va := LoadVa(e.inst);
    RefillOrigin(h.itlb, x.mem, s, s.pc, Sv39.Execute, s.priv, i);
    RefillOrigin(h.dtlb, x.mem, s, va, LoadMode(e.inst), DataPriv(s), i);
    var dtlb := if Loads(s, e) then Refill(h.dtlb, x.mem, s, va, LoadMode(e.inst), DataPriv(s)) else h.dtlb;
    RefillOrigin(dtlb, x.mem, s, va, Sv39.Write, DataPriv(s), i);
  }

  /** One more moment keeps what was known of an entry, and covers the entries filled at it. */
  lemma ExtendRecent(t: seq<Tlb.Entry>, t': seq<Tlb.Entry>, past: seq<Moment>, at: Moment)
    requires |t| == Tlb.TLB_SIZE && |t'| == Tlb.TLB_SIZE && at.satp.asid == 0 && Recent(t, past, at.satp)
    requires forall i :: 0 <= i < Tlb.TLB_SIZE ==> t'[i] == t[i] || Tlb.Matches(t'[i], at.mem, at.satp)
    ensures Recent(t', past + [at], at.satp)
  {
    var past' := past + [at];
    forall i | 0 <= i < Tlb.TLB_SIZE && t'[i].valid
      ensures t'[i].asid == 0 && exists k :: 0 <= k < |past'| && CapturedAt(t'[i], past'[k], at.satp)
    {
      if Tlb.Matches(t'[i], at.mem, at.satp) {
        assert CapturedAt(t'[i], past'[|past|], at.satp);
      } else {
        var k :| 0 <= k < |past| && CapturedAt(t[i], past[k], at.satp);
        assert past'[k] == past[k];
      }
    }
  }

  /** With no assumption at all on stores: every valid entry has ASID 0 and holds the leaf that a walk under the
      present satp found at some moment since the last flush. */
  lemma {:induction false} EntriesAreRecent(evs: seq<Event>)
    ensures var h := Run(evs);
            && Recent(h.itlb, SinceFlush(evs), h.cpu.csr.reg.satp)
            && Recent(h.dtlb, SinceFlush(evs), h.cpu.csr.reg.satp)
  {
    if evs != [] && evs[|evs| - 1].Tick? {
      var before := evs[..|evs| - 1];
      EntriesAreRecent(before);
      ReachableOk(before);
      StepKeepsRecent(Run(before), evs[|evs| - 1].around, SinceFlush(before));
    }
  }

  lemma StepKeepsRecent(h: Hart, x: Around, past: seq<Moment>)
    requires h.Shape() && Csr.SatpOk(h.cpu.csr.reg.satp)
    requires Recent(h.itlb, past, h.cpu.csr.reg.satp) && Recent(h.dtlb, past, h.cpu.csr.reg.satp)
    ensures var h' := Step(h, x);
            var past' := Remember(past, h.cpu, Answers(h, x), x.mem);
            Recent(h'.itlb, past', h'.cpu.csr.reg.satp) && Recent(h'.dtlb, past', h'.cpu.csr.reg.satp)
  {
    if !Flushes(h.cpu, Answers(h, x)) {
      SatpChangesFlush(h.cpu, Answers(h, x));
      forall i: nat | i < Tlb.TLB_SIZE {
        StepOrigin(h, x, i);
      }
      var at := Moment(x.mem, h.cpu.csr.reg.satp);
      ExtendRecent(h.itlb, Step(h, x).itlb, past, at);
      ExtendRecent(h.dtlb, Step(h, x).dtlb, past, at);
    }
  }

  /** So a lookup never yields a translation from before the last flush: its answer is the walk of the memory of
      this step, or of a step since that flush. */
  lemma LookupIsRecentWalk(evs: seq<Event>, mem: PhysMem, va: nat, mode: Sv39.Access)
    ensures var h := Run(evs);
            var t := if mode.Execute? then h.itlb else h.dtlb;
            var answer := Lookup(t, mem, h.cpu, va, mode, if mode.Execute? then h.cpu.priv else DataPriv(h.cpu));
            || answer == Walked(mem, h.cpu, va, mode)
            || exists at :: at in SinceFlush(evs) && answer == Walked(at.mem, h.cpu, va, mode)
  {
    var h := Run(evs);
    EntriesAreRecent(evs);
    HitIsRecentWalk(if mode.Execute? then h.itlb else h.dtlb, SinceFlush(evs), h.cpu, mem, va, mode);
  }

  /** The second lookup of an AMO, in the data TLB that its first lookup has refilled, is no exception. */
  lemma SecondLookupIsRecentWalk(evs: seq<Event>, x: Around)
    ensures var h, va := Run(evs), LoadVa(x.outside.inst);
            var answer := Lookup(BeforeStore(h, x), x.mem, h.cpu, va, Sv39.Write, DataPriv(h.cpu));
            || answer == Walked(x.mem, h.cpu, va, Sv39.Write)
            || exists at :: at in SinceFlush(evs) && answer == Walked(at.mem, h.cpu, va, Sv39.Write)
  {
    var h := Run(evs);
    EntriesAreRecent(evs);
    ReachableOk(evs);
    RefilledIsRecentWalk(h, SinceFlush(evs), x);
  }

  lemma RefilledIsRecentWalk(h: Hart, past: seq<Moment>, x: Around)
    requires h.Shape() && Csr.SatpOk(h.cpu.csr.reg.satp) && Recent(h.dtlb, past, h.cpu.csr.reg.satp)
    ensures var va := LoadVa(x.outside.inst);
            var answer := Lookup(BeforeStore(h, x), x.mem, h.cpu, va, Sv39.Write, DataPriv(h.cpu));
            || answer == Walked(x.mem, h.cpu, va, Sv39.Write)
            || exists at :: at in past && answer == Walked(at.mem, h.cpu, va, Sv39.Write)
  {
    var s, i, t := h.cpu, x.outside.inst, BeforeStore(h, x);
    var at := Moment(x.mem, s.csr.reg.satp);
    forall k: nat | k < Tlb.TLB_SIZE
      ensures t[k] == h.dtlb[k] || Tlb.Matches(t[k], x.mem, s.csr.reg.satp)
    {
      if i.AtomicOp? {
        RefillOrigin(h.dtlb, x.mem, s, i.va, Sv39.Amo, DataPriv(s), k);
      }
    }
    ExtendRecent(h.dtlb, t, past, at);
    HitIsRecentWalk(t, past + [at], s, x.mem, LoadVa(i), Sv39.Write);
  }

  lemma HitIsRecentWalk(t: seq<Tlb.Entry>, past: seq<Moment>, s: State, mem: PhysMem, va: nat, mode: Sv39.Access)
    requires |t| == Tlb.TLB_SIZE && Recent(t, past, s.csr.reg.satp)
    ensures var answer := Lookup(t, mem, s, va, mode, if mode.Execute? then s.priv else DataPriv(s));
            || answer == Walked(mem, s, va, mode)
            || exists at :: at in past && answer == Walked(at.mem, s, va, mode)
  {
    if Tlb.Hit(t, va, s.csr.reg.satp) {
      var e := t[Tlb.Index(va)];
      var k :| 0 <= k < |past| && CapturedAt(e, past[k], s.csr.reg.satp);
      AnswerFromHit(t, past[k].mem, s, mem, va, mode);
      assert past[k] in past;
    } else {
      AnswerFromMiss(t, s, mem, va, mode);
    }
  }

  lemma AnswerFromMiss(t: seq<Tlb.Entry>, s: State, mem: PhysMem, va: nat, mode: Sv39.Access)
    requires |t| == Tlb.TLB_SIZE && !Tlb.Hit(t, va, s.csr.reg.satp)
    ensures Lookup(t, mem, s, va, mode, if mode.Execute? then s.priv else DataPriv(s)) == Walked(mem, s, va, mode)
  {
  }

  lemma AnswerFromHit(t: seq<Tlb.Entry>, filled: PhysMem, s: State, mem: PhysMem, va: nat, mode: Sv39.Access)
    requires |t| == Tlb.TLB_SIZE && Tlb.Hit(t, va, s.csr.reg.satp)
    requires Tlb.Matches(t[Tlb.Index(va)], filled, s.csr.reg.satp)
    ensures Lookup(t, mem, s, va, mode, if mode.Execute? then s.priv else DataPriv(s)) == Walked(filled, s, va, mode)
  {
    var satp, st := s.csr.reg.satp, s.csr.reg.mstatus.Xlate();
    var priv := if mode.Execute? then s.priv else DataPriv(s);
    if !Sv39.Bypass(satp, st, mode, priv) {
      Tlb.HitAgrees(t[Tlb.Index(va)], filled, va, satp, st, mode, priv);
    }
  }

  // ---------------------------------------------------------------- page tables that are fenced

  /** At every moment since the flush the address had the leaf it has now, or none. */
  ghost predicate Settled(past: seq<Moment>, mem: PhysMem, satp: Sv39.Satp, va: nat) {
    forall at :: at in past && at.satp == satp && Sv39.FindLeaf(at.mem, va, satp).Leaf? ==>
      Sv39.FindLeaf(at.mem, va, satp) == Sv39.FindLeaf(mem, va, satp)
  }

  /** It is enough that the words of its walk have not been written since. */
  lemma UnwrittenIsSettled(past: seq<Moment>, mem: PhysMem, satp: Sv39.Satp, va: nat)
    requires forall at, a :: at in past && a in Sv39.PageTableReads(mem, va, satp) ==> at.mem(a) == mem(a)
    ensures Settled(past, mem, satp, va)
  {
    forall at | at in past
      ensures Sv39.FindLeaf(at.mem, va, satp) == Sv39.FindLeaf(mem, va, satp)
    {
      if Sv39.Canonical(va) {
        Sv39.WalkDependsOnReads(mem, at.mem, va, satp.ppn * 4096, 2);
      }
    }
  }

  /** Settled, where the access is translated at all. */
  ghost predicate SettledFor(past: seq<Moment>, mem: PhysMem, s: State, va: nat, mode: Sv39.Access) {
    var satp := s.csr.reg.satp;
    Sv39.Bypass(satp, s.csr.reg.mstatus.Xlate(), mode, s.priv) || Settled(past, mem, satp, va)
  }

  /** The step touches only settled addresses. */
  ghost predicate FencedStep(past: seq<Moment>, s: State, x: Around) {
    var e := WalkedAnswers(s, x);
    && (!Sleeps(s, e) ==> SettledFor(past, x.mem, s, s.pc, Sv39.Execute))
    && (Accesses(s, e) ==> SettledFor(past, x.mem, s, LoadVa(e.inst), LoadMode(e.inst)))
  }

  /** The moments since the last flush of the processor without TLBs. */
  function WalkedSinceFlush(evs: seq<Event>): seq<Moment> {
    if evs == [] then []
    else
      var before, s := evs[..|evs| - 1], UncachedRun(evs[..|evs| - 1]);
      match evs[|evs| - 1]
      case Reboot => []
      case Tick(x) => Remember(WalkedSinceFlush(before), s, WalkedAnswers(s, x), x.mem)
  }

  /** The discipline the architecture asks of software, as a property of the processor without TLBs: whoever changes the
      leaf of an address fences before the address is used. */
  ghost predicate Fenced(evs: seq<Event>) {
    if evs == [] then true
    else
      var before, ev := evs[..|evs| - 1], evs[|evs| - 1];
      Fenced(before) && (ev.Tick? ==> FencedStep(WalkedSinceFlush(before), UncachedRun(before), ev.around))
  }

  lemma FencedLast(evs: seq<Event>, ev: Event)
    ensures Fenced(evs + [ev]) <==>
            Fenced(evs) && (ev.Tick? ==> FencedStep(WalkedSinceFlush(evs), UncachedRun(evs), ev.around))
  {
    assert (evs + [ev])[..|evs|] == evs;
  }

  lemma FencedTurnLast(evs: seq<Event>, x: Around, reboot: bool)
    ensures Fenced(evs + Turn(x, reboot)) <==>
            Fenced(evs) && FencedStep(WalkedSinceFlush(evs), UncachedRun(evs), x)
  {
    FencedLast(evs, Tick(x));
    FencedLast(evs + [Tick(x)], Reboot);
    TurnEvents(evs, x, reboot);
  }

  lemma SettledIsFresh(t: seq<Tlb.Entry>, past: seq<Moment>, mem: PhysMem, s: State, va: nat, mode: Sv39.Access,
                       priv: nat)
    requires |t| == Tlb.TLB_SIZE && Recent(t, past, s.csr.reg.satp) && SettledFor(past, mem, s, va, mode)
    requires priv == if mode.Execute? then s.priv else DataPriv(s)
    ensures FreshAt(t, mem, s, va, mode, priv)
  {
    var satp := s.csr.reg.satp;
    if !Sv39.Bypass(satp, s.csr.reg.mstatus.Xlate(), mode, priv) && Tlb.Hit(t, va, satp) {
      var e := t[Tlb.Index(va)];
      var k :| 0 <= k < |past| && CapturedAt(e, past[k], satp);
      Tlb.SamePageLeaf(past[k].mem, va, satp);
      Tlb.SamePageLeaf(mem, va, satp);
      assert past[k] in past;
    }
  }

  lemma FencedIsFresh(h: Hart, past: seq<Moment>, x: Around)
    requires h.Shape() && Recent(h.itlb, past, h.cpu.csr.reg.satp) && Recent(h.dtlb, past, h.cpu.csr.reg.satp)
    requires FencedStep(past, h.cpu, x)
    ensures Fresh(h, x)
  {
    var s, e, w := h.cpu, Answers(h, x), WalkedAnswers(h.cpu, x);
    if !Sleeps(s, e) {
      SettledIsFresh(h.itlb, past, x.mem, s, s.pc, Sv39.Execute, s.priv);
      LookupFresh(h.itlb, x.mem, s, s.pc, Sv39.Execute, s.priv);
    }
    if Accesses(s, e) {
      assert Accesses(s, w);
      SettledIsFresh(h.dtlb, past, x.mem, s, LoadVa(e.inst), LoadMode(e.inst), DataPriv(s));
    }
  }

  /** Software that is disciplined on the processor without TLBs cannot tell the difference: it may edit live page
      tables at will, as long as it fences before it uses what it changed. */
  lemma {:induction false} FencedIsInvisible(evs: seq<Event>)
    requires Fenced(evs)
    ensures Run(evs).cpu == UncachedRun(evs) && SinceFlush(evs) == WalkedSinceFlush(evs) && FreshRun(evs)
  {
    if evs != [] {
      var before, ev := evs[..|evs| - 1], evs[|evs| - 1];
      FencedIsInvisible(before);
      if ev.Tick? {
        EntriesAreRecent(before);
        FencedTick(Run(before), SinceFlush(before), ev.around);
      }
      NextAgrees(Run(before), ev);
    }
  }

  lemma FencedTick(h: Hart, past: seq<Moment>, x: Around)
    requires h.Shape() && Recent(h.itlb, past, h.cpu.csr.reg.satp) && Recent(h.dtlb, past, h.cpu.csr.reg.satp)
    requires FencedStep(past, h.cpu, x)
    ensures Fresh(h, x)
    ensures Remember(past, h.cpu, Answers(h, x), x.mem) == Remember(past, h.cpu, WalkedAnswers(h.cpu, x), x.mem)
  {
    FencedIsFresh(h, past, x);
    FreshStep(h, x);
  }
}
