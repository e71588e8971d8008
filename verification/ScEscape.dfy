/** A run of the whole system on which a store-conditional completes outside the reserved bytes: the exception of
    LrSc.ScTestExact can be met. Machine mode with MPRV set reaches address 0 through a page table that maps the lowest
    gigabyte to RAM. */
module ScEscape {
  import opened Riscv
  import opened Cpu
  import Csr
  import Sv39
  import Tlb
  import Hart
  import Memory
  import Bus
  import LrSc
  import opened System

  const DRAM: nat := 0x8000_0000

  /** A readable, writable and executable user page of 1 GiB at the start of RAM, accessed and dirty. */
  const LEAF: nat := 0x2000_00DF

  const GIGABYTE: nat := 0x4000_0000

  /** Machine mode, awake, interrupts off, data accessed as user mode would, through a root table whose first
      entry is that page. */
  predicate Ready(c: Cached, root: nat)
    requires c.Ok()
  {
    && Prepared(c.hart.cpu) && !c.machine.syscon.reboot
    && root == c.hart.cpu.csr.reg.satp.ppn * 4096 && Bus.Phys(c.machine)(root) == Some(LEAF)
  }

  predicate Prepared(s: State) {
    var st := s.csr.reg.mstatus;
    !s.wfi && s.priv == PRIV_M && !st.mie && st.mprv && st.Mpp() == PRIV_U && s.csr.reg.satp.mode == 8
  }

  /** The word that memory holds at pc decodes to this instruction. */
  predicate Brings(core: Core, c: Cached, i: Inst)
    requires c.Ok()
  {
    var bytes := Bus.Read(c.machine, c.hart.cpu.pc, 4);
    bytes.Some? && core.decode(c.hart.cpu, Memory.Value(bytes.value)) == i
  }

  /** Two states of the registers that differ at most in x0 and one other. */
  predicate Kept(regs': seq<nat>, regs: seq<nat>, rd: nat) {
    |regs'| == |regs| && forall k :: 0 < k < |regs| && k != rd ==> regs'[k] == regs[k]
  }

  /** The word after it decodes to this one, whatever the first has brought to rd. */
  ghost predicate Follows(core: Core, c: Cached, rd: nat, i: Inst)
    requires c.Ok()
  {
    var pc, bytes := c.hart.cpu.pc + 4, Bus.Read(c.machine, c.hart.cpu.pc + 4, 4);
    && bytes.Some?
    && forall s: State :: s.pc == pc && Kept(s.regs, c.hart.cpu.regs, rd) ==>
         core.decode(s, Memory.Value(bytes.value)) == i
  }

  // ---------------------------------------------------------------- fetch and translation

  lemma RamReads(m: Bus.Machine, addr: nat, size: nat)
    requires Bus.Ok(m) && DRAM <= addr && addr + size <= DRAM + |m.ram|
    requires (size == 4 || size == 8) && addr % size == 0
    ensures Bus.Read(m, addr, size).Some?
    ensures forall data: seq<Byte> :: |data| == size ==> Bus.Accepts(m, addr, data)
  {
    Bus.RouteChain(|m.ram|, addr, size);
  }

  lemma NothingFires(r: Csr.Regs)
    requires !r.mstatus.mie
    ensures Csr.Select(r, PRIV_M, 0).None?
  {
  }

  /** In a ready state the instruction is fetched untranslated and executed. */
  lemma ReadyFetches(core: Core, c: Cached, i: Inst)
    requires c.Ok() && c.hart.cpu.priv == PRIV_M && !c.hart.cpu.csr.reg.mstatus.mie && !c.hart.cpu.wfi
    requires Brings(core, c, i)
    ensures var e := Fetched(core, c).env;
            e.fetch == Sv39.Valid(c.hart.cpu.pc) && e.inst == i && Executes(c.hart.cpu, e)
    ensures var m := Fetched(core, c).machine; m.ram == c.machine.ram && m.syscon == c.machine.syscon
  {
    var s := c.hart.cpu;
    NothingFires(Begin(s, Start(c.machine)).csr.reg);
  }

  /** The page maps the lowest gigabyte. */
  lemma OneLeaf(mem: PhysMem, satp: Sv39.Satp, root: nat, va: nat)
    requires root == satp.ppn * 4096 && mem(root) == Some(LEAF) && va < GIGABYTE
    ensures Sv39.FindLeaf(mem, va, satp) == Sv39.Leaf(2, LEAF)
  {
    LowGigabyte(va);
    LeafBits();
    assert Sv39.EntryAddr(root, va, 2) == root;
  }

  lemma LowGigabyte(va: nat)
    requires va < GIGABYTE
    ensures Sv39.Vpn(va, 2) == 0 && Sv39.Canonical(va)
  {
  }

  lemma LeafBits()
    ensures Sv39.IsLeaf(LEAF) && !Sv39.Malformed(LEAF) && !Sv39.Misaligned(LEAF, 2)
  {
  }

  lemma Mapped(mem: PhysMem, s: State, root: nat, va: nat, mode: Sv39.Access)
    requires root == s.csr.reg.satp.ppn * 4096 && mem(root) == Some(LEAF) && va < GIGABYTE && !mode.Execute?
    requires var st := s.csr.reg.mstatus; st.mprv && st.Mpp() == PRIV_U && s.csr.reg.satp.mode == 8
    ensures Hart.Walked(mem, s, va, mode) == Sv39.Valid(DRAM + va)
  {
    OneLeaf(mem, s.csr.reg.satp, root, va);
    LeafPermits(s.csr.reg.mstatus.Xlate(), mode, va);
  }

  lemma LeafPermits(st: Sv39.Status, mode: Sv39.Access, va: nat)
    requires !mode.Execute? && va < GIGABYTE
    ensures Sv39.PermissionOk(Sv39.PteFlags(LEAF), st, mode, PRIV_U) && Sv39.PhysAddr(LEAF, 2, va) == DRAM + va
  {
  }

  // ---------------------------------------------------------------- the load

  /** What the processor answers to itself is what was served. */
  lemma ServedAnswers(core: Core, c: Cached)
    requires c.Ok()
    ensures Hart.Answers(c.hart, AroundOf(c.machine, Serve(core, c).env)) == Serve(core, c).env
  {
    var x := AroundOf(c.machine, Fetched(core, c).env);
    assert Hart.Answers(c.hart, AroundOf(c.machine, Hart.Answers(c.hart, x))) == Hart.Answers(c.hart, x);
  }

  lemma LrServed(core: Core, m: Bus.Machine, s: State, e: Env, rd: nat)
    requires Bus.Ok(m) && |m.ram| >= 4
    requires Executes(s, e) && e.inst == LoadReserved(rd, 0, 4) && e.load == Sv39.Valid(DRAM)
    ensures var r := ServeData(core, m, s, e);
            LrSc.LrDone(s, r.env) && r.env.inst == e.inst && r.machine.syscon == m.syscon && r.machine.ram == m.ram
  {
    RamReads(m, DRAM, 4);
  }

  lemma ScServed(core: Core, m: Bus.Machine, s: State, e: Env, rd: nat, b: nat)
    requires Bus.Ok(m) && b % 8 == 0 && b + 8 <= |m.ram| && ScPasses(s.res, b, 8)
    requires Executes(s, e) && e.inst == StoreConditional(rd, b, 8) && e.store == Sv39.Valid(DRAM + b)
    ensures var r := ServeData(core, m, s, e); LrSc.ScDone(s, r.env) && r.env.inst == e.inst
  {
    RamReads(m, DRAM + b, 8);
  }

  /** The next instruction is LR.W of address 0. */
  ghost predicate LoadNext(core: Core, c: Cached, root: nat, rd: nat)
    requires c.Ok()
  {
    var s, m := c.hart.cpu, c.machine;
    && Ready(c, root) && |m.ram| >= 4 && s.pc + 4 < MODULUS && Brings(core, c, LoadReserved(rd, 0, 4))
    && Hart.FreshAt(c.hart.dtlb, Bus.Phys(m), s, 0, Sv39.Read, Hart.DataPriv(s))
  }

  /** The next instruction is SC.D of address b. */
  ghost predicate StoreNext(core: Core, c: Cached, root: nat, rd: nat, b: nat)
    requires c.Ok()
  {
    var s, m := c.hart.cpu, c.machine;
    && Ready(c, root) && s.res == Reserve(0, 4) && Brings(core, c, StoreConditional(rd, b, 8))
    && b % 8 == 0 && b < GIGABYTE && b + 8 <= |m.ram|
    && Hart.FreshAt(c.hart.dtlb, Bus.Phys(m), s, b, Sv39.Write, Hart.DataPriv(s))
  }

  /** The translations of the two data accesses. */
  lemma PageAnswers(h: Hart.Hart, x: Hart.Around, root: nat, mode: Sv39.Access, va: nat)
    requires h.Shape() && Prepared(h.cpu) && root == h.cpu.csr.reg.satp.ppn * 4096 && x.mem(root) == Some(LEAF)
    requires Hart.FreshAt(h.dtlb, x.mem, h.cpu, va, mode, Hart.DataPriv(h.cpu)) && va < GIGABYTE
    requires var i := x.outside.inst;
             || (i.LoadReserved? && i.va == va && mode == Sv39.Read)
             || (i.StoreConditional? && i.va == va && mode == Sv39.Write)
    ensures var e := Hart.Answers(h, x); (if mode.Read? then e.load else e.store) == Sv39.Valid(DRAM + va)
  {
    Hart.LookupFresh(h.dtlb, x.mem, h.cpu, va, mode, Hart.DataPriv(h.cpu));
    Mapped(x.mem, h.cpu, root, va, mode);
  }

  lemma AnswersFetch(core: Core, c: Cached)
    requires c.Ok()
    ensures var e, f := Hart.Answers(c.hart, AroundOf(c.machine, Fetched(core, c).env)), Fetched(core, c).env;
            e == f.(fetch := e.fetch, load := e.load, store := e.store)
    ensures var e, f := Hart.Answers(c.hart, AroundOf(c.machine, Fetched(core, c).env)), Fetched(core, c).env;
            Executes(c.hart.cpu, f) ==> Executes(c.hart.cpu, e)
  {
  }

  lemma LrTurn(core: Core, c: Cached, root: nat, rd: nat)
    requires c.Ok() && LoadNext(core, c, root, rd)
    ensures var r := Serve(core, c);
            && LrSc.LrDone(c.hart.cpu, r.env) && r.env.inst == LoadReserved(rd, 0, 4)
            && r.machine.syscon == c.machine.syscon && r.machine.ram == c.machine.ram
  {
    var f := Fetched(core, c);
    var x := AroundOf(c.machine, f.env);
    ReadyFetches(core, c, LoadReserved(rd, 0, 4));
    AnswersFetch(core, c);
    PageAnswers(c.hart, x, root, Sv39.Read, 0);
    LrServed(core, f.machine, c.hart.cpu, Hart.Answers(c.hart, x), rd);
  }

  /** The state after it. */
  lemma AfterLr(s: State, e: Env)
    requires LrSc.LrDone(s, e) && e.inst.va == 0 && e.inst.size == 4 && s.pc + 4 < MODULUS
    ensures var s' := Cpu.Step(s, e);
            && s'.res == Reserve(0, 4) && s'.pc == s.pc + 4 && !s'.wfi && s'.priv == s.priv
            && s'.csr.reg.mstatus == s.csr.reg.mstatus && s'.csr.reg.satp == s.csr.reg.satp
            && Kept(s'.regs, s.regs, e.inst.rd) && !Hart.Flushes(s, e)
  {
  }

  // ---------------------------------------------------------------- the store

  lemma ScTurn(core: Core, c: Cached, root: nat, rd: nat, b: nat)
    requires c.Ok() && StoreNext(core, c, root, rd, b)
    ensures var r := Serve(core, c); LrSc.ScDone(c.hart.cpu, r.env) && r.env.inst == StoreConditional(rd, b, 8)
  {
    var f := Fetched(core, c);
    var x := AroundOf(c.machine, f.env);
    ReadyFetches(core, c, StoreConditional(rd, b, 8));
    AnswersFetch(core, c);
    PageAnswers(c.hart, x, root, Sv39.Write, b);
    LrSc.ScTestExact(0, 4, b, 8);
    ScServed(core, f.machine, c.hart.cpu, Hart.Answers(c.hart, x), rd, b);
  }

  /** An entry of the page that matched memory before still does, as long as the root entry is there. */
  lemma StillFresh(t: seq<Tlb.Entry>, mem: PhysMem, mem': PhysMem, s: State, root: nat, b: nat)
    requires |t| == Tlb.TLB_SIZE && Tlb.Coherent(t, mem, s.csr.reg.satp) && b < GIGABYTE
    requires root == s.csr.reg.satp.ppn * 4096 && mem(root) == Some(LEAF) && mem'(root) == Some(LEAF)
    ensures Hart.FreshAt(t, mem', s, b, Sv39.Write, Hart.DataPriv(s))
    ensures Hart.FreshAt(t, mem', s, b, Sv39.Read, Hart.DataPriv(s))
  {
    var satp := s.csr.reg.satp;
    if Tlb.Hit(t, b, satp) {
      OneLeaf(mem, satp, root, b / 4096 * 4096);
      OneLeaf(mem', satp, root, b / 4096 * 4096);
      assert Tlb.Matches(t[Tlb.Index(b)], mem, satp);
    }
  }

  // ---------------------------------------------------------------- the run

  /** The turn of the load, but for memory. */
  lemma LrNext(core: Core, c: Cached, root: nat, rd: nat, i: Input)
    requires c.Ok() && LoadNext(core, c, root, rd)
    ensures var s, c' := c.hart.cpu, Next(core, c, i);
            var s' := c'.hart.cpu;
            && Prepared(s') && s'.res == Reserve(0, 4) && s'.pc == s.pc + 4 && s'.csr.reg.satp == s.csr.reg.satp
            && c'.hart == Hart.Step(c.hart, AroundOf(c.machine, Serve(core, c).env)) && Kept(s'.regs, s.regs, rd)
            && c'.machine.ram == c.machine.ram && !c'.machine.syscon.reboot
  {
    LrTurn(core, c, root, rd);
    ServedAnswers(core, c);
    AfterLr(c.hart.cpu, Serve(core, c).env);
  }

  lemma NoStore(core: Core, c: Cached, a: nat)
    requires c.Ok() && Serve(core, c).env.inst.LoadReserved?
    ensures !Covers(c.hart.cpu, Loaded(core, c), a)
  {
  }

  /** A load-reserved keeps all words but the time. */
  lemma RootKept(core: Core, c: Cached, a: nat, i: Input)
    requires c.Ok() && Serve(core, c).env.inst.LoadReserved? && !Serve(core, c).machine.syscon.reboot && a != MTIME
    ensures Bus.Phys(Next(core, c, i).machine)(a) == Bus.Phys(c.machine)(a)
  {
    NoStore(core, c, a);
    TurnKeepsWord(core, c, i, a);
  }

  /** A step that keeps satp and the root entry keeps the TLB fresh for the page. */
  lemma StepFresh(h: Hart.Hart, x: Hart.Around, mem': PhysMem, root: nat, b: nat)
    requires h.Shape() && Hart.Coherent(h, x.mem) && b < GIGABYTE
    requires Hart.Step(h, x).cpu.csr.reg.satp == h.cpu.csr.reg.satp
    requires root == h.cpu.csr.reg.satp.ppn * 4096 && x.mem(root) == Some(LEAF) && mem'(root) == Some(LEAF)
    ensures var h' := Hart.Step(h, x); Hart.FreshAt(h'.dtlb, mem', h'.cpu, b, Sv39.Write, Hart.DataPriv(h'.cpu))
  {
    Hart.StepKeepsCoherence(h, x);
    StillFresh(Hart.Step(h, x).dtlb, x.mem, mem', Hart.Step(h, x).cpu, root, b);
  }

  /** What a system needs to go on: the words of the two instructions next, in RAM, and an address of the page. */
  ghost predicate Poised(core: Core, c: Cached, root: nat, rd: nat, rd': nat, b: nat)
    requires c.Ok()
  {
    var pc, size := c.hart.cpu.pc, |c.machine.ram|;
    && Ready(c, root) && Brings(core, c, LoadReserved(rd, 0, 4)) && Follows(core, c, rd, StoreConditional(rd', b, 8))
    && DRAM <= pc && pc % 4 == 0 && pc + 8 <= DRAM + size < MODULUS
    && b % 8 == 0 && b < GIGABYTE && b + 8 <= size
  }

  lemma PoisedLoads(core: Core, c: Cached, root: nat, rd: nat, rd': nat, b: nat)
    requires c.Ok() && Poised(core, c, root, rd, rd', b) && Hart.Coherent(c.hart, Bus.Phys(c.machine))
    ensures LoadNext(core, c, root, rd)
  {
    StillFresh(c.hart.dtlb, Bus.Phys(c.machine), Bus.Phys(c.machine), c.hart.cpu, root, 0);
  }

  lemma NotTheTime(root: nat, ppn: nat)
    requires root == ppn * 4096
    ensures root != MTIME
  {
  }

  lemma RootAgain(core: Core, c: Cached, root: nat, rd: nat, i: Input)
    requires c.Ok() && LoadNext(core, c, root, rd)
    ensures Bus.Phys(Next(core, c, i).machine)(root) == Some(LEAF)
  {
    NotTheTime(root, c.hart.cpu.csr.reg.satp.ppn);
    LrTurn(core, c, root, rd);
    RootKept(core, c, root, i);
  }

  /** The turn of the load leaves the TLB fresh for the store .. */
  lemma NextFresh(core: Core, c: Cached, root: nat, rd: nat, b: nat, i: Input)
    requires c.Ok() && LoadNext(core, c, root, rd) && Hart.Coherent(c.hart, Bus.Phys(c.machine)) && b < GIGABYTE
    ensures var c' := Next(core, c, i);
            var s' := c'.hart.cpu;
            Hart.FreshAt(c'.hart.dtlb, Bus.Phys(c'.machine), s', b, Sv39.Write, Hart.DataPriv(s'))
  {
    LrNext(core, c, root, rd, i);
    RootAgain(core, c, root, rd, i);
    StepFresh(c.hart, AroundOf(c.machine, Serve(core, c).env), Bus.Phys(Next(core, c, i).machine), root, b);
  }

  /** .. and the system ready for it. */
  lemma NextReady(core: Core, c: Cached, root: nat, rd: nat, i: Input)
    requires c.Ok() && LoadNext(core, c, root, rd)
    ensures var c' := Next(core, c, i);
            && Ready(c', root) && c'.hart.cpu.res == Reserve(0, 4) && c'.hart.cpu.pc == c.hart.cpu.pc + 4
            && c'.machine.ram == c.machine.ram && Kept(c'.hart.cpu.regs, c.hart.cpu.regs, rd)
  {
    LrNext(core, c, root, rd, i);
    RootAgain(core, c, root, rd, i);
  }

  lemma LoadThenStore(core: Core, c: Cached, c': Cached, root: nat, rd: nat, rd': nat, b: nat)
    requires c.Ok() && c'.Ok() && Poised(core, c, root, rd, rd', b)
    requires Ready(c', root) && c'.hart.cpu.res == Reserve(0, 4)
    requires c'.hart.cpu.pc == c.hart.cpu.pc + 4 && c'.machine.ram == c.machine.ram
    requires Kept(c'.hart.cpu.regs, c.hart.cpu.regs, rd)
    requires var s' := c'.hart.cpu;
             Hart.FreshAt(c'.hart.dtlb, Bus.Phys(c'.machine), s', b, Sv39.Write, Hart.DataPriv(s'))
    ensures StoreNext(core, c', root, rd', b)
  {
    SameRead(c.machine, c'.machine, c.hart.cpu.pc + 4);
  }

  /** A word of RAM is the same in machines with the same RAM. */
  lemma SameRead(m: Bus.Machine, m': Bus.Machine, a: nat)
    requires Bus.Ok(m) && Bus.Ok(m') && m'.ram == m.ram && DRAM <= a
    ensures Bus.Read(m', a, 4) == Bus.Read(m, a, 4) && Bus.Phys(m')(a) == Bus.Phys(m)(a)
  {
    Bus.RouteChain(|m.ram|, a, 4);
    Bus.RouteChain(|m.ram|, a, 8);
  }

  /** The latest load-reserved is then this one. */
  lemma LrCounted(evs: seq<Hart.Event>, core: Core, c: Cached, root: nat, rd: nat)
    requires c.Ok() && LoadNext(core, c, root, rd) && c.hart == Hart.Run(evs)
    ensures LrSc.Count(evs + Events(c.machine, Serve(core, c))).latest == Some((0, 4))
  {
    LrTurn(core, c, root, rd);
    ServedAnswers(core, c);
    LrSc.CountLast(evs, AroundOf(c.machine, Serve(core, c).env));
  }

  lemma EscapeTurns(core: Core, c: Cached, root: nat, rd: nat, rd': nat, b: nat, i: Input)
    requires c.Ok() && Poised(core, c, root, rd, rd', b) && Hart.Coherent(c.hart, Bus.Phys(c.machine))
    ensures LoadNext(core, c, root, rd)
    ensures var c' := Next(core, c, i);
            var e := Serve(core, c').env;
            LrSc.ScDone(c'.hart.cpu, e) && e.inst == StoreConditional(rd', b, 8)
  {
    PoisedLoads(core, c, root, rd, rd', b);
    NextReady(core, c, root, rd, i);
    NextFresh(core, c, root, rd, b, i);
    LoadThenStore(core, c, Next(core, c, i), root, rd, rd', b);
    ScTurn(core, Next(core, c, i), root, rd', b);
  }

  /** At the end of any run that is so poised, with coherent TLBs, LR.W of address 0 completes, and in the next turn so
      does SC.D of b, although its bytes are not inside those of the latest load-reserved. */
  lemma ScEscapesAtZero(core: Core, m: Bus.Machine, inputs: seq<Input>, i: Input, root: nat, rd: nat, rd': nat, b: nat)
    requires Bus.Ok(m)
    requires var c := Run(core, m, inputs);
             Poised(core, c, root, rd, rd', b) && Hart.Coherent(c.hart, Bus.Phys(c.machine))
    ensures var c := Run(core, m, inputs + [i]);
            && LrSc.ScDone(c.hart.cpu, Serve(core, c).env) && Serve(core, c).env.inst == StoreConditional(rd', b, 8)
            && LrSc.Count(Trace(core, m, inputs + [i])).latest == Some((0, 4))
            && !LrSc.Inside(b, 8, 0, 4)
  {
    var c := Run(core, m, inputs);
    RunLast(core, m, inputs, i);
    TraceLast(core, m, inputs, i);
    EscapeTurns(core, c, root, rd, rd', b, i);
    RunOfTrace(core, m, inputs);
    LrCounted(Trace(core, m, inputs), core, c, root, rd);
  }

  // ---------------------------------------------------------------- everywhere else

  /** The decoder makes LR and SC word or doubleword sized. */
  ghost predicate Decodes(core: Core) {
    forall s: State, word: nat :: Sized(core.decode(s, word))
  }

  predicate Sized(i: Inst) {
    i.LoadReserved? || i.StoreConditional? ==> (i.size == 4 || i.size == 8) && i.va < MODULUS
  }

  lemma ServedSized(core: Core, c: Cached)
    requires c.Ok() && Decodes(core)
    ensures Sized(Serve(core, c).env.inst)
  {
    assert Sized(Fetched(core, c).env.inst);
  }

  ghost predicate AllDecoded(evs: seq<Hart.Event>) {
    forall k :: 0 <= k < |evs| ==> LrSc.Decoded(evs[k])
  }

  lemma EventsDecoded(evs: seq<Hart.Event>, x: Hart.Around, reboot: bool)
    requires AllDecoded(evs) && Sized(x.outside.inst)
    ensures AllDecoded(evs + Hart.Turn(x, reboot))
  {
  }

  lemma {:induction false} TraceDecoded(core: Core, m: Bus.Machine, inputs: seq<Input>)
    requires Bus.Ok(m) && Decodes(core)
    ensures AllDecoded(Trace(core, m, inputs))
  {
    if inputs != [] {
      var before := inputs[..|inputs| - 1];
      var c := Run(core, m, before);
      TraceDecoded(core, m, before);
      ServedSized(core, c);
      EventsDecoded(Trace(core, m, before), AroundOf(c.machine, Serve(core, c).env),
                    Serve(core, c).machine.syscon.reboot);
    }
  }

  /** Over every run of the system, a store-conditional that completes stores inside the bytes of the latest
      load-reserved if and only if it is not this exception. */
  lemma ScStoresInsideLatestLr(core: Core, m: Bus.Machine, inputs: seq<Input>)
    requires Bus.Ok(m) && Decodes(core)
    requires var c := Run(core, m, inputs); LrSc.ScDone(c.hart.cpu, Serve(core, c).env)
    ensures LrSc.Count(Trace(core, m, inputs)).latest.Some?
    ensures var (a, n) := LrSc.Count(Trace(core, m, inputs)).latest.value;
            var i := Serve(core, Run(core, m, inputs)).env.inst;
            LrSc.Inside(i.va, i.size, a, n) <==> !(a == 0 && n == 4 && i.size == 8)
  {
    var c, evs := Run(core, m, inputs), Trace(core, m, inputs);
    TraceDecoded(core, m, inputs);
    ServedSized(core, c);
    ServedAnswers(core, c);
    RunOfTrace(core, m, inputs);
    LrSc.ScStoresInsideLatestLr(evs, AroundOf(c.machine, Serve(core, c).env));
  }
}
