/** The whole system: the hart of module Hart on the bus and the devices of module Bus, as the loop of
    emulator/src/cpu/cpu_exec.c drives them, and the proof that the TLBs cannot be observed on it. Only what an
    instruction word means is left open: the theorems hold for every decoder and every arithmetic. */
module System {
  import opened Riscv
  import opened Cpu
  import CpuRuns
  import Sv39
  import Tlb
  import Hart
  import Memory
  import Bus
  import Uart
  import Clint
  import Plic

  /** The meaning of an instruction word, with the values of its operands taken from the state: the instruction, what it
      brings to rd and what it stores. The last two may depend on what its load has read, the former also on the clock
      and on the interrupt lines that the step has sampled into the state. */
  datatype Core = Core(
    decode: (State, nat) -> Inst, deliver: (State, nat, nat, nat) -> nat, stored: (State, nat, nat) -> nat)

  /** What the host gives the devices in one turn of the loop. */
  datatype Input = Input(now: int, received: Option<Byte>)

  const N: nat := Bus.PLIC_MAX_INTERRUPT

  // ---------------------------------------------------------------- the devices between steps

  /** The lines into the interrupt controller: the UART has line 10, the others are low. */
  function DeviceLines(m: Bus.Machine): (lines: seq<bool>)
    ensures |lines| == N
  {
    seq(N, i => i == 10 && Uart.Level(m.uart))
  }

  /** device_update and device_irq_level. */
  function Update(m: Bus.Machine, i: Input): (m': Bus.Machine)
    requires Bus.Ok(m)
    ensures Bus.Ok(m')
  {
    var polled := m.(uart := m.uart.(queue := Uart.Step(m.uart.queue, Uart.Poll(i.received))),
                     clint := Clint.Tick(m.clint, i.now));
    polled.(uart := Uart.Identified(polled.uart), plic := Plic.Lines(N, m.plic, DeviceLines(polled)))
  }

  /** device_reset. */
  function ResetDevices(m: Bus.Machine): (m': Bus.Machine)
    requires Bus.Ok(m)
    ensures Bus.Ok(m')
  {
    m.(syscon := m.syscon.(sysCtrl := 0, poweroff := false, reboot := false),
       uart := Uart.Device(Uart.ResetQueue, Uart.ResetRegs),
       clint := m.clint.(msip := 0, mtime := 0, mtimecmp := MODULUS - 1),
       plic := Plic.Reset(N))
  }

  // ---------------------------------------------------------------- one step on the bus

  const NONE: Sv39.Translation := Sv39.Fault(0)

  /** The interrupt lines and the clock as the devices hold them. The loop hands the lines over after each update;
      nothing changes them before the next step. */
  function Start(m: Bus.Machine): Env
    requires Bus.Ok(m)
  {
    Env(Plic.Signals(N, m.plic, 0), Clint.SoftwareLine(m.clint), Clint.TimerLine(m.clint), Plic.Signals(N, m.plic, 1),
        m.clint.mtime, Fence, 0, NONE, NONE, NONE, false, false, false, 0)
  }

  /** The bus's answers to the accesses of a step so far, what the load has read, and the machine after them. */
  datatype Served = Served(env: Env, loaded: nat, machine: Bus.Machine)

  /** The fetch, and the instruction it brings. */
  function ServeFetch(core: Core, m: Bus.Machine, s: State, t: Sv39.Translation): (r: Served)
    requires Bus.Ok(m)
    ensures Bus.Ok(r.machine)
    ensures var e := r.env; e == Start(m).(fetch := t, fetchOk := e.fetchOk, word := e.word, inst := e.inst)
  {
    var e := Start(m);
    if Sleeps(s, e) || t.Fault? then Served(e.(fetch := t), 0, m)
    else
      var bytes := Bus.Read(m, t.pa, 4);
      var e' := if bytes.None? then e.(fetch := t)
          else
            var word := Memory.Value(bytes.value);
            e.(fetch := t, fetchOk := true, word := word, inst := core.decode(s, word));
      Served(e', 0, Bus.ReadEffect(m, t.pa, 4))
  }

  function SizeOf(i: Inst): nat {
    match i
    case Load(_, _, size) => size
    case Store(_, size) => size
    case LoadReserved(_, _, size) => size
    case StoreConditional(_, _, size) => size
    case AtomicOp(_, _, size) => size
    case _ => 0
  }

  predicate Reaches(t: Sv39.Translation, size: nat) {
    t.Valid? && !MisalignedAccess(t.pa, size)
  }

  /** The load, if the instruction gets that far, and what comes to rd. */
  function ServeLoad(core: Core, m: Bus.Machine, s: State, e: Env, loads: bool): (r: Served)
    requires Bus.Ok(m)
    ensures Bus.Ok(r.machine) && r.env == e.(readOk := r.env.readOk, data := r.env.data)
  {
    if loads && Reaches(e.load, SizeOf(e.inst)) then
      var bytes := Bus.Read(m, e.load.pa, SizeOf(e.inst));
      var loaded := if bytes.Some? then Memory.Value(bytes.value) else 0;
      Served(e.(readOk := bytes.Some?, data := core.deliver(Begin(s, e), e.word, e.time, loaded)), loaded,
             Bus.ReadEffect(m, e.load.pa, SizeOf(e.inst)))
    else Served(e.(data := core.deliver(Begin(s, e), e.word, e.time, 0)), 0, m)
  }

  /** The store, if the instruction gets that far. */
  function ServeStore(core: Core, s: State, r: Served, stores: bool): (r': Served)
    requires Bus.Ok(r.machine)
    ensures Bus.Ok(r'.machine) && r'.env == r.env.(writeOk := r'.env.writeOk)
  {
    if stores && Reaches(r.env.store, SizeOf(r.env.inst)) then
      var data := Memory.Encode(core.stored(s, r.env.word, r.loaded), SizeOf(r.env.inst));
      r.(env := r.env.(writeOk := Bus.Accepts(r.machine, r.env.store.pa, data)),
         machine := Bus.Write(r.machine, r.env.store.pa, data))
    else r
  }

  function ServeData(core: Core, m: Bus.Machine, s: State, e: Env): (r: Served)
    requires Bus.Ok(m)
    ensures Bus.Ok(r.machine)
    ensures r.env == e.(readOk := r.env.readOk, writeOk := r.env.writeOk, data := r.env.data)
  {
    var l := ServeLoad(core, m, s, e, Hart.Loads(s, e));
    ServeStore(core, s, l, Hart.Stores(s, l.env))
  }

  // ---------------------------------------------------------------- runs

  datatype Cached = Cached(hart: Hart.Hart, machine: Bus.Machine)
  {
    predicate Ok() {
      hart.Shape() && Bus.Ok(machine)
    }
  }

  datatype Uncached = Uncached(cpu: State, machine: Bus.Machine)

  /** What a step meets, but for the translations. */
  function AroundOf(m: Bus.Machine, e: Env): Hart.Around
    requires Bus.Ok(m)
  {
    Hart.Around(Bus.Phys(m), e.(fetch := NONE, load := NONE, store := NONE))
  }

  function Fetched(core: Core, c: Cached): (r: Served)
    requires c.Ok()
    ensures Bus.Ok(r.machine)
  {
    var h, mem := c.hart, Bus.Phys(c.machine);
    ServeFetch(core, c.machine, h.cpu, Hart.Lookup(h.itlb, mem, h.cpu, h.cpu.pc, Sv39.Execute, h.cpu.priv))
  }

  /** The step's accesses, translated by the TLBs. */
  function Serve(core: Core, c: Cached): (r: Served)
    requires c.Ok()
    ensures Bus.Ok(r.machine)
  {
    var f := Fetched(core, c);
    ServeData(core, f.machine, c.hart.cpu, Hart.Answers(c.hart, AroundOf(c.machine, f.env)))
  }

  function WalkedFetched(core: Core, u: Uncached): (r: Served)
    requires Bus.Ok(u.machine)
    ensures Bus.Ok(r.machine)
  {
    ServeFetch(core, u.machine, u.cpu, Hart.Walked(Bus.Phys(u.machine), u.cpu, u.cpu.pc, Sv39.Execute))
  }

  /** The step's accesses, translated by walks. */
  function WalkedServe(core: Core, u: Uncached): (r: Served)
    requires Bus.Ok(u.machine)
    ensures Bus.Ok(r.machine)
  {
    var f := WalkedFetched(core, u);
    ServeData(core, f.machine, u.cpu, Hart.WalkedAnswers(u.cpu, AroundOf(u.machine, f.env)))
  }

  /** The events of a turn: a step, and the re-initialisation if it has requested a reboot. */
  function Events(m: Bus.Machine, r: Served): seq<Hart.Event>
    requires Bus.Ok(m)
  {
    Hart.Turn(AroundOf(m, r.env), r.machine.syscon.reboot)
  }

  /** The devices after a turn. */
  function After(r: Served, i: Input): (m: Bus.Machine)
    requires Bus.Ok(r.machine)
    ensures Bus.Ok(m)
  {
    Update(if r.machine.syscon.reboot then ResetDevices(r.machine) else r.machine, i)
  }

  /** One turn of the loop, which ends on a power-off; a run here may go on. */
  function Next(core: Core, c: Cached, i: Input): (c': Cached)
    requires c.Ok()
    ensures c'.Ok()
  {
    var r := Serve(core, c);
    var h := Hart.Step(c.hart, AroundOf(c.machine, r.env));
    Cached(if r.machine.syscon.reboot then Hart.Reset() else h, After(r, i))
  }

  /** The same system with a processor that walks the page tables for every access. */
  function UncachedNext(core: Core, u: Uncached, i: Input): (u': Uncached)
    requires Bus.Ok(u.machine)
    ensures Bus.Ok(u'.machine)
  {
    var r := WalkedServe(core, u);
    var s := Cpu.Step(u.cpu, Hart.WalkedAnswers(u.cpu, AroundOf(u.machine, r.env)));
    Uncached(if r.machine.syscon.reboot then Cpu.Reset() else s, After(r, i))
  }

  function Run(core: Core, m: Bus.Machine, inputs: seq<Input>): (c: Cached)
    requires Bus.Ok(m)
    ensures c.Ok()
  {
    if inputs == [] then Cached(Hart.Reset(), m)
    else Next(core, Run(core, m, inputs[..|inputs| - 1]), inputs[|inputs| - 1])
  }

  function UncachedRun(core: Core, m: Bus.Machine, inputs: seq<Input>): (u: Uncached)
    requires Bus.Ok(m)
    ensures Bus.Ok(u.machine)
  {
    if inputs == [] then Uncached(Cpu.Reset(), m)
    else UncachedNext(core, UncachedRun(core, m, inputs[..|inputs| - 1]), inputs[|inputs| - 1])
  }

  lemma RunLast(core: Core, m: Bus.Machine, inputs: seq<Input>, i: Input)
    requires Bus.Ok(m)
    ensures Run(core, m, inputs + [i]) == Next(core, Run(core, m, inputs), i)
  {
    assert (inputs + [i])[..|inputs|] == inputs;
  }

  /** The events of a run, as the processor alone sees them. */
  function Trace(core: Core, m: Bus.Machine, inputs: seq<Input>): seq<Hart.Event>
    requires Bus.Ok(m)
  {
    if inputs == [] then []
    else
      var before := inputs[..|inputs| - 1];
      var c := Run(core, m, before);
      Trace(core, m, before) + Events(c.machine, Serve(core, c))
  }

  function WalkedTrace(core: Core, m: Bus.Machine, inputs: seq<Input>): seq<Hart.Event>
    requires Bus.Ok(m)
  {
    if inputs == [] then []
    else
      var before := inputs[..|inputs| - 1];
      var u := UncachedRun(core, m, before);
      WalkedTrace(core, m, before) + Events(u.machine, WalkedServe(core, u))
  }

  lemma TraceLast(core: Core, m: Bus.Machine, inputs: seq<Input>, i: Input)
    requires Bus.Ok(m)
    ensures var c := Run(core, m, inputs);
            Trace(core, m, inputs + [i]) == Trace(core, m, inputs) + Events(c.machine, Serve(core, c))
  {
    assert (inputs + [i])[..|inputs|] == inputs;
  }

  /** The hart of a run is that of its trace, so that every theorem about the runs of module Hart holds of it. */
  lemma {:induction false} RunOfTrace(core: Core, m: Bus.Machine, inputs: seq<Input>)
    requires Bus.Ok(m)
    ensures Run(core, m, inputs).hart == Hart.Run(Trace(core, m, inputs))
  {
    if inputs != [] {
      var before := inputs[..|inputs| - 1];
      RunOfTrace(core, m, before);
      var c := Run(core, m, before);
      Hart.TurnLast(Trace(core, m, before), AroundOf(c.machine, Serve(core, c).env),
                    Serve(core, c).machine.syscon.reboot);
    }
  }

  lemma {:induction false} RunOfWalkedTrace(core: Core, m: Bus.Machine, inputs: seq<Input>)
    requires Bus.Ok(m)
    ensures UncachedRun(core, m, inputs).cpu == Hart.UncachedRun(WalkedTrace(core, m, inputs))
  {
    if inputs != [] {
      var before := inputs[..|inputs| - 1];
      RunOfWalkedTrace(core, m, before);
      var u := UncachedRun(core, m, before);
      Hart.TurnLast(WalkedTrace(core, m, before), AroundOf(u.machine, WalkedServe(core, u).env),
                    WalkedServe(core, u).machine.syscon.reboot);
    }
  }

  // ---------------------------------------------------------------- refinement

  /** A step that gets to no data access leaves the bus alone. */
  lemma NothingServed(core: Core, m: Bus.Machine, s: State, e: Env)
    requires Bus.Ok(m) && !Hart.Accesses(s, e)
    ensures ServeData(core, m, s, e) == Served(e.(data := core.deliver(Begin(s, e), e.word, e.time, 0)), 0, m)
  {
  }

  /** Accesses that differ only in translations the step does not ask for are served alike. */
  lemma ServedAlike(core: Core, m: Bus.Machine, s: State, e: Env, e': Env)
    requires Bus.Ok(m) && Hart.Alike(s, e, e')
    ensures var r, r' := ServeData(core, m, s, e), ServeData(core, m, s, e');
            r'.machine == r.machine && r'.env == r.env.(fetch := e'.fetch, load := e'.load, store := e'.store)
  {
    if Hart.Accesses(s, e) {
      assert e' == e;
    } else {
      NothingServed(core, m, s, e);
      NothingServed(core, m, s, e');
    }
  }

  /** The lookup of the fetch, if there is one, hits no outdated entry. */
  predicate FetchFresh(c: Cached)
    requires c.Ok()
  {
    var s := c.hart.cpu;
    || Sleeps(s, Start(c.machine))
    || Hart.FreshAt(c.hart.itlb, Bus.Phys(c.machine), s, s.pc, Sv39.Execute, s.priv)
  }

  lemma FetchAlike(core: Core, c: Cached)
    requires c.Ok() && FetchFresh(c)
    ensures var f, f' := Fetched(core, c), WalkedFetched(core, Uncached(c.hart.cpu, c.machine));
            AroundOf(c.machine, f'.env) == AroundOf(c.machine, f.env) && f'.machine == f.machine
  {
    var h, m := c.hart, c.machine;
    if !Sleeps(h.cpu, Start(m)) {
      Hart.LookupFresh(h.itlb, Bus.Phys(m), h.cpu, h.cpu.pc, Sv39.Execute, h.cpu.priv);
    }
  }

  /** Whether the step sleeps is seen from the interrupt lines. */
  lemma SleepsOnLines(s: State, m: Bus.Machine, x: Hart.Around, h: Hart.Hart)
    requires Bus.Ok(m) && h.Shape() && h.cpu == s && Hart.Fresh(h, x) && x.mem == Bus.Phys(m)
    requires var e := x.outside;
             e == Start(m).(fetch := e.fetch, load := e.load, store := e.store, fetchOk := e.fetchOk, word := e.word,
                            inst := e.inst, readOk := e.readOk, writeOk := e.writeOk, data := e.data)
    ensures FetchFresh(Cached(h, m))
  {
    assert Sleeps(s, Hart.Answers(h, x)) <==> Sleeps(s, Start(m));
  }

  /** The step of the cached system is fresh, by its own accesses or by those of the other. */
  predicate FreshTurn(core: Core, c: Cached)
    requires c.Ok()
  {
    var m, u := c.machine, Uncached(c.hart.cpu, c.machine);
    || Hart.Fresh(c.hart, AroundOf(m, Serve(core, c).env))
    || Hart.Fresh(c.hart, AroundOf(m, WalkedServe(core, u).env))
  }

  lemma FetchedFresh(core: Core, c: Cached)
    requires c.Ok() && FreshTurn(core, c)
    ensures FetchFresh(c) && Hart.Fresh(c.hart, AroundOf(c.machine, Fetched(core, c).env))
  {
    var m, u := c.machine, Uncached(c.hart.cpu, c.machine);
    if Hart.Fresh(c.hart, AroundOf(m, Serve(core, c).env)) {
      var x := AroundOf(m, Fetched(core, c).env);
      Hart.FreshBefore(c.hart, x, AroundOf(m, Serve(core, c).env));
      SleepsOnLines(c.hart.cpu, m, x, c.hart);
    } else {
      WalkedFresh(core, c);
    }
  }

  lemma WalkedFresh(core: Core, c: Cached)
    requires c.Ok()
    requires Hart.Fresh(c.hart, AroundOf(c.machine, WalkedServe(core, Uncached(c.hart.cpu, c.machine)).env))
    ensures FetchFresh(c) && Hart.Fresh(c.hart, AroundOf(c.machine, Fetched(core, c).env))
  {
    WalkedFetchFresh(core, c);
    FetchAlike(core, c);
  }

  lemma WalkedFetchFresh(core: Core, c: Cached)
    requires c.Ok()
    requires Hart.Fresh(c.hart, AroundOf(c.machine, WalkedServe(core, Uncached(c.hart.cpu, c.machine)).env))
    ensures FetchFresh(c)
    ensures Hart.Fresh(c.hart, AroundOf(c.machine, WalkedFetched(core, Uncached(c.hart.cpu, c.machine)).env))
  {
    var m, u := c.machine, Uncached(c.hart.cpu, c.machine);
    var x := AroundOf(m, WalkedFetched(core, u).env);
    Hart.FreshBefore(c.hart, x, AroundOf(m, WalkedServe(core, u).env));
    SleepsOnLines(c.hart.cpu, m, x, c.hart);
  }

  /** One turn: if the lookups of the step hit no outdated entry, the two systems meet and do the same. */
  lemma TurnAgrees(core: Core, c: Cached)
    requires c.Ok() && FreshTurn(core, c)
    ensures var m, u := c.machine, Uncached(c.hart.cpu, c.machine);
            var r, w := Serve(core, c), WalkedServe(core, u);
            AroundOf(m, w.env) == AroundOf(m, r.env) && w.machine == r.machine && Hart.Fresh(c.hart, AroundOf(m, r.env))
  {
    var h, m := c.hart, c.machine;
    FetchedFresh(core, c);
    FetchAlike(core, c);
    var f := Fetched(core, c);
    var x := AroundOf(m, f.env);
    Hart.AnswersAlike(h, x);
    ServedAlike(core, f.machine, h.cpu, Hart.Answers(h, x), Hart.WalkedAnswers(h.cpu, x));
    Hart.FreshBefore(h, x, AroundOf(m, Serve(core, c).env));
  }

  lemma NextAgrees(core: Core, c: Cached, i: Input)
    requires c.Ok() && FreshTurn(core, c)
    ensures var c', u := Next(core, c, i), Uncached(c.hart.cpu, c.machine);
            && UncachedNext(core, u, i) == Uncached(c'.hart.cpu, c'.machine)
            && Events(c.machine, WalkedServe(core, u)) == Events(c.machine, Serve(core, c))
            && Hart.Fresh(c.hart, AroundOf(c.machine, Serve(core, c).env))
  {
    TurnAgrees(core, c);
    Hart.FreshStep(c.hart, AroundOf(c.machine, Serve(core, c).env));
  }

  /** The two systems are in the same state, and have been through the same. */
  ghost predicate Meet(core: Core, m: Bus.Machine, inputs: seq<Input>)
    requires Bus.Ok(m)
  {
    var c := Run(core, m, inputs);
    && UncachedRun(core, m, inputs) == Uncached(c.hart.cpu, c.machine)
    && WalkedTrace(core, m, inputs) == Trace(core, m, inputs)
  }

  lemma MeetAgain(core: Core, m: Bus.Machine, inputs: seq<Input>)
    requires Bus.Ok(m) && inputs != [] && Meet(core, m, inputs[..|inputs| - 1])
    requires FreshTurn(core, Run(core, m, inputs[..|inputs| - 1]))
    ensures Meet(core, m, inputs)
  {
    NextAgrees(core, Run(core, m, inputs[..|inputs| - 1]), inputs[|inputs| - 1]);
  }

  lemma FreshBefore(core: Core, m: Bus.Machine, inputs: seq<Input>)
    requires Bus.Ok(m) && inputs != [] && Hart.FreshRun(Trace(core, m, inputs))
    ensures var before := inputs[..|inputs| - 1];
            Hart.FreshRun(Trace(core, m, before)) && FreshTurn(core, Run(core, m, before))
  {
    var before := inputs[..|inputs| - 1];
    var c := Run(core, m, before);
    RunOfTrace(core, m, before);
    Hart.TurnLast(Trace(core, m, before), AroundOf(c.machine, Serve(core, c).env),
                  Serve(core, c).machine.syscon.reboot);
  }

  /** Refinement of the whole system: over every run in which no lookup hits an outdated entry, the system with TLBs
      goes through the very states, of processor, devices and memory, of the one that walks the tables for every
      access. */
  lemma {:induction false} TlbsAreInvisible(core: Core, m: Bus.Machine, inputs: seq<Input>)
    requires Bus.Ok(m) && Hart.FreshRun(Trace(core, m, inputs))
    ensures var c := Run(core, m, inputs); UncachedRun(core, m, inputs) == Uncached(c.hart.cpu, c.machine)
    ensures Meet(core, m, inputs)
  {
    if inputs != [] {
      FreshBefore(core, m, inputs);
      TlbsAreInvisible(core, m, inputs[..|inputs| - 1]);
      MeetAgain(core, m, inputs);
    }
  }

  /** So it is, if software is disciplined on the system without TLBs: it may edit live page tables at will, as long as
      it fences before it uses an address whose leaf it changed. */
  lemma {:induction false} FencedIsInvisible(core: Core, m: Bus.Machine, inputs: seq<Input>)
    requires Bus.Ok(m) && Hart.Fenced(WalkedTrace(core, m, inputs))
    ensures var c := Run(core, m, inputs); UncachedRun(core, m, inputs) == Uncached(c.hart.cpu, c.machine)
    ensures Meet(core, m, inputs)
  {
    if inputs != [] {
      var before := inputs[..|inputs| - 1];
      FencedBefore(core, m, inputs);
      FencedIsInvisible(core, m, before);
      RunOfTrace(core, m, before);
      FencedTurn(core, Run(core, m, before), Trace(core, m, before));
      MeetAgain(core, m, inputs);
    }
  }

  lemma FencedBefore(core: Core, m: Bus.Machine, inputs: seq<Input>)
    requires Bus.Ok(m) && inputs != [] && Hart.Fenced(WalkedTrace(core, m, inputs))
    ensures var before := inputs[..|inputs| - 1];
            var evs, u := WalkedTrace(core, m, before), UncachedRun(core, m, before);
            && Hart.Fenced(evs)
            && Hart.FencedStep(Hart.WalkedSinceFlush(evs), u.cpu, AroundOf(u.machine, WalkedServe(core, u).env))
  {
    var before := inputs[..|inputs| - 1];
    var u := UncachedRun(core, m, before);
    RunOfWalkedTrace(core, m, before);
    FencedEvents(WalkedTrace(core, m, before), u.machine, WalkedServe(core, u));
  }

  lemma FencedEvents(evs: seq<Hart.Event>, m: Bus.Machine, r: Served)
    requires Bus.Ok(m) && Hart.Fenced(evs + Events(m, r))
    ensures Hart.Fenced(evs) && Hart.FencedStep(Hart.WalkedSinceFlush(evs), Hart.UncachedRun(evs), AroundOf(m, r.env))
  {
    Hart.FencedTurnLast(evs, AroundOf(m, r.env), r.machine.syscon.reboot);
  }

  lemma FencedTurn(core: Core, c: Cached, evs: seq<Hart.Event>)
    requires c.Ok() && c.hart == Hart.Run(evs) && Hart.Fenced(evs)
    requires var u := Uncached(c.hart.cpu, c.machine);
             Hart.FencedStep(Hart.WalkedSinceFlush(evs), u.cpu, AroundOf(c.machine, WalkedServe(core, u).env))
    ensures FreshTurn(core, c)
  {
    var u := Uncached(c.hart.cpu, c.machine);
    Hart.FencedIsInvisible(evs);
    Hart.EntriesAreRecent(evs);
    Hart.FencedIsFresh(c.hart, Hart.SinceFlush(evs), AroundOf(c.machine, WalkedServe(core, u).env));
  }

  /** So it is, if no page-table word that a cached walk has read changes while it is cached, fence or no fence. */
  lemma KeptIsInvisible(core: Core, m: Bus.Machine, inputs: seq<Input>)
    requires Bus.Ok(m) && Hart.PageTablesKept(Trace(core, m, inputs))
    ensures var c := Run(core, m, inputs); UncachedRun(core, m, inputs) == Uncached(c.hart.cpu, c.machine)
  {
    Hart.KeptIsFresh(Trace(core, m, inputs));
    TlbsAreInvisible(core, m, inputs);
  }

  // ---------------------------------------------------------------- what page walks can see

  /** No read on the bus, of any size, changes a word that a page walk could see: all walks of a step see the memory of
      its beginning. */
  lemma ReadsKeepWords(m: Bus.Machine, addr: nat, size: nat, a: nat)
    requires Bus.Ok(m)
    ensures Bus.Phys(Bus.ReadEffect(m, addr, size))(a) == Bus.Phys(m)(a)
  {
    var m' := Bus.ReadEffect(m, addr, size);
    var t := Bus.RouteOf(m, a, 8);
    if t.Some? {
      Bus.DoubleAnswers(m, t.value, a);
      Bus.DoubleAnswers(m', t.value, a);
    }
  }

  const MTIME: nat := 0x200_BFF8

  /** Of the devices' own activity a page walk could see the time alone. */
  lemma UpdatesKeepWords(m: Bus.Machine, i: Input, a: nat)
    requires Bus.Ok(m) && a != MTIME
    ensures Bus.Phys(Update(m, i))(a) == Bus.Phys(m)(a)
  {
    var t := Bus.RouteOf(m, a, 8);
    if t.Some? {
      Bus.DoubleAnswers(m, t.value, a);
      Bus.DoubleAnswers(Update(m, i), t.value, a);
    }
  }

  /** The store of a step, after its load has been served, covers a byte of the word. */
  predicate Covers(s: State, r: Served, a: nat) {
    var e := r.env;
    Hart.Stores(s, e) && Reaches(e.store, SizeOf(e.inst)) && e.store.pa < a + 8 && a < e.store.pa + SizeOf(e.inst)
  }

  lemma StoreKeepsWord(core: Core, s: State, r: Served, a: nat)
    requires Bus.Ok(r.machine) && !Covers(s, r, a)
    ensures Bus.Phys(ServeStore(core, s, r, Hart.Stores(s, r.env)).machine)(a) == Bus.Phys(r.machine)(a)
  {
    if Hart.Stores(s, r.env) && r.env.store.Valid? {
      Bus.WritesAreLocal(r.machine, r.env.store.pa,
                         Memory.Encode(core.stored(s, r.env.word, r.loaded), SizeOf(r.env.inst)), a);
    }
  }

  /** The load of a step, served. */
  function Loaded(core: Core, c: Cached): (r: Served)
    requires c.Ok()
    ensures Bus.Ok(r.machine)
  {
    var f := Fetched(core, c);
    var e := Hart.Answers(c.hart, AroundOf(c.machine, f.env));
    ServeLoad(core, f.machine, c.hart.cpu, e, Hart.Loads(c.hart.cpu, e))
  }

  lemma FetchKeepsWord(core: Core, c: Cached, a: nat)
    requires c.Ok()
    ensures Bus.Phys(Fetched(core, c).machine)(a) == Bus.Phys(c.machine)(a)
  {
    var s := c.hart.cpu;
    var t := Hart.Lookup(c.hart.itlb, Bus.Phys(c.machine), s, s.pc, Sv39.Execute, s.priv);
    if t.Valid? {
      ReadsKeepWords(c.machine, t.pa, 4, a);
    }
  }

  lemma LoadKeepsWord(core: Core, m: Bus.Machine, s: State, e: Env, loads: bool, a: nat)
    requires Bus.Ok(m)
    ensures Bus.Phys(ServeLoad(core, m, s, e, loads).machine)(a) == Bus.Phys(m)(a)
  {
    if e.load.Valid? {
      ReadsKeepWords(m, e.load.pa, SizeOf(e.inst), a);
    }
  }

  /** A whole step changes only the words its store covers. */
  lemma ServedWords(core: Core, c: Cached, a: nat)
    requires c.Ok() && !Covers(c.hart.cpu, Loaded(core, c), a)
    ensures Bus.Phys(Serve(core, c).machine)(a) == Bus.Phys(c.machine)(a)
  {
    var f := Fetched(core, c);
    var e := Hart.Answers(c.hart, AroundOf(c.machine, f.env));
    FetchKeepsWord(core, c, a);
    LoadKeepsWord(core, f.machine, c.hart.cpu, e, Hart.Loads(c.hart.cpu, e), a);
    StoreKeepsWord(core, c.hart.cpu, Loaded(core, c), a);
  }

  /** So does a whole turn, but for the time and a reboot. */
  lemma TurnKeepsWord(core: Core, c: Cached, i: Input, a: nat)
    requires c.Ok() && !Covers(c.hart.cpu, Loaded(core, c), a) && a != MTIME && !Serve(core, c).machine.syscon.reboot
    ensures Bus.Phys(Next(core, c, i).machine)(a) == Bus.Phys(c.machine)(a)
  {
    ServedWords(core, c, a);
    UpdatesKeepWords(Serve(core, c).machine, i, a);
  }

  /** A page-table word that some cached walk has read. */
  ghost predicate CachedWord(h: Hart.Hart, mem: PhysMem, a: nat)
    requires h.Shape()
  {
    var satp := h.cpu.csr.reg.satp;
    || (exists k :: 0 <= k < Tlb.TLB_SIZE && h.itlb[k].valid && a in Tlb.EntryReads(h.itlb[k], mem, satp))
    || (exists k :: 0 <= k < Tlb.TLB_SIZE && h.dtlb[k].valid && a in Tlb.EntryReads(h.dtlb[k], mem, satp))
  }

  /** The step stores over no word that is still cached after it, and none of these is the time register. */
  ghost predicate Harmless(core: Core, c: Cached)
    requires c.Ok()
  {
    var h := Hart.Step(c.hart, AroundOf(c.machine, Serve(core, c).env));
    forall a: nat :: CachedWord(h, Bus.Phys(c.machine), a) ==> a != MTIME && !Covers(c.hart.cpu, Loaded(core, c), a)
  }

  lemma HarmlessStep(core: Core, c: Cached, i: Input)
    requires c.Ok() && Harmless(core, c)
    ensures var r := Serve(core, c);
            var h := Hart.Step(c.hart, AroundOf(c.machine, r.env));
            Hart.Unread(h, Bus.Phys(c.machine), Bus.Phys(Update(r.machine, i)))
  {
    var r, mem := Serve(core, c), Bus.Phys(c.machine);
    var h := Hart.Step(c.hart, AroundOf(c.machine, r.env));
    forall a: nat | CachedWord(h, mem, a)
      ensures mem(a) == Bus.Phys(Update(r.machine, i))(a)
    {
      ServedWords(core, c, a);
      UpdatesKeepWords(r.machine, i, a);
    }
    UnreadWords(h, mem, Bus.Phys(Update(r.machine, i)));
  }

  lemma UnreadWords(h: Hart.Hart, mem: PhysMem, mem': PhysMem)
    requires h.Shape() && forall a: nat :: CachedWord(h, mem, a) ==> mem(a) == mem'(a)
    ensures Hart.Unread(h, mem, mem')
  {
  }

  ghost predicate HarmlessRun(core: Core, m: Bus.Machine, inputs: seq<Input>)
    requires Bus.Ok(m)
  {
    if inputs == [] then true
    else
      var before := inputs[..|inputs| - 1];
      HarmlessRun(core, m, before) && Harmless(core, Run(core, m, before))
  }

  /** The events leave cached page-table words alone, up to the present memory. */
  ghost predicate KeptUpTo(evs: seq<Hart.Event>, mem: PhysMem) {
    && Hart.PageTablesKept(evs)
    && (evs != [] && evs[|evs| - 1].Tick? ==> Hart.Unread(Hart.Run(evs), evs[|evs| - 1].around.mem, mem))
  }

  lemma KeptTurn(evs: seq<Hart.Event>, x: Hart.Around, reboot: bool, mem: PhysMem)
    requires KeptUpTo(evs, x.mem) && (!reboot ==> Hart.Unread(Hart.Step(Hart.Run(evs), x), x.mem, mem))
    ensures KeptUpTo(evs + Hart.Turn(x, reboot), mem)
  {
    Hart.KeptLast(evs, Hart.Tick(x));
    Hart.KeptLast(evs + [Hart.Tick(x)], Hart.Reboot);
    Hart.TurnEvents(evs, x, reboot);
    Hart.TurnLast(evs, x, reboot);
  }

  /** In terms of the bus: page tables are kept as long as no step stores over a word that is still cached after it. */
  lemma {:induction false} HarmlessIsKept(core: Core, m: Bus.Machine, inputs: seq<Input>)
    requires Bus.Ok(m) && HarmlessRun(core, m, inputs)
    ensures KeptUpTo(Trace(core, m, inputs), Bus.Phys(Run(core, m, inputs).machine))
  {
    if inputs != [] {
      var before, i := inputs[..|inputs| - 1], inputs[|inputs| - 1];
      var c := Run(core, m, before);
      HarmlessIsKept(core, m, before);
      RunOfTrace(core, m, before);
      HarmlessStep(core, c, i);
      KeptTurn(Trace(core, m, before), AroundOf(c.machine, Serve(core, c).env), Serve(core, c).machine.syscon.reboot,
               Bus.Phys(Next(core, c, i).machine));
    }
  }

  // ---------------------------------------------------------------- what goes where

  /** The interrupt lines into the processor: of the PLIC's contexts 0 and 1 for machine and supervisor external
      interrupts, of the CLINT for software and timer ones; and its clock. Line 10 of the PLIC is the UART's. */
  lemma LinesExact(m: Bus.Machine, k: nat)
    requires Bus.Ok(m)
    ensures var e := Start(m);
            && (e.meip <==> Plic.Signals(11, m.plic, 0)) && (e.seip <==> Plic.Signals(11, m.plic, 1))
            && (e.msip <==> m.clint.msip == 1) && (e.mtip <==> m.clint.mtimecmp <= m.clint.mtime)
            && e.time == m.clint.mtime
    ensures k < 11 ==> (DeviceLines(m)[k] <==> k == 10 && Uart.Level(m.uart))
  {
  }

  /** Between steps the UART polls the host, the clock advances, and the UART's line, up to date, goes to the
      gateways. */
  lemma UpdateExact(m: Bus.Machine, i: Input)
    requires Bus.Ok(m)
    ensures var m' := Update(m, i);
            var polled := Uart.Device(Uart.Step(m.uart.queue, Uart.Poll(i.received)), m.uart.regs);
            && m'.uart == Uart.Identified(polled) && m'.clint == Clint.Tick(m.clint, i.now)
            && m'.plic == Plic.Lines(11, m.plic, seq(11, k => k == 10 && Uart.Level(polled)))
            && m'.ram == m.ram && m'.rom == m.rom && m'.syscon == m.syscon
  {
    var polled := m.(uart := m.uart.(queue := Uart.Step(m.uart.queue, Uart.Poll(i.received))),
                     clint := Clint.Tick(m.clint, i.now));
    assert DeviceLines(polled) == seq(11, k => k == 10 && Uart.Level(polled.uart));
  }

  /** A turn of the system without TLBs: it decodes the word that stands at the translated program counter .. */
  lemma FetchExact(core: Core, u: Uncached)
    requires Bus.Ok(u.machine) && !Sleeps(u.cpu, Start(u.machine))
    ensures var e := WalkedServe(core, u).env;
            var t := Hart.Walked(Bus.Phys(u.machine), u.cpu, u.cpu.pc, Sv39.Execute);
            && e.fetch == t
            && (t.Valid? ==>
                  var bytes := Bus.Read(u.machine, t.pa, 4);
                  && (e.fetchOk <==> bytes.Some?)
                  && (bytes.Some? ==>
                        e.word == Memory.Value(bytes.value) && e.inst == core.decode(u.cpu, Memory.Value(bytes.value))))
  {
  }

  /** .. a load that reaches the bus reads its bytes at the translated address, and what they make comes to rd .. */
  lemma LoadExact(core: Core, m: Bus.Machine, s: State, e: Env)
    requires Bus.Ok(m) && Executes(s, e) && (e.inst.Load? || e.inst.LoadReserved?)
    requires e.load.Valid? && !MisalignedAccess(e.load.pa, e.inst.size)
    ensures var r, bytes := ServeData(core, m, s, e), Bus.Read(m, e.load.pa, e.inst.size);
            && (r.env.readOk <==> bytes.Some?) && r.machine == Bus.ReadEffect(m, e.load.pa, e.inst.size)
            && (bytes.Some? ==>
                  r.env.data == core.deliver(Begin(s, e), e.word, e.time, Memory.Value(bytes.value)))
  {
  }

  /** .. a store writes the low bytes of its value there .. */
  lemma StoreExact(core: Core, m: Bus.Machine, s: State, e: Env)
    requires Bus.Ok(m) && Executes(s, e) && e.inst.Store?
    requires e.store.Valid? && !MisalignedAccess(e.store.pa, e.inst.size)
    ensures var r, data := ServeData(core, m, s, e), Memory.Encode(core.stored(s, e.word, 0), e.inst.size);
            r.machine == Bus.Write(m, e.store.pa, data) && r.env.writeOk == Bus.Accepts(m, e.store.pa, data)
  {
  }

  /** .. an AMO does both, where what it stores may depend on what it has read; the bus refusing the read ends it .. */
  lemma AmoExact(core: Core, m: Bus.Machine, s: State, e: Env)
    requires Bus.Ok(m) && Executes(s, e) && e.inst.AtomicOp? && !MisalignedAccess(e.inst.va, e.inst.size)
    requires e.load.Valid? && !MisalignedAccess(e.load.pa, e.inst.size)
    requires e.store.Valid? && !MisalignedAccess(e.store.pa, e.inst.size)
    ensures var r, bytes := ServeData(core, m, s, e), Bus.Read(m, e.load.pa, e.inst.size);
            var m1 := Bus.ReadEffect(m, e.load.pa, e.inst.size);
            if bytes.None? then !r.env.readOk && r.machine == m1
            else
              var data := Memory.Encode(core.stored(s, e.word, Memory.Value(bytes.value)), e.inst.size);
              && r.env.readOk && r.machine == Bus.Write(m1, e.store.pa, data)
              && r.env.writeOk == Bus.Accepts(m1, e.store.pa, data)
  {
  }

  /** .. an SC stores as a store does if the reservation is valid and fits, and nothing otherwise .. */
  lemma ScExact(core: Core, m: Bus.Machine, s: State, e: Env)
    requires Bus.Ok(m) && Executes(s, e) && e.inst.StoreConditional? && !MisalignedAccess(e.inst.va, e.inst.size)
    requires e.store.Valid? && !MisalignedAccess(e.store.pa, e.inst.size)
    ensures var r, data := ServeData(core, m, s, e), Memory.Encode(core.stored(s, e.word, 0), e.inst.size);
            if s.res.valid && s.res.start <= e.inst.va <= (s.res.end - e.inst.size) % MODULUS then
              r.machine == Bus.Write(m, e.store.pa, data) && r.env.writeOk == Bus.Accepts(m, e.store.pa, data)
            else r.machine == m
  {
    var l := ServeLoad(core, m, s, e, false);
    LoadServed(core, m, s, e);
    StoreServed(core, s, l, Hart.Stores(s, l.env));
  }

  lemma LoadServed(core: Core, m: Bus.Machine, s: State, e: Env)
    requires Bus.Ok(m) && Executes(s, e) && e.inst.StoreConditional? && !MisalignedAccess(e.inst.va, e.inst.size)
    ensures var l := ServeLoad(core, m, s, e, false);
            && l.machine == m && l.loaded == 0
            && ServeData(core, m, s, e) == ServeStore(core, s, l, Hart.Stores(s, l.env))
            && (Hart.Stores(s, l.env) <==>
                  s.res.valid && s.res.start <= e.inst.va <= (s.res.end - e.inst.size) % MODULUS)
  {
  }

  lemma StoreServed(core: Core, s: State, l: Served, stores: bool)
    requires Bus.Ok(l.machine) && l.env.inst.StoreConditional?
    requires l.env.store.Valid? && !MisalignedAccess(l.env.store.pa, l.env.inst.size)
    ensures var r := ServeStore(core, s, l, stores);
            if stores then
              var data := Memory.Encode(core.stored(s, l.env.word, l.loaded), l.env.inst.size);
              && r.machine == Bus.Write(l.machine, l.env.store.pa, data)
              && r.env.writeOk == Bus.Accepts(l.machine, l.env.store.pa, data)
            else r.machine == l.machine
  {
  }

  /** .. but an address that faults or is misaligned keeps an access from the bus .. */
  lemma UnreachedExact(core: Core, m: Bus.Machine, s: State, e: Env)
    requires Bus.Ok(m)
    requires e.inst.Load? || e.inst.LoadReserved? || e.inst.Store? || e.inst.StoreConditional? || e.inst.AtomicOp?
    requires var t := if e.inst.Store? || e.inst.StoreConditional? then e.store else e.load;
             || !Executes(s, e) || t.Fault? || MisalignedAccess(t.pa, e.inst.size)
             || ((e.inst.StoreConditional? || e.inst.AtomicOp?) && MisalignedAccess(e.inst.va, e.inst.size))
    ensures ServeData(core, m, s, e).machine == m
  {
  }

  /** .. and no other instruction touches the bus after its fetch. */
  lemma QuietExact(core: Core, m: Bus.Machine, s: State, e: Env)
    requires Bus.Ok(m)
    requires !e.inst.Load? && !e.inst.LoadReserved? && !e.inst.Store? && !e.inst.AtomicOp? && !e.inst.StoreConditional?
    ensures ServeData(core, m, s, e).machine == m
  {
    NothingServed(core, m, s, e);
  }

  /** A turn whose step asks for a reboot ends with the processor as after reset, empty TLBs and no request; memory
      keeps what it holds. */
  lemma RebootExact(core: Core, c: Cached, i: Input)
    requires c.Ok() && Serve(core, c).machine.syscon.reboot
    ensures var c', m := Next(core, c, i), Serve(core, c).machine;
            && c'.hart == Hart.Hart(Cpu.Reset(), Tlb.Empty(), Tlb.Empty())
            && !c'.machine.syscon.reboot && !c'.machine.syscon.poweroff && c'.machine.ram == m.ram
  {
  }

  // ---------------------------------------------------------------- what the trace carries over

  /** The invariant of module CpuRuns, and the age of the cached entries. */
  lemma ReachableOk(core: Core, m: Bus.Machine, inputs: seq<Input>)
    requires Bus.Ok(m)
    ensures var h, past := Run(core, m, inputs).hart, Hart.SinceFlush(Trace(core, m, inputs));
            && CpuRuns.Ok(h.cpu)
            && Hart.Recent(h.itlb, past, h.cpu.csr.reg.satp) && Hart.Recent(h.dtlb, past, h.cpu.csr.reg.satp)
  {
    RunOfTrace(core, m, inputs);
    Hart.ReachableOk(Trace(core, m, inputs));
    Hart.EntriesAreRecent(Trace(core, m, inputs));
  }

  /** The loop starts with all lines low; so do the devices. */
  lemma LinesAtReset(m: Bus.Machine)
    requires Bus.Ok(m)
    ensures var e := Start(ResetDevices(m)); !e.meip && !e.msip && !e.mtip && !e.seip
  {
  }

  /** A reset drops what the UART has queued and its settings, the requests, the software interrupt and the time, sets
      the comparator to its maximum and clears the controller. Memory and the cause of the reset stay. */
  lemma ResetExact(m: Bus.Machine, i: nat)
    requires Bus.Ok(m)
    ensures var r := ResetDevices(m);
            && r.ram == m.ram && r.rom == m.rom && r.syscon.resetCause == m.syscon.resetCause
            && !r.syscon.poweroff && !r.syscon.reboot
            && r.clint.(prev := 0) == Clint.State(0, 0, 0xFFFF_FFFF_FFFF_FFFF, 0)
            && r.uart.queue == Uart.Queue(true, [], false, false)
            && r.uart.regs == Uart.Regs(0, 0, 0xC1, 0xC1, 0x03, 0, 0, 0, 0, 0)
            && |r.plic.priority| == 11 && (i < 11 ==> r.plic.priority[i] == 0 && !r.plic.busy[i])
            && (i < 32 ==> !r.plic.pending[i] && !r.plic.enable[0][i] && !r.plic.enable[1][i])
            && r.plic.threshold == [0, 0]
  {
  }
}
