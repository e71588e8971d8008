/** Load-reserved and store-conditional over whole runs of the hart. */
module LrSc {
  import opened Riscv
  import opened Cpu
  import Hart
  import Sv39
  import Tlb
  import Arith

  /** The instructions the decoder produces: LR and SC are word or doubleword sized. */
  predicate Decoded(ev: Hart.Event) {
    ev.Tick? ==>
      var i := ev.around.outside.inst;
      i.LoadReserved? || i.StoreConditional? ==> (i.size == 4 || i.size == 8) && i.va < MODULUS
  }

  /** The step completes a load-reserved, a store-conditional. */
  predicate LrDone(s: State, e: Env) {
    Executes(s, e) && e.inst.LoadReserved? && LoadFault(e, e.inst.size, LOAD_ACCESS_FAULT).None?
  }

  predicate ScDone(s: State, e: Env) {
    && Executes(s, e) && e.inst.StoreConditional?
    && !MisalignedAccess(e.inst.va, e.inst.size)
    && ScPasses(s.res, e.inst.va, e.inst.size)
    && StoreFault(e, e.inst.size).None?
  }

  /** Successful LRs, successful SCs, the latest successful LR, and the LRs since the latest successful SC. */
  datatype Tally = Tally(lrs: nat, scs: nat, latest: Option<(nat, nat)>, unspent: nat)

  function Observe(t: Tally, s: State, e: Env): Tally {
    if LrDone(s, e) then t.(lrs := t.lrs + 1, latest := Some((e.inst.va, e.inst.size)), unspent := t.unspent + 1)
    else if ScDone(s, e) then t.(scs := t.scs + 1, unspent := 0)
    else t
  }

  function Count(evs: seq<Hart.Event>): Tally {
    if evs == [] then Tally(0, 0, None, 0)
    else
      var t, h := Count(evs[..|evs| - 1]), Hart.Run(evs[..|evs| - 1]);
      match evs[|evs| - 1]
      case Reboot => t
      case Tick(x) => Observe(t, h.cpu, Hart.Answers(h, x))
  }

  /** Only LR and SC touch the reservation. A completed LR sets it, a completed SC leaves it invalid. */
  lemma ReservationStep(s: State, e: Env)
    ensures var r := Cpu.Step(s, e).res;
            && (LrDone(s, e) ==> r == Reserve(e.inst.va, e.inst.size))
            && (!LrDone(s, e) ==> r == s.res || r == s.res.(valid := false))
            && (ScDone(s, e) ==> s.res.valid && !r.valid)
  {
    if !Sleeps(s, e) {
      var s1 := Begin(s, e).(wfi := false);
      if Executes(s, e) {
        ReservationExecute(s1, e);
      }
    }
  }

  lemma ReservationExecute(s: State, e: Env)
    ensures var r := Execute(s, e).cpu.res;
            && (e.inst.LoadReserved? && LoadFault(e, e.inst.size, LOAD_ACCESS_FAULT).None? ==>
                  r == Reserve(e.inst.va, e.inst.size))
            && (!(e.inst.LoadReserved? && LoadFault(e, e.inst.size, LOAD_ACCESS_FAULT).None?) ==>
                  r == s.res || r == s.res.(valid := false))
            && (e.inst.StoreConditional? && !MisalignedAccess(e.inst.va, e.inst.size) ==> !r.valid)
  {
  }

  /** The reservation is that of the latest LR, whose address is aligned, and pays for at most one SC. */
  predicate Books(t: Tally, res: Reservation) {
    && t.scs + (if res.valid then 1 else 0) <= t.lrs && (res.valid ==> t.unspent > 0)
    && (t.latest.Some? ==> var (a, n) := t.latest.value; (n == 4 || n == 8) && a % n == 0 && a < MODULUS)
    && (res.valid ==> t.latest.Some? && var (a, n) := t.latest.value; res == Reserve(a, n))
  }

  lemma BooksStep(t: Tally, s: State, e: Env)
    requires Books(t, s.res)
    requires e.inst.LoadReserved? ==> (e.inst.size == 4 || e.inst.size == 8) && e.inst.va < MODULUS
    requires e.inst.LoadReserved? && e.load.Valid? ==> e.load.pa % 4096 == e.inst.va % 4096
    ensures Books(Observe(t, s, e), Cpu.Step(s, e).res)
  {
    ReservationStep(s, e);
    if LrDone(s, e) {
      AlignedTogether(e.load.pa, e.inst.va, e.inst.size);
    }
  }

  lemma AlignedTogether(pa: nat, va: nat, size: nat)
    requires (size == 4 || size == 8) && pa % 4096 == va % 4096 && pa % size == 0
    ensures va % size == 0
  {
    if size == 4 {
      Arith.ModMod(pa, 4, 1024);
      Arith.ModMod(va, 4, 1024);
    } else {
      Arith.ModMod(pa, 8, 512);
      Arith.ModMod(va, 8, 512);
    }
  }

  /** Every lookup keeps the offset inside the 4 KiB page. */
  lemma LookupKeepsOffset(t: seq<Tlb.Entry>, mem: PhysMem, va: nat, satp: Sv39.Satp, st: Sv39.Status, mode: Sv39.Access,
                          priv: nat)
    requires |t| == Tlb.TLB_SIZE
    ensures var a := Tlb.Answer(t, mem, va, satp, st, mode, priv); a.Valid? ==> a.pa % 4096 == va % 4096
  {
    if !Sv39.Bypass(satp, st, mode, priv) && !Tlb.Hit(t, va, satp) {
      Sv39.OffsetPreserved(mem, va, satp, st, mode, priv);
    }
  }

  lemma {:induction false} BooksHold(evs: seq<Hart.Event>)
    requires forall k :: 0 <= k < |evs| ==> Decoded(evs[k])
    ensures Books(Count(evs), Hart.Run(evs).cpu.res)
  {
    if evs != [] {
      BooksHold(evs[..|evs| - 1]);
      var h := Hart.Run(evs[..|evs| - 1]);
      match evs[|evs| - 1]
      case Reboot =>
      case Tick(x) =>
        assert Decoded(evs[|evs| - 1]);
        var e := Hart.Answers(h, x);
        if e.inst.LoadReserved? {
          LookupKeepsOffset(h.dtlb, x.mem, e.inst.va, h.cpu.csr.reg.satp, h.cpu.csr.reg.mstatus.Xlate(), Sv39.Read,
                            Hart.DataPriv(h.cpu));
        }
        BooksStep(Count(evs[..|evs| - 1]), h.cpu, e);
    }
  }

  /** Over every run, successful SCs never outnumber successful LRs. */
  lemma ScsNeverOutnumberLrs(evs: seq<Hart.Event>)
    requires forall k :: 0 <= k < |evs| ==> Decoded(evs[k])
    ensures Count(evs).scs <= Count(evs).lrs
  {
    BooksHold(evs);
  }

  /** Between two successful SCs of a run there is a successful LR: a reservation is used at most once. */
  lemma ReservationUsedOnce(evs: seq<Hart.Event>, x: Hart.Around)
    requires forall k :: 0 <= k < |evs| ==> Decoded(evs[k])
    requires ScDone(Hart.Run(evs).cpu, Hart.Answers(Hart.Run(evs), x))
    ensures Count(evs).unspent > 0
  {
    BooksHold(evs);
  }

  // ---------------------------------------------------------------- the bytes of a successful SC

  predicate Inside(b: nat, m: nat, a: nat, n: nat) {
    a <= b && b + m <= a + n
  }

  /** The test of EXEC_SC admits exactly the accesses inside the reserved bytes, except after an LR.W of address
      0: `addr_end - size` then wraps for an SC.D, which passes at every address. */
  lemma ScTestExact(a: nat, n: nat, b: nat, m: nat)
    requires (n == 4 || n == 8) && a % n == 0 && a < MODULUS
    requires (m == 4 || m == 8) && b % m == 0 && b < MODULUS
    ensures ScPasses(Reserve(a, n), b, m) <==> Inside(b, m, a, n) || (a == 0 && n == 4 && m == 8)
  {
    var end := (a + n) % MODULUS;
    assert a + n <= MODULUS;
    assert end == if a + n == MODULUS then 0 else a + n;
    assert (end - m) % MODULUS == if end >= m then end - m else end - m + MODULUS;
  }

  lemma CountLast(evs: seq<Hart.Event>, x: Hart.Around)
    ensures Count(evs + [Hart.Tick(x)]) == Observe(Count(evs), Hart.Run(evs).cpu, Hart.Answers(Hart.Run(evs), x))
  {
    assert (evs + [Hart.Tick(x)])[..|evs|] == evs;
  }

  /** A successful SC stores inside the bytes of the latest successful LR if and only if that LR was not an LR.W
      of address 0 paired with an SC.D. */
  lemma ScStoresInsideLatestLr(evs: seq<Hart.Event>, x: Hart.Around)
    requires forall k :: 0 <= k < |evs| ==> Decoded(evs[k])
    requires Decoded(Hart.Tick(x))
    requires ScDone(Hart.Run(evs).cpu, Hart.Answers(Hart.Run(evs), x))
    ensures Count(evs).latest.Some?
    ensures var (a, n) := Count(evs).latest.value;
            var (b, m) := (x.outside.inst.va, x.outside.inst.size);
            Inside(b, m, a, n) <==> !(a == 0 && n == 4 && m == 8)
  {
    BooksHold(evs);
    var (a, n) := Count(evs).latest.value;
    ScTestExact(a, n, x.outside.inst.va, x.outside.inst.size);
  }
}
