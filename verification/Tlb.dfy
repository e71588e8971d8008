/** The direct-mapped translation cache of emulator/src/cpu/tlb.c over the page walk of module Sv39. */
module Tlb {
  import opened Riscv
  import opened Sv39

  const TLB_SIZE: nat := 256

  /** A 4 KiB slice of a page. */
  datatype Entry = Entry(valid: bool, flag: Flags, asid: nat, tag: nat, ppn: nat)

  const INVALID: Entry := Entry(false, Flags(false, false, false, false, false, false), 0, 0, 0)

  function Index(va: nat): (i: nat)
    ensures i < TLB_SIZE
  {
    va / 4096 % TLB_SIZE
  }

  predicate Hit(t: seq<Entry>, va: nat, satp: Satp)
    requires |t| == TLB_SIZE
  {
    var e := t[Index(va)];
    e.valid && e.asid == satp.asid && e.tag == va / 4096
  }

  /** What a lookup answers. */
  function Answer(t: seq<Entry>, mem: PhysMem, va: nat, satp: Satp, st: Status, mode: Access, priv: nat): Translation
    requires |t| == TLB_SIZE
  {
    if Bypass(satp, st, mode, priv) then Valid(va)
    else if Hit(t, va, satp) then
      var e := t[Index(va)];
      if PermissionOk(e.flag, st, mode, priv) then Valid(e.ppn * 4096 + va % 4096) else Fault(PageFaultCause(mode))
    else Translate(mem, va, satp, st, mode, priv)
  }

  /** The cache after the lookup: a successful walk replaces the entry of its index. */
  function After(t: seq<Entry>, mem: PhysMem, va: nat, satp: Satp, st: Status, mode: Access,
                 priv: nat): (t': seq<Entry>)
    requires |t| == TLB_SIZE
    ensures |t'| == TLB_SIZE
  {
    var out := Translate(mem, va, satp, st, mode, priv);
    if Bypass(satp, st, mode, priv) || Hit(t, va, satp) || out.Fault? then t
    else t[Index(va) := Filled(FindLeaf(mem, va, satp), va, satp, out.pa)]
  }

  function Filled(walk: Walk, va: nat, satp: Satp, pa: nat): Entry
  {
    Entry(true, if walk.Leaf? then PteFlags(walk.pte) else INVALID.flag, satp.asid, va / 4096, pa / 4096)
  }

  function Empty(): (t: seq<Entry>)
    ensures |t| == TLB_SIZE
    ensures forall i :: 0 <= i < TLB_SIZE ==> t[i] == INVALID
  {
    seq(TLB_SIZE, _ => INVALID)
  }

  /** tlb_t. */
  class Cache {
    var entries: array<Entry>
    var hit: nat
    var miss: nat

    ghost predicate Valid()
      reads this
    {
      entries.Length == TLB_SIZE && hit < MODULUS && miss < MODULUS
    }

    /** tlb_init on zeroed storage. */
    constructor ()
      ensures Valid() && fresh(entries)
      ensures entries[..] == Empty() && hit == 0 && miss == 0
    {
      entries := new Entry[TLB_SIZE](_ => INVALID);
      hit, miss := 0, 0;
    }

    /** tlb_void. */
    method Void()
      requires Valid()
      modifies entries
      ensures Valid() && entries[..] == Empty()
    {
      for i := 0 to TLB_SIZE
        invariant forall k :: 0 <= k < i ==> entries[k] == INVALID
      {
        entries[i] := INVALID;
      }
    }

    /** tlb_lookup. */
    method Lookup(mem: PhysMem, va: nat, satp: Satp, st: Status, mode: Access, priv: nat) returns (out: Translation)
      requires Valid()
      modifies this`hit, this`miss, entries
      ensures Valid()
      ensures out == Answer(old(entries[..]), mem, va, satp, st, mode, priv)
      ensures entries[..] == After(old(entries[..]), mem, va, satp, st, mode, priv)
      ensures hit == if !Bypass(satp, st, mode, priv) && Hit(old(entries[..]), va, satp) && out.Valid?
                     then (old(hit) + 1) % MODULUS else old(hit)
      ensures miss == if !Bypass(satp, st, mode, priv) && !Hit(old(entries[..]), va, satp)
                      then (old(miss) + 1) % MODULUS else old(miss)
    {
      ghost var was := entries[..];
      var vpn := va / 4096;
      var offset := va % 4096;
      var index := vpn % TLB_SIZE;
      if Bypass(satp, st, mode, priv) {
        return Translation.Valid(va);
      }
      if entries[index].valid {
        if entries[index].asid == satp.asid && entries[index].tag == vpn {
          if !PermissionOk(entries[index].flag, st, mode, priv) {
            return Fault(PageFaultCause(mode));
          }
          hit := (hit + 1) % MODULUS;
          return Translation.Valid(entries[index].ppn * 4096 + offset);
        }
      }
      miss := (miss + 1) % MODULUS;
      var walk;
      walk, out := PageTableWalk(mem, va, satp, st, mode, EffectivePriv(st, mode, priv));
      if out.Fault? {
        return out;
      }
      entries[index] := Entry(true, PteFlags(walk.pte), satp.asid, vpn, out.pa / 4096);
      assert entries[..] == was[index := entries[index]];
    }
  }

  // ---------------------------------------------------------------- agreement with the walk

  /** The entry is the slice that a walk of this memory finds for its tag. */
  predicate Matches(e: Entry, mem: PhysMem, satp: Satp) {
    var walk := FindLeaf(mem, e.tag * 4096, satp);
    && e.asid == satp.asid
    && walk.Leaf?
    && e.flag == PteFlags(walk.pte)
    && e.ppn == PhysAddr(walk.pte, walk.level, e.tag * 4096) / 4096
  }

  /** A lookup hits if the entry at va[19:12] is valid, of the present ASID and of the page of va .. */
  lemma HitExact(t: seq<Entry>, va: nat, satp: Satp)
    requires |t| == TLB_SIZE
    ensures |t| == 256
    ensures var e := t[va / 0x1000 % 256];
            Hit(t, va, satp) <==> e.valid && e.asid == satp.asid && e.tag == va / 0x1000
  {
  }

  /** .. and one that is translated, misses and succeeds puts the 4 KiB slice there: afterwards it hits, the frame is
      that of the answer, the flags are those of the leaf, and no other entry has changed. */
  lemma MissFills(t: seq<Entry>, mem: PhysMem, va: nat, satp: Satp, st: Status, mode: Access, priv: nat)
    requires |t| == TLB_SIZE
    ensures var t', a := After(t, mem, va, satp, st, mode, priv), Translate(mem, va, satp, st, mode, priv);
            var walk, i := FindLeaf(mem, va, satp), va / 0x1000 % 256;
            var eff := if st.mprv && !mode.Execute? then st.mpp else priv;
            if satp.mode != 0 && eff != 3 && !Hit(t, va, satp) && a.Valid? then
              && walk.Leaf? && Hit(t', va, satp) && t'[i].ppn == a.pa / 0x1000 && t' == t[i := t'[i]]
              && t'[i].flag == Flags(walk.pte / 64 % 2 == 1, walk.pte / 128 % 2 == 1, walk.pte / 16 % 2 == 1,
                                     walk.pte / 8 % 2 == 1, walk.pte / 4 % 2 == 1, walk.pte / 2 % 2 == 1)
            else t' == t
  {
    TranslationExact(mem, va, satp, st, mode, priv);
    BypassExact(satp, st, mode, priv);
  }

  ghost predicate Coherent(t: seq<Entry>, mem: PhysMem, satp: Satp)
    requires |t| == TLB_SIZE
  {
    forall i :: 0 <= i < TLB_SIZE && t[i].valid ==> Matches(t[i], mem, satp)
  }

  // The cache checks permission with the privilege it is given, the walk with the one MPRV selects. A caller that has
  // already applied MPRV, as cpu.c does, makes the two the same.

  /** The exact condition under which the two checks cannot differ: translation is bypassed, the privileges are the
      same, or neither is U and S may use pages of user mode or is not one of them. */
  predicate Agreeable(satp: Satp, st: Status, mode: Access, priv: nat) {
    var eff := EffectivePriv(st, mode, priv);
    || Bypass(satp, st, mode, priv)
    || eff == priv
    || (priv != PRIV_U && eff != PRIV_U && (st.sum || (priv != PRIV_S && eff != PRIV_S)))
  }

  /** With legal privileges the last case is one: a data access from M with MPRV set, MPP = S and SUM = 1. */
  lemma LegalAgreement(satp: Satp, st: Status, mode: Access, priv: nat)
    requires priv == PRIV_U || priv == PRIV_S || priv == PRIV_M
    requires st.mpp == PRIV_U || st.mpp == PRIV_S || st.mpp == PRIV_M
    ensures Agreeable(satp, st, mode, priv) <==>
              var eff := EffectivePriv(st, mode, priv);
              Bypass(satp, st, mode, priv) || eff == priv || (priv == PRIV_M && eff == PRIV_S && st.sum)
  {
  }

  lemma SamePageLeaf(mem: PhysMem, va: nat, satp: Satp)
    ensures FindLeaf(mem, va, satp) == FindLeaf(mem, va / 4096 * 4096, satp)
  {
    SamePageFields(va, va / 4096 * 4096);
    SamePageSameWalk(mem, va, va / 4096 * 4096, satp.ppn * 4096, 2);
  }

  /** A matching entry answers for every address of its 4 KiB page as the walk would. */
  lemma HitAgrees(e: Entry, mem: PhysMem, va: nat, satp: Satp, st: Status, mode: Access, priv: nat)
    requires Matches(e, mem, satp) && e.tag == va / 4096
    requires Agreeable(satp, st, mode, priv) && !Bypass(satp, st, mode, priv)
    ensures Translate(mem, va, satp, st, mode, priv) ==
            if PermissionOk(e.flag, st, mode, priv) then Valid(e.ppn * 4096 + va % 4096)
                else Fault(PageFaultCause(mode))
  {
    SamePageLeaf(mem, va, satp);
    var walk := FindLeaf(mem, va, satp);
    SliceOfPage(walk.pte, walk.level, va / 4096 * 4096, va);
  }

  /** A walk's result, once stored, matches. */
  lemma FillMatches(mem: PhysMem, va: nat, satp: Satp, st: Status, mode: Access, priv: nat)
    requires !Bypass(satp, st, mode, priv) && Translate(mem, va, satp, st, mode, priv).Valid?
    ensures Matches(Filled(FindLeaf(mem, va, satp), va, satp, Translate(mem, va, satp, st, mode, priv).pa), mem, satp)
  {
    SamePageLeaf(mem, va, satp);
    var walk := FindLeaf(mem, va, satp);
    SliceFrame(walk.pte, walk.level, va);
  }

  /** A coherent cache is invisible: the lookup answers as the walk does and leaves the cache coherent. */
  lemma LookupAgrees(t: seq<Entry>, mem: PhysMem, va: nat, satp: Satp, st: Status, mode: Access, priv: nat)
    requires |t| == TLB_SIZE && Coherent(t, mem, satp)
    requires Agreeable(satp, st, mode, priv)
    ensures Answer(t, mem, va, satp, st, mode, priv) == Translate(mem, va, satp, st, mode, priv)
    ensures Coherent(After(t, mem, va, satp, st, mode, priv), mem, satp)
  {
    if !Bypass(satp, st, mode, priv) {
      if Hit(t, va, satp) {
        HitAgrees(t[Index(va)], mem, va, satp, st, mode, priv);
      } else if Translate(mem, va, satp, st, mode, priv).Valid? {
        FillMatches(mem, va, satp, st, mode, priv);
      }
    }
  }

  /** A memory in which every word is a leaf entry of a readable and writable 1 GiB page at address 0. */
  function OnePage(user: bool): PhysMem {
    _ => Some(if user then 0xD7 else 0xC7)
  }

  /** The cache that holds the first slice of that page. */
  function OneEntry(user: bool, satp: Satp): (t: seq<Entry>)
    ensures |t| == TLB_SIZE
  {
    Empty()[0 := Entry(true, Flags(true, true, user, false, true, true), satp.asid, 0, 0)]
  }

  lemma OnePageWalk(user: bool, satp: Satp)
    ensures FindLeaf(OnePage(user), 0, satp) == Leaf(2, if user then 0xD7 else 0xC7)
  {
    var pte := if user then 0xD7 else 0xC7;
    assert !Malformed(pte) && IsLeaf(pte) && PtePpn(pte) == 0;
    assert Canonical(0) && OnePage(user)(EntryAddr(satp.ppn * 4096, 0, 2)) == Some(pte);
  }

  lemma OneEntryCoherent(user: bool, satp: Satp)
    ensures FindLeaf(OnePage(user), 0, satp) == Leaf(2, if user then 0xD7 else 0xC7)
    ensures Coherent(OneEntry(user, satp), OnePage(user), satp) && Hit(OneEntry(user, satp), 0, satp)
  {
    OnePageWalk(user, satp);
    var e := OneEntry(user, satp)[0];
    assert Matches(e, OnePage(user), satp);
  }

  /** The kind of page on which the two checks differ: a kernel page if one of the privileges is U, else a user page. */
  predicate Telling(st: Status, mode: Access, priv: nat) {
    priv != PRIV_U && EffectivePriv(st, mode, priv) != PRIV_U
  }

  /** Outside the condition a coherent cache and the walk do disagree. */
  lemma ContractNeeded(satp: Satp, st: Status, mode: Access, priv: nat)
    requires !Agreeable(satp, st, mode, priv)
    ensures var user := Telling(st, mode, priv);
            && Coherent(OneEntry(user, satp), OnePage(user), satp)
            && Answer(OneEntry(user, satp), OnePage(user), 0, satp, st, mode, priv)
               != Translate(OnePage(user), 0, satp, st, mode, priv)
  {
    OneEntryCoherent(Telling(st, mode, priv), satp);
  }

  /** Every coherent cache answers as the walk, for every memory and address, if and only if the condition holds. */
  lemma AgreementExact(satp: Satp, st: Status, mode: Access, priv: nat)
    ensures Agreeable(satp, st, mode, priv) <==>
            forall t, mem, va :: |t| == TLB_SIZE && Coherent(t, mem, satp) ==>
              Answer(t, mem, va, satp, st, mode, priv) == Translate(mem, va, satp, st, mode, priv)
  {
    if Agreeable(satp, st, mode, priv) {
      forall t, mem, va | |t| == TLB_SIZE && Coherent(t, mem, satp)
        ensures Answer(t, mem, va, satp, st, mode, priv) == Translate(mem, va, satp, st, mode, priv)
      {
        LookupAgrees(t, mem, va, satp, st, mode, priv);
      }
    } else {
      ContractNeeded(satp, st, mode, priv);
    }
  }

  /** The words the walk of an entry's page reads. */
  function EntryReads(e: Entry, mem: PhysMem, satp: Satp): seq<nat> {
    PageTableReads(mem, e.tag * 4096, satp)
  }

  /** Changing memory outside the words read by the cached walks keeps the cache coherent. */
  lemma UnreadChangesKeepCoherence(t: seq<Entry>, mem: PhysMem, mem': PhysMem, satp: Satp)
    requires |t| == TLB_SIZE && Coherent(t, mem, satp)
    requires forall i, a :: 0 <= i < TLB_SIZE && t[i].valid && a in EntryReads(t[i], mem, satp) ==> mem(a) == mem'(a)
    ensures Coherent(t, mem', satp)
  {
    forall i | 0 <= i < TLB_SIZE && t[i].valid
      ensures Matches(t[i], mem', satp)
    {
      assert Matches(t[i], mem, satp);
      WalkDependsOnReads(mem, mem', t[i].tag * 4096, satp.ppn * 4096, 2);
    }
  }
}
