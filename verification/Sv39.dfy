/** The Sv39 page walk of emulator/src/cpu/mmu.c, after sections 4.3.2 and 4.4.1 of the RISC-V
    Privileged Architecture. Addresses and entries are natural numbers below 2^64. */
module Sv39 {
  import opened Riscv
  import Arith

  datatype Access = Read | Write | Amo | Execute

  datatype Flags = Flags(a: bool, d: bool, u: bool, x: bool, w: bool, r: bool)

  /** The fields of satp and mstatus that translation looks at. */
  datatype Satp = Satp(mode: nat, asid: nat, ppn: nat)
  datatype Status = Status(mprv: bool, mpp: nat, sum: bool, mxr: bool)

  /** Outcome of a translation: a physical address, or the exception cause to raise. */
  datatype Translation = Valid(pa: nat) | Fault(cause: nat)

  /** Outcome of the search for a leaf entry. */
  datatype Walk = AccessFault | PageFault | Leaf(level: nat, pte: nat)

  // ---------------------------------------------------------------- fields

  /** Bit log2(place) of a word. */
  predicate Bit(word: nat, place: nat)
    requires place > 0
  {
    word / place % 2 == 1
  }

  /** The bytes a page of this level spans: 4 KiB, 2 MiB, 1 GiB. */
  function PageSize(level: nat): (size: nat)
    requires level < 3
    ensures size > 0
  {
    if level == 0 then 0x1000 else if level == 1 then 0x20_0000 else 0x4000_0000
  }

  function Vpn(va: nat, level: nat): nat
    requires level < 3
  {
    va / PageSize(level) % 512
  }

  /** Bits 63..39 repeat bit 38. */
  predicate Canonical(va: nat) {
    if va / 0x40_0000_0000 % 2 == 0 then va / 0x80_0000_0000 == 0 else va / 0x80_0000_0000 == 0x1FF_FFFF
  }

  function PteFlags(pte: nat): Flags {
    Flags(Bit(pte, 0x40), Bit(pte, 0x80), Bit(pte, 0x10), Bit(pte, 0x8), Bit(pte, 0x4), Bit(pte, 0x2))
  }

  function PtePpn(pte: nat): nat {
    pte / 1024 % 0x1000_0000_0000
  }

  /** Invalid, writable but not readable, or with a reserved upper bit set. */
  predicate Malformed(pte: nat) {
    !Bit(pte, 0x1) || (!Bit(pte, 0x2) && Bit(pte, 0x4)) || pte / 0x40_0000_0000_0000 != 0
  }

  predicate IsLeaf(pte: nat) {
    Bit(pte, 0x2) || Bit(pte, 0x8)
  }

  /** A non-leaf entry must have U, A and D clear. */
  predicate ReservedInPointer(pte: nat) {
    Bit(pte, 0x10) || Bit(pte, 0x40) || Bit(pte, 0x80)
  }

  predicate Misaligned(pte: nat, level: nat)
    requires level < 3
  {
    PtePpn(pte) * 4096 % PageSize(level) != 0
  }

  // ---------------------------------------------------------------- specification

  function EntryAddr(base: nat, va: nat, level: nat): nat
    requires level < 3
  {
    base + 8 * Vpn(va, level)
  }

  /** The search for a leaf, by recursion on the level. */
  function WalkFrom(mem: PhysMem, va: nat, base: nat, level: nat): (r: Walk)
    requires level < 3
    ensures r.Leaf? ==> r.level <= level && IsLeaf(r.pte) && !Malformed(r.pte) && !Misaligned(r.pte, r.level)
    decreases level
  {
    match mem(EntryAddr(base, va, level))
    case None => AccessFault
    case Some(pte) =>
      if Malformed(pte) then PageFault
      else if IsLeaf(pte) then
        if Misaligned(pte, level) then PageFault else Leaf(level, pte)
      else if level == 0 || ReservedInPointer(pte) then PageFault
      else WalkFrom(mem, va, PtePpn(pte) * 4096, level - 1)
  }

  function FindLeaf(mem: PhysMem, va: nat, satp: Satp): (r: Walk)
    ensures r.Leaf? ==> r.level < 3 && IsLeaf(r.pte) && !Malformed(r.pte) && !Misaligned(r.pte, r.level)
  {
    if Canonical(va) then WalkFrom(mem, va, satp.ppn * 4096, 2) else PageFault
  }

  /** The physical addresses the search reads, in order. */
  function WalkReads(mem: PhysMem, va: nat, base: nat, level: nat): seq<nat>
    requires level < 3
    decreases level
  {
    var addr := EntryAddr(base, va, level);
    match mem(addr)
    case None => [addr]
    case Some(pte) =>
      if Malformed(pte) || IsLeaf(pte) || level == 0 || ReservedInPointer(pte) then [addr]
      else [addr] + WalkReads(mem, va, PtePpn(pte) * 4096, level - 1)
  }

  function PageTableReads(mem: PhysMem, va: nat, satp: Satp): seq<nat> {
    if Canonical(va) then WalkReads(mem, va, satp.ppn * 4096, 2) else []
  }

  /** The frame the entry names, with the page offset of the level taken from va. */
  function PhysAddr(pte: nat, level: nat, va: nat): nat
    requires level < 3
  {
    PtePpn(pte) * 4096 + va % PageSize(level)
  }

  /** pte_permission_check, test by test. */
  predicate PermissionOk(flag: Flags, st: Status, mode: Access, priv: nat) {
    if priv == PRIV_U && !flag.u then false
    else if priv == PRIV_S && flag.u && !st.sum then false
    else if priv == PRIV_S && flag.u && mode.Execute? then false
    else if !flag.x && !flag.w && flag.r && (mode.Execute? || mode.Write? || mode.Amo?) then false
    else if !flag.x && flag.w && flag.r && mode.Execute? then false
    else if flag.x && !flag.w && !flag.r && (mode.Write? || mode.Amo?) then false
    else if flag.x && !flag.w && !flag.r && (mode.Read? || mode.Amo?) && !st.mxr then false
    else if flag.x && !flag.w && flag.r && (mode.Write? || mode.Amo?) then false
    else if !flag.a then false
    else if (mode.Write? || mode.Amo?) && !flag.d then false
    else true
  }

  /** Steps 6 to 9 of section 4.3.2 for a leaf entry, with the Svade treatment of A and D. */
  predicate Permitted(flag: Flags, st: Status, mode: Access, priv: nat) {
    && flag.a
    && (priv == PRIV_U ==> flag.u)
    && (priv == PRIV_S && flag.u ==> st.sum && !mode.Execute?)
    && match mode
       case Execute => flag.x
       case Read => flag.r || (st.mxr && flag.x)
       case Write => flag.w && flag.d
       case Amo => flag.r && flag.w && flag.d
  }

  function EffectivePriv(st: Status, mode: Access, priv: nat): nat {
    if st.mprv && !mode.Execute? then st.mpp else priv
  }

  /** bypass_address_translation. */
  predicate Bypass(satp: Satp, st: Status, mode: Access, priv: nat) {
    if satp.mode == 0 then true
    else if priv == PRIV_M && mode.Execute? then true
    else EffectivePriv(st, mode, priv) == PRIV_M
  }

  function PageFaultCause(mode: Access): nat {
    match mode
    case Execute => INST_PAGE_FAULT
    case Read => LOAD_PAGE_FAULT
    case Write => STORE_AMO_PAGE_FAULT
    case Amo => STORE_AMO_PAGE_FAULT
  }

  function AccessFaultCause(mode: Access): nat {
    match mode
    case Execute => INST_ACCESS_FAULT
    case Read => LOAD_ACCESS_FAULT
    case Write => STORE_AMO_ACCESS_FAULT
    case Amo => STORE_AMO_ACCESS_FAULT
  }

  /** What a finished search and the permission check say about one access. */
  function Resolve(walk: Walk, va: nat, st: Status, mode: Access, priv: nat): Translation
    requires walk.Leaf? ==> walk.level < 3
  {
    match walk
    case AccessFault => Fault(AccessFaultCause(mode))
    case PageFault => Fault(PageFaultCause(mode))
    case Leaf(level, pte) =>
      if PermissionOk(PteFlags(pte), st, mode, priv) then Valid(PhysAddr(pte, level, va))
      else Fault(PageFaultCause(mode))
  }

  /** mmu_translation as a function of memory. */
  function Translate(mem: PhysMem, va: nat, satp: Satp, st: Status, mode: Access, priv: nat): Translation {
    if Bypass(satp, st, mode, priv) then Valid(va)
    else Resolve(FindLeaf(mem, va, satp), va, st, mode, EffectivePriv(st, mode, priv))
  }

  // ---------------------------------------------------------------- the emulator's loops

  /** page_table_walk_sv39: the goto loop over the levels, then the alignment test, the permission test
      and the address assembly. */
  method PageTableWalk(mem: PhysMem, va: nat, satp: Satp, st: Status, mode: Access, priv: nat)
    returns (walk: Walk, out: Translation)
    ensures walk == FindLeaf(mem, va, satp)
    ensures out == Resolve(walk, va, st, mode, priv)
  {
    if !Canonical(va) {
      return PageFault, Fault(PageFaultCause(mode));
    }
    var base: nat := satp.ppn * 4096;
    var level: nat := 2;
    while true
      invariant 0 <= level < 3
      invariant FindLeaf(mem, va, satp) == WalkFrom(mem, va, base, level)
      decreases level
    {
      var word := mem(base + Vpn(va, level) * 8);
      if word.None? {
        return AccessFault, Fault(AccessFaultCause(mode));
      }
      var pte := word.value;
      var v, r, w, x := Bit(pte, 0x1), Bit(pte, 0x2), Bit(pte, 0x4), Bit(pte, 0x8);
      var xwr := (if x then 4 else 0) + (if w then 2 else 0) + (if r then 1 else 0);
      if !v || (!r && w) || xwr == 2 || xwr == 6 {
        return PageFault, Fault(PageFaultCause(mode));
      }
      if pte / 0x40_0000_0000_0000 != 0 {
        return PageFault, Fault(PageFaultCause(mode));
      }
      if r || x {
        break;
      }
      if level == 0 || ReservedInPointer(pte) {
        return PageFault, Fault(PageFaultCause(mode));
      }
      level, base := level - 1, PtePpn(pte) * 4096;
    }
    var pte := mem(base + Vpn(va, level) * 8).value;
    var aligned := SuperpageAligned(pte, level);
    if !aligned {
      return PageFault, Fault(PageFaultCause(mode));
    }
    walk := Leaf(level, pte);
    if !PermissionOk(PteFlags(pte), st, mode, priv) {
      return walk, Fault(PageFaultCause(mode));
    }
    var pa := AssembleAddress(pte, level, va);
    return walk, Valid(pa);
  }

  /** ppnx[0..2] of an entry. */
  function PpnFields(pte: nat): (f: seq<nat>)
    ensures |f| == 3
  {
    [pte / 1024 % 512, pte / 0x8_0000 % 512, pte / 0x1000_0000 % 0x400_0000]
  }

  lemma PpnByFields(pte: nat)
    ensures var f := PpnFields(pte); PtePpn(pte) == f[0] + 512 * f[1] + 0x4_0000 * f[2]
  {
    assert pte / 0x8_0000 == pte / 1024 / 512;
    assert pte / 0x1000_0000 == pte / 1024 / 0x4_0000;
    SplitPpn(pte / 1024);
  }

  lemma SplitPpn(x: nat)
    ensures x % 0x1000_0000_0000 == x % 512 + 512 * (x / 512 % 512) + 0x4_0000 * (x / 0x4_0000 % 0x400_0000)
  {
    assert x / 0x4_0000 == x / 512 / 512;
  }

  /** Step 5: the ppn fields below the level are zero. */
  method SuperpageAligned(pte: nat, level: nat) returns (ok: bool)
    requires level < 3
    ensures ok == !Misaligned(pte, level)
  {
    var ppnx := PpnFields(pte);
    AlignedByFields(pte, level);
    for i := 0 to level
      invariant forall k :: 0 <= k < i ==> ppnx[k] == 0
    {
      if ppnx[i] != 0 {
        return false;
      }
    }
    return true;
  }

  lemma AlignedByFields(pte: nat, level: nat)
    requires level < 3
    ensures var f := PpnFields(pte);
            !Misaligned(pte, level) <==> (level > 0 ==> f[0] == 0) && (level > 1 ==> f[1] == 0)
  {
    PpnByFields(pte);
    var f := PpnFields(pte);
    FieldsOfMultiple(f[0], f[1], f[2], level);
  }

  lemma FieldsOfMultiple(f0: nat, f1: nat, f2: nat, level: nat)
    requires level < 3 && f0 < 512 && f1 < 512
    ensures (f0 + 512 * f1 + 0x4_0000 * f2) * 4096 % PageSize(level) == 0
            <==> (level > 0 ==> f0 == 0) && (level > 1 ==> f1 == 0)
  {
  }

  /** Step 10: low ppn fields from the address, the others from the entry. The fields are disjoint, so the
      code's bitwise or of the shifted fields is their sum. */
  method AssembleAddress(pte: nat, level: nat, va: nat) returns (pa: nat)
    requires level < 3 && !Misaligned(pte, level)
    ensures pa == PhysAddr(pte, level, va)
  {
    var ppnx := PpnFields(pte);
    var ppn := [0, 0, 0];
    for i := 0 to level
      invariant |ppn| == 3
      invariant forall k :: 0 <= k < i ==> ppn[k] == Vpn(va, k)
    {
      ppn := ppn[i := Vpn(va, i)];
    }
    for i := level to 3
      invariant |ppn| == 3
      invariant forall k :: 0 <= k < level ==> ppn[k] == Vpn(va, k)
      invariant forall k :: level <= k < i ==> ppn[k] == ppnx[k]
    {
      ppn := ppn[i := ppnx[i]];
    }
    AddressByFields(pte, level, va);
    pa := va % 0x1000 + ppn[0] * 0x1000 + ppn[1] * 0x20_0000 + ppn[2] * 0x4000_0000;
  }

  lemma AddressByFields(pte: nat, level: nat, va: nat)
    requires level < 3 && !Misaligned(pte, level)
    ensures var f := PpnFields(pte);
            PhysAddr(pte, level, va) ==
            va % 0x1000
            + (if level > 0 then Vpn(va, 0) else f[0]) * 0x1000
            + (if level > 1 then Vpn(va, 1) else f[1]) * 0x20_0000
            + f[2] * 0x4000_0000
  {
    PpnByFields(pte);
    OffsetByFields(va, level);
    var f := PpnFields(pte);
    FieldsOfMultiple(f[0], f[1], f[2], level);
  }

  lemma OffsetByFields(va: nat, level: nat)
    requires level < 3
    ensures level == 1 ==> va % PageSize(1) == va % 0x1000 + 0x1000 * Vpn(va, 0)
    ensures level == 2 ==> va % PageSize(2) == va % 0x1000 + 0x1000 * Vpn(va, 0) + 0x20_0000 * Vpn(va, 1)
  {
    assert va / 0x20_0000 == va / 0x1000 / 512;
    assert va / 0x4000_0000 == va / 0x20_0000 / 512;
  }

  // ---------------------------------------------------------------- properties

  /** On the entries a walk can end in, the code's table of tests is the standard's permission rule. */
  lemma PermissionMatchesStandard(pte: nat, st: Status, mode: Access, priv: nat)
    requires IsLeaf(pte) && !Malformed(pte)
    ensures PermissionOk(PteFlags(pte), st, mode, priv) <==> Permitted(PteFlags(pte), st, mode, priv)
  {
  }

  /** A successful translation keeps the offset inside the page, whatever its size, and names the frame of the
      leaf that the permission rule admits. */
  lemma OffsetPreserved(mem: PhysMem, va: nat, satp: Satp, st: Status, mode: Access, priv: nat)
    requires !Bypass(satp, st, mode, priv)
    ensures var t := Translate(mem, va, satp, st, mode, priv);
            var walk := FindLeaf(mem, va, satp);
            t.Valid? <==> walk.Leaf? && Permitted(PteFlags(walk.pte), st, mode, EffectivePriv(st, mode, priv))
    ensures var t := Translate(mem, va, satp, st, mode, priv);
            var walk := FindLeaf(mem, va, satp);
            t.Valid? ==> (
              && t.pa % PageSize(walk.level) == va % PageSize(walk.level)
              && t.pa / PageSize(walk.level) * PageSize(walk.level) == PtePpn(walk.pte) * 4096
              && t.pa % 4096 == va % 4096
              && t.pa < 0x100_0000_0000_0000)
  {
    var walk := FindLeaf(mem, va, satp);
    if walk.Leaf? {
      PermissionMatchesStandard(walk.pte, st, mode, EffectivePriv(st, mode, priv));
      FrameSplit(walk.pte, walk.level, va);
    }
  }

  // ---------------------------------------------------------------- translation in numbers

  /** A pointer to the next table, by the bits of section 4.4.1: V alone of V, R, W, X, U, A and D, and none above 53.
      */
  predicate PointerBits(pte: nat) {
    pte % 16 == 1 && pte / 16 % 2 == 0 && pte / 64 % 4 == 0 && pte < 0x40_0000_0000_0000
  }

  /** A leaf: V, R or X, not W without R, none above 53, and a frame aligned to a span of 4 KiB pages. */
  predicate LeafBits(pte: nat, span: nat)
    requires span > 0
  {
    && pte % 2 == 1 && (pte / 2 % 2 == 1 || pte / 8 % 2 == 1) && !(pte / 4 % 2 == 1 && pte / 2 % 2 == 0)
    && pte < 0x40_0000_0000_0000 && pte / 1024 % span == 0
  }

  /** An entry is of at most one kind; the code takes any other for a fault. */
  lemma EntryKinds(pte: nat, level: nat)
    requires level < 3
    ensures !Malformed(pte) && !IsLeaf(pte) && !ReservedInPointer(pte) <==> PointerBits(pte)
    ensures !Malformed(pte) && IsLeaf(pte) && !Misaligned(pte, level) <==>
            LeafBits(pte, if level == 0 then 1 else if level == 1 then 512 else 0x4_0000)
    ensures PointerBits(pte) ==> PtePpn(pte) == pte / 1024
  {
    LowBits(pte);
    if pte < 0x40_0000_0000_0000 {
      SpanOfLevel(pte / 1024, level);
    }
  }

  lemma LowBits(pte: nat)
    ensures pte % 16 == 1 <==> pte % 2 == 1 && pte / 2 % 2 == 0 && pte / 4 % 2 == 0 && pte / 8 % 2 == 0
    ensures pte / 64 % 4 == 0 <==> pte / 64 % 2 == 0 && pte / 128 % 2 == 0
  {
    TwoBits(pte);
    TwoBits(pte / 4);
    assert pte / 4 / 2 == pte / 8 && pte % 16 == pte / 4 % 4 * 4 + pte % 4;
    TwoBits(pte / 64);
    assert pte / 64 / 2 == pte / 128;
  }

  lemma TwoBits(x: nat)
    ensures x % 4 == x / 2 % 2 * 2 + x % 2
  {
  }

  lemma SpanOfLevel(ppn: nat, level: nat)
    requires level < 3 && ppn < 0x1000_0000_0000
    ensures ppn % 0x1000_0000_0000 == ppn
    ensures ppn * 4096 % PageSize(level) == 0 <==>
            ppn % (if level == 0 then 1 else if level == 1 then 512 else 0x4_0000) == 0
  {
    if level == 0 {
      PagesOf(ppn, 1, 0x1000);
    } else if level == 1 {
      PagesOf(ppn, 512, 0x20_0000);
    } else {
      PagesOf(ppn, 0x4_0000, 0x4000_0000);
    }
  }

  lemma PagesOf(ppn: nat, span: nat, size: nat)
    requires span > 0 && size == 4096 * span
    ensures ppn * 4096 % size == ppn % span * 4096
  {
    var q, r := ppn / span, ppn % span;
    assert ppn == q * span + r;
    assert q * (4096 * span) == 4096 * (q * span);
    Arith.DivModUnique(ppn * 4096, size, q, r * 4096);
  }

  /** The whole search, level by level: where it ends, with which entry, and when a table cannot be read. */
  lemma SearchExact(mem: PhysMem, va: nat, satp: Satp, level: nat, pte: nat)
    ensures var walk := FindLeaf(mem, va, satp);
            var e2 := mem(satp.ppn * 4096 + 8 * (va / 0x4000_0000 % 512));
            var t2 := e2.Some? && PointerBits(e2.value);
            var e1 := if t2 then mem(e2.value / 1024 * 4096 + 8 * (va / 0x20_0000 % 512)) else Some(0);
            var t1 := e1.Some? && PointerBits(e1.value);
            var e0 := if t1 then mem(e1.value / 1024 * 4096 + 8 * (va / 0x1000 % 512)) else Some(0);
            var canonical := va < 0x40_0000_0000 || 0xFFFF_FFC0_0000_0000 <= va < MODULUS;
            && (walk == Leaf(level, pte) <==>
                  && canonical
                  && (|| (level == 2 && e2 == Some(pte) && LeafBits(pte, 0x4_0000))
                      || (level == 1 && t2 && e1 == Some(pte) && LeafBits(pte, 512))
                      || (level == 0 && t2 && t1 && e0 == Some(pte) && LeafBits(pte, 1))))
            && (walk.AccessFault? <==> canonical && (e2.None? || (t2 && (e1.None? || (t1 && e0.None?)))))
  {
    CanonicalRange(va);
    if Canonical(va) {
      AllLevels(mem, va, satp.ppn * 4096, level, pte);
    }
  }

  lemma AllLevels(mem: PhysMem, va: nat, base: nat, level: nat, pte: nat)
    ensures var walk := WalkFrom(mem, va, base, 2);
            var e2 := mem(base + 8 * (va / 0x4000_0000 % 512));
            var t2 := e2.Some? && PointerBits(e2.value);
            var e1 := if t2 then mem(e2.value / 1024 * 4096 + 8 * (va / 0x20_0000 % 512)) else Some(0);
            var t1 := e1.Some? && PointerBits(e1.value);
            var e0 := if t1 then mem(e1.value / 1024 * 4096 + 8 * (va / 0x1000 % 512)) else Some(0);
            && (walk == Leaf(level, pte) <==>
                  || (level == 2 && e2 == Some(pte) && LeafBits(pte, 0x4_0000))
                  || (level == 1 && t2 && e1 == Some(pte) && LeafBits(pte, 512))
                  || (level == 0 && t2 && t1 && e0 == Some(pte) && LeafBits(pte, 1)))
            && (walk.AccessFault? <==> e2.None? || (t2 && (e1.None? || (t1 && e0.None?))))
  {
    var e2 := mem(base + 8 * (va / 0x4000_0000 % 512));
    var walk := WalkFrom(mem, va, base, 2);
    LevelExact(mem, va, base, 2);
    if e2.Some? && PointerBits(e2.value) {
      PointersAreNoLeaves(e2.value, 0x4_0000);
      assert walk == WalkFrom(mem, va, e2.value / 1024 * 4096, 1);
      LowerLevels(mem, va, e2.value / 1024 * 4096, level, pte);
    } else {
      TopLevel(walk, e2, level, pte);
    }
  }

  lemma PointersAreNoLeaves(pte: nat, span: nat)
    requires span > 0 && PointerBits(pte)
    ensures !LeafBits(pte, span)
  {
    LowBits(pte);
  }

  lemma TopLevel(walk: Walk, e2: Option<nat>, level: nat, pte: nat)
    requires e2.None? ==> walk == AccessFault
    requires e2.Some? ==> walk == if LeafBits(e2.value, 0x4_0000) then Leaf(2, e2.value) else PageFault
    ensures walk == Leaf(level, pte) <==> level == 2 && e2 == Some(pte) && LeafBits(pte, 0x4_0000)
    ensures walk.AccessFault? <==> e2.None?
  {
  }

  lemma LowerLevels(mem: PhysMem, va: nat, base: nat, level: nat, pte: nat)
    ensures var walk := WalkFrom(mem, va, base, 1);
            var e1 := mem(base + 8 * (va / 0x20_0000 % 512));
            var t1 := e1.Some? && PointerBits(e1.value);
            var e0 := if t1 then mem(e1.value / 1024 * 4096 + 8 * (va / 0x1000 % 512)) else Some(0);
            && (walk == Leaf(level, pte) <==>
                  || (level == 1 && e1 == Some(pte) && LeafBits(pte, 512))
                  || (level == 0 && t1 && e0 == Some(pte) && LeafBits(pte, 1)))
            && (walk.AccessFault? <==> e1.None? || (t1 && e0.None?))
  {
    LevelExact(mem, va, base, 1);
    var e1 := mem(base + 8 * (va / 0x20_0000 % 512));
    if e1.Some? && PointerBits(e1.value) {
      LevelExact(mem, va, e1.value / 1024 * 4096, 0);
    }
  }

  lemma CanonicalRange(va: nat)
    ensures Canonical(va) <==> va < 0x40_0000_0000 || 0xFFFF_FFC0_0000_0000 <= va < MODULUS
  {
  }

  /** One level of it. */
  lemma LevelExact(mem: PhysMem, va: nat, base: nat, level: nat)
    requires level < 3
    ensures var e := mem(base + 8 * (va / (if level == 0 then 0x1000 else if level == 1 then 0x20_0000 else 0x4000_0000)
                                     % 512));
            var span := if level == 0 then 1 else if level == 1 then 512 else 0x4_0000;
            var walk := WalkFrom(mem, va, base, level);
            && (e.None? ==> walk == AccessFault)
            && (e.Some? && LeafBits(e.value, span) ==> walk == Leaf(level, e.value))
            && (e.Some? && PointerBits(e.value) ==>
                  walk == if level == 0 then PageFault else WalkFrom(mem, va, e.value / 1024 * 4096, level - 1))
            && (e.Some? && !LeafBits(e.value, span) && !PointerBits(e.value) ==> walk == PageFault)
  {
    var e := mem(EntryAddr(base, va, level));
    if e.Some? {
      EntryKinds(e.value, level);
    }
  }

  /** Which accesses an entry admits, by its bits. */
  predicate Admits(pte: nat, st: Status, mode: Access, eff: nat) {
    var r, w, x, u := pte / 2 % 2 == 1, pte / 4 % 2 == 1, pte / 8 % 2 == 1, pte / 16 % 2 == 1;
    var a, d := pte / 64 % 2 == 1, pte / 128 % 2 == 1;
    && a && (eff == 0 ==> u) && (eff == 1 && u ==> st.sum && !mode.Execute?)
    && match mode
       case Execute => x
       case Read => r || (st.mxr && x)
       case Write => w && d
       case Amo => r && w && d
  }

  /** What a translated access is answered: the frame of the leaf with the offset in its page if the leaf admits the
      access, and a fault with the cause of the access if not. */
  function Outcome(walk: Walk, va: nat, st: Status, mode: Access, eff: nat): Translation {
    if walk.Leaf? && Admits(walk.pte, st, mode, eff) then
      var pa := walk.pte / 1024 * 4096;
      Valid(if walk.level == 0 then pa + va % 0x1000
            else if walk.level == 1 then pa + va % 0x20_0000 else pa + va % 0x4000_0000)
    else
      Fault(match mode
            case Execute => if walk.AccessFault? then 1 else 12
            case Read => if walk.AccessFault? then 5 else 13
            case _ => if walk.AccessFault? then 7 else 15)
  }

  /** In Bare mode and at machine privilege, after MPRV, an address is its own translation. */
  lemma TranslationExact(mem: PhysMem, va: nat, satp: Satp, st: Status, mode: Access, priv: nat)
    ensures var eff := if st.mprv && !mode.Execute? then st.mpp else priv;
            Translate(mem, va, satp, st, mode, priv) ==
            if satp.mode == 0 || eff == 3 then Valid(va)
            else Outcome(FindLeaf(mem, va, satp), va, st, mode, eff)
  {
    BypassExact(satp, st, mode, priv);
    OutcomeExact(FindLeaf(mem, va, satp), va, st, mode, EffectivePriv(st, mode, priv));
  }

  lemma OutcomeExact(walk: Walk, va: nat, st: Status, mode: Access, eff: nat)
    requires walk.Leaf? ==> walk.level < 3 && IsLeaf(walk.pte) && !Malformed(walk.pte)
    ensures Resolve(walk, va, st, mode, eff) == Outcome(walk, va, st, mode, eff)
  {
    if walk.Leaf? {
      assert PtePpn(walk.pte) == walk.pte / 1024;
      AdmitsExact(walk.pte, st, mode, eff);
    }
  }

  lemma AdmitsExact(pte: nat, st: Status, mode: Access, eff: nat)
    requires IsLeaf(pte) && !Malformed(pte)
    ensures PermissionOk(PteFlags(pte), st, mode, eff) <==> Admits(pte, st, mode, eff)
  {
    PermissionMatchesStandard(pte, st, mode, eff);
  }

  lemma BypassExact(satp: Satp, st: Status, mode: Access, priv: nat)
    ensures Bypass(satp, st, mode, priv) <==> satp.mode == 0 || 3 == if st.mprv && !mode.Execute? then st.mpp else priv
  {
  }

  lemma FrameSplit(pte: nat, level: nat, va: nat)
    requires level < 3 && !Misaligned(pte, level)
    ensures var pa := PhysAddr(pte, level, va);
            && pa % PageSize(level) == va % PageSize(level)
            && pa / PageSize(level) * PageSize(level) == PtePpn(pte) * 4096
            && pa % 4096 == va % 4096
            && pa < 0x100_0000_0000_0000
  {
    OffsetInPage(va, level);
    FrameAndOffset(PtePpn(pte), level, va % PageSize(level));
  }

  lemma OffsetInPage(va: nat, level: nat)
    requires level < 3
    ensures va % PageSize(level) % 4096 == va % 4096
  {
    Arith.ModMod(va, 4096, PageSize(level) / 4096);
  }

  lemma FrameAndOffset(ppn: nat, level: nat, offset: nat)
    requires level < 3 && ppn < 0x1000_0000_0000
    requires ppn * 4096 % PageSize(level) == 0 && offset < PageSize(level)
    ensures var pa := ppn * 4096 + offset;
            && pa % PageSize(level) == offset
            && pa / PageSize(level) * PageSize(level) == ppn * 4096
            && pa % 4096 == offset % 4096
            && pa < 0x100_0000_0000_0000
  {
    Arith.Split(ppn * 4096, offset, PageSize(level));
    Arith.DivModUnique(ppn * 4096 + offset, 4096, ppn + offset / 4096, offset % 4096);
    FrameBound(ppn, level, offset);
  }

  lemma FrameBound(ppn: nat, level: nat, offset: nat)
    requires level < 3 && ppn < 0x1000_0000_0000
    requires ppn * 4096 % PageSize(level) == 0 && offset < PageSize(level)
    ensures ppn * 4096 + offset < 0x100_0000_0000_0000
  {
    if level == 1 {
      var k := ppn * 4096 / 0x20_0000;
      assert ppn * 4096 == 0x20_0000 * k;
    } else if level == 2 {
      var k := ppn * 4096 / 0x4000_0000;
      assert ppn * 4096 == 0x4000_0000 * k;
    }
  }

  lemma SamePageFields(va: nat, va': nat)
    requires va / 4096 == va' / 4096
    ensures forall level :: 0 <= level < 3 ==> Vpn(va, level) == Vpn(va', level)
    ensures Canonical(va) == Canonical(va')
  {
    DivDiv(va);
    DivDiv(va');
  }

  lemma DivDiv(va: nat)
    ensures va / 0x20_0000 == va / 4096 / 512
    ensures va / 0x4000_0000 == va / 4096 / 0x4_0000
    ensures va / 0x40_0000_0000 == va / 4096 / 0x400_0000
    ensures va / 0x80_0000_0000 == va / 4096 / 0x800_0000
  {
  }

  /** Two addresses of one 4 KiB page have the same search. */
  lemma {:induction false} SamePageSameWalk(mem: PhysMem, va: nat, va': nat, base: nat, level: nat)
    requires level < 3 && va / 4096 == va' / 4096
    ensures WalkFrom(mem, va, base, level) == WalkFrom(mem, va', base, level)
    decreases level
  {
    SamePageFields(va, va');
    match mem(EntryAddr(base, va, level))
    case None =>
    case Some(pte) =>
      if level > 0 {
        SamePageSameWalk(mem, va, va', PtePpn(pte) * 4096, level - 1);
      }
  }

  /** The 4 KiB slice of any page: the frame number of one address serves every address of its 4 KiB page. */
  lemma SliceOfPage(pte: nat, level: nat, va: nat, va': nat)
    requires level < 3 && !Misaligned(pte, level) && va / 4096 == va' / 4096
    ensures PhysAddr(pte, level, va') == PhysAddr(pte, level, va) / 4096 * 4096 + va' % 4096
  {
    SamePageFields(va, va');
    OffsetPages(va, level);
    OffsetPages(va', level);
    SliceArithmetic(PtePpn(pte), va % PageSize(level), va' % PageSize(level));
  }

  /** The 4 KiB page of an address inside its page of the given level. */
  lemma OffsetPages(va: nat, level: nat)
    requires level < 3
    ensures va % PageSize(level) % 4096 == va % 4096
    ensures va % PageSize(level) / 4096 ==
            if level == 0 then 0 else if level == 1 then Vpn(va, 0) else Vpn(va, 0) + 512 * Vpn(va, 1)
  {
    OffsetByFields(va, level);
    var v0, v1, o := Vpn(va, 0), Vpn(va, 1), va % 0x1000;
    if level == 1 {
      Arith.DivModUnique(o + 0x1000 * v0, 0x1000, v0, o);
    } else if level == 2 {
      Arith.DivModUnique(o + 0x1000 * v0 + 0x20_0000 * v1, 0x1000, v0 + 512 * v1, o);
    }
  }

  /** All addresses of a 4 KiB page share one frame number. */
  lemma SliceFrame(pte: nat, level: nat, va: nat)
    requires level < 3 && !Misaligned(pte, level)
    ensures PhysAddr(pte, level, va / 4096 * 4096) / 4096 == PhysAddr(pte, level, va) / 4096
  {
    SliceOfPage(pte, level, va, va / 4096 * 4096);
    var frame := PhysAddr(pte, level, va) / 4096;
    assert PhysAddr(pte, level, va / 4096 * 4096) == frame * 4096;
  }

  lemma SliceArithmetic(ppn: nat, offset: nat, offset': nat)
    requires offset / 4096 == offset' / 4096
    ensures ppn * 4096 + offset' == (ppn * 4096 + offset) / 4096 * 4096 + offset' % 4096
  {
  }

  /** The search depends on memory only through the words it reads. */
  lemma {:induction false} WalkDependsOnReads(mem: PhysMem, mem': PhysMem, va: nat, base: nat, level: nat)
    requires level < 3
    requires forall a :: a in WalkReads(mem, va, base, level) ==> mem(a) == mem'(a)
    ensures WalkFrom(mem, va, base, level) == WalkFrom(mem', va, base, level)
    ensures WalkReads(mem, va, base, level) == WalkReads(mem', va, base, level)
    decreases level
  {
    var addr := EntryAddr(base, va, level);
    assert addr in WalkReads(mem, va, base, level);
    match mem(addr)
    case None =>
    case Some(pte) =>
      if !(Malformed(pte) || IsLeaf(pte) || level == 0 || ReservedInPointer(pte)) {
        var rest := WalkReads(mem, va, PtePpn(pte) * 4096, level - 1);
        assert forall a :: a in rest ==> a in [addr] + rest;
        WalkDependsOnReads(mem, mem', va, PtePpn(pte) * 4096, level - 1);
      }
  }
}
