/** Instruction patterns: the generator emulator/scripts/generate_inst_patterns.py and the tests of cpu_step that use
    its masks. An instruction is a number below 2^32. */
module Patterns {
  import opened Riscv
  import Arith

  // ---------------------------------------------------------------- parse_pattern

  datatype Masks = Masks(mask: nat, golden: nat)

  predicate Separator(c: char) {
    c == '_' || c == ' '
  }

  predicate Known(c: char) {
    Separator(c) || c == '0' || c == '1' || c == '?'
  }

  /** Both numbers move left by one bit for every character that is not a separator. */
  function Push(m: Masks, c: char): Option<Masks> {
    if Separator(c) then Some(m)
    else if c == '0' then Some(Masks(2 * m.mask + 1, 2 * m.golden))
    else if c == '1' then Some(Masks(2 * m.mask + 1, 2 * m.golden + 1))
    else if c == '?' then Some(Masks(2 * m.mask, 2 * m.golden))
    else None
  }

  function Parse(p: string): Option<Masks> {
    if p == "" then Some(Masks(0, 0))
    else
      var before := Parse(p[..|p| - 1]);
      if before.Some? then Push(before.value, p[|p| - 1]) else None
  }

  /** parse_pattern; None for the ValueError. */
  method ParsePattern(pattern: string) returns (r: Option<Masks>)
    ensures r == Parse(pattern)
    ensures r.None? <==> exists k :: 0 <= k < |pattern| && !Known(pattern[k])
  {
    var mask: nat, golden: nat := 0, 0;
    for i := 0 to |pattern|
      invariant Parse(pattern[..i]) == Some(Masks(mask, golden))
      invariant forall k :: 0 <= k < i ==> Known(pattern[k])
    {
      assert pattern[..i + 1][..i] == pattern[..i];
      var c := pattern[i];
      if c == '_' || c == ' ' {
        continue;
      }
      mask, golden := mask * 2, golden * 2;
      if c == '0' {
        mask := mask + 1;
      } else if c == '1' {
        mask, golden := mask + 1, golden + 1;
      } else if c != '?' {
        UnknownStays(pattern, i);
        return None;
      }
    }
    assert pattern[..|pattern|] == pattern;
    r := Some(Masks(mask, golden));
  }

  lemma {:induction false} UnknownStays(p: string, k: nat)
    requires k < |p| && !Known(p[k])
    ensures Parse(p).None?
  {
    if k < |p| - 1 {
      UnknownStays(p[..|p| - 1], k);
    }
  }

  // ---------------------------------------------------------------- what the masks mean

  function BitAnd(x: nat, y: nat): nat
    decreases y
  {
    if y == 0 then 0 else 2 * BitAnd(x / 2, y / 2) + (if x % 2 == 1 && y % 2 == 1 then 1 else 0)
  }

  function Significant(p: string): string {
    if p == "" then ""
    else Significant(p[..|p| - 1]) + if Separator(p[|p| - 1]) then "" else [p[|p| - 1]]
  }

  /** Bit k of a number. */
  predicate BitSet(x: nat, k: nat) {
    if k == 0 then x % 2 == 1 else BitSet(x / 2, k - 1)
  }

  /** Every significant character but `?` names its bit of inst, the last character bit 0. */
  ghost predicate Matches(p: string, inst: nat) {
    var d := Significant(p);
    forall k :: 0 <= k < |d| && d[k] != '?' ==> (BitSet(inst, |d| - 1 - k) <==> d[k] == '1')
  }

  lemma MatchesSeparator(p: string, inst: nat)
    requires p != "" && Separator(p[|p| - 1])
    ensures Matches(p, inst) <==> Matches(p[..|p| - 1], inst)
  {
    assert Significant(p) == Significant(p[..|p| - 1]);
  }

  lemma MatchesLast(p: string, inst: nat)
    requires p != "" && !Separator(p[|p| - 1])
    ensures Matches(p, inst) <==>
      (p[|p| - 1] != '?' ==> (inst % 2 == 1 <==> p[|p| - 1] == '1')) && Matches(p[..|p| - 1], inst / 2)
  {
    var c, e := p[|p| - 1], Significant(p[..|p| - 1]);
    var d := e + [c];
    assert Significant(p) == d;
    if Matches(p, inst) {
      assert d[|e|] == c && BitSet(inst, 0) == (inst % 2 == 1);
      forall k | 0 <= k < |e| && e[k] != '?'
        ensures BitSet(inst / 2, |e| - 1 - k) <==> e[k] == '1'
      {
        assert d[k] == e[k];
        BitAbove(inst, |e| - 1 - k);
      }
    } else {
      var k :| 0 <= k < |d| && d[k] != '?' && !(BitSet(inst, |d| - 1 - k) <==> d[k] == '1');
      if k < |e| {
        assert d[k] == e[k];
        BitAbove(inst, |e| - 1 - k);
      }
    }
  }

  lemma BitAbove(x: nat, k: nat)
    ensures BitSet(x, k + 1) == BitSet(x / 2, k)
  {
  }

  /** The test (inst & mask) == golden, for patterns of any length. */
  lemma {:induction false} MaskTestExact(p: string, inst: nat)
    requires Parse(p).Some?
    ensures BitAnd(inst, Parse(p).value.mask) == Parse(p).value.golden <==> Matches(p, inst)
  {
    if p != "" {
      var before, c := p[..|p| - 1], p[|p| - 1];
      var m := Parse(before).value;
      if Separator(c) {
        MatchesSeparator(p, inst);
        MaskTestExact(before, inst);
      } else {
        MatchesLast(p, inst);
        MaskTestExact(before, inst / 2);
        AndPush(inst, m.mask, if c == '?' then 0 else 1);
      }
    }
  }

  lemma AndPush(x: nat, m: nat, b: nat)
    requires b < 2
    ensures BitAnd(x, 2 * m + b) == 2 * BitAnd(x / 2, m) + (if x % 2 == 1 && b == 1 then 1 else 0)
  {
    assert (2 * m + b) / 2 == m && (2 * m + b) % 2 == b;
  }

  /** Separators mean nothing: the table's patterns can be read without their underscores. */
  lemma {:induction false} SeparatorsIgnored(p: string)
    ensures Parse(p) == Parse(Significant(p))
  {
    if p != "" {
      var before, d := p[..|p| - 1], Significant(p);
      SeparatorsIgnored(before);
      if Separator(p[|p| - 1]) {
        assert d == Significant(before);
      } else {
        assert d == Significant(before) + [p[|p| - 1]] && d[..|d| - 1] == Significant(before);
      }
    }
  }

  // ---------------------------------------------------------------- layouts

  /** A pattern built up from its most significant end: w given bits, or w bits left open, below what is above. */
  datatype Layout = Top | Fixed(upper: Layout, value: nat, width: nat) | Free(upper: Layout, width: nat)

  /** inst[w-1:0] and inst >> w. */
  function Lower(inst: nat, width: nat): nat {
    inst % Arith.Pow2(width)
  }

  function Upper(inst: nat, width: nat): nat {
    assert inst / Arith.Pow2(width) >= 0 by {
      Arith.MulBound(inst / Arith.Pow2(width), Arith.Pow2(width));
    }
    inst / Arith.Pow2(width)
  }

  lemma SliceStep(x: nat, w: nat)
    requires w > 0
    ensures Upper(x, w) == Upper(x / 2, w - 1) && Lower(x, w) == 2 * Lower(x / 2, w - 1) + x % 2
  {
    var p := Arith.Pow2(w - 1);
    var q, r := x / 2 / p, x / 2 % p;
    assert x / 2 == q * p + r;
    assert q * (2 * p) == 2 * (q * p);
    Arith.DivModUnique(x, 2 * p, q, 2 * r + x % 2);
  }

  /** The fields of inst, read as numbers, have the given values. */
  predicate Fits(l: Layout, inst: nat) {
    match l
    case Top => true
    case Fixed(upper, value, width) => Lower(inst, width) == value && Fits(upper, Upper(inst, width))
    case Free(upper, width) => Fits(upper, Upper(inst, width))
  }

  lemma {:induction false} KnownParses(p: string)
    requires forall k :: 0 <= k < |p| ==> Known(p[k])
    ensures Parse(p).Some?
  {
    if p != "" {
      KnownParses(p[..|p| - 1]);
    }
  }

  // ---------------------------------------------------------------- formats

  /** The shapes of the table's patterns, by the fields they fix. */
  datatype Format =
    | Opcode(opcode: nat)
    | Funct3(funct3: nat, opcode: nat)
    | Funct5(funct5: nat, funct3: nat, opcode: nat)
    | Funct6(funct6: nat, funct3: nat, opcode: nat)
    | Funct7(funct7: nat, funct3: nat, opcode: nat)
    | LoadReserved(funct5: nat, funct3: nat, opcode: nat)
    | SFence(funct7: nat, opcode: nat)
    | Exact(funct7: nat, rs2: nat, opcode: nat)

  function LayoutOf(f: Format): Layout {
    match f
    case Opcode(op) => Fixed(Free(Top, 25), op, 7)
    case Funct3(f3, op) => Lower15(Free(Top, 17), f3, op)
    case Funct5(f5, f3, op) => Lower15(Free(Fixed(Top, f5, 5), 12), f3, op)
    case Funct6(f6, f3, op) => Lower15(Free(Fixed(Top, f6, 6), 11), f3, op)
    case Funct7(f7, f3, op) => Lower15(Free(Fixed(Top, f7, 7), 10), f3, op)
    case LoadReserved(f5, f3, op) => Lower15(Free(Fixed(Free(Fixed(Top, f5, 5), 2), 0, 5), 5), f3, op)
    case SFence(f7, op) => Fixed(Fixed(Free(Fixed(Top, f7, 7), 10), 0, 8), op, 7)
    case Exact(f7, rs2, op) => Fixed(Fixed(Fixed(Fixed(Top, f7, 7), rs2, 5), 0, 13), op, 7)
  }

  /** funct3, rd and the opcode. */
  function Lower15(upper: Layout, f3: nat, op: nat): Layout {
    Fixed(Free(Fixed(upper, f3, 3), 5), op, 7)
  }

  /** The fields of an instruction word. */
  datatype Fields = Fields(opcode: nat, rd: nat, funct3: nat, rs1: nat, rs2: nat, funct7: nat)

  function FieldsOf(inst: nat): Fields {
    Fields(inst % 128, inst / 128 % 32, inst / 4096 % 8, inst / 32768 % 32, inst / 1048576 % 32, inst / 33554432)
  }

  predicate Agrees(f: Format, x: Fields) {
    && x.opcode == f.opcode
    && match f
       case Opcode(_) => true
       case Funct3(f3, _) => x.funct3 == f3
       case Funct5(f5, f3, _) => x.funct7 / 4 == f5 && x.funct3 == f3
       case Funct6(f6, f3, _) => x.funct7 / 2 == f6 && x.funct3 == f3
       case Funct7(f7, f3, _) => x.funct7 == f7 && x.funct3 == f3
       case LoadReserved(f5, f3, _) => x.funct7 / 4 == f5 && x.rs2 == 0 && x.funct3 == f3
       case SFence(f7, _) => x.funct7 == f7 && x.funct3 == 0 && x.rd == 0
       case Exact(f7, rs2, _) => x.funct7 == f7 && x.rs2 == rs2 && x.rs1 == 0 && x.funct3 == 0 && x.rd == 0
  }

  // ---------------------------------------------------------------- layouts are fields

  lemma StepFixed(upper: Layout, value: nat, w: nat, p: nat, x: nat, y: nat)
    requires Arith.Pow2(w) == p && y == x / p
    ensures Fits(Fixed(upper, value, w), x) <==> x % p == value && Fits(upper, y)
  {
  }

  lemma StepFree(upper: Layout, w: nat, p: nat, x: nat, y: nat)
    requires Arith.Pow2(w) == p && y == x / p
    ensures Fits(Free(upper, w), x) <==> Fits(upper, y)
  {
  }

  lemma FitsLower15(upper: Layout, f3: nat, op: nat, inst: nat)
    ensures Fits(Lower15(upper, f3, op), inst) <==>
            inst % 128 == op && inst / 4096 % 8 == f3 && Fits(upper, inst / 32768)
  {
    StepFixed(Free(Fixed(upper, f3, 3), 5), op, 7, 128, inst, inst / 128);
    StepFree(Fixed(upper, f3, 3), 5, 32, inst / 128, inst / 4096);
    StepFixed(upper, f3, 3, 8, inst / 4096, inst / 32768);
  }

  lemma Powers()
    ensures Arith.Pow2(5) == 32 && Arith.Pow2(6) == 64 && Arith.Pow2(7) == 128 && Arith.Pow2(8) == 256
    ensures Arith.Pow2(10) == 1024 && Arith.Pow2(11) == 2048 && Arith.Pow2(12) == 4096 && Arith.Pow2(13) == 8192
  {
    assert Arith.Pow2(5) == 32 && Arith.Pow2(8) == 256;
    Arith.Pow2Add(8, 5);
    Arith.Pow2Add(8, 4);
    Arith.Pow2Add(8, 3);
    Arith.Pow2Add(8, 2);
  }

  /** A field of the given width at the top, above w open bits. */
  lemma FitsTop(value: nat, width: nat, p: nat, w: nat, p': nat, x: nat, y: nat)
    requires Arith.Pow2(width) == p && Arith.Pow2(w) == p' && y == x / p'
    ensures Fits(Free(Fixed(Top, value, width), w), x) <==> y % p == value
  {
    StepFree(Fixed(Top, value, width), w, p', x, y);
  }

  lemma FitsLow(f: Format, inst: nat)
    requires f.Opcode? || f.Funct3?
    ensures Fits(LayoutOf(f), inst) <==> Agrees(f, FieldsOf(inst))
  {
    match f
    case Opcode(op) =>
      StepFixed(Free(Top, 25), op, 7, 128, inst, inst / 128);
    case Funct3(f3, op) =>
      FitsLower15(Free(Top, 17), f3, op, inst);
  }

  lemma FitsUpper(value: nat, width: nat, p: nat, w: nat, p': nat, f3: nat, op: nat, inst: nat, top: nat)
    requires Arith.Pow2(width) == p && Arith.Pow2(w) == p' && top == inst / 32768 / p'
    ensures Fits(Lower15(Free(Fixed(Top, value, width), w), f3, op), inst) <==>
            inst % 128 == op && inst / 4096 % 8 == f3 && top % p == value
  {
    FitsLower15(Free(Fixed(Top, value, width), w), f3, op, inst);
    FitsTop(value, width, p, w, p', inst / 32768, top);
  }

  lemma FitsFunct5(f: Format, inst: nat)
    requires inst < Arith.TWO32 && f.Funct5?
    ensures Fits(LayoutOf(f), inst) <==> Agrees(f, FieldsOf(inst))
  {
    TopFields(inst);
    assert Arith.Pow2(5) == 32 && Arith.Pow2(12) == 4096 by {
      Powers();
    }
    FitsUpper(f.funct5, 5, 32, 12, 4096, f.funct3, f.opcode, inst, inst / 0x800_0000);
  }

  lemma FitsFunct6(f: Format, inst: nat)
    requires inst < Arith.TWO32 && f.Funct6?
    ensures Fits(LayoutOf(f), inst) <==> Agrees(f, FieldsOf(inst))
  {
    TopFields(inst);
    assert Arith.Pow2(6) == 64 && Arith.Pow2(11) == 2048 by {
      Powers();
    }
    FitsUpper(f.funct6, 6, 64, 11, 2048, f.funct3, f.opcode, inst, inst / 0x400_0000);
  }

  lemma FitsFunct7(f: Format, inst: nat)
    requires inst < Arith.TWO32 && f.Funct7?
    ensures Fits(LayoutOf(f), inst) <==> Agrees(f, FieldsOf(inst))
  {
    TopFields(inst);
    assert Arith.Pow2(7) == 128 && Arith.Pow2(10) == 1024 by {
      Powers();
    }
    FitsUpper(f.funct7, 7, 128, 10, 1024, f.funct3, f.opcode, inst, inst / 0x200_0000);
  }

  lemma TopFields(inst: nat)
    requires inst < Arith.TWO32
    ensures inst / 0x800_0000 == inst / 32768 / 4096 == inst / 0x200_0000 / 4 < 32
    ensures inst / 0x400_0000 == inst / 32768 / 2048 == inst / 0x200_0000 / 2 < 64
    ensures inst / 0x200_0000 == inst / 32768 / 1024 < 128
  {
  }

  lemma FitsLoadReserved(f: Format, inst: nat)
    requires inst < Arith.TWO32 && f.LoadReserved?
    ensures Fits(LayoutOf(f), inst) <==> Agrees(f, FieldsOf(inst))
  {
    LoadReservedLayout(f.funct5, f.funct3, f.opcode, inst);
    TopFields(inst);
    assert inst / 0x800_0000 == inst / 0x200_0000 / 4;
  }

  lemma LoadReservedLayout(f5: nat, f3: nat, op: nat, inst: nat)
    ensures Fits(Lower15(Free(Fixed(Free(Fixed(Top, f5, 5), 2), 0, 5), 5), f3, op), inst) <==>
            inst % 128 == op && inst / 4096 % 8 == f3 && inst / 1048576 % 32 == 0 && inst / 0x800_0000 % 32 == f5
  {
    var top := Free(Fixed(Top, f5, 5), 2);
    var x, y, z := inst / 32768, inst / 1048576, inst / 0x200_0000;
    FitsLower15(Free(Fixed(top, 0, 5), 5), f3, op, inst);
    StepFree(Fixed(top, 0, 5), 5, 32, x, y);
    StepFixed(top, 0, 5, 32, y, z);
    FitsTop(f5, 5, 32, 2, 4, z, inst / 0x800_0000);
  }

  lemma FitsSFence(f: Format, inst: nat)
    requires inst < Arith.TWO32 && f.SFence?
    ensures Fits(LayoutOf(f), inst) <==> Agrees(f, FieldsOf(inst))
  {
    SFenceLayout(f.funct7, f.opcode, inst);
    SFenceFields(inst);
  }

  lemma SFenceFields(inst: nat)
    requires inst < Arith.TWO32
    ensures inst / 128 % 256 == 0 <==> inst / 128 % 32 == 0 && inst / 4096 % 8 == 0
    ensures inst / 33554432 % 128 == inst / 33554432
  {
    ZeroFields(inst / 128);
    assert inst / 128 / 32 == inst / 4096;
  }

  lemma SFenceLayout(f7: nat, op: nat, inst: nat)
    ensures Fits(Fixed(Fixed(Free(Fixed(Top, f7, 7), 10), 0, 8), op, 7), inst) <==>
            inst % 128 == op && inst / 128 % 256 == 0 && inst / 33554432 % 128 == f7
  {
    var x, top := inst / 128, Free(Fixed(Top, f7, 7), 10);
    Powers();
    StepFixed(Fixed(top, 0, 8), op, 7, 128, inst, x);
    StepFixed(top, 0, 8, 256, x, inst / 32768);
    FitsTop(f7, 7, 128, 10, 1024, inst / 32768, inst / 33554432);
  }

  lemma FitsExact(f: Format, inst: nat)
    requires inst < Arith.TWO32 && f.Exact?
    ensures Fits(LayoutOf(f), inst) <==> Agrees(f, FieldsOf(inst))
  {
    var x, y := inst / 128, inst / 1048576;
    ExactLayout(f.funct7, f.rs2, f.opcode, inst);
    ZeroFields(x);
    assert x / 32 == inst / 4096 && x / 256 == inst / 32768 && y / 32 == inst / 33554432 < 128;
  }

  lemma ExactLayout(f7: nat, rs2: nat, op: nat, inst: nat)
    ensures Fits(Fixed(Fixed(Fixed(Fixed(Top, f7, 7), rs2, 5), 0, 13), op, 7), inst) <==>
            inst % 128 == op && inst / 128 % 8192 == 0 && inst / 1048576 % 32 == rs2 && inst / 1048576 / 32 % 128 == f7
  {
    var x, y, top := inst / 128, inst / 1048576, Fixed(Fixed(Top, f7, 7), rs2, 5);
    Powers();
    StepFixed(Fixed(top, 0, 13), op, 7, 128, inst, x);
    StepFixed(top, 0, 13, 8192, x, y);
    StepFixed(Fixed(Top, f7, 7), rs2, 5, 32, y, y / 32);
    StepFixed(Top, f7, 7, 128, y / 32, y / 4096);
  }

  lemma ZeroFields(x: nat)
    ensures x % 256 == 0 <==> x % 32 == 0 && x / 32 % 8 == 0
    ensures x % 8192 == 0 <==> x % 256 == 0 && x / 256 % 32 == 0
  {
    var a, b := x / 32, x / 256;
    assert b == a / 8;
    assert x == 32 * a + x % 32 && a == 8 * b + a % 8;
    assert x / 8192 == b / 32;
    assert x == 256 * b + x % 256 && b == 32 * (b / 32) + b % 32;
  }

  lemma LayoutFits(f: Format, inst: nat)
    requires inst < Arith.TWO32
    ensures Fits(LayoutOf(f), inst) <==> Agrees(f, FieldsOf(inst))
  {
    if f.LoadReserved? {
      FitsLoadReserved(f, inst);
    } else if f.SFence? {
      FitsSFence(f, inst);
    } else if f.Exact? {
      FitsExact(f, inst);
    } else if f.Funct5? {
      FitsFunct5(f, inst);
    } else if f.Funct6? {
      FitsFunct6(f, inst);
    } else if f.Funct7? {
      FitsFunct7(f, inst);
    } else {
      FitsLow(f, inst);
    }
  }
}
