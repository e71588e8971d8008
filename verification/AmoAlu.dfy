/** The AMO unit of hardware/rtl/cpu/amo_alu.sv against the AMO expressions of emulator/src/cpu/cpu.c. A 64-bit word
    is a pair of 32-bit halves, each a number below 2^32. */
module AmoAlu {
  import Arith

  type Half = h: int | 0 <= h < Arith.TWO32

  datatype Word = Word(hi: Half, lo: Half)

  datatype Amo = Swap | Add | Xor | And | Or | Min | Max | Minu | Maxu

  predicate Negative(h: Half) {
    h >= Arith.TWO31
  }

  /** {{32{x[31]}}, x[31:0]}, which is also the emulator's sext(x, 32). */
  function ExtendWord(x: Word): Word {
    Word(if Negative(x.lo) then 0xFFFF_FFFF else 0, x.lo)
  }

  /** 64-bit unsigned order and addition. */
  predicate Below(x: Word, y: Word) {
    x.hi < y.hi || (x.hi == y.hi && x.lo < y.lo)
  }

  function Sum(x: Word, y: Word): Word {
    var lo := x.lo + y.lo;
    Word((x.hi + y.hi + lo / Arith.TWO32) % Arith.TWO32, lo % Arith.TWO32)
  }

  /** One bit of AND, OR and XOR, and the bitwise operation on numbers. */
  predicate BitOf(op: Amo, x: bool, y: bool) {
    match op
    case And => x && y
    case Or => x || y
    case _ => x != y
  }

  function Bitwise(op: Amo, x: nat, y: nat): nat
    decreases x + y
  {
    if x == 0 && y == 0 then 0
    else 2 * Bitwise(op, x / 2, y / 2) + (if BitOf(op, x % 2 == 1, y % 2 == 1) then 1 else 0)
  }

  lemma {:induction false} BitwiseBound(op: Amo, x: nat, y: nat, bits: nat)
    requires x < Arith.Pow2(bits) && y < Arith.Pow2(bits)
    ensures Bitwise(op, x, y) < Arith.Pow2(bits)
  {
    if bits > 0 {
      BitwiseBound(op, x / 2, y / 2, bits - 1);
    }
  }

  function BitwiseHalf(op: Amo, x: Half, y: Half): Half {
    Arith.Pow2Values();
    BitwiseBound(op, x, y, 32);
    Bitwise(op, x, y)
  }

  function Logic(op: Amo, x: Word, y: Word): Word {
    Word(BitwiseHalf(op, x.hi, y.hi), BitwiseHalf(op, x.lo, y.lo))
  }

  // ---------------------------------------------------------------- the RTL

  function Flip(h: Half): Half {
    if Negative(h) then h - Arith.TWO31 else h + Arith.TWO31
  }

  function FlipSign(x: Word, flip: bool): Word {
    if flip then x.(hi := Flip(x.hi)) else x
  }

  /** less_then: an unsigned comparison of the operands, sign-extended if they are words and with the sign bit
      flipped for MIN and MAX. */
  predicate LessThan(a: Word, b: Word, op: Amo, is32: bool) {
    var signed := op.Min? || op.Max?;
    Below(FlipSign(if is32 then ExtendWord(a) else a, signed), FlipSign(if is32 then ExtendWord(b) else b, signed))
  }

  /** The output o for loaded value a and register operand b. */
  function Output(a: Word, b: Word, op: Amo, is32: bool): Word {
    var less := LessThan(a, b, op, is32);
    var result := match op
      case Swap => b
      case Add => Sum(a, b)
      case Xor => Logic(Xor, a, b)
      case And => Logic(And, a, b)
      case Or => Logic(Or, a, b)
      case Min => if less then a else b
      case Max => if less then b else a
      case Minu => if less then a else b
      case Maxu => if less then b else a;
    if is32 then ExtendWord(result) else result
  }

  // ---------------------------------------------------------------- the emulator

  /** C's comparison of int32_t values, and of int64_t values by their halves. */
  predicate Less32(x: Half, y: Half) {
    if Negative(x) == Negative(y) then x < y else Negative(x)
  }

  predicate Less64(x: Word, y: Word) {
    if Negative(x.hi) == Negative(y.hi) then Below(x, y) else Negative(x.hi)
  }

  /** x < y as the operation and the size compare. */
  predicate Less(x: Word, y: Word, signed: bool, is32: bool) {
    if is32 then (if signed then Less32(x.lo, y.lo) else x.lo < y.lo)
    else if signed then Less64(x, y) else Below(x, y)
  }

  /** The value the emulator stores, for amo_src and read_value. */
  function Emulated(src: Word, read: Word, op: Amo, is32: bool): Word {
    match op
    case Swap => src
    case Add => Sum(src, read)
    case And => Logic(And, src, read)
    case Or => Logic(Or, src, read)
    case Xor => Logic(Xor, src, read)
    case _ =>
      var signed := op.Min? || op.Max?;
      var takeSrc := if op.Max? || op.Maxu? then Less(read, src, signed, is32) else Less(src, read, signed, is32);
      var chosen := if takeSrc then src else read;
      if is32 then ExtendWord(chosen) else chosen
  }

  // ---------------------------------------------------------------- agreement

  /** Comparing words through sign extension keeps the unsigned order of words; with flipped signs, the signed one. */
  lemma WordOrder(a: Word, b: Word)
    ensures Below(ExtendWord(a), ExtendWord(b)) <==> a.lo < b.lo
    ensures Below(FlipSign(ExtendWord(a), true), FlipSign(ExtendWord(b), true)) <==> Less32(a.lo, b.lo)
  {
  }

  lemma DoubleOrder(a: Word, b: Word)
    ensures Below(FlipSign(a, true), FlipSign(b, true)) <==> Less64(a, b)
  {
  }

  /** The RTL's comparison is the one the emulator makes. */
  lemma LessThanAgrees(a: Word, b: Word, op: Amo, is32: bool)
    ensures LessThan(a, b, op, is32) <==> Less(a, b, op.Min? || op.Max?, is32)
  {
    WordOrder(a, b);
    DoubleOrder(a, b);
  }

  lemma LessTotal(a: Word, b: Word, signed: bool, is32: bool)
    ensures !Less(a, b, signed, is32) && !Less(b, a, signed, is32) ==> a.lo == b.lo && (!is32 ==> a == b)
    ensures !(Less(a, b, signed, is32) && Less(b, a, signed, is32))
  {
  }

  lemma {:induction false} BitwiseCommutes(op: Amo, x: nat, y: nat)
    ensures Bitwise(op, x, y) == Bitwise(op, y, x)
    decreases x + y
  {
    if x != 0 || y != 0 {
      BitwiseCommutes(op, x / 2, y / 2);
    }
  }

  lemma SelectionAgrees(a: Word, b: Word, op: Amo, is32: bool)
    requires op.Min? || op.Max? || op.Minu? || op.Maxu?
    ensures Output(a, b, op, is32).lo == Emulated(b, a, op, is32).lo
    ensures (!is32 ==> Output(a, b, op, is32) == Emulated(b, a, op, is32))
  {
    LessThanAgrees(a, b, op, is32);
    LessTotal(a, b, op.Min? || op.Max?, is32);
  }

  /** On doublewords the two agree. On words they agree on the four bytes that are stored, for any register operand
      and whatever the upper half of the loaded value. */
  lemma MatchesEmulator(a: Word, b: Word, op: Amo)
    ensures Output(a, b, op, false) == Emulated(b, a, op, false)
    ensures Output(a, b, op, true).lo == Emulated(b, ExtendWord(a), op, true).lo
  {
    if op.Min? || op.Max? || op.Minu? || op.Maxu? {
      SelectionAgrees(a, b, op, false);
      SelectionAgrees(a, b, op, true);
    } else {
      BitwiseCommutes(op, a.hi, b.hi);
      BitwiseCommutes(op, a.lo, b.lo);
    }
  }

  // ---------------------------------------------------------------- in numbers

  function Value(x: Word): nat {
    x.hi * 0x1_0000_0000 + x.lo
  }

  function SignedValue(x: Word): int {
    if x.hi < 0x8000_0000 then Value(x) else Value(x) - 0x1_0000_0000_0000_0000
  }

  function SignedLow(x: Word): int {
    if x.lo < 0x8000_0000 then x.lo else x.lo - 0x1_0000_0000
  }

  lemma {:induction false} BitwiseExact(op: Amo, x: nat, y: nat, k: nat)
    requires op.And? || op.Or? || op.Xor?
    ensures var p, q := x / Arith.Pow2(k) % 2 == 1, y / Arith.Pow2(k) % 2 == 1;
            Bitwise(op, x, y) / Arith.Pow2(k) % 2 == 1 <==>
              (op.And? && p && q) || (op.Or? && (p || q)) || (op.Xor? && p != q)
    decreases k
  {
    if k > 0 {
      Arith.HalvedBit(x, k);
      Arith.HalvedBit(y, k);
      Arith.HalvedBit(Bitwise(op, x, y), k);
      BitwiseExact(op, x / 2, y / 2, k - 1);
      BitwiseHalves(op, x, y);
    } else {
      assert Arith.Pow2(0) == 1;
    }
  }

  lemma BitwiseHalves(op: Amo, x: nat, y: nat)
    ensures Bitwise(op, x, y) / 2 == Bitwise(op, x / 2, y / 2)
  {
    if x == 0 && y == 0 {
      assert Bitwise(op, 0, 0) == 0;
    }
  }

  /** What the unit shows for a loaded value a and a register operand b, as doublewords .. */
  lemma OutputExact(a: Word, b: Word)
    ensures Output(a, b, Swap, false) == b
    ensures Value(Output(a, b, Add, false)) == (Value(a) + Value(b)) % 0x1_0000_0000_0000_0000
    ensures var o := Output(a, b, Min, false);
            (o == a || o == b) && SignedValue(o) <= SignedValue(a) && SignedValue(o) <= SignedValue(b)
    ensures var o := Output(a, b, Max, false);
            (o == a || o == b) && SignedValue(o) >= SignedValue(a) && SignedValue(o) >= SignedValue(b)
    ensures var o := Output(a, b, Minu, false); (o == a || o == b) && Value(o) <= Value(a) && Value(o) <= Value(b)
    ensures var o := Output(a, b, Maxu, false); (o == a || o == b) && Value(o) >= Value(a) && Value(o) >= Value(b)
    ensures forall op: Amo :: op.And? || op.Or? || op.Xor? ==>
              Output(a, b, op, false) == Word(Bitwise(op, a.hi, b.hi), Bitwise(op, a.lo, b.lo))
  {
    SumExact(a, b);
  }

  lemma SumExact(a: Word, b: Word)
    ensures Value(Sum(a, b)) == (Value(a) + Value(b)) % 0x1_0000_0000_0000_0000
  {
    var lo := a.lo + b.lo;
    Carry(a.hi + b.hi, lo, lo / Arith.TWO32, lo % Arith.TWO32);
  }

  lemma Carry(hi: nat, lo: nat, c: nat, r: nat)
    requires lo == c * 0x1_0000_0000 + r && r < 0x1_0000_0000
    ensures (hi + c) % 0x1_0000_0000 * 0x1_0000_0000 + r
         == (hi * 0x1_0000_0000 + lo) % 0x1_0000_0000_0000_0000
  {
    var q, h := (hi + c) / 0x1_0000_0000, (hi + c) % 0x1_0000_0000;
    Arith.DivModUnique(hi * 0x1_0000_0000 + lo, 0x1_0000_0000_0000_0000, q, h * 0x1_0000_0000 + r);
  }

  /** .. and as words, whose result is sign-extended. */
  lemma WordOutputExact(a: Word, b: Word, op: Amo)
    ensures var o := Output(a, b, op, true); o.hi == if o.lo < 0x8000_0000 then 0 else 0xFFFF_FFFF
    ensures Output(a, b, Swap, true).lo == b.lo
    ensures Output(a, b, Add, true).lo == (a.lo + b.lo) % 0x1_0000_0000
    ensures op.And? || op.Or? || op.Xor? ==> Output(a, b, op, true).lo == Bitwise(op, a.lo, b.lo)
  {
  }

  lemma WordOrderExact(a: Word, b: Word)
    ensures var o := Output(a, b, Min, true);
            (o.lo == a.lo || o.lo == b.lo) && SignedLow(o) <= SignedLow(a) && SignedLow(o) <= SignedLow(b)
    ensures var o := Output(a, b, Max, true);
            (o.lo == a.lo || o.lo == b.lo) && SignedLow(o) >= SignedLow(a) && SignedLow(o) >= SignedLow(b)
    ensures var o := Output(a, b, Minu, true).lo; (o == a.lo || o == b.lo) && o <= a.lo && o <= b.lo
    ensures var o := Output(a, b, Maxu, true).lo; (o == a.lo || o == b.lo) && o >= a.lo && o >= b.lo
  {
  }
}
