/** The M extension in the terms of its manual (chapter 7 of the RISC-V Unprivileged ISA 20191213): what the emulator's
    results mean as signed and unsigned numbers. Module RtlAgreement carries this over to the RTL. */
module MExtension {
  import opened Arith
  import opened MulDiv
  import opened RtlAgreement

  /** The signed reading of a 64-bit pattern, and of its low word. */
  function Number(x: nat): int {
    if x < 0x8000_0000_0000_0000 then x else x - 0x1_0000_0000_0000_0000
  }

  function WordNumber(x: nat): int {
    var low := x % 0x1_0000_0000;
    if low < 0x8000_0000 then low else low - 0x1_0000_0000
  }

  /** A 64-bit pattern that is a sign-extended word. */
  predicate IsWord(x: nat) {
    x < 0x8000_0000 || 0xFFFF_FFFF_8000_0000 <= x < 0x1_0000_0000_0000_0000
  }

  /** Division that rounds towards zero: the remainder is smaller than the divisor and has the dividend's sign. */
  predicate Divides(x: int, y: int, q: int, r: int) {
    x == y * q + r && Abs(r) < Abs(y) && (x >= 0 ==> r >= 0) && (x <= 0 ==> r <= 0)
  }

  /** There is one such quotient and remainder. */
  lemma DividesUnique(x: int, y: int, q: int, r: int, q': int, r': int)
    requires y != 0 && Divides(x, y, q, r) && Divides(x, y, q', r')
    ensures q == q' && r == r'
  {
    assert y * (q - q') == r' - r;
    var d := q - q';
    if d != 0 {
      ProductExceeds(y, d);
    }
  }

  lemma ProductExceeds(y: int, d: int)
    requires y != 0 && d != 0
    ensures Abs(y * d) >= Abs(y)
  {
    if y > 0 {
      MulBound(d, y);
    } else {
      MulBound(d, -y);
      assert y * d == -(d * -y);
    }
  }

  /** DIV (0) and REM (2): division of the signed numbers, -1 and the dividend by zero, the dividend and 0 on
      overflow. */
  lemma SignedDivision(a: nat, b: nat)
    requires a < TWO64 && b < TWO64
    ensures var q, r := DivideEmu(0, false, a, b), DivideEmu(2, false, a, b);
            && q < TWO64 && r < TWO64
            && (b == 0 ==> q == 0xFFFF_FFFF_FFFF_FFFF && r == a)
            && (a == 0x8000_0000_0000_0000 && b == 0xFFFF_FFFF_FFFF_FFFF ==> q == a && r == 0)
            && (b != 0 && !(a == 0x8000_0000_0000_0000 && b == 0xFFFF_FFFF_FFFF_FFFF) ==>
                  Divides(Number(a), Number(b), Number(q), Number(r)))
  {
    var x, y := ToS64(a), ToS64(b);
    if b != 0 && !(x == -TWO63 && y == -1) {
      TruncatedDivides(x, y);
      QuotientRange(x, y, TWO63);
      Unwrapped(TruncDiv(x, y));
      Unwrapped(TruncRem(x, y));
    }
  }

  lemma Unwrapped(v: int)
    requires -TWO63 <= v < TWO63
    ensures Number(ToU64(v)) == v
  {
  }

  lemma TruncatedDivides(x: int, y: int)
    requires y != 0
    ensures Divides(x, y, TruncDiv(x, y), TruncRem(x, y))
  {
    TruncIdentity(x, y);
    if x == 0 {
      assert y * 0 == 0;
    }
  }

  lemma SmallQuotient(n: nat, d: nat)
    requires d > 0
    ensures n / d <= n && (d >= 2 ==> 2 * (n / d) <= n)
  {
    var q := n / d;
    assert n == d * q + n % d;
    assert d * q == (d - 1) * q + q;
    MulBound(d - 1, q);
  }

  /** The quotient fits, but for the one overflow. */
  lemma QuotientRange(x: int, y: int, m: int)
    requires m > 0 && -m <= x < m && -m <= y < m && y != 0 && !(x == -m && y == -1)
    ensures -m <= TruncDiv(x, y) < m && -m <= TruncRem(x, y) < m
  {
    RemainderRange(x, y);
    QuotientSize(x, y);
    if Abs(y) > 1 {
      SmallQuotient(Abs(x), Abs(y));
    }
  }

  /** The size of the quotient, and its sign. */
  lemma QuotientSize(x: int, y: int)
    requires y != 0
    ensures Abs(TruncDiv(x, y)) == Abs(x) / Abs(y) && (Abs(y) == 1 ==> Abs(x) / Abs(y) == Abs(x))
    ensures TruncDiv(x, y) > 0 ==> (x < 0 <==> y < 0)
  {
    Quotient(Abs(x), Abs(y), Abs(x) / Abs(y));
  }

  lemma Quotient(n: nat, d: nat, q: int)
    requires d > 0 && q == n / d
    ensures q >= 0 && (d == 1 ==> q == n)
  {
  }

  lemma RemainderRange(x: int, y: int)
    requires y != 0
    ensures Abs(TruncRem(x, y)) < Abs(y)
  {
    TruncIdentity(x, y);
  }

  /** DIVU (1) and REMU (3). */
  lemma UnsignedDivision(a: nat, b: nat)
    requires a < TWO64 && b < TWO64
    ensures var q, r := DivideEmu(1, false, a, b), DivideEmu(3, false, a, b);
            if b == 0 then q == 0xFFFF_FFFF_FFFF_FFFF && r == a else a == b * q + r && r < b
  {
  }

  /** DIVW and REMW: the same on the low words, the results sign-extended. */
  lemma SignedWordDivision(a: nat, b: nat)
    requires a < TWO64 && b < TWO64
    ensures var q, r, x, y := DivideEmu(0, true, a, b), DivideEmu(2, true, a, b), WordNumber(a), WordNumber(b);
            && IsWord(q) && IsWord(r)
            && (y == 0 ==> Number(q) == -1 && Number(r) == x)
            && (x == -0x8000_0000 && y == -1 ==> Number(q) == x && r == 0)
            && (y != 0 && !(x == -0x8000_0000 && y == -1) ==> Divides(x, y, Number(q), Number(r)))
  {
    var x, y := ToS32(a), ToS32(b);
    if y != 0 && !(x == -TWO31 && y == -1) {
      TruncatedDivides(x, y);
      QuotientRange(x, y, TWO31);
      SextNumber(TruncDiv(x, y));
      SextNumber(TruncRem(x, y));
    }
  }

  lemma SextNumber(v: int)
    requires -TWO31 <= v < TWO31
    ensures Number(Sext32(ToU64(v))) == v && IsWord(Sext32(ToU64(v)))
  {
    DivModUnique(v, TWO64, if v < 0 then -1 else 0, if v < 0 then v + TWO64 else v);
    DivModUnique(ToU64(v), TWO32, if v < 0 then TWO32 - 1 else 0, if v < 0 then v + TWO32 else v);
  }

  /** DIVUW and REMUW. */
  lemma UnsignedWordDivision(a: nat, b: nat)
    requires a < TWO64 && b < TWO64
    ensures var q, r := DivideEmu(1, true, a, b), DivideEmu(3, true, a, b);
            var x, y := a % 0x1_0000_0000, b % 0x1_0000_0000;
            && IsWord(q) && IsWord(r)
            && (y == 0 ==> q == 0xFFFF_FFFF_FFFF_FFFF && r % 0x1_0000_0000 == x)
            && (y != 0 ==> x == y * (q % 0x1_0000_0000) + r % 0x1_0000_0000 && r % 0x1_0000_0000 < y)
  {
    var x, y := a % TWO32, b % TWO32;
    if y != 0 {
      SmallQuotient(x, y);
      LowOfSext(x / y);
      LowOfSext(x % y);
    } else {
      LowOfSext(x);
    }
  }

  lemma LowOfSext(v: nat)
    requires v < TWO32
    ensures IsWord(Sext32(v)) && Sext32(v) % TWO32 == v
  {
  }

  /** MUL (0) gives the low half of the product, MULH (1), MULHSU (2) and MULHU (3) the high one of the operands read as
      both signed, the first signed, and both unsigned; MULW, below, the low word, sign-extended. */
  lemma MultiplicationExact(a: nat, b: nat)
    requires a < TWO64 && b < TWO64
    ensures MultiplyEmu(0, false, a, b) == a * b % 0x1_0000_0000_0000_0000
    ensures MultiplyEmu(1, false, a, b) == Number(a) * Number(b) / 0x1_0000_0000_0000_0000 % 0x1_0000_0000_0000_0000
    ensures MultiplyEmu(2, false, a, b) == Number(a) * b / 0x1_0000_0000_0000_0000 % 0x1_0000_0000_0000_0000
    ensures MultiplyEmu(3, false, a, b) == a * b / 0x1_0000_0000_0000_0000 % 0x1_0000_0000_0000_0000
  {
    SignedUnsignedHigh(a, b);
    UnsignedHigh(a, b);
    assert ToS64(a) == Number(a) && ToS64(b) == Number(b);
  }

  lemma WordMultiplicationExact(a: nat, b: nat)
    ensures var w := MultiplyEmu(0, true, a, b); IsWord(w) && w % 0x1_0000_0000 == a * b % 0x1_0000_0000
  {
    LowOfSext(a % TWO32 * (b % TWO32) % TWO32);
    ModMul(a, b, TWO32);
  }
}
