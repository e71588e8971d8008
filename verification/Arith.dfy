/** Division, remainders and powers of two. */
module Arith {

  const TWO31: int := 0x8000_0000
  const TWO32: int := 0x1_0000_0000
  const TWO63: int := 0x8000_0000_0000_0000
  const TWO64: int := 0x1_0000_0000_0000_0000

  /** The low 32 bits, sign-extended to 64. */
  function Sext32(x: nat): (r: nat)
    ensures r < TWO64
  {
    if x % TWO32 >= TWO31 then x % TWO32 + TWO64 - TWO32 else x % TWO32
  }

  lemma MulBound(e: int, d: nat)
    ensures e >= 1 ==> e * d >= d
    ensures e <= -1 ==> e * d + d <= 0
  {
  }

  /** Quotient and remainder are unique. */
  lemma DivModUnique(n: int, d: nat, q: int, r: nat)
    requires d > 0 && n == q * d + r && r < d
    ensures n / d == q && n % d == r
  {
    var e := n / d - q;
    MulBound(e, d);
    assert n == (n / d) * d + n % d;
    assert e * d == (n / d) * d - q * d;
  }

  lemma Split(frame: nat, offset: nat, size: nat)
    requires size > 0 && frame % size == 0 && offset < size
    ensures (frame + offset) % size == offset
    ensures (frame + offset) / size * size == frame
  {
    DivModUnique(frame + offset, size, frame / size, offset);
  }

  function Pow2(n: nat): (p: nat)
    ensures p > 0
  {
    if n == 0 then 1 else 2 * Pow2(n - 1)
  }

  lemma {:induction false} Pow2Add(m: nat, n: nat)
    ensures Pow2(m + n) == Pow2(m) * Pow2(n)
  {
    if m > 0 {
      Pow2Add(m - 1, n);
      assert Pow2(m + n) == 2 * Pow2(m - 1 + n);
    }
  }

  lemma {:induction false} Pow2Mono(m: nat, n: nat)
    requires m <= n
    ensures Pow2(m) <= Pow2(n)
  {
    if m < n {
      Pow2Mono(m, n - 1);
    }
  }

  lemma Pow2Values()
    ensures Pow2(31) == 0x8000_0000 && Pow2(32) == 0x1_0000_0000
    ensures Pow2(63) == 0x8000_0000_0000_0000 && Pow2(64) == 0x1_0000_0000_0000_0000
  {
    assert Pow2(4) == 16 && Pow2(8) == 256;
    Pow2Add(8, 8);
    Pow2Add(16, 16);
    Pow2Add(32, 32);
  }

  /** Bit k of a number is bit k - 1 of its half. */
  lemma HalvedBit(x: nat, k: nat)
    requires k > 0
    ensures x / Pow2(k) == x / 2 / Pow2(k - 1)
  {
    var p := Pow2(k - 1);
    var q, r := x / 2 / p, x / 2 % p;
    assert x / 2 == q * p + r;
    assert q * (2 * p) == 2 * (q * p);
    DivModUnique(x, 2 * p, q, 2 * r + x % 2);
  }

  /** The number with the given bits, the first the lowest. */
  function FromBits(bits: seq<bool>): nat {
    if bits == [] then 0 else (if bits[0] then 1 else 0) + 2 * FromBits(bits[1..])
  }

  /** x mod 2^n: the n-bit pattern of an integer. */
  function Wrap(x: int, n: nat): (r: nat)
    ensures r < Pow2(n)
  {
    x % Pow2(n)
  }

  lemma WrapUnique(x: int, n: nat, q: int, r: nat)
    requires x == q * Pow2(n) + r && r < Pow2(n)
    ensures Wrap(x, n) == r
  {
    DivModUnique(x, Pow2(n), q, r);
  }

  lemma ModMod(x: int, p: nat, k: nat)
    requires p > 0 && k > 0 && p * k > 0
    ensures x % (p * k) % p == x % p
  {
    var q, y := x / (p * k), x % (p * k);
    var z, r := y / p, y % p;
    assert x == (p * k) * q + y;
    assert (p * k) * q == (q * k) * p;
    assert (q * k + z) * p == (q * k) * p + z * p;
    DivModUnique(x, p, q * k + z, r);
  }

  /** The two's complement reading of an n-bit pattern. */
  function Signed(x: nat, n: nat): int
    requires n > 0
  {
    if x >= Pow2(n - 1) then x - Pow2(n) else x
  }

  function Abs(x: int): nat {
    if x < 0 then -x else x
  }

  /** C's integer division, truncating toward zero, and its remainder. */
  function TruncDiv(x: int, y: int): int
    requires y != 0
  {
    if (x < 0) == (y < 0) then Abs(x) / Abs(y) else -(Abs(x) / Abs(y))
  }

  function TruncRem(x: int, y: int): int
    requires y != 0
  {
    if x < 0 then -(Abs(x) % Abs(y)) else Abs(x) % Abs(y)
  }

  lemma TruncIdentity(x: int, y: int)
    requires y != 0
    ensures x == y * TruncDiv(x, y) + TruncRem(x, y) && Abs(TruncRem(x, y)) < Abs(y)
  {
    assert Abs(x) == Abs(y) * (Abs(x) / Abs(y)) + Abs(x) % Abs(y);
  }

  /** Numbers that differ by a multiple of m have the same remainder. */
  lemma ModShift(x: int, k: int, m: nat)
    requires m > 0
    ensures (x + k * m) % m == x % m
  {
    assert x + k * m == (x / m + k) * m + x % m;
    DivModUnique(x + k * m, m, x / m + k, x % m);
  }

  lemma ModMulLeft(x: int, y: int, m: nat)
    requires m > 0
    ensures (x % m) * y % m == x * y % m
  {
    var p, r := x / m, x % m;
    assert x == p * m + r;
    assert x * y == r * y + (p * y) * m by {
      assert (p * m + r) * y == (p * m) * y + r * y;
      assert (p * m) * y == (p * y) * m;
    }
    ModShift(r * y, p * y, m);
  }

  /** Products can be reduced factor by factor. */
  lemma ModMul(x: int, y: int, m: nat)
    requires m > 0
    ensures (x % m) * (y % m) % m == x * y % m
  {
    ModMulLeft(x, y, m);
    ModMulLeft(y, x % m, m);
    assert (x % m) * y == y * (x % m) && (y % m) * (x % m) == (x % m) * (y % m);
  }

  /** A quotient below a product of the divisor. */
  lemma QuotientBelow(y: nat, m: nat)
    requires m > 0 && y < m * m
    ensures y / m < m
  {
    var h := y / m;
    MulBound(h - m, m);
    assert (h - m) * m == h * m - m * m;
  }

  /** The high half of a double-width residue. */
  lemma HighHalf(x: int, m: nat)
    requires m > 0 && m * m > 0
    ensures x % (m * m) / m == x / m % m
  {
    var q, y := x / (m * m), x % (m * m);
    var h, l := y / m, y % m;
    assert x == (q * m + h) * m + l by {
      assert q * (m * m) == (q * m) * m;
    }
    DivModUnique(x, m, q * m + h, l);
    QuotientBelow(y, m);
    DivModUnique(q * m + h, m, q, h);
  }
}
