/** The multiplication and division helpers of emulator/src/cpu/cpu.c on 64-bit patterns. */
module MulDiv {
  import opened Arith

  // C's conversions between the 32- and 64-bit types.
  function ToS64(x: nat): int {
    if x >= TWO63 then x - TWO64 else x
  }

  function ToU64(x: int): nat {
    x % TWO64
  }

  function ToS32(x: nat): int {
    if x % TWO32 >= TWO31 then x % TWO32 - TWO32 else x % TWO32
  }

  function DivEmu(a: nat, b: nat): nat
    requires b < TWO64
  {
    var x, y := ToS64(a), ToS64(b);
    if b == 0 then TWO64 - 1
    else if x == -TWO63 && y == -1 then TWO63
    else ToU64(TruncDiv(x, y))
  }

  function DivuEmu(a: nat, b: nat): nat {
    if b == 0 then TWO64 - 1 else a / b
  }

  function RemEmu(a: nat, b: nat): nat
    requires b < TWO64
  {
    var x, y := ToS64(a), ToS64(b);
    if b == 0 then a
    else if x == -TWO63 && y == -1 then 0
    else ToU64(TruncRem(x, y))
  }

  function RemuEmu(a: nat, b: nat): nat {
    if b == 0 then a else a % b
  }

  function DivwEmu(a: nat, b: nat): nat {
    var x, y := ToS32(a), ToS32(b);
    if y == 0 then TWO64 - 1
    else if x == -TWO31 && y == -1 then TWO64 - TWO31
    else Sext32(ToU64(TruncDiv(x, y)))
  }

  function DivuwEmu(a: nat, b: nat): nat {
    if b % TWO32 == 0 then TWO64 - 1 else Sext32(a % TWO32 / (b % TWO32))
  }

  function RemwEmu(a: nat, b: nat): nat {
    var x, y := ToS32(a), ToS32(b);
    if y == 0 then Sext32(a)
    else if x == -TWO31 && y == -1 then 0
    else Sext32(ToU64(TruncRem(x, y)))
  }

  function RemuwEmu(a: nat, b: nat): nat {
    if b % TWO32 == 0 then Sext32(a % TWO32) else Sext32(a % TWO32 % (b % TWO32))
  }

  function MulEmu(a: nat, b: nat): nat {
    a * b % TWO64
  }

  /** int128 product, arithmetic shift. */
  function MulhEmu(a: nat, b: nat): nat {
    ToU64(ToS64(a) * ToS64(b) / TWO64)
  }

  function MulhuEmu(a: nat, b: nat): nat {
    a * b % (TWO64 * TWO64) / TWO64 % TWO64
  }

  /** The sign-extended operand enters an unsigned 128-bit product. */
  function MulhsuEmu(a: nat, b: nat): nat {
    ToS64(a) % (TWO64 * TWO64) * b % (TWO64 * TWO64) / TWO64 % TWO64
  }

  function MulwEmu(a: nat, b: nat): nat {
    Sext32(a % TWO32 * (b % TWO32) % TWO32)
  }

  // ---------------------------------------------------------------- the division identity

  /** a = b * q + r modulo 2^64, for all operands: also for b = 0 and for the overflowing signed division. */
  lemma DivisionIdentity(a: nat, b: nat)
    requires a < TWO64 && b < TWO64
    ensures (b * DivEmu(a, b) + RemEmu(a, b)) % TWO64 == a
    ensures (b * DivuEmu(a, b) + RemuEmu(a, b)) % TWO64 == a
    ensures b != 0 ==> RemuEmu(a, b) < b && Abs(ToS64(RemEmu(a, b))) < Abs(ToS64(b))
  {
    UnsignedIdentity(a, b);
    if b != 0 {
      var x, y := ToS64(a), ToS64(b);
      if x == -TWO63 && y == -1 {
        assert b * TWO63 == TWO64 * (TWO63 - 1) + TWO63;
      } else {
        TruncIdentity(x, y);
        SignedIdentity(a, b, TruncDiv(x, y), TruncRem(x, y));
      }
    }
  }

  lemma UnsignedIdentity(a: nat, b: nat)
    requires a < TWO64
    ensures (b * DivuEmu(a, b) + RemuEmu(a, b)) % TWO64 == a
  {
    if b != 0 {
      assert a == b * (a / b) + a % b;
    }
  }

  lemma SignedIdentity(a: nat, b: nat, q: int, r: int)
    requires a < TWO64 && b < TWO64 && ToS64(a) == ToS64(b) * q + r && Abs(r) < Abs(ToS64(b))
    ensures (b * ToU64(q) + ToU64(r)) % TWO64 == a
    ensures ToS64(ToU64(r)) == r
  {
    var kb, ka := if b >= TWO63 then 1 else 0, if a >= TWO63 then 1 else 0;
    Representatives(TWO64, ToS64(a), ToS64(b), q, r, ka, kb, a, b);
    SmallIsItself(r);
  }

  lemma SmallIsItself(r: int)
    requires -TWO63 <= r < TWO63
    ensures ToS64(ToU64(r)) == r
  {
  }

  lemma Representatives(m: nat, x: int, y: int, q: int, r: int, ka: int, kb: int, a: nat, b: nat)
    requires m > 0 && x == y * q + r && a == x + ka * m && b == y + kb * m && a < m
    ensures (b * (q % m) + r % m) % m == a
  {
    var q', r', kq, kr := q % m, r % m, q / m, r / m;
    assert q == kq * m + q' && r == kr * m + r';
    Recombine(m, y, q, r, kb, kq, kr, b, q', r');
    var j, v := kb * q' - y * kq - kr, b * q' + r';
    assert v == x + j * m;
    assert (j - ka) * m == j * m - ka * m;
    assert v == a + (j - ka) * m;
    ModShift(a, j - ka, m);
    DivModUnique(a, m, 0, a);
  }

  /** Replacing factors and summands by other representatives modulo m. */
  lemma Recombine(m: int, y: int, q: int, r: int, kb: int, kq: int, kr: int, b: int, q': int, r': int)
    requires b == y + kb * m && q' == q - kq * m && r' == r - kr * m
    ensures b * q' + r' == y * q + r + (kb * q' - y * kq - kr) * m
  {
    assert b * q' == y * q' + (kb * q') * m;
    assert y * q' == y * q - (y * kq) * m;
  }
}
