/** The immediates of emulator/src/cpu/cpu.c against their placement in the instruction word (section 2.3 of the RISC-V
    Unprivileged ISA 20191213). */
module Immediates {
  import opened Riscv
  import Arith
  import opened MulDiv

  /** sext for a value below top, a power of two: the C shifts copy its highest bit upward. */
  function Sext(value: nat, top: nat): (r: nat)
    requires value < top <= Arith.TWO32 && top % 2 == 0
    ensures r < MODULUS
  {
    if value < top / 2 then value else value + MODULUS - top
  }

  datatype Format = I | S | B | U | J | Csr | Unused

  /** decode_imm's switch. */
  function FormatOf(opcode: nat): Format {
    match opcode
    case 0x03 | 0x13 | 0x1B | 0x67 => I
    case 0x17 | 0x37 => U
    case 0x23 => S
    case 0x6F => J
    case 0x63 => B
    case 0x73 => Csr
    case _ => Unused
  }

  /** decode_imm. The fields joined by `|` in the source do not overlap and are added here. */
  function DecodeImm(inst: nat, opcode: nat): (imm: nat)
    requires inst < Arith.TWO32
    ensures imm < MODULUS
  {
    match FormatOf(opcode)
    case I => Sext(inst / 0x10_0000, 0x1000)
    case S => Sext(inst / 0x80 % 0x20 + inst / 0x200_0000 * 0x20, 0x1000)
    case B => Sext(inst / 0x8000_0000 * 0x1000 + inst / 0x200_0000 % 0x40 * 0x20 + inst / 0x100 % 0x10 * 2
        + inst / 0x80 % 2 * 0x800, 0x2000)
    case U => Sext(inst / 0x1000 * 0x1000, 0x1_0000_0000)
    case J => Sext(inst / 0x8000_0000 * 0x10_0000 + inst / 0x20_0000 % 0x400 * 2 + inst / 0x10_0000 % 2 * 0x800
        + inst / 0x1000 % 0x100 * 0x1000, 0x20_0000)
    case Csr => inst / 0x8000 % 0x20
    case Unused => 0
  }

  /** The immediates a format can express. */
  predicate Expressible(v: int, f: Format) {
    match f
    case I => -0x800 <= v < 0x800
    case S => -0x800 <= v < 0x800
    case B => -0x1000 <= v < 0x1000 && v % 2 == 0
    case U => -0x8000_0000 <= v < 0x8000_0000 && v % 0x1000 == 0
    case J => -0x10_0000 <= v < 0x10_0000 && v % 2 == 0
    case Csr => 0 <= v < 32
    case Unused => v == 0
  }

  /** The bits of v, sign included, stand where the manual puts them. Floor division makes v / 2^k % 2 bit k of v. */
  predicate Placed(v: int, f: Format, inst: nat) {
    match f
    case I => inst / 0x10_0000 == v % 0x1000
    case S => inst / 0x80 % 0x20 == v % 0x20 && inst / 0x200_0000 == v / 0x20 % 0x80
    case B =>
      && inst / 0x8000_0000 == v / 0x1000 % 2 && inst / 0x200_0000 % 0x40 == v / 0x20 % 0x40
      && inst / 0x100 % 0x10 == v / 2 % 0x10 && inst / 0x80 % 2 == v / 0x800 % 2
    case U => inst / 0x1000 == v / 0x1000 % 0x10_0000
    case J =>
      && inst / 0x8000_0000 == v / 0x10_0000 % 2 && inst / 0x20_0000 % 0x400 == v / 2 % 0x400
      && inst / 0x10_0000 % 2 == v / 0x800 % 2 && inst / 0x1000 % 0x100 == v / 0x1000 % 0x100
    case Csr => inst / 0x8000 % 0x20 == v
    case Unused => true
  }

  /** Which opcodes have which immediates. */
  lemma FormatExact(opcode: nat)
    ensures FormatOf(opcode) == I <==> opcode == 3 || opcode == 19 || opcode == 27 || opcode == 103
    ensures FormatOf(opcode) == S <==> opcode == 35
    ensures FormatOf(opcode) == B <==> opcode == 99
    ensures FormatOf(opcode) == U <==> opcode == 23 || opcode == 55
    ensures FormatOf(opcode) == J <==> opcode == 111
    ensures FormatOf(opcode) == Csr <==> opcode == 115
  {
  }

  /** decode_imm yields v exactly when v is expressible in the opcode's format and its bits stand in the word as the
      manual places them: encoding an immediate and decoding it are inverse. */
  lemma ImmediateExact(inst: nat, opcode: nat, v: int)
    requires inst < Arith.TWO32
    ensures ToS64(DecodeImm(inst, opcode)) == v <==>
            Expressible(v, FormatOf(opcode)) && Placed(v, FormatOf(opcode), inst)
  {
    match FormatOf(opcode)
    case I => GatherI(inst / 0x10_0000, v);
    case S => GatherS(inst / 0x80 % 0x20, inst / 0x200_0000, v);
    case B => GatherB(inst / 0x8000_0000, inst / 0x200_0000 % 0x40, inst / 0x100 % 0x10, inst / 0x80 % 2, v);
    case U => GatherU(inst / 0x1000, v);
    case J => GatherJ(inst / 0x8000_0000, inst / 0x20_0000 % 0x400, inst / 0x10_0000 % 2, inst / 0x1000 % 0x100, v);
    case Csr =>
    case Unused =>
  }

  lemma GatherI(value: nat, v: int)
    requires value < 0x1000
    ensures ToS64(Sext(value, 0x1000)) == v <==> Expressible(v, I) && value == v % 0x1000
  {
  }

  lemma GatherU(value: nat, v: int)
    requires value < 0x10_0000
    ensures ToS64(Sext(value * 0x1000, 0x1_0000_0000)) == v <==> Expressible(v, U) && value == v / 0x1000 % 0x10_0000
  {
  }

  lemma GatherS(low: nat, high: nat, v: int)
    requires low < 0x20 && high < 0x80
    ensures ToS64(Sext(low + high * 0x20, 0x1000)) == v <==>
            Expressible(v, S) && low == v % 0x20 && high == v / 0x20 % 0x80
  {
  }

  /** Peeling the fields of v off from below. */
  lemma Peel(v: int, a: int, b: int, c: int, d: int, low: nat, middle: nat, high: nat, m: nat, n: nat, k: nat)
    requires low < m && middle < n && high < k
    requires v == 2 * a && a == m * b + low && b == n * c + middle && c == k * d + high
    ensures a == v / 2 && a % m == low && a / m == b && b % n == middle && b / n == c && c % k == high && c / k == d
  {
    Arith.DivModUnique(a, m, b, low);
    Arith.DivModUnique(b, n, c, middle);
    Arith.DivModUnique(c, k, d, high);
  }

  lemma GatherB(sign: nat, high: nat, low: nat, eleven: nat, v: int)
    requires sign < 2 && high < 0x40 && low < 0x10 && eleven < 2
    ensures ToS64(Sext(sign * 0x1000 + high * 0x20 + low * 2 + eleven * 0x800, 0x2000)) == v <==>
            && Expressible(v, B) && sign == v / 0x1000 % 2 && high == v / 0x20 % 0x40
            && low == v / 2 % 0x10 && eleven == v / 0x800 % 2
  {
    var value := high * 0x20 + low * 2 + eleven * 0x800 - sign * 0x1000;
    assert ToS64(Sext(sign * 0x1000 + high * 0x20 + low * 2 + eleven * 0x800, 0x2000)) == value;
    var d := 0 - sign as int;
    var c := 2 * d + eleven;
    var b := 0x40 * c + high;
    Peel(value, 0x10 * b + low, b, c, d, low, high, eleven, 0x10, 0x40, 2);
    BitsB(value);
    BitsB(v);
  }

  /** An expressible immediate is determined by its fields. */
  lemma BitsB(v: int)
    ensures v / 0x20 == v / 2 / 0x10 && v / 0x800 == v / 0x20 / 0x40 && v / 0x1000 == v / 0x800 / 2
    ensures Expressible(v, B) ==>
              v == -(v / 0x1000 % 2) * 0x1000 + v / 0x800 % 2 * 0x800 + v / 0x20 % 0x40 * 0x20 + v / 2 % 0x10 * 2
  {
    var a, b, c, d := v / 2, v / 0x20, v / 0x800, v / 0x1000;
    assert b == a / 0x10 && c == b / 0x40 && d == c / 2;
    assert Expressible(v, B) ==> v == 2 * a && (d == 0 || d == -1);
  }

  lemma GatherJ(sign: nat, low: nat, eleven: nat, high: nat, v: int)
    requires sign < 2 && low < 0x400 && eleven < 2 && high < 0x100
    ensures ToS64(Sext(sign * 0x10_0000 + low * 2 + eleven * 0x800 + high * 0x1000, 0x20_0000)) == v <==>
            && Expressible(v, J) && sign == v / 0x10_0000 % 2 && low == v / 2 % 0x400
            && eleven == v / 0x800 % 2 && high == v / 0x1000 % 0x100
  {
    var value := low * 2 + eleven * 0x800 + high * 0x1000 - sign * 0x10_0000;
    assert ToS64(Sext(sign * 0x10_0000 + low * 2 + eleven * 0x800 + high * 0x1000, 0x20_0000)) == value;
    var d := 0 - sign as int;
    var c := 0x100 * d + high;
    var b := 2 * c + eleven;
    Peel(value, 0x400 * b + low, b, c, d, low, eleven, high, 0x400, 2, 0x100);
    BitsJ(value);
    BitsJ(v);
  }

  lemma BitsJ(v: int)
    ensures v / 0x800 == v / 2 / 0x400 && v / 0x1000 == v / 0x800 / 2 && v / 0x10_0000 == v / 0x1000 / 0x100
    ensures Expressible(v, J) ==>
              v == -(v / 0x10_0000 % 2) * 0x10_0000 + v / 0x1000 % 0x100 * 0x1000 + v / 0x800 % 2 * 0x800
                  + v / 2 % 0x400 * 2
  {
    var a, b, c, d := v / 2, v / 0x800, v / 0x1000, v / 0x10_0000;
    assert b == a / 0x400 && c == b / 2 && d == c / 0x100;
    assert Expressible(v, J) ==> v == 2 * a && (d == 0 || d == -1);
  }
}
