/** At width 64 the divider and the multiplier of the RTL compute what the emulator computes, for all operands and
    all thirteen instructions of the M extension. */
module RtlAgreement {
  import opened Arith
  import opened MulDiv
  import Divider
  import Multiplier

  /** The emulator's result for a divider opcode: DIV 0, DIVU 1, REM 2, REMU 3, or their word forms. */
  function DivideEmu(opcode: nat, is32: bool, a: nat, b: nat): nat
    requires b < TWO64
  {
    if is32 then
      (if opcode == 0 then DivwEmu(a, b) else if opcode == 1 then DivuwEmu(a, b)
       else if opcode == 2 then RemwEmu(a, b) else RemuwEmu(a, b))
    else
      (if opcode == 0 then DivEmu(a, b) else if opcode == 1 then DivuEmu(a, b)
       else if opcode == 2 then RemEmu(a, b) else RemuEmu(a, b))
  }

  /** The emulator's result for a multiplier opcode: MUL 0, MULH 1, MULHSU 2, MULHU 3, or MULW. */
  function MultiplyEmu(opcode: nat, is32: bool, a: nat, b: nat): nat {
    if is32 then MulwEmu(a, b)
    else if opcode == 0 then MulEmu(a, b) else if opcode == 1 then MulhEmu(a, b)
    else if opcode == 2 then MulhsuEmu(a, b) else MulhuEmu(a, b)
  }

  // The lemmas below take the width as a variable, so that 2^64 is looked up and not unfolded.

  lemma Wrap64(w: nat, x: int)
    requires w == 64
    ensures Wrap(x, w) == x % TWO64 && Pow2(w) == TWO64
  {
    Pow2Values();
  }

  lemma Signed64(w: nat, x: nat)
    requires w == 64 && x < TWO64
    ensures Signed(x, w) == ToS64(x)
  {
    Pow2Values();
  }

  /** Sign-extending a word keeps its value. */
  lemma SignedSext32(x: nat)
    ensures ToS64(Sext32(x)) == ToS32(x) && (Sext32(x) == 0 <==> x % TWO32 == 0) && (ToS32(x) == 0 <==> x % TWO32 == 0)
    ensures Sext32(Sext32(x)) == Sext32(x) && Sext32(x % TWO32) == Sext32(x)
  {
  }

  /** The section 7.2 results at width 64 are those of the emulator, with its special cases. */
  lemma Div64(w: nat, a: nat, b: nat)
    requires w == 64 && a < TWO64 && b < TWO64
    ensures b < Pow2(w)
    ensures Divider.Div(w, true, a, b) == DivEmu(a, b) && Divider.Div(w, false, a, b) == DivuEmu(a, b)
    ensures Divider.Rem(w, true, a, b) == RemEmu(a, b) && Divider.Rem(w, false, a, b) == RemuEmu(a, b)
  {
    Wrap64(w, 0);
    Signed64(w, a);
    Signed64(w, b);
    if b != 0 {
      var x, y := ToS64(a), ToS64(b);
      Wrap64(w, TruncDiv(x, y));
      Wrap64(w, TruncRem(x, y));
    }
  }

  /** The word forms: 64-bit division of the extended operands, cut back to 32 bits. */
  lemma SignedWords(a: nat, b: nat)
    requires a < TWO64 && b < TWO64
    ensures Sext32(DivEmu(Sext32(a), Sext32(b))) == DivwEmu(a, b)
    ensures Sext32(RemEmu(Sext32(a), Sext32(b))) == RemwEmu(a, b)
  {
    SignedSext32(a);
    SignedSext32(b);
  }

  lemma UnsignedWords(a: nat, b: nat)
    requires a < TWO64 && b < TWO64
    ensures Sext32(DivuEmu(a % TWO32, b % TWO32)) == DivuwEmu(a, b)
    ensures Sext32(RemuEmu(a % TWO32, b % TWO32)) == RemuwEmu(a, b)
  {
  }

  lemma Words(opcode: nat, a: nat, b: nat)
    requires opcode < 4 && a < TWO64 && b < TWO64
    ensures var signed := opcode % 2 == 0;
            var a', b' := if signed then Sext32(a) else a % TWO32, if signed then Sext32(b) else b % TWO32;
            Sext32(DivideEmu(opcode, false, a', b')) == DivideEmu(opcode, true, a, b)
  {
    if opcode % 2 == 0 {
      SignedWords(a, b);
    } else {
      UnsignedWords(a, b);
    }
  }

  lemma Operand64(w: nat, i: Divider.Input, x: nat)
    requires w == 64 && x < TWO64
    ensures Divider.Operand(w, i, x) ==
            if !i.is32 then x else if i.opcode % 2 == 0 then Sext32(x) else x % TWO32
    ensures Divider.Operand(w, i, x) < TWO64
  {
    Wrap64(w, Sext32(x));
    Wrap64(w, x % TWO32);
  }

  lemma Result64(w: nat, i: Divider.Input, a: nat, b: nat)
    requires w == 64 && i.opcode < 4 && a < TWO64 && b < TWO64
    ensures b < Pow2(w) && Divider.Result(w, i, a, b) == DivideEmu(i.opcode, false, a, b)
  {
    Div64(w, a, b);
    var signed, rem := Divider.SignedOp(i), Divider.RemOp(i);
    assert signed == (i.opcode == 0 || i.opcode == 2) && rem == (i.opcode >= 2);
    SelectResult(w, i, signed, rem, a, b);
  }

  lemma SelectResult(w: nat, i: Divider.Input, signed: bool, rem: bool, a: nat, b: nat)
    requires w > 0 && b < Pow2(w) && signed == Divider.SignedOp(i) && rem == Divider.RemOp(i)
    ensures Divider.Result(w, i, a, b) == if rem then Divider.Rem(w, signed, a, b) else Divider.Div(w, signed, a, b)
  {
  }

  lemma ResultMatches(w: nat, i: Divider.Input)
    requires w == 64 && i.opcode < 4 && i.a < Pow2(w) && i.b < Pow2(w)
    ensures Divider.Operand(w, i, i.b) < Pow2(w) && i.b < TWO64
    ensures var r := Divider.Result(w, i, Divider.Operand(w, i, i.a), Divider.Operand(w, i, i.b));
            (if i.is32 then Wrap(Sext32(r), w) else r) == DivideEmu(i.opcode, i.is32, i.a, i.b)
  {
    Wrap64(w, 0);
    Operand64(w, i, i.a);
    Operand64(w, i, i.b);
    var a, b := Divider.Operand(w, i, i.a), Divider.Operand(w, i, i.b);
    Result64(w, i, a, b);
    if i.is32 {
      Words(i.opcode, i.a, i.b);
      Wrap64(w, Sext32(DivideEmu(i.opcode, false, a, b)));
    }
  }

  /** The divider, requested when idle, shows after 65 stalled cycles the emulator's result. */
  lemma DividerMatchesEmulator(s: Divider.State, ins: seq<Divider.Input>)
    requires Divider.Request(64, s, ins) && |ins| == 66 && ins[65].is32 == ins[0].is32 && ins[0].opcode < 4
    ensures ins[0].b < TWO64
    ensures forall k :: 0 <= k <= 64 ==> Divider.Stall(64, Divider.Run(64, s, ins[..k]), ins[k])
    ensures !Divider.Stall(64, Divider.Run(64, s, ins[..65]), ins[65])
    ensures var i := ins[0];
            Divider.Output(64, Divider.Run(64, s, ins[..65]), ins[65]) == DivideEmu(i.opcode, i.is32, i.a, i.b)
  {
    Divider.DividesIn(64, s, ins);
    ResultMatches(64, ins[0]);
  }

  // ---------------------------------------------------------------- multiplication

  lemma LowHalf(a: nat, b: nat)
    requires a < TWO64 && b < TWO64
    ensures ToS64(a) * ToS64(b) % TWO64 == MulEmu(a, b)
  {
    assert ToS64(a) % TWO64 == a && ToS64(b) % TWO64 == b;
    ModMul(ToS64(a), ToS64(b), TWO64);
  }

  lemma WordProduct(a: nat, b: nat)
    ensures Sext32(MulEmu(a, b)) == MulwEmu(a, b)
  {
    LowWord(a, b, a * b);
    SextOfLow(a * b % TWO64, a % TWO32 * (b % TWO32));
  }

  lemma LowWord(a: nat, b: nat, p: nat)
    requires p == a * b
    ensures p % TWO64 % TWO32 == a % TWO32 * (b % TWO32) % TWO32
  {
    ModMul(a, b, TWO32);
    ModMod(p, TWO32, TWO32);
    assert TWO32 * TWO32 == TWO64;
  }

  lemma SextOfLow(x: nat, y: nat)
    requires x % TWO32 == y % TWO32
    ensures Sext32(x) == Sext32(y % TWO32)
  {
  }

  lemma SignedUnsignedHigh(a: nat, b: nat)
    requires a < TWO64 && b < TWO64
    ensures MulhsuEmu(a, b) == ToS64(a) * b / TWO64 % TWO64
  {
    var m := TWO64 * TWO64;
    ModMul(ToS64(a), b, m);
    DivModUnique(b, m, 0, b);
    HighHalf(ToS64(a) * b, TWO64);
  }

  lemma UnsignedHigh(a: nat, b: nat)
    requires a < TWO64 && b < TWO64
    ensures MulhuEmu(a, b) == a * b / TWO64 % TWO64
  {
    HighHalf(a * b, TWO64);
  }

  /** The selected half of the product of the extended operands. */
  lemma ProductMatches(w: nat, i: Multiplier.Input)
    requires w == 64 && i.opcode < 4 && (i.is32 ==> i.opcode == 0) && i.a < TWO64 && i.b < TWO64
    ensures var p := Multiplier.ExtendA(w, i) * Multiplier.ExtendB(w, i);
            var raw := if i.opcode == 0 then Wrap(p, w) else Wrap(p / Pow2(w), w);
            raw == MultiplyEmu(i.opcode, false, i.a, i.b)
            && (i.is32 ==> Wrap(Sext32(raw), w) == MultiplyEmu(0, true, i.a, i.b))
  {
    var a, b := i.a, i.b;
    Signed64(w, a);
    Signed64(w, b);
    var p := Multiplier.ExtendA(w, i) * Multiplier.ExtendB(w, i);
    Wrap64(w, p);
    Wrap64(w, p / TWO64);
    if i.opcode == 0 {
      LowHalf(a, b);
      WordProduct(a, b);
      Wrap64(w, Sext32(MulEmu(a, b)));
    } else if i.opcode == 2 {
      SignedUnsignedHigh(a, b);
    } else if i.opcode == 3 {
      UnsignedHigh(a, b);
    }
  }

  /** The multiplier, requested when idle, shows after two stalled cycles the emulator's result. */
  lemma MultiplierMatchesEmulator(s: Multiplier.State, i0: Multiplier.Input, i1: Multiplier.Input, i2: Multiplier.Input)
    requires Multiplier.Handshake(s) && !s.running && i0.req && !i0.reset && !i1.reset
    requires i2.opcode == i0.opcode && i2.is32 == i0.is32
    requires i0.opcode < 4 && (i0.is32 ==> i0.opcode == 0) && i0.a < TWO64 && i0.b < TWO64
    ensures var s1 := Multiplier.Clock(64, s, i0);
            var s2 := Multiplier.Clock(64, s1, i1);
            && Multiplier.Stall(s, i0) && Multiplier.Stall(s1, i1) && !Multiplier.Stall(s2, i2)
            && Multiplier.Output(64, s2, i2) == MultiplyEmu(i0.opcode, i0.is32, i0.a, i0.b)
  {
    Multiplier.MultipliesInTwo(64, s, i0, i1, i2);
    ProductMatches(64, i0);
  }
}
