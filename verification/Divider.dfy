/** The multi-cycle divider of hardware/rtl/cpu/divider.sv, for every width: restoring division on magnitudes, one
    quotient bit per clock, with sign repair on the result. */
module Divider {
  import opened Arith

  /** The inputs of one clock cycle. `reset` is the complement of rst_n. */
  datatype Input = Input(reset: bool, req: bool, flush: bool, opcode: nat, is32: bool, a: nat, b: nat)

  /** The registers. */
  datatype State = State(running: bool, dividend: nat, divisor: nat, quotient: nat, iterations: nat,
                         isRem: bool, negateQuotient: bool, negateRemainder: bool)

  // ---------------------------------------------------------------- combinational logic

  /** opcode[0] = 0 selects DIV and REM, opcode[1] = 1 selects the remainder. */
  predicate SignedOp(i: Input) {
    i.opcode % 2 == 0
  }

  predicate RemOp(i: Input) {
    i.opcode / 2 % 2 == 1
  }

  /** a_post and b_post. */
  function Operand(w: nat, i: Input, x: nat): nat {
    if !i.is32 then x else if SignedOp(i) then Wrap(Sext32(x), w) else Wrap(x % TWO32, w)
  }

  /** ~x + 1. */
  function Negate(w: nat, x: nat): nat {
    Wrap(0 - x, w)
  }

  predicate SignBit(w: nat, x: nat)
    requires w > 0
  {
    x >= Pow2(w - 1)
  }

  function Magnitude(w: nat, i: Input, x: nat): nat
    requires w > 0
  {
    var p := Operand(w, i, x);
    if SignedOp(i) && SignBit(w, p) then Negate(w, p) else p
  }

  /** sub_result, on 2w bits. */
  function SubResult(w: nat, s: State): nat
    requires w > 0
  {
    Wrap(s.dividend - s.divisor * Pow2(w - 1) / Pow2(s.iterations), 2 * w)
  }

  /** The sign bit of sub_result is clear. */
  predicate Fits(w: nat, s: State)
    requires w > 0
  {
    SubResult(w, s) < Pow2(2 * w - 1)
  }

  predicate NewReq(s: State, i: Input) {
    i.req && !s.running
  }

  predicate Stall(w: nat, s: State, i: Input) {
    NewReq(s, i) || (s.running && s.iterations != w)
  }

  /** The output o. */
  function Output(w: nat, s: State, i: Input): nat {
    var q := if s.negateQuotient then Negate(w, s.quotient) else s.quotient;
    var r := if s.negateRemainder then Negate(w, s.dividend) else s.dividend;
    var raw := if s.isRem then r else q;
    if i.is32 then Wrap(Sext32(raw), w) else raw
  }

  // ---------------------------------------------------------------- the clock

  /** The number of values the iteration counter holds: it has $clog2(w + 1) + 1 bits. */
  function CounterModulus(w: nat): (m: nat)
    ensures m > w + 1
  {
    2 * NextPow2(w + 1)
  }

  function NextPow2(n: nat): (p: nat)
    requires n > 0
    ensures p >= n
  {
    if n == 1 then 1 else 2 * NextPow2((n + 1) / 2)
  }

  function Clock(w: nat, s: State, i: Input): State
    requires w > 0
  {
    var start := NewReq(s, i);
    var a, b := Operand(w, i, i.a), Operand(w, i, i.b);
    State(
      if i.reset || i.flush then false else if start then true else if s.iterations == w then false else s.running,
      if start then Magnitude(w, i, i.a) else if Fits(w, s) then Wrap(SubResult(w, s), w) else s.dividend,
      if start then Magnitude(w, i, i.b) else s.divisor,
      if i.reset || i.flush || start then 0
      else if s.running then Wrap(2 * s.quotient, w) + (if Fits(w, s) then 1 else 0) else s.quotient,
      if i.reset || i.flush || start then 0
      else if s.running then (s.iterations + 1) % CounterModulus(w) else s.iterations,
      if start then RemOp(i) else s.isRem,
      if start then SignedOp(i) && SignBit(w, a) != SignBit(w, b) && b != 0 else s.negateQuotient,
      if start then SignedOp(i) && SignBit(w, a) else s.negateRemainder)
  }

  function Run(w: nat, s: State, ins: seq<Input>): State
    requires w > 0
  {
    if ins == [] then s else Clock(w, Run(w, s, ins[..|ins| - 1]), ins[|ins| - 1])
  }

  /** The module as an object: its always blocks, run once per rising clock edge, assign the next register values
      from the present ones. */
  class Unit {
    const width: nat
    var regs: State

    constructor (w: nat, powerUp: State)
      ensures width == w && regs == powerUp
    {
      width, regs := w, powerUp;
    }

    method Posedge(i: Input)
      requires width > 0
      modifies this
      ensures regs == Clock(width, old(regs), i)
    {
      var w, s, next := width, regs, regs;
      var start := i.req && !s.running;
      var done := s.iterations == w;
      var sub := SubResult(w, s);
      var fits := sub < Pow2(2 * w - 1);
      var a, b := Operand(w, i, i.a), Operand(w, i, i.b);
      if start {
        next := next.(divisor := if SignedOp(i) && SignBit(w, b) then Negate(w, b) else b,
                      negateQuotient := SignedOp(i) && SignBit(w, a) != SignBit(w, b) && b != 0,
                      negateRemainder := SignedOp(i) && SignBit(w, a),
                      isRem := RemOp(i));
      }
      if start {
        next := next.(dividend := if SignedOp(i) && SignBit(w, a) then Negate(w, a) else a);
      } else if fits {
        next := next.(dividend := Wrap(sub, w));
      }
      if i.reset || i.flush || start {
        next := next.(quotient := 0, iterations := 0);
      } else if s.running {
        next := next.(quotient := Wrap(2 * s.quotient, w) + (if fits then 1 else 0),
                      iterations := (s.iterations + 1) % CounterModulus(w));
      }
      if i.reset || i.flush {
        next := next.(running := false);
      } else if start {
        next := next.(running := true);
      } else if done {
        next := next.(running := false);
      }
      regs := next;
    }
  }

  // ---------------------------------------------------------------- specification

  /** Section 7.2 of the RISC-V Unprivileged ISA: division by zero gives all ones and the dividend; the overflowing
      quotient wraps to itself. */
  function Div(w: nat, signed: bool, a: nat, b: nat): nat
    requires w > 0 && b < Pow2(w)
  {
    if b == 0 then Pow2(w) - 1
    else if signed then Wrap(TruncDiv(Signed(a, w), Signed(b, w)), w)
    else a / b
  }

  function Rem(w: nat, signed: bool, a: nat, b: nat): nat
    requires w > 0 && b < Pow2(w)
  {
    if b == 0 then a
    else if signed then Wrap(TruncRem(Signed(a, w), Signed(b, w)), w)
    else a % b
  }

  function Result(w: nat, i: Input, a: nat, b: nat): nat
    requires w > 0 && b < Pow2(w)
  {
    if RemOp(i) then Rem(w, SignedOp(i), a, b) else Div(w, SignedOp(i), a, b)
  }

  // ---------------------------------------------------------------- the loop invariant

  /** After k quotient bits: |a| = Q * |b| * 2^(w-k) + R with R < |b| * 2^(w-k), or all ones when b = 0. */
  predicate Partial(w: nat, k: nat, a: nat, b: nat, q: nat, r: nat)
    requires k <= w
  {
    && q < Pow2(k) && r <= a
    && (b == 0 ==> q == Pow2(k) - 1 && r == a)
    && (b != 0 ==> a == q * (b * Pow2(w - k)) + r && r < b * Pow2(w - k))
  }

  lemma ShiftedDivisor(w: nat, k: nat, d: nat)
    requires k < w && d < Pow2(w)
    ensures d * Pow2(w - 1) / Pow2(k) == d * Pow2(w - 1 - k)
    ensures d * Pow2(w - 1 - k) < Pow2(2 * w - 1)
  {
    Pow2Add(w - 1 - k, k);
    var p, t := Pow2(w - 1 - k), Pow2(k);
    assert d * Pow2(w - 1) == (d * p) * t;
    DivModUnique(d * Pow2(w - 1), t, d * p, 0);
    Pow2Add(w, w - 1);
    Pow2Mono(w - 1 - k, w - 1);
    MulMono(d, Pow2(w), p, Pow2(w - 1));
  }

  lemma MulMono(a: nat, b: nat, c: nat, d: nat)
    requires a < b && c <= d && d > 0
    ensures a * c < b * d
  {
    assert a * c <= a * d;
    assert a * d < b * d;
  }

  /** The sign bit of the 2w-bit difference tells whether the divisor fits. */
  lemma FitsTest(w: nat, s: State)
    requires s.iterations < w && s.dividend < Pow2(w) && s.divisor < Pow2(w)
    ensures var t := s.divisor * Pow2(w - 1 - s.iterations);
            && Fits(w, s) == (s.dividend >= t)
            && (Fits(w, s) ==> Wrap(SubResult(w, s), w) == s.dividend - t)
  {
    ShiftedDivisor(w, s.iterations, s.divisor);
    Difference(w, s.dividend, s.divisor * Pow2(w - 1 - s.iterations));
  }

  lemma Difference(w: nat, x: nat, t: nat)
    requires w > 0 && x < Pow2(w) && t < Pow2(2 * w - 1)
    ensures Wrap(x - t, 2 * w) < Pow2(2 * w - 1) <==> x >= t
    ensures x >= t ==> Wrap(Wrap(x - t, 2 * w), w) == x - t
  {
    Pow2Mono(w, 2 * w - 1);
    assert Pow2(2 * w) == 2 * Pow2(2 * w - 1);
    if x >= t {
      WrapUnique(x - t, 2 * w, 0, x - t);
      WrapUnique(x - t, w, 0, x - t);
    } else {
      WrapUnique(x - t, 2 * w, -1, x - t + Pow2(2 * w));
    }
  }

  lemma Doubling(q: nat, b: nat, p: nat)
    ensures var t := b * p; b * (2 * p) == 2 * t && q * (2 * t) == (2 * q) * t && (2 * q + 1) * t == (2 * q) * t + t
  {
  }

  lemma PartialStep(w: nat, k: nat, a: nat, b: nat, q: nat, r: nat)
    requires k < w && a < Pow2(w) && Partial(w, k, a, b, q, r)
    ensures var t := b * Pow2(w - 1 - k);
            Partial(w, k + 1, a, b, 2 * q + (if r >= t then 1 else 0), if r >= t then r - t else r)
  {
    var p := Pow2(w - 1 - k);
    assert Pow2(w - k) == 2 * p && Pow2(k + 1) == 2 * Pow2(k);
    Doubling(q, b, p);
    if b == 0 {
      assert b * p == 0;
    }
  }

  // ---------------------------------------------------------------- a whole division

  /** The cycles of one request: a request to an idle unit, then no reset and no flush. What the other inputs do
      while the unit runs does not matter, except that is_32bit selects the output. */
  ghost predicate Request(w: nat, s: State, ins: seq<Input>) {
    && 0 < |ins| <= w + 2 && !s.running && ins[0].req
    && ins[0].a < Pow2(w) && ins[0].b < Pow2(w)
    && (forall k :: 0 <= k < |ins| ==> !ins[k].reset && !ins[k].flush)
  }

  /** In cycle k + 1 the unit runs and holds k quotient bits. */
  ghost predicate Busy(w: nat, k: nat, i: Input, s: State)
    requires w > 0 && k <= w
  {
    var a, b := Operand(w, i, i.a), Operand(w, i, i.b);
    && s.running && s.iterations == k && s.isRem == RemOp(i)
    && s.divisor == Magnitude(w, i, i.b) && s.divisor < Pow2(w)
    && s.negateQuotient == (SignedOp(i) && SignBit(w, a) != SignBit(w, b) && b != 0)
    && s.negateRemainder == (SignedOp(i) && SignBit(w, a))
    && Partial(w, k, Magnitude(w, i, i.a), s.divisor, s.quotient, s.dividend)
  }

  lemma OperandRange(w: nat, i: Input, x: nat)
    requires w > 0 && x < Pow2(w)
    ensures Operand(w, i, x) < Pow2(w) && Magnitude(w, i, x) < Pow2(w)
  {
  }

  /** One clock of a running unit that is not done. */
  lemma ClockWhileBusy(w: nat, s: State, now: Input)
    requires w > 0 && s.running && s.iterations < w && !now.reset && !now.flush
    requires s.dividend < Pow2(w) && s.divisor < Pow2(w) && s.quotient < Pow2(w - 1)
    ensures var t := s.divisor * Pow2(w - 1 - s.iterations);
            Clock(w, s, now) == s.(
              iterations := s.iterations + 1,
              quotient := 2 * s.quotient + (if s.dividend >= t then 1 else 0),
              dividend := if s.dividend >= t then s.dividend - t else s.dividend)
  {
    FitsTest(w, s);
    assert Pow2(w) == 2 * Pow2(w - 1);
    WrapUnique(2 * s.quotient, w, 0, 2 * s.quotient);
    DivModUnique(s.iterations + 1, CounterModulus(w), 0, s.iterations + 1);
  }

  lemma BusyStep(w: nat, k: nat, i: Input, s: State, now: Input)
    requires w > 0 && k < w && Busy(w, k, i, s) && !now.reset && !now.flush && i.a < Pow2(w)
    ensures Busy(w, k + 1, i, Clock(w, s, now))
  {
    OperandRange(w, i, i.a);
    Pow2Mono(k, w - 1);
    ClockWhileBusy(w, s, now);
    BusyNext(w, k, i, s, Clock(w, s, now));
  }

  lemma BusyNext(w: nat, k: nat, i: Input, s: State, s': State)
    requires w > 0 && k < w && Busy(w, k, i, s) && Magnitude(w, i, i.a) < Pow2(w)
    requires var t := s.divisor * Pow2(w - 1 - k);
             s' == s.(iterations := k + 1,
                      quotient := 2 * s.quotient + (if s.dividend >= t then 1 else 0),
                      dividend := if s.dividend >= t then s.dividend - t else s.dividend)
    ensures Busy(w, k + 1, i, s')
  {
    PartialStep(w, k, Magnitude(w, i, i.a), s.divisor, s.quotient, s.dividend);
  }

  /** The clock that accepts a request. */
  lemma BusyStart(w: nat, s: State, i: Input)
    requires w > 0 && !s.running && i.req && !i.reset && !i.flush && i.a < Pow2(w) && i.b < Pow2(w)
    ensures Busy(w, 0, i, Clock(w, s, i))
  {
    OperandRange(w, i, i.a);
    OperandRange(w, i, i.b);
    var a, b := Magnitude(w, i, i.a), Magnitude(w, i, i.b);
    PartialStart(w, a, b);
  }

  lemma PartialStart(w: nat, a: nat, b: nat)
    requires a < Pow2(w)
    ensures Partial(w, 0, a, b, 0, a)
  {
    MulBound(b, Pow2(w));
    assert Pow2(0) == 1 && 0 * (b * Pow2(w)) == 0;
  }

  lemma {:induction false} BusyRun(w: nat, s: State, ins: seq<Input>)
    requires w > 0 && Request(w, s, ins) && |ins| <= w + 1
    ensures Busy(w, |ins| - 1, ins[0], Run(w, s, ins))
  {
    var before := ins[..|ins| - 1];
    if |ins| == 1 {
      assert before == [];
      BusyStart(w, s, ins[0]);
    } else {
      BusyRun(w, s, before);
      BusyStep(w, |ins| - 2, ins[0], Run(w, s, before), ins[|ins| - 1]);
    }
  }

  /** The magnitude that enters the loop is the absolute value of the operand. */
  lemma MagnitudeIsAbs(w: nat, i: Input, x: nat)
    requires w > 0 && x < Pow2(w) && SignedOp(i)
    ensures var p := Operand(w, i, x);
            Magnitude(w, i, x) == Abs(Signed(p, w)) && (SignBit(w, p) <==> Signed(p, w) < 0)
                && (p == 0 <==> Signed(p, w) == 0)
  {
    var p := Operand(w, i, x);
    OperandRange(w, i, x);
    if SignBit(w, p) {
      WrapUnique(-(p as int), w, -1, Pow2(w) - p);
    }
  }

  /** When the counter reaches the width, quotient and remainder are those of the specification. */
  lemma BusyDone(w: nat, i: Input, s: State, now: Input)
    requires w > 0 && Busy(w, w, i, s) && i.a < Pow2(w) && i.b < Pow2(w) && now.is32 == i.is32
    ensures Operand(w, i, i.b) < Pow2(w)
    ensures var r := Result(w, i, Operand(w, i, i.a), Operand(w, i, i.b));
            Output(w, s, now) == if i.is32 then Wrap(Sext32(r), w) else r
  {
    var a, b := Operand(w, i, i.a), Operand(w, i, i.b);
    var ma, mb := Magnitude(w, i, i.a), Magnitude(w, i, i.b);
    OperandRange(w, i, i.a);
    OperandRange(w, i, i.b);
    assert Pow2(0) == 1;
    if mb != 0 {
      assert mb * Pow2(w - w) == mb;
      DivModUnique(ma, mb, s.quotient, s.dividend);
    }
    if SignedOp(i) {
      MagnitudeIsAbs(w, i, i.a);
      MagnitudeIsAbs(w, i, i.b);
      SignedResult(w, a, b, ma, mb, s.quotient, s.dividend);
    }
  }

  /** Sign repair: the signed quotient and remainder from those of the magnitudes. */
  lemma SignedResult(w: nat, a: nat, b: nat, ma: nat, mb: nat, q: nat, r: nat)
    requires w > 0 && a < Pow2(w) && b < Pow2(w)
    requires ma == Abs(Signed(a, w)) && mb == Abs(Signed(b, w)) && (b == 0 <==> mb == 0)
    requires q < Pow2(w) && r <= ma
    requires if mb == 0 then q == Pow2(w) - 1 && r == ma else q == ma / mb && r == ma % mb
    ensures Div(w, true, a, b) == if SignBit(w, a) != SignBit(w, b) && b != 0 then Negate(w, q) else q
    ensures Rem(w, true, a, b) == if SignBit(w, a) then Negate(w, r) else r
  {
    assert ma < Pow2(w);
    WrapUnique(q, w, 0, q);
    WrapUnique(r, w, 0, r);
    if b == 0 && SignBit(w, a) {
      WrapUnique(0 - r, w, -1, a);
    }
  }

  /** For every width, operand pair and opcode: a request to an idle unit stalls for exactly w + 1 cycles, and in
      the next one the output is the architectural result. */
  lemma DividesIn(w: nat, s: State, ins: seq<Input>)
    requires w > 0 && Request(w, s, ins) && |ins| == w + 2 && ins[w + 1].is32 == ins[0].is32
    ensures forall k :: 0 <= k <= w ==> Stall(w, Run(w, s, ins[..k]), ins[k])
    ensures !Stall(w, Run(w, s, ins[..w + 1]), ins[w + 1])
    ensures var i := ins[0];
            && Operand(w, i, i.b) < Pow2(w)
            && var r := Result(w, i, Operand(w, i, i.a), Operand(w, i, i.b));
               Output(w, Run(w, s, ins[..w + 1]), ins[w + 1]) == if i.is32 then Wrap(Sext32(r), w) else r
    ensures !Run(w, s, ins).running
  {
    var i := ins[0];
    forall k | 0 <= k <= w
      ensures Stall(w, Run(w, s, ins[..k]), ins[k])
    {
      if k > 0 {
        BusyRun(w, s, ins[..k]);
      }
    }
    BusyRun(w, s, ins[..w + 1]);
    assert ins[..w + 1][0] == i;
    BusyDone(w, i, Run(w, s, ins[..w + 1]), ins[w + 1]);
    assert ins[..|ins| - 1] == ins[..w + 1];
  }

  /** The same input for n cycles. */
  function Held(i: Input, n: nat): (ins: seq<Input>)
    ensures |ins| == n && forall k :: 0 <= k < n ==> ins[k] == i
  {
    seq(n, _ => i)
  }

  /** Inputs held stable from an idle state: the unit works in periods of w + 2 cycles. Cycle j of each period stalls
      unless j = w + 1, where the result shows; so a result not consumed at once shows again w + 2 cycles later. */
  lemma {:induction false} HeldRequestRepeats(w: nat, s: State, i: Input, n: nat, j: nat)
    requires w > 0 && !s.running && i.req && !i.reset && !i.flush && i.a < Pow2(w) && i.b < Pow2(w) && j < w + 2
    ensures Operand(w, i, i.b) < Pow2(w)
    ensures var now := Run(w, s, Held(i, n * (w + 2) + j));
            && (Stall(w, now, i) <==> j != w + 1)
            && (j == w + 1 ==>
                  var r := Result(w, i, Operand(w, i, i.a), Operand(w, i, i.b));
                  Output(w, now, i) == if i.is32 then Wrap(Sext32(r), w) else r)
    decreases n
  {
    if n > 0 {
      var rest := (n - 1) * (w + 2) + j;
      OneMore(n, w + 2);
      FirstPeriod(w, s, i, 0);
      HeldRequestRepeats(w, Run(w, s, Held(i, w + 2)), i, n - 1, j);
      RunConcat(w, s, i, w + 2, rest);
    } else {
      FirstPeriod(w, s, i, j);
      assert n * (w + 2) + j == j;
    }
  }

  lemma OneMore(n: nat, p: nat)
    requires n > 0
    ensures n * p == p + (n - 1) * p
  {
  }

  lemma FirstPeriod(w: nat, s: State, i: Input, t: nat)
    requires w > 0 && !s.running && i.req && !i.reset && !i.flush && i.a < Pow2(w) && i.b < Pow2(w) && t < w + 2
    ensures Operand(w, i, i.b) < Pow2(w)
    ensures var now := Run(w, s, Held(i, t));
            && (Stall(w, now, i) <==> t != w + 1)
            && (t == w + 1 ==>
                  var r := Result(w, i, Operand(w, i, i.a), Operand(w, i, i.b));
                  Output(w, now, i) == if i.is32 then Wrap(Sext32(r), w) else r)
    ensures !Run(w, s, Held(i, w + 2)).running
  {
    var ins := Held(i, w + 2);
    HeldPrefix(i, t, w + 2);
    HeldPrefix(i, w + 1, w + 2);
    assert ins[t] == i && ins[w + 1] == i && ins[0] == i;
    DividesIn(w, s, ins);
  }

  lemma HeldPrefix(i: Input, k: nat, n: nat)
    requires k <= n
    ensures Held(i, n)[..k] == Held(i, k)
  {
  }

  lemma {:induction false} RunConcat(w: nat, s: State, i: Input, m: nat, n: nat)
    requires w > 0
    ensures Run(w, s, Held(i, m + n)) == Run(w, Run(w, s, Held(i, m)), Held(i, n))
  {
    if n > 0 {
      RunConcat(w, s, i, m, n - 1);
      assert Held(i, m + n)[..m + n - 1] == Held(i, m + n - 1);
      assert Held(i, n)[..n - 1] == Held(i, n - 1);
    } else {
      assert Held(i, m + n) == Held(i, m);
    }
  }
}
