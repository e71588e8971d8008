/** The pipelined multiplier of hardware/rtl/cpu/multiplier.sv, for every width. */
module Multiplier {
  import opened Arith

  datatype Input = Input(reset: bool, req: bool, opcode: nat, is32: bool, a: nat, b: nat)

  /** Pipeline registers; the signed registers hold their value, which never overflows their width. */
  datatype State = State(running: bool, valid0: bool, valid1: bool, a0: int, b0: int, product: int)

  /** a is unsigned for MULHU (3), b for MULHSU (2) and MULHU. */
  function ExtendA(w: nat, i: Input): int
    requires w > 0
  {
    if i.opcode == 3 then i.a else Signed(i.a, w)
  }

  function ExtendB(w: nat, i: Input): int
    requires w > 0
  {
    if i.opcode >= 2 then i.b else Signed(i.b, w)
  }

  predicate NewReq(s: State, i: Input) {
    i.req && !s.running
  }

  predicate Stall(s: State, i: Input) {
    NewReq(s, i) || (s.running && !s.valid1)
  }

  /** Low half for MUL (0), high half for the others. */
  function Output(w: nat, s: State, i: Input): nat {
    var raw := if i.opcode == 0 then Wrap(s.product, w) else Wrap(s.product / Pow2(w), w);
    if i.is32 then Wrap(Sext32(raw), w) else raw
  }

  function Clock(w: nat, s: State, i: Input): State
    requires w > 0
  {
    State(if i.reset then false else if NewReq(s, i) then true else if s.valid1 then false else s.running,
          !i.reset && NewReq(s, i),
          !i.reset && s.valid0,
          ExtendA(w, i), ExtendB(w, i), s.a0 * s.b0)
  }

  /** The module as an object, clocked once per call. */
  class Unit {
    const width: nat
    var regs: State

    constructor (w: nat, powerUp: State)
      ensures width == w && regs == powerUp
    {
      width, regs := w, powerUp;
    }

    method Posedge(i: Input)
      requires width > 0
      modifies this
      ensures regs == Clock(width, old(regs), i)
    {
      var s, next := regs, regs;
      var start := !s.running && i.req;
      next := next.(a0 := if i.opcode == 3 then i.a else Signed(i.a, width));
      next := next.(b0 := if i.opcode >= 2 then i.b else Signed(i.b, width));
      next := next.(product := s.a0 * s.b0);
      if i.reset {
        next := next.(valid0 := false, valid1 := false);
      } else {
        next := next.(valid0 := start, valid1 := s.valid0);
      }
      if i.reset {
        next := next.(running := false);
      } else if start {
        next := next.(running := true);
      } else if s.valid1 {
        next := next.(running := false);
      }
      regs := next;
    }
  }

  function Run(w: nat, s: State, ins: seq<Input>): State
    requires w > 0
  {
    if ins == [] then s else Clock(w, Run(w, s, ins[..|ins| - 1]), ins[|ins| - 1])
  }

  /** The handshake of every state reached from reset: idle, first stage, or second stage. */
  predicate Handshake(s: State) {
    if s.running then s.valid0 != s.valid1 else !s.valid0 && !s.valid1
  }

  lemma {:induction false} HandshakeHolds(w: nat, s: State, ins: seq<Input>)
    requires w > 0 && ins != [] && ins[0].reset
    ensures Handshake(Run(w, s, ins))
  {
    if |ins| > 1 {
      HandshakeHolds(w, s, ins[..|ins| - 1]);
    } else {
      assert ins[..0] == [];
    }
  }

  /** A request to an idle unit stalls for two cycles and then shows the product of the operands of its first
      cycle, selected by the opcode that is held. */
  lemma MultipliesInTwo(w: nat, s: State, i0: Input, i1: Input, i2: Input)
    requires w > 0 && Handshake(s) && !s.running && i0.req && !i0.reset && !i1.reset
    requires i2.opcode == i0.opcode && i2.is32 == i0.is32
    ensures Stall(s, i0) && Stall(Clock(w, s, i0), i1) && !Stall(Clock(w, Clock(w, s, i0), i1), i2)
    ensures var p := ExtendA(w, i0) * ExtendB(w, i0);
            var raw := if i0.opcode == 0 then Wrap(p, w) else Wrap(p / Pow2(w), w);
            Output(w, Clock(w, Clock(w, s, i0), i1), i2) == if i0.is32 then Wrap(Sext32(raw), w) else raw
    ensures !i2.reset ==> !Clock(w, Clock(w, Clock(w, s, i0), i1), i2).running
  {
  }
}
