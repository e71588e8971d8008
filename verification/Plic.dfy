/** The platform-level interrupt controller of emulator/src/device/plic.c, for any number of sources that fits one
    register word: gateways, claim selection, claim and completion, after the RISC-V PLIC Specification 1.0.0. */
module Plic {
  import opened Riscv
  import Arith

  const CONTEXTS: nat := 2
  const WORD: nat := 32

  /** plic_t. Words are sequences of bits; source i is bit i. */
  datatype State = State(priority: seq<nat>, pending: seq<bool>, enable: seq<seq<bool>>, threshold: seq<nat>,
                         busy: seq<bool>)

  /** n sources, source 0 included. */
  predicate Shape(n: nat, s: State) {
    && 0 < n <= WORD
    && |s.priority| == n && |s.busy| == n && |s.pending| == WORD
    && |s.enable| == CONTEXTS && |s.threshold| == CONTEXTS
    && (forall c :: 0 <= c < CONTEXTS ==> |s.enable[c]| == WORD)
  }

  /** Source 0 does not exist. */
  predicate NoSource0(s: State)
    requires |s.priority| > 0 && |s.busy| > 0 && |s.pending| > 0 && forall c :: 0 <= c < |s.enable| ==>
        |s.enable[c]| > 0
  {
    s.priority[0] == 0 && !s.pending[0] && !s.busy[0] && forall c :: 0 <= c < |s.enable| ==> !s.enable[c][0]
  }

  predicate Ok(n: nat, s: State) {
    Shape(n, s) && NoSource0(s)
  }

  // ---------------------------------------------------------------- registers

  datatype Register =
    | Priority(index: nat) | Pending | Enable(context: nat) | Threshold(context: nat) | Claim(context: nat) | Invalid

  /** addr_decode, on the offset from the base of the controller. */
  function Decode(n: nat, offset: nat, size: nat): Register {
    if size != 4 then Invalid
    else if offset < 4 * n then Priority(offset / 4)
    else if 0x1000 <= offset < 0x1004 then Pending
    else if 0x2000 <= offset < 0x20_0000 then
      var context := (offset - 0x2000) / 0x80;
      if context < CONTEXTS && (offset - 0x2000) % 0x80 / 4 == 0 then Enable(context) else Invalid
    else if 0x20_0000 <= offset then
      var context, index := (offset - 0x20_0000) / 0x1000, (offset - 0x20_0000) % 0x1000 / 4;
      if context < CONTEXTS && index == 0 then Threshold(context)
      else if context < CONTEXTS && index == 1 then Claim(context) else Invalid
    else Invalid
  }

  /** The address of a register in the memory map of the specification. */
  function Address(r: Register): nat
    requires !r.Invalid?
  {
    match r
    case Priority(i) => 4 * i
    case Pending => 0x1000
    case Enable(c) => 0x2000 + 0x80 * c
    case Threshold(c) => 0x20_0000 + 0x1000 * c
    case Claim(c) => 0x20_0000 + 0x1000 * c + 4
  }

  predicate Exists(n: nat, r: Register) {
    match r
    case Priority(i) => i < n
    case Pending => true
    case Enable(c) => c < CONTEXTS
    case Threshold(c) => c < CONTEXTS
    case Claim(c) => c < CONTEXTS
    case Invalid => false
  }

  /** Decoding inverts the memory map, and every offset that decodes lies in the four bytes of its register. */
  lemma DecodeInvertsMap(n: nat, r: Register, offset: nat)
    requires 0 < n <= WORD
    ensures Exists(n, r) ==> Decode(n, Address(r), 4) == r
    ensures var d := Decode(n, offset, 4); !d.Invalid? ==> Exists(n, d) && Address(d) <= offset < Address(d) + 4
  {
  }

  // ---------------------------------------------------------------- claim selection

  /** A source that the context could claim. */
  predicate Eligible(s: State, context: nat, i: nat)
    requires context < |s.enable|
  {
    i < |s.priority| && i < |s.pending| && i < |s.enable[context]| && s.pending[i] && s.enable[context][i]
        && s.priority[i] > 0
  }

  /** The lowest id of greatest positive priority among the enabled pending sources below k, or 0. */
  ghost predicate IsBest(s: State, context: nat, k: nat, id: nat)
    requires context < |s.enable| && k <= |s.priority| && |s.priority| > 0
  {
    if id == 0 then forall i :: 0 <= i < k ==> !Eligible(s, context, i)
    else
      && id < k && Eligible(s, context, id)
      && forall i :: 0 <= i < k && Eligible(s, context, i) ==>
           s.priority[i] < s.priority[id] || (s.priority[i] == s.priority[id] && id <= i)
  }

  /** get_claim_id: the scan over the sources below k. */
  function ClaimId(n: nat, s: State, context: nat, k: nat): (id: nat)
    requires Shape(n, s) && context < CONTEXTS && k <= n
    ensures id < n
  {
    if k == 0 then 0
    else
      var id := ClaimId(n, s, context, k - 1);
      if s.pending[k - 1] && s.enable[context][k - 1] && s.priority[k - 1] > 0 && s.priority[k - 1] > s.priority[id]
          then k - 1
      else id
  }

  /** What the claim register delivers: the best eligible source, or 0 exactly when there is none. */
  lemma {:induction false} ClaimIsBest(n: nat, s: State, context: nat, k: nat)
    requires Ok(n, s) && context < CONTEXTS && k <= n
    ensures IsBest(s, context, k, ClaimId(n, s, context, k))
  {
    if k > 0 {
      ClaimIsBest(n, s, context, k - 1);
    }
  }

  /** The line interrupt_per_context raises. */
  predicate Signals(n: nat, s: State, context: nat)
    requires Shape(n, s) && context < CONTEXTS
  {
    exists i :: 0 <= i < n && Eligible(s, context, i) && s.priority[i] > s.threshold[context]
  }

  /** A signalled interrupt can be claimed: the claim then delivers a source above the threshold. */
  lemma SignalledIsClaimable(n: nat, s: State, context: nat)
    requires Ok(n, s) && context < CONTEXTS && Signals(n, s, context)
    ensures var id := ClaimId(n, s, context, n);
            id != 0 && s.pending[id] && s.enable[context][id] && s.priority[id] > s.threshold[context]
  {
    ClaimIsBest(n, s, context, n);
  }

  // ---------------------------------------------------------------- state changes

  /** plic_gateway_irq. */
  function Gateway(n: nat, s: State, id: nat, irq: bool): (s': State)
    requires Shape(n, s) && id < n
    ensures Shape(n, s')
  {
    var s1 := if irq && !s.busy[id] then s.(busy := s.busy[id := true], pending := s.pending[id := true]) else s;
    s1.(pending := s1.pending[0 := false], busy := s1.busy[0 := false])
  }

  /** The gateways of all sources at once: an idle gateway whose line is high forwards a request. */
  predicate Forwards(s: State, lines: seq<bool>, i: nat) {
    0 < i < |s.busy| && i < |lines| && lines[i] && !s.busy[i]
  }

  /** The gateways of the sources below k have seen their lines. */
  function LinesTo(n: nat, s: State, lines: seq<bool>, k: nat): (s': State)
    requires Shape(n, s) && |lines| == n && k <= n
    ensures Shape(n, s')
  {
    if k == 0 then s else Gateway(n, LinesTo(n, s, lines, k - 1), k - 1, lines[k - 1])
  }

  function Lines(n: nat, s: State, lines: seq<bool>): (s': State)
    requires Shape(n, s) && |lines| == n
    ensures Shape(n, s')
  {
    s.(busy := seq(n, i requires 0 <= i < n => i != 0 && (s.busy[i] || lines[i])),
       pending := seq(WORD, i requires 0 <= i < WORD => i != 0 && (s.pending[i] || Forwards(s, lines, i))))
  }

  /** t is s after the gateways of the sources below k have seen their lines. */
  ghost predicate SeenTo(n: nat, s: State, lines: seq<bool>, k: nat, t: State)
    requires Shape(n, s) && |lines| == n
  {
    && Shape(n, t) && t.(busy := s.busy, pending := s.pending) == s
    && (forall j :: 0 <= j < n ==> t.busy[j] == (!(j == 0 < k) && (s.busy[j] || (j < k && lines[j]))))
    && (forall j :: 0 <= j < WORD ==>
        t.pending[j] == (!(j == 0 < k) && (s.pending[j] || (j < k && Forwards(s, lines, j)))))
  }

  lemma GatewayStep(n: nat, s: State, lines: seq<bool>, k: nat, t: State)
    requires Shape(n, s) && |lines| == n && k < n && SeenTo(n, s, lines, k, t)
    ensures SeenTo(n, s, lines, k + 1, Gateway(n, t, k, lines[k]))
  {
  }

  /** One gateway after the other has the effect of all at once. */
  lemma {:induction false} LinesAtOnce(n: nat, s: State, lines: seq<bool>, k: nat)
    requires Shape(n, s) && |lines| == n && k <= n
    ensures SeenTo(n, s, lines, k, LinesTo(n, s, lines, k))
    ensures k == n ==> LinesTo(n, s, lines, k) == Lines(n, s, lines)
  {
    if k > 0 {
      LinesAtOnce(n, s, lines, k - 1);
      GatewayStep(n, s, lines, k - 1, LinesTo(n, s, lines, k - 1));
    }
    if k == n {
      SeenAll(n, s, lines, LinesTo(n, s, lines, k));
    }
  }

  lemma SeenAll(n: nat, s: State, lines: seq<bool>, t: State)
    requires Shape(n, s) && |lines| == n && SeenTo(n, s, lines, n, t)
    ensures t == Lines(n, s, lines)
  {
    assert t.busy == Lines(n, s, lines).busy;
    assert t.pending == Lines(n, s, lines).pending;
  }

  /** plic_complete takes effect. */
  predicate Accepts(n: nat, s: State, context: nat, id: nat)
    requires Shape(n, s) && context < CONTEXTS
  {
    id < n && s.enable[context][id]
  }

  /** The bits of a register word. */
  function Bits(value: nat): (b: seq<bool>)
    ensures |b| == WORD
  {
    seq(WORD, i requires i >= 0 => value / Arith.Pow2(i) % 2 == 1)
  }

  /** plic_write, with the repair of source 0 at its end. */
  function Write(n: nat, s: State, offset: nat, size: nat, value: nat): (s': State)
    requires Shape(n, s)
    ensures Shape(n, s')
  {
    var r := Decode(n, offset, size);
    if r.Invalid? then s
    else
      var s1 := match r
        case Priority(i) => s.(priority := s.priority[i := value])
        case Enable(c) => s.(enable := s.enable[c := Bits(value)])
        case Threshold(c) => s.(threshold := s.threshold[c := value])
        case Claim(c) => if Accepts(n, s, c, value) then s.(busy := s.busy[value := false]) else s
        case _ => s;
      s1.(priority := s1.priority[0 := 0], enable := [s1.enable[0][0 := false], s1.enable[1][0 := false]])
  }

  /** plic_read: only the claim register has an effect. */
  function Read(n: nat, s: State, offset: nat, size: nat): (s': State)
    requires Shape(n, s)
    ensures Shape(n, s')
  {
    var r := Decode(n, offset, size);
    if r.Claim? then s.(pending := s.pending[ClaimId(n, s, r.context, n) := false]) else s
  }

  /** The word plic_read delivers, or None where it rejects the access. */
  function ReadValue(n: nat, s: State, offset: nat, size: nat): Option<nat>
    requires Shape(n, s)
  {
    match Decode(n, offset, size)
    case Priority(i) => Some(s.priority[i])
    case Pending => Some(Arith.FromBits(s.pending))
    case Enable(c) => Some(Arith.FromBits(s.enable[c]))
    case Threshold(c) => Some(s.threshold[c])
    case Claim(c) => Some(ClaimId(n, s, c, n))
    case Invalid => None
  }

  lemma HalfThenDivide(x: nat, p: nat)
    requires p > 0
    ensures x / (2 * p) == x / 2 / p
  {
    var h := x / 2;
    var q, r := h / p, h % p;
    assert x == q * (2 * p) + (2 * r + x % 2) by {
      assert h == q * p + r;
      assert x == 2 * h + x % 2;
      assert q * (2 * p) == 2 * (q * p);
    }
    Arith.DivModUnique(x, 2 * p, q, 2 * r + x % 2);
  }

  lemma {:induction false} WordNumber(v: nat, bits: seq<bool>)
    requires v < Arith.Pow2(|bits|) && forall i :: 0 <= i < |bits| ==> bits[i] == (v / Arith.Pow2(i) % 2 == 1)
    ensures Arith.FromBits(bits) == v
  {
    if bits != [] {
      var rest := bits[1..];
      forall i | 0 <= i < |rest|
        ensures rest[i] == (v / 2 / Arith.Pow2(i) % 2 == 1)
      {
        HalfThenDivide(v, Arith.Pow2(i));
        assert bits[i + 1] == (v / Arith.Pow2(i + 1) % 2 == 1);
      }
      WordNumber(v / 2, rest);
      assert bits[0] == (v / Arith.Pow2(0) % 2 == 1);
    }
  }

  /** Software reads back what it wrote: priorities and thresholds in full, enable words but for source 0, whose bit and
      priority read 0. No other register but the one written changes, and the claim register never reads back. */
  lemma ReadsBack(n: nat, s: State, r: Register, r': Register, value: nat)
    requires Ok(n, s) && Exists(n, r) && Exists(n, r') && value < Arith.TWO32
    requires !r.Claim? && !r'.Claim? && !r.Pending?
    ensures ReadValue(n, Write(n, s, Address(r), 4, value), Address(r'), 4) ==
            if r' != r then ReadValue(n, s, Address(r'), 4)
            else if r == Priority(0) then Some(0)
            else if r.Enable? then Some(value - value % 2)
            else Some(value)
  {
    DecodeInvertsMap(n, r, 0);
    DecodeInvertsMap(n, r', 0);
    if r.Enable? || r'.Enable? {
      EnableReadsBack(n, s, r, r', value);
    }
  }

  lemma EnableReadsBack(n: nat, s: State, r: Register, r': Register, value: nat)
    requires Ok(n, s) && Exists(n, r) && Exists(n, r') && value < Arith.TWO32
    requires Decode(n, Address(r), 4) == r && Decode(n, Address(r'), 4) == r'
    requires !r.Claim? && !r'.Claim? && !r.Pending? && (r.Enable? || r'.Enable?)
    ensures ReadValue(n, Write(n, s, Address(r), 4, value), Address(r'), 4) ==
            if r' != r then ReadValue(n, s, Address(r'), 4) else Some(value - value % 2)
  {
    if r' == r {
      Arith.Pow2Values();
      ClearedWord(value, Bits(value)[0 := false]);
    } else if r'.Enable? {
      assert s.enable[r'.context][0 := false] == s.enable[r'.context];
    }
  }

  /** A word with bit 0 cleared. */
  lemma ClearedWord(value: nat, word: seq<bool>)
    requires value < Arith.Pow2(WORD) && word == Bits(value)[0 := false]
    ensures Arith.FromBits(word) == value - value % 2
  {
    var even := value - value % 2;
    forall i | 0 <= i < WORD
      ensures word[i] == (even / Arith.Pow2(i) % 2 == 1)
    {
      if i > 0 {
        HalfThenDivide(value, Arith.Pow2(i - 1));
        HalfThenDivide(even, Arith.Pow2(i - 1));
        assert even / 2 == value / 2;
      } else {
        assert Arith.Pow2(0) == 1;
      }
    }
    WordNumber(even, word);
  }

  function Reset(n: nat): (s: State)
    requires 0 < n <= WORD
    ensures Ok(n, s)
  {
    var word := seq(WORD, _ => false);
    State(seq(n, _ => 0), word, [word, word], [0, 0], seq(n, _ => false))
  }

  // ---------------------------------------------------------------- runs

  datatype Event =
    | IrqLines(lines: seq<bool>) | WriteReg(offset: nat, size: nat, value: nat) | ReadReg(offset: nat, size: nat)

  predicate Fits(n: nat, ev: Event) {
    ev.IrqLines? ==> |ev.lines| == n
  }

  function Step(n: nat, s: State, ev: Event): (s': State)
    requires Shape(n, s) && Fits(n, ev)
    ensures Shape(n, s')
  {
    match ev
    case IrqLines(lines) => Lines(n, s, lines)
    case WriteReg(offset, size, value) => Write(n, s, offset, size, value)
    case ReadReg(offset, size) => Read(n, s, offset, size)
  }

  lemma StepOk(n: nat, s: State, ev: Event)
    requires Ok(n, s) && Fits(n, ev)
    ensures Ok(n, Step(n, s, ev))
  {
  }

  /** What an event does for source i: its gateway forwards, it is claimed, its completion is accepted. */
  predicate ForwardsOf(n: nat, s: State, ev: Event, i: nat) {
    ev.IrqLines? && Forwards(s, ev.lines, i)
  }

  predicate ClaimsOf(n: nat, s: State, ev: Event, i: nat)
    requires Shape(n, s)
  {
    && i != 0 && ev.ReadReg? && Decode(n, ev.offset, ev.size).Claim?
    && i == ClaimId(n, s, Decode(n, ev.offset, ev.size).context, n)
  }

  predicate CompletesOf(n: nat, s: State, ev: Event, i: nat)
    requires Shape(n, s)
  {
    && ev.WriteReg? && Decode(n, ev.offset, ev.size).Claim?
    && i == ev.value && Accepts(n, s, Decode(n, ev.offset, ev.size).context, i)
  }

  /** The effect of an event on the two flags of one source. */
  lemma SourceStep(n: nat, s: State, ev: Event, i: nat)
    requires Ok(n, s) && Fits(n, ev) && 0 < i < n
    ensures var s' := Step(n, s, ev);
            && s'.busy[i] == ((s.busy[i] && !CompletesOf(n, s, ev, i)) || ForwardsOf(n, s, ev, i))
            && s'.pending[i] == ((s.pending[i] && !ClaimsOf(n, s, ev, i)) || ForwardsOf(n, s, ev, i))
    ensures ClaimsOf(n, s, ev, i) ==> s.pending[i]
    ensures ForwardsOf(n, s, ev, i) ==> !s.busy[i]
  {
    if ClaimsOf(n, s, ev, i) {
      ClaimIsBest(n, s, Decode(n, ev.offset, ev.size).context, n);
    }
  }

  function Run(n: nat, evs: seq<Event>): (s: State)
    requires 0 < n <= WORD && forall k :: 0 <= k < |evs| ==> Fits(n, evs[k])
    ensures Shape(n, s)
  {
    if evs == [] then Reset(n) else Step(n, Run(n, evs[..|evs| - 1]), evs[|evs| - 1])
  }

  /** Forwards, claims and accepted completions of source i along a run. */
  datatype Tally = Tally(forwards: nat, claims: nat, completions: nat)

  function Count(n: nat, evs: seq<Event>, i: nat): Tally
    requires 0 < n <= WORD && forall k :: 0 <= k < |evs| ==> Fits(n, evs[k])
  {
    if evs == [] then Tally(0, 0, 0)
    else
      Counted(n, Count(n, evs[..|evs| - 1], i), Run(n, evs[..|evs| - 1]), evs[|evs| - 1], i)
  }

  function One(b: bool): nat {
    if b then 1 else 0
  }

  /** Conservation over every run from reset: no source is claimed more often than it was forwarded, nor forwarded more
      often than completed, but for the request it has in hand. */
  lemma {:induction false} Conservation(n: nat, evs: seq<Event>, i: nat)
    requires 0 < n <= WORD && 0 < i < n && forall k :: 0 <= k < |evs| ==> Fits(n, evs[k])
    ensures Ok(n, Run(n, evs))
    ensures var s, t := Run(n, evs), Count(n, evs, i);
            t.claims + One(s.pending[i]) <= t.forwards <= t.completions + One(s.busy[i])
  {
    if evs != [] {
      var before := evs[..|evs| - 1];
      Conservation(n, before, i);
      StepOk(n, Run(n, before), evs[|evs| - 1]);
      SourceStep(n, Run(n, before), evs[|evs| - 1], i);
    }
  }

  // ---------------------------------------------------------------- in the terms of the specification

  /** The memory map of chapter 3. */
  lemma MapExact(n: nat, s: State, i: nat, c: nat, size: nat)
    requires Shape(n, s)
    ensures size != 4 ==> Decode(n, i, size).Invalid?
    ensures ReadValue(n, s, 0x1000, 4) == Some(Arith.FromBits(s.pending))
    ensures Address(Priority(i)) == 4 * i && Address(Pending) == 0x1000 && Address(Enable(c)) == 0x2000 + 0x80 * c
    ensures Address(Threshold(c)) == 0x20_0000 + 0x1000 * c && Address(Claim(c)) == 0x20_0004 + 0x1000 * c
  {
    DecodeInvertsMap(n, Pending, 0);
  }

  /** Reading a claim register delivers the id of a pending, enabled source of greatest positive priority, the lowest
      such, or 0 if there is none, and clears that pending bit and nothing else. */
  lemma ClaimExact(n: nat, s: State, c: nat)
    requires Ok(n, s) && c < 2
    ensures var offset := 0x20_0004 + 0x1000 * c;
            var value := ReadValue(n, s, offset, 4);
            && value.Some? && value.value < n
            && var id := value.value;
               && Read(n, s, offset, 4) == s.(pending := s.pending[id := false])
               && (id != 0 ==> s.pending[id] && s.enable[c][id] && s.priority[id] > 0)
               && forall i :: 0 <= i < n && s.pending[i] && s.enable[c][i] && s.priority[i] > 0 ==>
                    id != 0 && (s.priority[i] < s.priority[id] || (s.priority[i] == s.priority[id] && id <= i))
  {
    DecodeInvertsMap(n, Claim(c), 0);
    ClaimIsBest(n, s, c, n);
    var id := ClaimId(n, s, c, n);
    forall i | 0 <= i < n && s.pending[i] && s.enable[c][i] && s.priority[i] > 0
      ensures id != 0 && (s.priority[i] < s.priority[id] || (s.priority[i] == s.priority[id] && id <= i))
    {
      assert Eligible(s, c, i);
    }
  }

  /** Writing an id to a claim register completes it, if the context has the source enabled: its gateway is idle
      again, and nothing else changes. */
  lemma CompletionExact(n: nat, s: State, c: nat, id: nat)
    requires Ok(n, s) && c < 2
    ensures Write(n, s, 0x20_0004 + 0x1000 * c, 4, id) ==
            if id < n && s.enable[c][id] then s.(busy := s.busy[id := false]) else s
  {
    DecodeInvertsMap(n, Claim(c), 0);
    var s' := Write(n, s, 0x20_0004 + 0x1000 * c, 4, id);
    assert s.priority[0 := 0] == s.priority;
    assert s.enable[0][0 := false] == s.enable[0] && s.enable[1][0 := false] == s.enable[1];
    assert s.enable == [s.enable[0], s.enable[1]];
  }

  /** A line that is high makes an idle source pending and busy; a context is signalled if some enabled pending source
      has a priority above the threshold. */
  lemma LinesExact(n: nat, s: State, lines: seq<bool>, i: nat, c: nat)
    requires Ok(n, s) && |lines| == n && 0 < i < n && c < 2
    ensures var s' := Lines(n, s, lines);
            && s'.busy[i] == (s.busy[i] || lines[i]) && s'.pending[i] == (s.pending[i] || (lines[i] && !s.busy[i]))
            && s'.priority == s.priority && s'.enable == s.enable && s'.threshold == s.threshold
    ensures Signals(n, s, c) <==>
            exists k :: 0 < k < n && s.pending[k] && s.enable[c][k] && s.priority[k] > 0
                        && s.priority[k] > s.threshold[c]
  {
    if Signals(n, s, c) {
      var k :| 0 <= k < n && Eligible(s, c, k) && s.priority[k] > s.threshold[c];
      assert k != 0;
    }
    if k :| 0 < k < n && s.pending[k] && s.enable[c][k] && s.priority[k] > 0 && s.priority[k] > s.threshold[c] {
      assert Eligible(s, c, k);
    }
  }

  // ---------------------------------------------------------------- disciplined software

  datatype Phase = Idle | Requested | InService | Overrun

  /** Overrun: pending without being busy, after a completion that came before the claim. */
  function PhaseOf(s: State, i: nat): Phase
    requires i < |s.busy| && i < |s.pending|
  {
    if s.busy[i] then (if s.pending[i] then Requested else InService) else if s.pending[i] then Overrun else Idle
  }

  /** Software completes only what is in service. */
  ghost predicate Disciplined(n: nat, evs: seq<Event>, i: nat)
    requires 0 < n <= WORD && 0 < i < n && forall k :: 0 <= k < |evs| ==> Fits(n, evs[k])
  {
    forall k :: 0 <= k < |evs| ==>
      CompletesOf(n, Run(n, evs[..k]), evs[k], i) ==> PhaseOf(Run(n, evs[..k]), i).InService?
  }

  /** One event moves a source at most one step around the cycle idle, requested, in service; it leaves the cycle
      exactly when a pending request is completed before it is claimed. */
  lemma PhaseStep(n: nat, s: State, ev: Event, i: nat)
    requires Ok(n, s) && Fits(n, ev) && 0 < i < n && !PhaseOf(s, i).Overrun?
    ensures var p, p' := PhaseOf(s, i), PhaseOf(Step(n, s, ev), i);
            && (p'.Overrun? <==> p.Requested? && CompletesOf(n, s, ev, i))
            && (!p'.Overrun? && p' != p ==>
                  || (p.Idle? && p'.Requested? && ForwardsOf(n, s, ev, i))
                  || (p.Requested? && p'.InService? && ClaimsOf(n, s, ev, i))
                  || (p.InService? && p'.Idle? && CompletesOf(n, s, ev, i)))
  {
    SourceStep(n, s, ev, i);
  }

  lemma RunLast(n: nat, evs: seq<Event>, ev: Event)
    requires 0 < n <= WORD && Fits(n, ev) && forall k :: 0 <= k < |evs| ==> Fits(n, evs[k])
    ensures Run(n, evs + [ev]) == Step(n, Run(n, evs), ev)
  {
    assert (evs + [ev])[..|evs|] == evs;
  }

  /** Such a completion can be made: a source that is enabled and idle at the end of a run is requested and completed at
      once. */
  lemma OverrunHappens(n: nat, evs: seq<Event>, c: nat, i: nat)
    requires 0 < i < n <= WORD && c < CONTEXTS && forall k :: 0 <= k < |evs| ==> Fits(n, evs[k])
    requires Run(n, evs).enable[c][i] && PhaseOf(Run(n, evs), i).Idle?
    ensures var lines, complete := IrqLines(seq(n, j => j == i)), WriteReg(Address(Claim(c)), 4, i);
            PhaseOf(Run(n, evs + [lines] + [complete]), i).Overrun?
  {
    var lines, complete := IrqLines(seq(n, j => j == i)), WriteReg(Address(Claim(c)), 4, i);
    var s := Run(n, evs);
    Conservation(n, evs, i);
    RunLast(n, evs, lines);
    SourceStep(n, s, lines, i);
    var s' := Step(n, s, lines);
    StepOk(n, s, lines);
    assert s'.enable == s.enable && ForwardsOf(n, s, lines, i);
    RunLast(n, evs + [lines], complete);
    DecodeInvertsMap(n, Claim(c), 0);
    SourceStep(n, s', complete, i);
  }

  lemma EnablesSource(n: nat, s: State, i: nat)
    requires Shape(n, s) && 0 < i < n
    ensures var s' := Step(n, s, WriteReg(0x2000, 4, Arith.Pow2(i)));
            s'.enable[0][i] && s'.busy == s.busy && s'.pending == s.pending
  {
    DecodeInvertsMap(n, Enable(0), 0);
    assert Bits(Arith.Pow2(i))[i];
  }

  /** From reset, one write enables the source. The emulator has 11 sources and drives the line of source 10. */
  lemma OverrunFromReset(n: nat, i: nat)
    requires 0 < i < n <= WORD
    ensures var enable, lines, complete := WriteReg(0x2000, 4, Arith.Pow2(i)), IrqLines(seq(n, j => j == i)),
        WriteReg(Address(Claim(0)), 4, i);
            PhaseOf(Run(n, [enable] + [lines] + [complete]), i).Overrun?
  {
    var enable := WriteReg(0x2000, 4, Arith.Pow2(i));
    RunLast(n, [], enable);
    assert [] + [enable] == [enable];
    EnablesSource(n, Reset(n), i);
    OverrunHappens(n, [enable], 0, i);
  }

  /** Every forward is claimed or pending, and completed or busy. */
  predicate Settled(s: State, t: Tally, i: nat)
    requires i < |s.busy| && i < |s.pending|
  {
    && !PhaseOf(s, i).Overrun?
    && t.forwards == t.claims + One(s.pending[i]) && t.forwards == t.completions + One(s.busy[i])
  }

  function Counted(n: nat, t: Tally, s: State, ev: Event, i: nat): Tally
    requires Shape(n, s)
  {
    Tally(t.forwards + One(ForwardsOf(n, s, ev, i)), t.claims + One(ClaimsOf(n, s, ev, i)),
          t.completions + One(CompletesOf(n, s, ev, i)))
  }

  lemma SettledStep(n: nat, s: State, t: Tally, ev: Event, i: nat)
    requires Ok(n, s) && Fits(n, ev) && 0 < i < n && Settled(s, t, i)
    requires CompletesOf(n, s, ev, i) ==> PhaseOf(s, i).InService?
    ensures Ok(n, Step(n, s, ev)) && Settled(Step(n, s, ev), Counted(n, t, s, ev, i), i)
  {
    StepOk(n, s, ev);
    SourceStep(n, s, ev, i);
  }

  /** Under disciplined software pending implies busy, every forward is claimed or still pending, and every forward is
      completed or still busy. */
  lemma {:induction false} DisciplinedConservation(n: nat, evs: seq<Event>, i: nat)
    requires 0 < n <= WORD && 0 < i < n && forall k :: 0 <= k < |evs| ==> Fits(n, evs[k])
    requires Disciplined(n, evs, i)
    ensures Ok(n, Run(n, evs)) && Settled(Run(n, evs), Count(n, evs, i), i)
  {
    if evs != [] {
      var before, last := evs[..|evs| - 1], |evs| - 1;
      forall k | 0 <= k < |before|
        ensures CompletesOf(n, Run(n, before[..k]), before[k], i) ==> PhaseOf(Run(n, before[..k]), i).InService?
      {
        assert before[..k] == evs[..k];
      }
      DisciplinedConservation(n, before, i);
      assert CompletesOf(n, Run(n, evs[..last]), evs[last], i) ==> PhaseOf(Run(n, evs[..last]), i).InService?;
      SettledStep(n, Run(n, before), Count(n, before, i), evs[last], i);
    }
  }

  // ---------------------------------------------------------------- the device

  /** plic_t in place: the priorities and gateways are arrays, the register words are bit sequences. */
  class Controller {
    const n: nat
    const priority: array<nat>
    const busy: array<bool>
    var pending: seq<bool>
    var enable: seq<seq<bool>>
    var threshold: seq<nat>

    function View(): State
      reads this, priority, busy
    {
      State(priority[..], pending, enable, threshold, busy[..])
    }

    ghost predicate Valid()
      reads this, priority, busy
    {
      Shape(n, View())
    }

    /** plic_init. */
    constructor (sources: nat)
      requires 0 < sources <= WORD
      ensures n == sources && Valid() && View() == Reset(n)
      ensures fresh(priority) && fresh(busy)
    {
      n := sources;
      priority := new nat[sources](_ => 0);
      busy := new bool[sources](_ => false);
      pending := seq(WORD, _ => false);
      enable := seq(CONTEXTS, _ => seq(WORD, _ => false));
      threshold := seq(CONTEXTS, _ => 0);
      new;
      assert priority[..] == Reset(n).priority;
      assert busy[..] == Reset(n).busy;
      assert enable == Reset(n).enable;
      assert threshold == Reset(n).threshold;
    }

    /** get_claim_id. */
    method GetClaimId(context: nat) returns (id: nat)
      requires Valid() && context < CONTEXTS
      ensures id == ClaimId(n, View(), context, n)
    {
      id := 0;
      for i := 0 to n
        invariant id == ClaimId(n, View(), context, i)
      {
        if pending[i] && enable[context][i] {
          if priority[i] > 0 && priority[i] > priority[id] {
            id := i;
          }
        }
      }
    }

    /** interrupt_per_context. */
    method InterruptPerContext(context: nat) returns (irq: bool)
      requires Valid() && context < CONTEXTS
      ensures irq == Signals(n, View(), context)
    {
      irq := false;
      for i := 0 to n
        invariant irq == exists j :: 0 <= j < i && Eligible(View(), context, j) && priority[j] > threshold[context]
      {
        irq := irq || (pending[i] && enable[context][i] && priority[i] > 0 && priority[i] > threshold[context]);
      }
    }

    /** plic_gateway_irq. */
    method GatewayIrq(id: nat, irq: bool)
      requires Valid() && id < n
      modifies this, busy
      ensures Valid() && View() == Gateway(n, old(View()), id, irq)
    {
      if irq && !busy[id] {
        busy[id] := true;
        pending := pending[id := true];
      }
      pending := pending[0 := false];
      busy[0] := false;
      assert busy[..] == Gateway(n, old(View()), id, irq).busy;
    }

    /** plic_irq_update: the loop over the gateways has the effect of all of them at once. */
    method IrqUpdate(lines: seq<bool>)
      requires Valid() && |lines| == n
      modifies this, busy
      ensures Valid() && View() == Lines(n, old(View()), lines)
    {
      for i := 0 to n
        invariant Valid() && View() == LinesTo(n, old(View()), lines, i)
      {
        GatewayIrq(i, lines[i]);
      }
      LinesAtOnce(n, old(View()), lines, n);
    }

    /** plic_write. */
    method WriteReg(offset: nat, size: nat, value: nat) returns (ok: bool)
      requires Valid()
      modifies this, priority, busy
      ensures Valid() && View() == Write(n, old(View()), offset, size, value)
      ensures ok == !Decode(n, offset, size).Invalid?
    {
      var r := Decode(n, offset, size);
      match r {
        case Priority(i) => priority[i] := value;
        case Pending =>
        case Enable(c) => enable := enable[c := Bits(value)];
        case Threshold(c) => threshold := threshold[c := value];
        case Claim(c) =>
          if value < n && enable[c][value] {
            busy[value] := false;
          }
        case Invalid => return false;
      }
      priority[0] := 0;
      enable := [enable[0][0 := false], enable[1][0 := false]];
      assert View() == Write(n, old(View()), offset, size, value) by {
        assert priority[..] == Write(n, old(View()), offset, size, value).priority;
        assert busy[..] == Write(n, old(View()), offset, size, value).busy;
      }
      ok := true;
    }

    /** plic_read. */
    method ReadReg(offset: nat, size: nat) returns (value: Option<nat>)
      requires Valid()
      modifies this
      ensures Valid() && View() == Read(n, old(View()), offset, size)
      ensures value == ReadValue(n, old(View()), offset, size)
    {
      var r := Decode(n, offset, size);
      match r
      case Priority(i) => value := Some(priority[i]);
      case Pending => value := Some(Arith.FromBits(pending));
      case Enable(c) => value := Some(Arith.FromBits(enable[c]));
      case Threshold(c) => value := Some(threshold[c]);
      case Claim(c) =>
        var id := GetClaimId(c);
        pending := pending[id := false];
        value := Some(id);
      case Invalid => value := None;
    }
  }
}
