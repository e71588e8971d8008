/** The packed form of mstatus and of the interrupt registers in emulator/src/cpu/csr.c: a word is its 64 bits, and
    the masks and field writes of the source act bit by bit. The lemmas show that they compute what the records of
    module Csr say. */
module Packed {
  import opened Csr

  type Bits = b: seq<bool> | |b| == 64 witness seq(64, _ => false)

  function TwoBits(lo: bool, hi: bool): nat {
    (if lo then 1 else 0) + (if hi then 2 else 0)
  }

  /** Some bit is set outside the given fields. */
  predicate Outside(w: seq<bool>, fields: seq<bool>)
    requires |w| == |fields|
  {
    |w| > 0 && ((w[|w| - 1] && !fields[|w| - 1]) || Outside(w[..|w| - 1], fields[..|w| - 1]))
  }

  lemma {:induction false} OutsideExact(w: seq<bool>, fields: seq<bool>)
    requires |w| == |fields|
    ensures Outside(w, fields) <==> exists i :: 0 <= i < |w| && w[i] && !fields[i]
  {
    if w != [] {
      OutsideExact(w[..|w| - 1], fields[..|w| - 1]);
    }
  }

  /** Words that agree outside the fields. */
  lemma SameOutside(w: Bits, w': Bits, fields: Bits)
    requires forall i :: 0 <= i < 64 && !fields[i] ==> w[i] == w'[i]
    ensures Outside(w, fields) == Outside(w', fields)
  {
    OutsideExact(w, fields);
    OutsideExact(w', fields);
  }

  lemma NoneOutside(w: Bits, fields: Bits)
    requires forall i :: 0 <= i < 64 && !fields[i] ==> !w[i]
    ensures !Outside(w, fields)
  {
    OutsideExact(w, fields);
  }

  function StatusFields(): Bits {
    seq(64, i requires i >= 0 => StatusField(i))
  }

  function IrqFields(): Bits {
    seq(64, i requires i >= 0 => IrqBit(i))
  }

  function CounterFields(): Bits {
    seq(64, i => i < 3)
  }

  predicate StatusField(i: nat) {
    i == 1 || i == 3 || i == 5 || i == 7 || i == 8 || i == 11 || i == 12 || 17 <= i <= 22 || 32 <= i <= 35
  }

  function UnpackStatus(w: Bits): Mstatus {
    Mstatus(w[1], w[3], w[5], w[7], w[8], w[11], w[12], w[17], w[18], w[19], w[20], w[21], w[22],
            TwoBits(w[32], w[33]), TwoBits(w[34], w[35]), Outside(w, StatusFields()))
  }

  predicate IrqBit(i: nat) {
    i == 1 || i == 3 || i == 5 || i == 7 || i == 9 || i == 11
  }

  function UnpackIrqs(w: Bits): Irqs {
    Irqs(w[1], w[3], w[5], w[7], w[9], w[11], Outside(w, IrqFields()))
  }

  lemma HasBit(w: Bits, id: nat)
    requires IrqBit(id)
    ensures UnpackIrqs(w).Has(id) == w[id]
  {
  }

  /** csr_field_set of a one-bit field. */
  function FieldSet(w: Bits, pos: nat, value: bool): Bits
    requires pos < 64
  {
    w[pos := value]
  }

  /** The three write instructions under a mask, with `csr_non_writable` as the source computes it. */
  function Masked(op: Op, was: Bits, v: Bits, mask: Bits): (w: Bits)
    ensures forall i :: 0 <= i < 64 ==> w[i] == if mask[i] then Merge(op, was[i], v[i]) else was[i]
  {
    seq(64, i requires 0 <= i < 64 =>
      var kept, written := was[i] && !mask[i], v[i] && mask[i];
      match op
      case Rw => kept || written
      case Rs => was[i] || written
      case Rc => (was[i] && !written) || kept)
  }

  function MstatusMask(): Bits {
    seq(64, i => i == 1 || i == 3 || i == 5 || i == 7 || i == 8 || i == 11 || i == 12 || 17 <= i <= 22)
  }

  function SstatusMask(): Bits {
    seq(64, i => i == 1 || i == 5 || i == 8 || i == 18 || i == 19)
  }

  lemma SstatusWritten(op: Op, was: Bits, v: Bits)
    ensures UnpackStatus(Masked(op, was, v, SstatusMask())) == WriteSstatus(op, UnpackStatus(was), UnpackStatus(v))
  {
    OtherBitsKept(was, Masked(op, was, v, SstatusMask()));
  }

  lemma MstatusWritten(op: Op, was: Bits, v: Bits)
    ensures var w := Masked(op, was, v, MstatusMask());
            UnpackStatus(if w[12] && !w[11] then FieldSet(FieldSet(w, 11, false), 12, false) else w)
            == WriteMstatus(op, UnpackStatus(was), UnpackStatus(v))
  {
    var w := Masked(op, was, v, MstatusMask());
    OtherBitsKept(was, w);
    MppSettles(w);
    UnpackMasked(op, was, v);
  }

  /** Bits outside the fields that stay leave the record's `other` alone. */
  lemma OtherBitsKept(was: Bits, w: Bits)
    requires forall i :: 0 <= i < 64 && !StatusField(i) ==> w[i] == was[i]
    ensures UnpackStatus(w).other == UnpackStatus(was).other
  {
    SameOutside(w, was, StatusFields());
  }

  /** MPP = 2 becomes 0. */
  lemma MppSettles(w: Bits)
    ensures UnpackStatus(if w[12] && !w[11] then FieldSet(FieldSet(w, 11, false), 12, false) else w)
            == UnpackStatus(w).(mppHi := w[12] && w[11])
  {
    OtherBitsKept(w, FieldSet(FieldSet(w, 11, false), 12, false));
  }

  lemma UnpackMasked(op: Op, was: Bits, v: Bits)
    ensures var w := UnpackStatus(Masked(op, was, v, MstatusMask()));
            var m := WriteMstatus(op, UnpackStatus(was), UnpackStatus(v));
            w == m.(mppHi := Merge(op, was[12], v[12]), other := w.other)
  {
  }

  lemma IrqsWritten(op: Op, was: Bits, v: Bits, mask: Bits)
    requires forall i :: 0 <= i < 64 && mask[i] ==> IrqBit(i)
    ensures UnpackIrqs(Masked(op, was, v, mask)) == WriteIrqs(op, UnpackIrqs(was), UnpackIrqs(v), UnpackIrqs(mask))
  {
    var w := Masked(op, was, v, mask);
    SameOutside(w, was, IrqFields());
    NoneOutside(mask, IrqFields());
  }

  /** trap_enter on mstatus, in the order of the source, for a trap into machine mode .. */
  lemma MachineTrapWritten(w: Bits, priv: nat)
    ensures var m := UnpackStatus(w);
            UnpackStatus(FieldSet(FieldSet(FieldSet(FieldSet(w, 7, w[3]), 3, false), 11, LowBit(priv)), 12,
                                  HighBit(priv)))
            == m.(mpie := m.mie, mie := false, mppLo := LowBit(priv), mppHi := HighBit(priv))
  {
    OtherBitsKept(w, FieldSet(FieldSet(FieldSet(FieldSet(w, 7, w[3]), 3, false), 11, LowBit(priv)), 12, HighBit(priv)));
  }

  /** .. and into supervisor mode. */
  lemma SupervisorTrapWritten(w: Bits, priv: nat)
    ensures var m := UnpackStatus(w);
            UnpackStatus(FieldSet(FieldSet(FieldSet(w, 5, w[1]), 1, false), 8, LowBit(priv)))
            == m.(spie := m.sie, sie := false, spp := LowBit(priv))
  {
    OtherBitsKept(w, FieldSet(FieldSet(FieldSet(w, 5, w[1]), 1, false), 8, LowBit(priv)));
  }

  /** trap_exit_mret on mstatus, in the order of the source. */
  lemma MretStatusWritten(w: Bits)
    ensures var m := UnpackStatus(w);
            var w' := FieldSet(FieldSet(FieldSet(FieldSet(w, 3, w[7]), 7, true), 11, false), 12, false);
            UnpackStatus(if m.Mpp() < 3 then FieldSet(w', 17, false) else w')
            == m.(mie := m.mpie, mpie := true, mppLo := false, mppHi := false, mprv := m.mprv && m.Mpp() >= 3)
  {
    var w' := FieldSet(FieldSet(FieldSet(FieldSet(w, 3, w[7]), 7, true), 11, false), 12, false);
    OtherBitsKept(w, w');
    OtherBitsKept(w', FieldSet(w', 17, false));
  }

  /** trap_exit_sret on mstatus. */
  lemma SretStatusWritten(w: Bits)
    ensures var m := UnpackStatus(w);
            var w' := FieldSet(FieldSet(FieldSet(w, 1, w[5]), 5, true), 8, false);
            UnpackStatus(FieldSet(w', 17, false)) == m.(sie := m.spie, spie := true, spp := false, mprv := false)
  {
    var w' := FieldSet(FieldSet(FieldSet(w, 1, w[5]), 5, true), 8, false);
    OtherBitsKept(w, w');
    OtherBitsKept(w', FieldSet(w', 17, false));
  }

  /** csr_begin_update on mip. */
  lemma LinesWritten(w: Bits, meip: bool, msip: bool, mtip: bool, seip: bool)
    ensures UnpackIrqs(FieldSet(FieldSet(FieldSet(FieldSet(w, 11, meip), 3, msip), 7, mtip), 9, seip))
            == UnpackIrqs(w).(mei := meip, msi := msip, mti := mtip, sei := seip)
  {
    var w' := FieldSet(FieldSet(FieldSet(FieldSet(w, 11, meip), 3, msip), 7, mtip), 9, seip);
    SameOutside(w', w, IrqFields());
  }

  // ---------------------------------------------------------------- the other bit registers

  function UnpackCounters(w: Bits): Counters {
    Counters(w[0], w[1], w[2], Outside(w, CounterFields()))
  }

  /** The positions of the bits that are set. */
  function Positions(w: seq<bool>): set<nat> {
    if w == [] then {} else Positions(w[..|w| - 1]) + if w[|w| - 1] then {|w| - 1} else {}
  }

  lemma {:induction false} PositionsExact(w: seq<bool>, i: nat)
    ensures i in Positions(w) <==> i < |w| && w[i]
  {
    if w != [] {
      PositionsExact(w[..|w| - 1], i);
    }
  }

  function UnpackCodes(w: Bits): set<nat> {
    Positions(w)
  }

  function And(a: Bits, b: Bits): Bits {
    seq(64, i requires 0 <= i < 64 => a[i] && b[i])
  }

  function IrqSMask(): Bits {
    seq(64, i => i == 1 || i == 5 || i == 9)
  }

  function IrqAllMask(): Bits {
    seq(64, i => i == 1 || i == 3 || i == 5 || i == 7 || i == 9 || i == 11)
  }

  function SsipMask(): Bits {
    seq(64, i => i == 1)
  }

  function MedelegMask(): Bits {
    seq(64, i requires i >= 0 => Delegable(i))
  }

  lemma MachineMasks()
    ensures UnpackIrqs(IrqAllMask()) == ALL_BITS && UnpackIrqs(IrqSMask()) == S_BITS
  {
    NoneOutside(IrqAllMask(), IrqFields());
    NoneOutside(IrqSMask(), IrqFields());
  }

  /** With the masks of the machine-mode registers. */
  lemma MachineIrqsWritten(op: Op, was: Bits, v: Bits, all: bool)
    ensures UnpackIrqs(Masked(op, was, v, if all then IrqAllMask() else IrqSMask()))
            == WriteIrqs(op, UnpackIrqs(was), UnpackIrqs(v), if all then ALL_BITS else S_BITS)
  {
    MachineMasks();
    IrqsWritten(op, was, v, if all then IrqAllMask() else IrqSMask());
  }

  lemma DelegatedMasks(mideleg: Bits)
    ensures UnpackIrqs(And(IrqSMask(), mideleg)) == Delegated(UnpackIrqs(mideleg), S_BITS)
    ensures UnpackIrqs(And(SsipMask(), mideleg)) == Delegated(UnpackIrqs(mideleg), SSI_BIT)
  {
    NoneOutside(And(IrqSMask(), mideleg), IrqFields());
    NoneOutside(And(SsipMask(), mideleg), IrqFields());
  }

  lemma CodesWritten(op: Op, was: Bits, v: Bits)
    ensures UnpackCodes(Masked(op, was, v, MedelegMask())) == WriteCodes(op, UnpackCodes(was), UnpackCodes(v))
  {
    var w := Masked(op, was, v, MedelegMask());
    forall i
      ensures i in Positions(w) <==> i in WriteCodes(op, Positions(was), Positions(v))
    {
      PositionsExact(w, i);
      PositionsExact(was, i);
      PositionsExact(v, i);
    }
  }

  function CounterMask(tm: bool): Bits {
    seq(64, i => i == 0 || (i == 1 && tm) || i == 2)
  }

  lemma CountersWritten(op: Op, was: Bits, v: Bits, tm: bool)
    ensures UnpackCounters(Masked(op, was, v, CounterMask(tm))) == WriteCounters(op, UnpackCounters(was),
        UnpackCounters(v), tm)
  {
    var w := Masked(op, was, v, CounterMask(tm));
    SameOutside(w, was, CounterFields());
  }

  // ---------------------------------------------------------------- the read masks

  function SstatusReadMask(): Bits {
    seq(64, i => i == 1 || i == 5 || i == 8 || i == 18 || i == 19 || i == 32 || i == 33)
  }

  lemma SstatusRead(w: Bits)
    ensures UnpackStatus(And(w, SstatusReadMask())) == SupervisorStatus(UnpackStatus(w))
  {
    var v := And(w, SstatusReadMask());
    NoneOutside(v, StatusFields());
    assert v[32] == w[32] && v[33] == w[33] && !v[34] && !v[35];
  }

  lemma DelegatedRead(w: Bits, mideleg: Bits)
    ensures UnpackIrqs(And(And(w, IrqSMask()), mideleg)) == SupervisorIrqs(UnpackIrqs(w), UnpackIrqs(mideleg))
  {
    NoneOutside(And(And(w, IrqSMask()), mideleg), IrqFields());
  }
}
