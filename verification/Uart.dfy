/** The receive side of the UART in emulator/src/device/uart16550.c: a 16-byte ring that must behave as an in-order
    queue of 16 bytes (FIFO on) or one byte (FIFO off) across every switch between the two. */
module Uart {
  import opened Riscv

  const DEPTH: nat := 16

  // ---------------------------------------------------------------- the queue

  /** What software can observe of the receiver. */
  datatype Queue = Queue(fifo: bool, items: seq<Byte>, overrun: bool, underrun: bool)

  function Capacity(q: Queue): nat {
    if q.fifo then DEPTH else 1
  }

  predicate Ok(q: Queue) {
    |q.items| <= Capacity(q)
  }

  const ResetQueue: Queue := Queue(true, [], false, false)

  /** rx_fifo_write: a byte arrives. It is lost, and the loss is flagged, exactly when the queue is full. */
  function Arrive(q: Queue, b: Byte): Queue {
    if |q.items| == Capacity(q) then q.(overrun := true) else q.(items := q.items + [b])
  }

  /** rx_fifo_read. */
  function Deliver(q: Queue): Queue {
    if q.items == [] then q.(underrun := true) else q.(items := q.items[1..])
  }

  function Clear(q: Queue): Queue {
    Queue(q.fifo, [], false, false)
  }

  /** A write of the FIFO control register: changing bit 0 empties the queue, and so does bit 1. */
  predicate Empties(q: Queue, value: Byte) {
    (value % 2 == 1) != q.fifo || value / 2 % 2 == 1
  }

  function Control(q: Queue, value: Byte): Queue {
    (if Empties(q, value) then Clear(q) else q).(fifo := value % 2 == 1)
  }

  /** A read of the line status register clears the overrun flag. */
  function StatusRead(q: Queue): Queue {
    q.(overrun := false)
  }

  /** Data ready, overrun, and the two transmitter-empty bits. */
  function StatusValue(q: Queue): (v: nat)
    ensures v < 256
  {
    0x60 + (if q.items != [] then 1 else 0) + (if q.overrun then 2 else 0)
  }

  // ---------------------------------------------------------------- runs

  /** Input is Some(b) when the host has a byte waiting as the device polls. */
  datatype Event = Poll(input: Option<Byte>) | ReadData | ReadStatus | WriteControl(value: Byte) | Reset

  /** uart16550_poll_input leaves the byte with the host while the ring is full. */
  predicate Receives(q: Queue, ev: Event) {
    ev.Poll? && ev.input.Some? && |q.items| < DEPTH
  }

  predicate Drops(q: Queue, ev: Event) {
    Receives(q, ev) && |q.items| == Capacity(q)
  }

  predicate Delivers(q: Queue, ev: Event) {
    ev.ReadData? && q.items != []
  }

  predicate Discards(q: Queue, ev: Event) {
    ev.Reset? || (ev.WriteControl? && Empties(q, ev.value))
  }

  function Step(q: Queue, ev: Event): Queue {
    match ev
    case Poll(_) => if Receives(q, ev) then Arrive(q, ev.input.value) else q
    case ReadData => Deliver(q)
    case ReadStatus => StatusRead(q)
    case WriteControl(value) => Control(q, value)
    case Reset => ResetQueue
  }

  function Run(evs: seq<Event>): Queue {
    if evs == [] then ResetQueue else Step(Run(evs[..|evs| - 1]), evs[|evs| - 1])
  }

  /** Never more than the capacity of the current mode; and with the FIFO on the poll guard leaves nothing to drop. */
  lemma {:induction false} ReachableOk(evs: seq<Event>, ev: Event)
    ensures Ok(Run(evs))
    ensures Run(evs).fifo ==> !Drops(Run(evs), ev)
  {
    if evs != [] {
      ReachableOk(evs[..|evs| - 1], ev);
    }
  }

  // ---------------------------------------------------------------- the fate of every byte

  datatype Fate = Queued | Delivered | Dropped | Discarded

  datatype Receipt = Receipt(byte: Byte, fate: Fate)

  /** The bytes with a given fate, in the order they were received. */
  function With(log: seq<Receipt>, fate: Fate): seq<Byte> {
    if log == [] then []
    else With(log[..|log| - 1], fate) + OneWith(log[|log| - 1], fate)
  }

  function OneWith(r: Receipt, fate: Fate): seq<Byte> {
    if r.fate == fate then [r.byte] else []
  }

  /** The oldest queued byte is delivered. */
  function DeliverFirst(log: seq<Receipt>): (r: seq<Receipt>)
    ensures |r| == |log| && forall i :: 0 <= i < |log| ==> r[i].byte == log[i].byte
  {
    if log == [] then []
    else
      var front, last := log[..|log| - 1], log[|log| - 1];
      if With(front, Queued) != [] then DeliverFirst(front) + [last]
      else front + [if last.fate == Queued then last.(fate := Delivered) else last]
  }

  /** All queued bytes are discarded. */
  function DiscardAll(log: seq<Receipt>): seq<Receipt> {
    seq(|log|, i requires 0 <= i < |log| => if log[i].fate == Queued then log[i].(fate := Discarded) else log[i])
  }

  /** What an event does to the receipts. */
  function Book(log: seq<Receipt>, q: Queue, ev: Event): seq<Receipt> {
    if Receives(q, ev) then log + [Receipt(ev.input.value, if Drops(q, ev) then Dropped else Queued)]
    else if Delivers(q, ev) then DeliverFirst(log)
    else if Discards(q, ev) then DiscardAll(log)
    else log
  }

  /** One receipt per byte taken from the host, with what has become of it. */
  function Log(evs: seq<Event>): seq<Receipt> {
    if evs == [] then [] else Book(Log(evs[..|evs| - 1]), Run(evs[..|evs| - 1]), evs[|evs| - 1])
  }

  /** The byte an event takes from the host, and the byte it hands to software. */
  function Taken(q: Queue, ev: Event): seq<Byte> {
    if Receives(q, ev) then [ev.input.value] else []
  }

  function Given(q: Queue, ev: Event): seq<Byte> {
    if Delivers(q, ev) then [q.items[0]] else []
  }

  function Received(evs: seq<Event>): seq<Byte> {
    if evs == [] then [] else Received(evs[..|evs| - 1]) + Taken(Run(evs[..|evs| - 1]), evs[|evs| - 1])
  }

  function Handed(evs: seq<Event>): seq<Byte> {
    if evs == [] then [] else Handed(evs[..|evs| - 1]) + Given(Run(evs[..|evs| - 1]), evs[|evs| - 1])
  }

  function Bytes(log: seq<Receipt>): seq<Byte> {
    seq(|log|, i requires 0 <= i < |log| => log[i].byte)
  }

  /** No byte is delivered ahead of an older one that still waits. */
  ghost predicate InOrder(log: seq<Receipt>) {
    forall i, j :: 0 <= i < j < |log| && log[i].fate == Queued ==> log[j].fate != Delivered
  }

  lemma {:induction false} NoneWith(log: seq<Receipt>, fate: Fate)
    ensures With(log, fate) == [] <==> forall i :: 0 <= i < |log| ==> log[i].fate != fate
  {
    if log != [] {
      NoneWith(log[..|log| - 1], fate);
    }
  }

  lemma WithLast(front: seq<Receipt>, last: Receipt, f: Fate)
    ensures With(front + [last], f) == With(front, f) + OneWith(last, f)
  {
    assert (front + [last])[..|front|] == front;
  }

  lemma AppendKeepsHead(a: seq<Byte>, b: seq<Byte>)
    requires a != []
    ensures (a + b)[0] == a[0] && (a + b)[1..] == a[1..] + b
  {
  }

  /** The oldest queued byte leaves the queue .. */
  lemma {:induction false} DeliverFirstQueued(log: seq<Receipt>)
    requires With(log, Queued) != []
    ensures With(DeliverFirst(log), Queued) == With(log, Queued)[1..]
  {
    var front, last := log[..|log| - 1], log[|log| - 1];
    var waiting, tail := With(front, Queued), OneWith(last, Queued);
    assert With(log, Queued) == waiting + tail;
    if waiting != [] {
      DeliverFirstQueued(front);
      WithLast(DeliverFirst(front), last, Queued);
      AppendKeepsHead(waiting, tail);
    } else {
      WithLast(front, last.(fate := Delivered), Queued);
    }
  }

  /** .. and is delivered after all bytes delivered so far. */
  lemma {:induction false} DeliverFirstDelivered(log: seq<Receipt>)
    requires InOrder(log) && With(log, Queued) != []
    ensures With(DeliverFirst(log), Delivered) == With(log, Delivered) + [With(log, Queued)[0]]
  {
    var front, last := log[..|log| - 1], log[|log| - 1];
    var waiting, tail, given := With(front, Queued), OneWith(last, Queued), With(front, Delivered);
    assert With(log, Queued) == waiting + tail && With(log, Delivered) == given + OneWith(last, Delivered);
    NoneWith(front, Queued);
    if waiting != [] {
      assert OneWith(last, Delivered) == [];
      DeliverFirstDelivered(front);
      WithLast(DeliverFirst(front), last, Delivered);
      AppendKeepsHead(waiting, tail);
      assert given + [] == given && (given + [waiting[0]]) + [] == given + [waiting[0]];
    } else {
      WithLast(front, last.(fate := Delivered), Delivered);
    }
  }

  lemma {:induction false} DeliverFirstInOrder(log: seq<Receipt>)
    requires InOrder(log) && With(log, Queued) != []
    ensures InOrder(DeliverFirst(log))
    ensures forall i :: 0 <= i < |log| && DeliverFirst(log)[i].fate == Queued ==> log[i].fate == Queued
  {
    var front, last := log[..|log| - 1], log[|log| - 1];
    NoneWith(front, Queued);
    if With(front, Queued) != [] {
      DeliverFirstInOrder(front);
      assert last.fate != Delivered;
    }
  }

  lemma {:induction false} DiscardAllWith(log: seq<Receipt>, f: Fate)
    requires f != Discarded
    ensures With(DiscardAll(log), f) == if f == Queued then [] else With(log, f)
  {
    if log != [] {
      DiscardAllWith(log[..|log| - 1], f);
      DiscardLast(log);
    }
  }

  lemma DiscardLast(log: seq<Receipt>)
    requires log != []
    ensures DiscardAll(log)[..|log| - 1] == DiscardAll(log[..|log| - 1])
  {
  }

  lemma DiscardAllMoves(log: seq<Receipt>)
    ensures Bytes(DiscardAll(log)) == Bytes(log) && InOrder(DiscardAll(log))
    ensures With(DiscardAll(log), Queued) == [] && With(DiscardAll(log), Delivered) == With(log, Delivered)
  {
    DiscardAllWith(log, Queued);
    DiscardAllWith(log, Delivered);
  }

  lemma {:induction false} FatesPartition(log: seq<Receipt>)
    ensures |log| == |With(log, Queued)| + |With(log, Delivered)| + |With(log, Dropped)| + |With(log, Discarded)|
  {
    if log != [] {
      FatesPartition(log[..|log| - 1]);
    }
  }

  lemma AppendReceipt(log: seq<Receipt>, r: Receipt)
    requires InOrder(log) && r.fate != Delivered
    ensures InOrder(log + [r]) && Bytes(log + [r]) == Bytes(log) + [r.byte]
    ensures forall f :: With(log + [r], f) == With(log, f) + OneWith(r, f)
  {
    assert (log + [r])[..|log|] == log;
  }

  /** The books agree with what is seen from outside. */
  ghost predicate Balanced(log: seq<Receipt>, q: Queue, received: seq<Byte>, handed: seq<Byte>) {
    InOrder(log) && Bytes(log) == received && With(log, Queued) == q.items && With(log, Delivered) == handed
  }

  lemma BalancedDelivery(log: seq<Receipt>, q: Queue, received: seq<Byte>, handed: seq<Byte>)
    requires Balanced(log, q, received, handed) && q.items != []
    ensures Balanced(DeliverFirst(log), Deliver(q), received, handed + [q.items[0]])
  {
    DeliverFirstQueued(log);
    DeliverFirstDelivered(log);
    DeliverFirstInOrder(log);
    assert Bytes(DeliverFirst(log)) == Bytes(log);
  }

  lemma BalancedStep(log: seq<Receipt>, q: Queue, received: seq<Byte>, handed: seq<Byte>, ev: Event)
    requires Balanced(log, q, received, handed)
    ensures Balanced(Book(log, q, ev), Step(q, ev), received + Taken(q, ev), handed + Given(q, ev))
  {
    if Receives(q, ev) {
      AppendReceipt(log, Receipt(ev.input.value, if Drops(q, ev) then Dropped else Queued));
    } else if Delivers(q, ev) {
      BalancedDelivery(log, q, received, handed);
    } else if Discards(q, ev) {
      DiscardAllMoves(log);
    }
  }

  /** Over every run: software is handed the received bytes in order, apart from those dropped on overrun or discarded
      by a clear; those that wait are the queue; and every received byte is exactly one of the four. */
  lemma {:induction false} Conservation(evs: seq<Event>)
    ensures Balanced(Log(evs), Run(evs), Received(evs), Handed(evs))
    ensures |Received(evs)| == |Handed(evs)| + |Run(evs).items| + |With(Log(evs), Dropped)|
        + |With(Log(evs), Discarded)|
  {
    if evs != [] {
      var before := evs[..|evs| - 1];
      Conservation(before);
      BalancedStep(Log(before), Run(before), Received(before), Handed(before), evs[|evs| - 1]);
    }
    FatesPartition(Log(evs));
  }

  /** One event sets the overrun flag by a drop and clears it by a status read, a clear or a reset. */
  lemma OverrunStep(q: Queue, ev: Event)
    ensures Step(q, ev).overrun <==> Drops(q, ev) || (q.overrun && !Clears(q, ev))
  {
  }

  predicate Clears(q: Queue, ev: Event) {
    ev.ReadStatus? || Discards(q, ev)
  }

  predicate ClearsAt(evs: seq<Event>, k: nat)
    requires k < |evs|
  {
    Clears(Run(evs[..k]), evs[k])
  }

  /** A byte was dropped by event k of the run, and nothing has cleared the flag since. */
  predicate DroppedAt(evs: seq<Event>, k: nat)
    requires k < |evs|
  {
    Drops(Run(evs[..k]), evs[k]) && forall j :: k < j < |evs| ==> !ClearsAt(evs, j)
  }

  /** Over every run: what is lost is flagged until software looks or clears. The overrun bit is set exactly when a byte
      was dropped since the last status read, clear or reset. */
  lemma {:induction false} OverrunIsFlagged(evs: seq<Event>)
    ensures Run(evs).overrun <==> exists k :: 0 <= k < |evs| && DroppedAt(evs, k)
  {
    if evs != [] {
      var before, last := evs[..|evs| - 1], |evs| - 1;
      OverrunIsFlagged(before);
      OverrunStep(Run(before), evs[last]);
      forall k | 0 <= k < last
        ensures DroppedAt(evs, k) <==> DroppedAt(before, k) && !Clears(Run(before), evs[last])
      {
        DroppedBefore(evs, k);
      }
      assert Drops(Run(before), evs[last]) ==> DroppedAt(evs, last);
    }
  }

  /** What event k did is the same in the run without the last event. */
  lemma SameBefore(evs: seq<Event>, k: nat)
    requires k + 1 < |evs|
    ensures var before := evs[..|evs| - 1];
            before[..k] == evs[..k] && before[k] == evs[k] && (ClearsAt(before, k) <==> ClearsAt(evs, k))
  {
    assert evs[..|evs| - 1][..k] == evs[..k];
  }

  lemma DroppedBefore(evs: seq<Event>, k: nat)
    requires k + 1 < |evs|
    ensures var before, last := evs[..|evs| - 1], |evs| - 1;
            DroppedAt(evs, k) <==> DroppedAt(before, k) && !ClearsAt(evs, last)
  {
    var last := |evs| - 1;
    forall j | 0 <= j < last
      ensures ClearsAt(evs[..last], j) <==> ClearsAt(evs, j)
    {
      SameBefore(evs, j);
    }
    SameBefore(evs, k);
  }

  // ---------------------------------------------------------------- registers

  /** The registers that only hold what software wrote, and the constant ones. */
  datatype Regs = Regs(thr: Byte, ier: Byte, iir: Byte, fcr: Byte, lcr: Byte, mcr: Byte, msr: Byte, scr: Byte,
                       dll: Byte, dlm: Byte)

  datatype Device = Device(queue: Queue, regs: Regs)

  const ResetRegs: Regs := Regs(0, 0, 0xC1, 0xC1, 0x3, 0, 0, 0, 0, 0)

  /** Divisor latch access: bit 7 of LCR. */
  predicate Dlab(r: Regs) {
    r.lcr >= 128
  }

  /** uart16550_read: the byte, or None where the access is rejected. */
  function ReadValue(d: Device, offset: nat, size: nat): Option<Byte> {
    if size != 1 then None
    else match offset
      case 0 => Some(if Dlab(d.regs) then d.regs.dll else if d.queue.items == [] then 0 else d.queue.items[0])
      case 1 => Some(if Dlab(d.regs) then d.regs.dlm else d.regs.ier)
      case 2 => Some(d.regs.iir)
      case 3 => Some(d.regs.lcr)
      case 4 => Some(d.regs.mcr)
      case 5 => Some(StatusValue(d.queue))
      case 6 => Some(d.regs.msr)
      case 7 => Some(d.regs.scr)
      case _ => None
  }

  /** Its effect: only the data and status registers have one. */
  function Read(d: Device, offset: nat, size: nat): Device {
    if size == 1 && offset == 0 && !Dlab(d.regs) then d.(queue := Step(d.queue, ReadData))
    else if size == 1 && offset == 5 then d.(queue := Step(d.queue, ReadStatus))
    else d
  }

  predicate WriteAccepted(offset: nat, size: nat) {
    size == 1 && offset < 8
  }

  /** uart16550_write. */
  function Write(d: Device, offset: nat, size: nat, value: Byte): Device {
    if size != 1 then d
    else match offset
      case 0 => d.(regs := if Dlab(d.regs) then d.regs.(dll := value) else d.regs.(thr := value))
      case 1 => d.(regs := if Dlab(d.regs) then d.regs.(dlm := value) else d.regs.(ier := value))
      case 2 => d.(queue := Step(d.queue, WriteControl(value)), regs := d.regs.(fcr := value))
      case 3 => d.(regs := d.regs.(lcr := value))
      case 4 => d.(regs := d.regs.(mcr := value))
      case 7 => d.(regs := d.regs.(scr := value))
      case _ => d
  }

  /** The line status register: data ready, overrun, and both transmitter bits; reading it clears the overrun. Reading
      the data register takes the oldest byte, or delivers 0. Writing FCR empties the queue if it changes the mode or
      asks for it, and sets the mode. */
  lemma QueueRegisters(d: Device, v: Byte)
    ensures ReadValue(d, 5, 1)
         == Some(0x60 + (if d.queue.items != [] then 1 else 0) + (if d.queue.overrun then 2 else 0))
    ensures Read(d, 5, 1) == d.(queue := d.queue.(overrun := false))
    ensures d.regs.lcr < 128 ==>
              && ReadValue(d, 0, 1) == Some(if d.queue.items == [] then 0 else d.queue.items[0])
              && (d.queue.items != [] ==> Read(d, 0, 1) == d.(queue := d.queue.(items := d.queue.items[1..])))
              && (d.queue.items == [] ==> Read(d, 0, 1) == d.(queue := d.queue.(underrun := true)))
    ensures var q, q' := d.queue, Write(d, 2, 1, v).queue;
            var on := v % 2 == 1;
            q' == if on != q.fifo || v / 2 % 2 == 1 then Queue(on, [], false, false) else q
  {
  }

  /** A byte from the host joins the queue, of 16 bytes with the FIFO on and of one with it off; a byte too many sets
      the overrun flag, and a full ring leaves it with the host. */
  lemma PollExact(q: Queue, b: Byte)
    ensures Step(q, Poll(None)) == q
    ensures Step(q, Poll(Some(b))) ==
            if |q.items| >= 16 then q
            else if !q.fifo && |q.items| == 1 then q.(overrun := true) else q.(items := q.items + [b])
  {
  }

  /** The other registers read back what was written, behind the divisor latch bit (LCR[7]) or not; they do not touch
      the queue, and an access of another size or beyond offset 7 is rejected. */
  lemma PlainRegisters(d: Device, v: Byte)
    ensures d.regs.lcr < 128 ==> ReadValue(Write(d, 1, 1, v), 1, 1) == Some(v)
    ensures d.regs.lcr >= 128 ==>
              ReadValue(Write(d, 0, 1, v), 0, 1) == Some(v) && ReadValue(Write(d, 1, 1, v), 1, 1) == Some(v)
    ensures ReadValue(Write(d, 3, 1, v), 3, 1) == Some(v) && ReadValue(Write(d, 4, 1, v), 4, 1) == Some(v)
    ensures ReadValue(Write(d, 7, 1, v), 7, 1) == Some(v) && ReadValue(d, 2, 1) == Some(d.regs.iir)
    ensures ReadValue(d, 6, 1) == Some(d.regs.msr) && Write(d, 6, 1, v) == d == Write(d, 5, 1, v)
    ensures forall k: nat :: k != 5 && (k != 0 || d.regs.lcr >= 128) ==> Read(d, k, 1) == d
    ensures forall k: nat :: k != 2 ==> Write(d, k, 1, v).queue == d.queue
    ensures forall k: nat, size: nat :: k >= 8 || size != 1 ==>
              ReadValue(d, k, size) == None && Write(d, k, size, v) == d && Read(d, k, size) == d
              && !WriteAccepted(k, size)
  {
  }

  // ---------------------------------------------------------------- the interrupt

  /** fifo_interrupt_level. */
  function Trigger(fcr: Byte): (level: nat)
    ensures level > 0
  {
    if fcr / 64 == 0 then 1 else if fcr / 64 == 1 then 4 else if fcr / 64 == 2 then 8 else 14
  }

  predicate LineStatus(d: Device) {
    d.regs.ier / 4 % 2 == 1 && d.queue.overrun
  }

  predicate DataAvailable(d: Device) {
    d.regs.ier % 2 == 1 && |d.queue.items| >= if d.queue.fifo then Trigger(d.regs.fcr) else 1
  }

  /** The source raises the timeout whenever a byte waits. */
  predicate Timeout(d: Device) {
    d.regs.ier % 2 == 1 && d.queue.items != []
  }

  predicate TransmitterEmpty(d: Device) {
    d.regs.ier / 2 % 2 == 1
  }

  /** uart16550_irq_level. */
  predicate Level(d: Device) {
    LineStatus(d) || DataAvailable(d) || Timeout(d) || TransmitterEmpty(d)
  }

  /** The identification bits it leaves in IIR; without an interrupt they stay. */
  function Identification(d: Device): (id: nat)
    ensures id < 8
  {
    if LineStatus(d) then 3 else if DataAvailable(d) then 2 else if Timeout(d) then 6
    else if TransmitterEmpty(d) then 1 else d.regs.iir / 2 % 8
  }

  /** A byte of bits 7..6, 5..4, 3..1 and 0. */
  function Fields(mode: nat, kept: nat, id: nat, low: nat): (r: Byte)
    requires mode < 4 && kept < 4 && id < 8 && low < 2
  {
    64 * mode + 16 * kept + 2 * id + low
  }

  lemma FieldsOf(mode: nat, kept: nat, id: nat, low: nat)
    requires mode < 4 && kept < 4 && id < 8 && low < 2
    ensures var r := Fields(mode, kept, id, low);
            r % 2 == low && r / 2 == 32 * mode + 8 * kept + id && r / 2 % 8 == id
    ensures var r := Fields(mode, kept, id, low);
            r / 16 == 4 * mode + kept && r / 16 % 4 == kept && r / 64 == mode && r % 64 == 16 * kept + 2 * id + low
  {
  }

  lemma FieldsCover(r: Byte)
    ensures r == Fields(r / 64, r / 16 % 4, r / 2 % 8, r % 2)
  {
    var a, b := r / 2, r / 16;
    assert r == 2 * a + r % 2 && a == 8 * b + a % 8;
    assert b == 4 * (b / 4) + b % 4 && b / 4 == r / 64;
  }

  /** IIR with a new mode, identification and line. */
  function IirOf(iir: Byte, fifo: bool, id: nat, level: bool): Byte
    requires id < 8
  {
    Fields(if fifo then 3 else 0, iir / 16 % 4, id, if level then 0 else 1)
  }

  function Identified(d: Device): Device {
    d.(regs := d.regs.(iir := IirOf(d.regs.iir, d.queue.fifo, Identification(d), Level(d))))
  }

  /** Bit 0, bits 7..6 and bits 3..1 replaced in turn. */
  function WithLevel(iir: Byte, level: bool): Byte {
    iir / 2 * 2 + (if level then 0 else 1)
  }

  function WithMode(iir: Byte, fifo: bool): Byte {
    iir % 64 + (if fifo then 0xC0 else 0)
  }

  function WithId(iir: Byte, id: nat): Byte
    requires id < 8
  {
    iir / 16 * 16 + 2 * id + iir % 2
  }

  lemma IirSteps(iir: Byte, fifo: bool, id: nat, level: bool)
    requires id < 8
    ensures var r := WithMode(WithLevel(iir, level), fifo);
            r == IirOf(iir, fifo, iir / 2 % 8, level) && WithId(r, id) == IirOf(iir, fifo, id, level)
  {
    var mode, kept, was, low := iir / 64, iir / 16 % 4, iir / 2 % 8, if level then 0 else 1;
    FieldsCover(iir);
    FieldsOf(mode, kept, was, iir % 2);
    FieldsOf(mode, kept, was, low);
    FieldsOf(if fifo then 3 else 0, kept, was, low);
  }

  /** The trigger level of FCR never decides whether the line is high: a waiting byte is enough. IIR shows the line, the
      cause of highest priority and the mode. */
  lemma InterruptExact(d: Device)
    ensures Level(d) <==>
            || (d.regs.ier / 4 % 2 == 1 && d.queue.overrun) || (d.regs.ier % 2 == 1 && d.queue.items != [])
            || d.regs.ier / 2 % 2 == 1
    ensures var iir := Identified(d).regs.iir;
            var data, level := d.regs.ier % 2 == 1, if !d.queue.fifo then 1 else [1, 4, 8, 14][d.regs.fcr / 64];
            && (iir % 2 == 0 <==> Level(d))
            && iir / 2 % 8 ==
                 (if d.regs.ier / 4 % 2 == 1 && d.queue.overrun then 3
                  else if data && |d.queue.items| >= level then 2
                  else if data && d.queue.items != [] then 6
                  else if d.regs.ier / 2 % 2 == 1 then 1 else d.regs.iir / 2 % 8)
            && iir / 64 == (if d.queue.fifo then 3 else 0) && iir / 16 % 4 == d.regs.iir / 16 % 4
  {
    FieldsOf(if d.queue.fifo then 3 else 0, d.regs.iir / 16 % 4, Identification(d), if Level(d) then 0 else 1);
  }

  // ---------------------------------------------------------------- the ring

  /** The bytes of the ring from position rd on. */
  function Waiting(ring: seq<Byte>, rd: nat, size: nat): seq<Byte>
    requires |ring| == DEPTH
  {
    seq(size, i requires 0 <= i < size => ring[(rd + i) % DEPTH])
  }

  lemma PutExtends(ring: seq<Byte>, rd: nat, size: nat, b: Byte)
    requires |ring| == DEPTH && rd < DEPTH && size < DEPTH
    ensures Waiting(ring[(rd + size) % DEPTH := b], rd, size + 1) == Waiting(ring, rd, size) + [b]
  {
  }

  lemma NextSlot(rd: nat, size: nat)
    ensures ((rd + size) % DEPTH + 1) % DEPTH == (rd + (size + 1)) % DEPTH
  {
  }

  lemma GetShortens(ring: seq<Byte>, rd: nat, size: nat)
    requires |ring| == DEPTH && rd < DEPTH && 0 < size <= DEPTH
    ensures Waiting(ring, rd, size) == [ring[rd]] + Waiting(ring, (rd + 1) % DEPTH, size - 1)
  {
  }

  /** The receiver of uart16550_t. */
  class Receiver {
    const data: array<Byte>
    var rd: nat
    var wr: nat
    var size: nat
    var overrun: bool
    var underrun: bool
    var regs: Regs

    ghost predicate Valid()
      reads this, data
    {
      && data.Length == DEPTH && rd < DEPTH && size <= (if regs.fcr % 2 == 1 then DEPTH else 1)
      && wr == (rd + size) % DEPTH
    }

    /** The bytes waiting in the ring, oldest first. */
    ghost function Contents(): seq<Byte>
      requires Valid()
      reads this, data
    {
      Waiting(data[..], rd, size)
    }

    ghost function View(): Queue
      requires Valid()
      reads this, data
    {
      Queue(regs.fcr % 2 == 1, Contents(), overrun, underrun)
    }

    ghost function Registers(): Device
      requires Valid()
      reads this, data
    {
      Device(View(), regs)
    }

    /** uart16550_init. */
    constructor ()
      ensures Valid() && Registers() == Device(ResetQueue, ResetRegs) && fresh(data)
    {
      data := new Byte[DEPTH](_ => 0);
      rd, wr, size := 0, 0, 0;
      overrun, underrun := false, false;
      regs := ResetRegs;
    }

    /** rx_fifo_clear. */
    method ClearRing()
      requires Valid()
      modifies this
      ensures Valid() && View() == Clear(old(View())) && regs == old(regs)
    {
      size, wr, rd := 0, 0, 0;
      overrun, underrun := false, false;
    }

    /** uart16550_reset. */
    method ResetDevice()
      requires Valid()
      modifies this
      ensures Valid() && Registers() == Device(ResetQueue, ResetRegs)
    {
      regs := ResetRegs;
      size, wr, rd := 0, 0, 0;
      overrun, underrun := false, false;
    }

    /** rx_fifo_write. */
    method PutByte(b: Byte)
      requires Valid()
      modifies this, data
      ensures Valid() && View() == Arrive(old(View()), b) && regs == old(regs)
    {
      var fifo := regs.fcr % 2 == 1;
      if !fifo && size == 1 {
        overrun := true;
        return;
      }
      if fifo && size == DEPTH {
        overrun := true;
        return;
      }
      ghost var ring := data[..];
      PutExtends(ring, rd, size, b);
      NextSlot(rd, size);
      data[wr] := b;
      size := size + 1;
      wr := (wr + 1) % DEPTH;
      assert data[..] == ring[old(wr) := b];
    }

    /** rx_fifo_read. */
    method GetByte() returns (b: Byte)
      requires Valid()
      modifies this
      ensures Valid() && View() == Deliver(old(View())) && regs == old(regs)
      ensures b == if old(Contents()) == [] then 0 else old(Contents())[0]
    {
      if size == 0 {
        underrun := true;
        return 0;
      }
      GetShortens(data[..], rd, size);
      size := size - 1;
      b := data[rd];
      rd := (rd + 1) % DEPTH;
    }

    /** uart16550_poll_input, given the byte the host has waiting. */
    method PollInput(input: Option<Byte>) returns (taken: bool)
      requires Valid()
      modifies this, data
      ensures Valid() && View() == Step(old(View()), Poll(input)) && regs == old(regs)
      ensures taken == Receives(old(View()), Poll(input))
    {
      taken := false;
      if size < DEPTH && input.Some? {
        PutByte(input.value);
        taken := true;
      }
    }

    /** A write of the FIFO control register. */
    method WriteFcr(value: Byte)
      requires Valid()
      modifies this
      ensures Valid() && View() == Step(old(View()), WriteControl(value)) && regs == old(regs).(fcr := value)
    {
      if (value % 2 == 1) != (regs.fcr % 2 == 1) {
        ClearRing();
      }
      if value / 2 % 2 == 1 {
        ClearRing();
      }
      regs := regs.(fcr := value);
    }

    /** A read of the line status register. */
    method ReadLsr() returns (value: nat)
      requires Valid()
      modifies this
      ensures Valid() && View() == Step(old(View()), ReadStatus) && regs == old(regs)
      ensures value == StatusValue(old(View()))
    {
      value := 0x60 + (if size > 0 then 1 else 0) + (if overrun then 2 else 0);
      overrun := false;
    }

    /** uart16550_irq_level: the line, and IIR brought up to date. */
    method IrqLevel() returns (level: bool)
      requires Valid()
      modifies this
      ensures Valid() && Registers() == Identified(old(Registers())) && level == Level(old(Registers()))
    {
      var fifo, data := regs.fcr % 2 == 1, regs.ier % 2 == 1;
      var status := regs.ier / 4 % 2 == 1 && overrun;
      var available := data && (if fifo then size >= Trigger(regs.fcr) else size > 0);
      var timeout, empty := data && size > 0, regs.ier / 2 % 2 == 1;
      level := status || available || timeout || empty;
      ghost var d := Registers();
      IirSteps(regs.iir, fifo, Identification(d), level);
      var iir := WithMode(WithLevel(regs.iir, level), fifo);
      if status {
        iir := WithId(iir, 3);
      } else if available {
        iir := WithId(iir, 2);
      } else if timeout {
        iir := WithId(iir, 6);
      } else if empty {
        iir := WithId(iir, 1);
      }
      regs := regs.(iir := iir);
      assert Registers() == d.(regs := d.regs.(iir := iir));
    }

    /** uart16550_read. */
    method ReadReg(offset: nat, size: nat) returns (value: Option<Byte>)
      requires Valid()
      modifies this
      ensures Valid() && Registers() == Read(old(Registers()), offset, size)
      ensures value == ReadValue(old(Registers()), offset, size)
    {
      if size != 1 {
        return None;
      }
      match offset
      case 0 =>
        if !Dlab(regs) {
          var b := GetByte();
          value := Some(b);
        } else {
          value := Some(regs.dll);
        }
      case 1 => value := Some(if Dlab(regs) then regs.dlm else regs.ier);
      case 2 => value := Some(regs.iir);
      case 3 => value := Some(regs.lcr);
      case 4 => value := Some(regs.mcr);
      case 5 =>
        var v := ReadLsr();
        value := Some(v);
      case 6 => value := Some(regs.msr);
      case 7 => value := Some(regs.scr);
      case _ => value := None;
    }

    /** uart16550_write; what goes out to the host is left out. */
    method WriteReg(offset: nat, size: nat, value: Byte) returns (ok: bool)
      requires Valid()
      modifies this
      ensures Valid() && Registers() == Write(old(Registers()), offset, size, value)
      ensures ok == WriteAccepted(offset, size)
    {
      if size != 1 {
        return false;
      }
      ok := offset < 8;
      match offset
      case 0 => regs := if Dlab(regs) then regs.(dll := value) else regs.(thr := value);
      case 1 => regs := if Dlab(regs) then regs.(dlm := value) else regs.(ier := value);
      case 2 => WriteFcr(value);
      case 3 => regs := regs.(lcr := value);
      case 4 => regs := regs.(mcr := value);
      case 7 => regs := regs.(scr := value);
      case _ =>
    }
  }
}
