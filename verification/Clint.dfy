/** The timer of emulator/src/device/clint.c: host nanoseconds are turned into 100 MHz ticks as the device is polled. */
module Clint {
  import opened Riscv
  import Arith

  const NS_PER_TICK: int := 10

  /** clint_t without its interrupt outputs. Host times are signed. */
  datatype State = State(msip: nat, mtime: nat, mtimecmp: nat, prev: int)

  predicate Ok(s: State) {
    s.msip < 2 && s.mtime < MODULUS && s.mtimecmp < MODULUS
  }

  /** clint_mtime_tick at host time now; C division truncates. */
  function Tick(s: State, now: int): State {
    var ticks := Arith.TruncDiv(now - s.prev, NS_PER_TICK);
    s.(mtime := (s.mtime + ticks) % MODULUS, prev := s.prev + ticks * NS_PER_TICK)
  }

  /** Polls at the given host times, oldest first. */
  function Polls(s: State, times: seq<int>): State {
    if times == [] then s else Tick(Polls(s, times[..|times| - 1]), times[|times| - 1])
  }

  ghost predicate Nondecreasing(from: int, times: seq<int>) {
    (forall i :: 0 <= i < |times| ==> from <= times[i]) && forall i, j :: 0 <= i < j < |times| ==> times[i] <= times[j]
  }

  /** Truncation leaves less than a tick behind, with the sign of the elapsed time. */
  lemma TicksLeave(elapsed: int)
    ensures var rest := elapsed - Arith.TruncDiv(elapsed, NS_PER_TICK) * NS_PER_TICK;
            (elapsed >= 0 ==> 0 <= rest < NS_PER_TICK) && (elapsed <= 0 ==> -NS_PER_TICK < rest <= 0)
  {
  }

  lemma AddTicks(mtime: int, k: int, ticks: int)
    ensures ((mtime + k) % MODULUS + ticks) % MODULUS == (mtime + (k + ticks)) % MODULUS
  {
    var q := (mtime + k) / MODULUS;
    assert (mtime + k) % MODULUS + ticks == mtime + (k + ticks) + (-q) * MODULUS;
    Arith.ModShift(mtime + (k + ticks), -q, MODULUS);
  }

  /** If mtime accounts for the time from `from` to prev, it still does after a poll. */
  lemma AccountedStep(m: State, value: nat, from: int, now: int)
    requires (m.prev - from) % NS_PER_TICK == 0 && m.mtime == (value + (m.prev - from) / NS_PER_TICK) % MODULUS
    ensures var m' := Tick(m, now);
            (m'.prev - from) % NS_PER_TICK == 0 && m'.mtime == (value + (m'.prev - from) / NS_PER_TICK) % MODULUS
  {
    var k, ticks := (m.prev - from) / NS_PER_TICK, Arith.TruncDiv(now - m.prev, NS_PER_TICK);
    AddTicks(value, k, ticks);
    assert Tick(m, now).prev - from == NS_PER_TICK * (k + ticks);
  }

  /** Whatever the host clock does, mtime has advanced by exactly the time accounted for in prev, and less than one tick
      of the last host time is unaccounted for. */
  lemma {:induction false} TimeIsAccounted(s: State, times: seq<int>)
    requires Ok(s)
    ensures var s' := Polls(s, times);
            && Ok(s') && s'.(mtime := s.mtime, prev := s.prev) == s
            && (s'.prev - s.prev) % NS_PER_TICK == 0
            && s'.mtime == (s.mtime + (s'.prev - s.prev) / NS_PER_TICK) % MODULUS
            && (times != [] ==> Arith.Abs(times[|times| - 1] - s'.prev) < NS_PER_TICK)
  {
    if times != [] {
      var before, now := times[..|times| - 1], times[|times| - 1];
      TimeIsAccounted(s, before);
      TicksLeave(now - Polls(s, before).prev);
      AccountedStep(Polls(s, before), s.mtime, s.prev, now);
    }
  }

  /** The ideal timer: the whole ticks since prev, and the rest carried. */
  function Ideal(s: State, now: int): State {
    var elapsed := now - s.prev;
    s.(mtime := (s.mtime + elapsed / NS_PER_TICK) % MODULUS, prev := now - elapsed % NS_PER_TICK)
  }

  lemma TickIsIdeal(s: State, before: int, now: int)
    requires s.prev <= before <= now
    ensures Tick(s, now) == Ideal(s, now)
    ensures Tick(Ideal(s, before), now) == Ideal(s, now)
  {
    var k := (before - s.prev) / NS_PER_TICK;
    AddTicks(s.mtime, k, (now - Ideal(s, before).prev) / NS_PER_TICK);
  }

  /** With a monotonic host clock, at any polling cadence, no tick is lost or gained: mtime advances in total by the
      whole ticks elapsed since the accumulator's start, and the remainder carried is 0 to 9 nanoseconds. */
  lemma {:induction false} NoDrift(s: State, times: seq<int>)
    requires times != [] && Nondecreasing(s.prev, times)
    ensures var s', last := Polls(s, times), times[|times| - 1];
            && s' == Ideal(s, last)
            && s'.mtime == (s.mtime + (last - s.prev) / NS_PER_TICK) % MODULUS
            && 0 <= last - s'.prev < NS_PER_TICK
  {
    var before, now := times[..|times| - 1], times[|times| - 1];
    if before != [] {
      NoDrift(s, before);
      TickIsIdeal(s, before[|before| - 1], now);
    } else {
      TickIsIdeal(s, now, now);
    }
  }

  // ---------------------------------------------------------------- registers

  /** clint_read: None where the access is rejected. Only some registers can be read by halves. */
  function ReadValue(s: State, offset: nat, size: nat): (v: Option<nat>)
    ensures v.Some? ==> size == 4 || size == 8
  {
    if offset == 0 && size == 4 then Some(s.msip)
    else if offset == 0x4000 && size == 8 then Some(s.mtimecmp)
    else if offset == 0x4000 && size == 4 then Some(s.mtimecmp % Arith.TWO32)
    else if offset == 0x4004 && size == 4 then Some(s.mtimecmp / Arith.TWO32)
    else if offset == 0xBFF8 && size == 8 then Some(s.mtime)
    else if offset == 0xBFF8 && size == 4 then Some(s.mtime % Arith.TWO32)
    else if offset == 0xBFFC && size == 4 then Some(s.mtime / Arith.TWO32)
    else None
  }

  predicate WriteAccepted(offset: nat, size: nat) {
    (offset == 0 && size == 4) || (offset == 0x4000 && size == 8) || (offset == 0xBFF8 && size == 8)
  }

  /** clint_write. */
  function Write(s: State, offset: nat, size: nat, value: nat): State {
    if !WriteAccepted(offset, size) then s
    else if offset == 0 then s.(msip := value % 2)
    else if offset == 0x4000 then s.(mtimecmp := value)
    else s.(mtime := value)
  }

  /** clint_irq_level: the software and the timer line. */
  predicate SoftwareLine(s: State) {
    s.msip == 1
  }

  predicate TimerLine(s: State) {
    s.mtime >= s.mtimecmp
  }

  /** The lines are high for a software interrupt that is set and from the time of the comparator on; the registers
      stand at the offsets 0, 0x4000 and 0xBFF8, of 4, 8 and 8 bytes. */
  lemma LinesExact(s: State, offset: nat, size: nat)
    requires Ok(s)
    ensures (SoftwareLine(s) <==> s.msip != 0) && (TimerLine(s) <==> s.mtimecmp <= s.mtime)
    ensures WriteAccepted(offset, size) <==> (offset, size) in {(0, 4), (0x4000, 8), (0xBFF8, 8)}
    ensures ReadValue(s, offset, size).Some? <==>
            (offset, size) in {(0, 4), (0x4000, 8), (0x4000, 4), (0x4004, 4), (0xBFF8, 8), (0xBFF8, 4), (0xBFFC, 4)}
    ensures ReadValue(s, 0, 4) == Some(s.msip) && ReadValue(s, 0x4000, 8) == Some(s.mtimecmp)
    ensures ReadValue(s, 0xBFF8, 8) == Some(s.mtime)
  {
  }

  datatype Register = Msip | Mtimecmp | Mtime | Nothing

  /** The register an offset belongs to. */
  function RegisterAt(offset: nat): Register {
    if offset == 0 then Msip
    else if offset == 0x4000 || offset == 0x4004 then Mtimecmp
    else if offset == 0xBFF8 || offset == 0xBFFC then Mtime
    else Nothing
  }

  /** A comparator or time value that is written is read back whole and as its two halves, msip reads back its lowest
      bit; no other register changes, and a rejected write changes nothing. */
  lemma ReadsBack(s: State, offset: nat, size: nat, value: nat, other: nat, width: nat)
    requires Ok(s) && value < MODULUS
    ensures var s' := Write(s, offset, size, value);
            && Ok(s') && s'.prev == s.prev
            && (!WriteAccepted(offset, size) ==> s' == s)
            && (RegisterAt(other) != RegisterAt(offset) ==> ReadValue(s', other, width) == ReadValue(s, other, width))
    ensures WriteAccepted(offset, size) ==>
              var s' := Write(s, offset, size, value);
              if offset == 0 then ReadValue(s', 0, 4) == Some(value % 2)
              else
                && ReadValue(s', offset, 8) == Some(value)
                && var low, high := ReadValue(s', offset, 4), ReadValue(s', offset + 4, 4);
                   low.Some? && high.Some? && low.value < Arith.TWO32 && value == high.value * Arith.TWO32 + low.value
  {
  }

  datatype Event = Poll(now: int) | Store(offset: nat, size: nat, value: nat)

  predicate Sets(ev: Event, reg: Register) {
    ev.Store? && WriteAccepted(ev.offset, ev.size) && RegisterAt(ev.offset) == reg
  }

  function Do(s: State, ev: Event): State {
    match ev
    case Poll(now) => Tick(s, now)
    case Store(offset, size, value) => Write(s, offset, size, value)
  }

  function Run(s: State, evs: seq<Event>): State {
    if evs == [] then s else Do(Run(s, evs[..|evs| - 1]), evs[|evs| - 1])
  }

  ghost predicate Leaves(evs: seq<Event>, reg: Register) {
    forall k :: 0 <= k < |evs| ==> !Sets(evs[k], reg) && (evs[k].Store? ==> evs[k].value < MODULUS)
  }

  /** A comparator value stays until the next one is written, over any polls and other stores. */
  lemma {:induction false} ComparatorStays(s: State, value: nat, evs: seq<Event>)
    requires value < MODULUS && Leaves(evs, Mtimecmp)
    ensures ReadValue(Run(Write(s, 0x4000, 8, value), evs), 0x4000, 8) == Some(value)
  {
    if evs != [] {
      ComparatorStays(s, value, evs[..|evs| - 1]);
    }
  }

  /** A time value that is written goes on from there, by the ticks accounted for since, over any polls and other
      stores. */
  lemma {:induction false} TimeGoesOn(s: State, value: nat, evs: seq<Event>)
    requires value < MODULUS && Leaves(evs, Mtime)
    ensures var s' := Run(Write(s, 0xBFF8, 8, value), evs);
            && (s'.prev - s.prev) % NS_PER_TICK == 0
            && ReadValue(s', 0xBFF8, 8) == Some((value + (s'.prev - s.prev) / NS_PER_TICK) % MODULUS)
  {
    if evs != [] {
      var before, last := evs[..|evs| - 1], evs[|evs| - 1];
      TimeGoesOn(s, value, before);
      if last.Poll? {
        AccountedStep(Run(Write(s, 0xBFF8, 8, value), before), value, s.prev, last.now);
      }
    }
  }

  /** The device in place. */
  class Timer {
    var regs: State

    /** clint_init at host time now. */
    constructor (now: int)
      ensures regs == State(0, 0, MODULUS - 1, now) && Ok(regs)
    {
      regs := State(0, 0, MODULUS - 1, now);
    }

    method MtimeTick(now: int)
      requires Ok(regs)
      modifies this
      ensures Ok(regs) && regs == Tick(old(regs), now)
    {
      var elapsed := now - regs.prev;
      var ticks := if elapsed < 0 then -(-elapsed / NS_PER_TICK) else elapsed / NS_PER_TICK;
      regs := regs.(mtime := (regs.mtime + ticks) % MODULUS);
      regs := regs.(prev := regs.prev + ticks * NS_PER_TICK);
    }

    method ReadReg(offset: nat, size: nat) returns (value: Option<nat>)
      ensures value == ReadValue(regs, offset, size)
    {
      match offset
      case 0 => value := if size == 4 then Some(regs.msip) else None;
      case 0x4000 => value := if size == 8 then Some(regs.mtimecmp) else if size == 4
          then Some(regs.mtimecmp % Arith.TWO32) else None;
      case 0x4004 => value := if size == 4 then Some(regs.mtimecmp / Arith.TWO32) else None;
      case 0xBFF8 => value := if size == 8 then Some(regs.mtime) else if size == 4 then Some(regs.mtime % Arith.TWO32)
          else None;
      case 0xBFFC => value := if size == 4 then Some(regs.mtime / Arith.TWO32) else None;
      case _ => value := None;
    }

    method WriteReg(offset: nat, size: nat, value: nat) returns (ok: bool)
      modifies this
      ensures regs == Write(old(regs), offset, size, value)
      ensures ok == WriteAccepted(offset, size)
    {
      ok := false;
      if offset == 0 && size == 4 {
        regs, ok := regs.(msip := value % 2), true;
      } else if offset == 0x4000 && size == 8 {
        regs, ok := regs.(mtimecmp := value), true;
      } else if offset == 0xBFF8 && size == 8 {
        regs, ok := regs.(mtime := value), true;
      }
    }
  }
}
