/** The power and reboot register of emulator/src/device/syscon.c. */
module Syscon {
  import opened Riscv

  const POWER_OFF: nat := 1
  const REBOOT: nat := 2

  datatype State = State(sysCtrl: nat, resetCause: nat, poweroff: bool, reboot: bool)

  /** syscon_read: the control register reads 0. */
  function ReadValue(s: State, offset: nat, size: nat): Option<nat> {
    if size != 4 then None else if offset == 0 then Some(0) else if offset == 4 then Some(s.resetCause) else None
  }

  predicate WriteAccepted(offset: nat, size: nat, value: nat) {
    size == 4 && offset == 0 && (value == POWER_OFF || value == REBOOT)
  }

  /** syscon_write: an unknown command is stored, though the access is reported as failed. */
  function Write(s: State, offset: nat, size: nat, value: nat): State {
    if size != 4 || offset != 0 then s
    else if value == POWER_OFF then s.(sysCtrl := value, poweroff := true)
    else if value == REBOOT then s.(sysCtrl := value, reboot := true, resetCause := 1)
    else s.(sysCtrl := value)
  }

  const ResetState: State := State(0, 0, false, false)

  datatype Access = Access(offset: nat, size: nat, value: nat)

  function Run(ws: seq<Access>): State {
    if ws == [] then ResetState
    else
      var w := ws[|ws| - 1];
      Write(Run(ws[..|ws| - 1]), w.offset, w.size, w.value)
  }

  /** Over every run of writes from power-on: a request stands exactly when a write of its command was accepted, the
      reset cause tells whether a reboot was requested, and neither can be read from the control register. */
  lemma {:induction false} RequestsExact(ws: seq<Access>)
    ensures var s := Run(ws);
            && (s.poweroff <==> exists k :: 0 <= k < |ws| && Accepts(ws[k], POWER_OFF))
            && (s.reboot <==> exists k :: 0 <= k < |ws| && Accepts(ws[k], REBOOT))
            && ReadValue(s, 4, 4) == Some(if s.reboot then 1 else 0) && ReadValue(s, 0, 4) == Some(0)
  {
    if ws != [] {
      var before, last := ws[..|ws| - 1], |ws| - 1;
      RequestsExact(before);
      assert forall k :: 0 <= k < last ==> before[k] == ws[k];
    }
  }

  /** The write is accepted as this command. */
  predicate Accepts(w: Access, command: nat) {
    w.value == command && WriteAccepted(w.offset, w.size, w.value)
  }

  /** A 4-byte write of 1 to offset 0 asks for power-off, one of 2 for a reboot, which leaves 1 in the cause register at
      offset 4. Any other value is kept, though the access is reported as failed; no other access does anything. */
  lemma CommandsExact(s: State, offset: nat, size: nat, value: nat)
    ensures WriteAccepted(offset, size, value) <==> offset == 0 && size == 4 && (value == 1 || value == 2)
    ensures Write(s, offset, size, value) ==
            if offset != 0 || size != 4 then s
            else State(value, if value == 2 then 1 else s.resetCause, s.poweroff || value == 1, s.reboot || value == 2)
    ensures ReadValue(s, offset, size) ==
            if size != 4 then None else if offset == 0 then Some(0)
            else if offset == 4 then Some(s.resetCause) else None
  {
  }

  class Control {
    var regs: State

    constructor ()
      ensures regs == ResetState
    {
      regs := ResetState;
    }

    method ReadReg(offset: nat, size: nat) returns (value: Option<nat>)
      ensures value == ReadValue(regs, offset, size)
    {
      if size != 4 {
        return None;
      }
      match offset
      case 0 => value := Some(0);
      case 4 => value := Some(regs.resetCause);
      case _ => value := None;
    }

    method WriteReg(offset: nat, size: nat, value: nat) returns (ok: bool)
      modifies this
      ensures regs == Write(old(regs), offset, size, value)
      ensures ok == WriteAccepted(offset, size, value)
    {
      if size != 4 || offset != 0 {
        return false;
      }
      regs := regs.(sysCtrl := value);
      if value == POWER_OFF {
        regs := regs.(poweroff := true);
        return true;
      }
      if value == REBOOT {
        regs := regs.(reboot := true, resetCause := 1);
        return true;
      }
      return false;
    }
  }
}
