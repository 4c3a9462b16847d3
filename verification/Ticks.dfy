/** The millisecond clock: an unsigned 32-bit counter that wraps. */
module Ticks {
  const TWO_32 := 0x1_0000_0000

  type Clock = t: int | 0 <= t < TWO_32

  /** Milliseconds from `since` to `now` in unsigned 32-bit arithmetic. */
  function Age(now: Clock, since: Clock): Clock {
    (now - since) % TWO_32
  }

  /** The clock `elapsed` milliseconds later. */
  function After(start: Clock, elapsed: nat): Clock {
    (start + elapsed) % TWO_32
  }

  const PAIRING_WINDOW_MS := 300000

  /** The deadline of a window opened at `start`. */
  function Deadline(start: Clock): Clock {
    After(start, PAIRING_WINDOW_MS)
  }

  /** Five minutes. */
  lemma WindowIsFiveMinutes()
    ensures PAIRING_WINDOW_MS == 5 * 60 * 1000
  {
  }

  lemma AgeIsElapsed(since: Clock, elapsed: nat)
    requires elapsed < TWO_32
    ensures Age(After(since, elapsed), since) == elapsed
  {
    var now := After(since, elapsed);
    assert now == since + elapsed || now == since + elapsed - TWO_32;
  }

  /** Which ticks within one cycle of the clock find the window in time, told by the time that
      has really passed: a tick and a deadline on the same side of the wrap compare as they
      should; behind the wrap every tick is in time for a deadline before it, and before the
      wrap none is for a deadline behind it. */
  lemma InTime(start: Clock, elapsed: nat)
    requires elapsed < TWO_32
    ensures
      var tickWraps, deadlineWraps := start + elapsed >= TWO_32, start + PAIRING_WINDOW_MS >= TWO_32;
      After(start, elapsed) < Deadline(start) <==>
        if tickWraps == deadlineWraps then elapsed < PAIRING_WINDOW_MS else tickWraps
  {
    var now := After(start, elapsed);
    assert now == if start + elapsed >= TWO_32 then start + elapsed - TWO_32 else start + elapsed;
  }

  /** A pairing window; a tick at or after the deadline on the clock closes it. */
  datatype Window = Window(open: bool, deadline: Clock)

  function CloseIfDue(w: Window, now: Clock): Window {
    if w.open && now >= w.deadline then Window(false, 0) else w
  }

  /** One tick after another, at these clock readings. */
  function Ticked(w: Window, readings: seq<Clock>): Window
    decreases |readings|
  {
    if readings == [] then w else Ticked(CloseIfDue(w, readings[0]), readings[1..])
  }

  predicate AllBefore(readings: seq<Clock>, deadline: Clock) {
    forall i | 0 <= i < |readings| :: readings[i] < deadline
  }

  /** A window is open exactly when every tick so far was before its deadline on the clock. */
  lemma {:induction false} OpenWhileInTime(w: Window, readings: seq<Clock>)
    ensures Ticked(w, readings).open <==> w.open && AllBefore(readings, w.deadline)
    decreases |readings|
  {
    if readings != [] {
      var rest := readings[1..];
      OpenWhileInTime(CloseIfDue(w, readings[0]), rest);
      assert forall i | 0 < i < |readings| :: readings[i] == rest[i - 1];
      assert forall i | 0 <= i < |rest| :: rest[i] == readings[i + 1];
    }
  }

  /** The service's own copy of the pairing flag, once there is a service. */
  datatype ServiceFlag = NoService | Flag(pairingPossible: bool)

  function SetFlag(f: ServiceFlag, possible: bool): ServiceFlag {
    if f.NoService? then f else Flag(possible)
  }

  class Service {
    var isPairingPossible: bool

    constructor ()
      ensures !isPairingPossible
    {
      isPairingPossible := false;
    }

    method SetPairingPossible(possible: bool)
      modifies this
      ensures isPairingPossible == possible
    {
      isPairingPossible := possible;
    }
  }
}
