/** The limitation-of-power-consumption component: limit state and its triggers, the heartbeat
    watchdog on a wrapping 32-bit clock, and the pairing window mirrored in the service. */
module Lpc {

  import opened Ticks

  const HEARTBEAT_TIMEOUT_MS := 60000

  datatype Trigger = LimitActive(w: real) | LimitCleared

  datatype ShipState = Approved | DataExchange | HelloAbort | HelloRejected | StateError | OtherState

  datatype State = State(
    service: ServiceFlag,
    remoteSki: string, pairedSki: string, pendingSki: string,
    limitActive: bool, currentLimit: real, failsafe: real,
    heartbeatLost: bool, lastHeartbeat: Clock,
    pairing: bool, deadline: Clock,
    triggers: seq<Trigger>, requests: seq<string>)

  /** `ready` is whether entity and use case could be created behind the service. */
  datatype Event =
    | CreateService(now: Clock, ready: bool)
    | Loop(now: Clock)
    | Connected(ski: string, now: Clock)
    | Disconnected(ski: string)
    | ShipStateUpdate(ski: string, state: ShipState)
    | EnterPairing(now: Clock)
    | AcceptPairing
    | RejectPairing
    | ForgetPairing(ski: string, now: Clock)
    | PowerLimit(w: real, active: bool, now: Clock)
    | FailsafeLimit(w: real)
    | Heartbeat(now: Clock)

  predicate InvalidSki(ski: string) {
    ski == "unknown" || |ski| < 40
  }

  function ClosePairing(s: State): State {
    s.(pairing := false, deadline := 0, service := SetFlag(s.service, false))
  }

  function OpenPairing(s: State, now: Clock): State {
    s.(pairing := true, deadline := Deadline(now), service := SetFlag(s.service, true))
  }

  /** Every active limit fires; an inactive one fires only if a limit was active. */
  function ReceiveLimit(s: State, w: real, active: bool, now: Clock): State {
    var t := s.(currentLimit := w, heartbeatLost := false, lastHeartbeat := now);
    if active then t.(limitActive := true, triggers := s.triggers + [LimitActive(w)])
    else if s.limitActive then t.(limitActive := false, currentLimit := 0.0, triggers := s.triggers + [LimitCleared])
    else t
  }

  predicate WatchdogTrips(s: State, now: Clock) {
    s.limitActive && !s.heartbeatLost && s.lastHeartbeat > 0 && Age(now, s.lastHeartbeat) > HEARTBEAT_TIMEOUT_MS
  }

  /** Receiving the failsafe limit resets the lost flag again and restarts the heartbeat age. */
  function Tick(s: State, now: Clock): State {
    var w := if WatchdogTrips(s, now) then ReceiveLimit(s, s.failsafe, true, now) else s;
    if w.pairing && now >= w.deadline then ClosePairing(w).(pendingSki := "") else w
  }

  function ConnectSki(s: State, ski: string, now: Clock): State {
    var c := s.(pendingSki := ski);
    if s.remoteSki != "" && s.remoteSki == ski then c
    else if s.pairedSki == ski then c.(remoteSki := ski)
    else if s.pairing && now < s.deadline then c.(requests := s.requests + [ski])
    else c.(pendingSki := "")
  }

  function ForgetSki(s: State, ski: string): State {
    s.(pairedSki := if s.pairedSki == ski then "" else s.pairedSki,
       pendingSki := if s.pendingSki == ski then "" else s.pendingSki)
  }

  function Step(s: State, e: Event): State {
    match e
    case CreateService(now, ready) =>
      if s.service.Flag? then s
      else s.(service := Flag(false), lastHeartbeat := if ready then now else s.lastHeartbeat,
              remoteSki := if InvalidSki(s.remoteSki) then "" else s.remoteSki)
    case Loop(now) => if s.service.NoService? then s else Tick(s, now)
    case Connected(ski, now) => ConnectSki(s, ski, now)
    case Disconnected(ski) =>
      var d := ForgetSki(s, ski);
      if !s.limitActive then d
      else d.(limitActive := false, currentLimit := 0.0, triggers := s.triggers + [LimitCleared])
    case ShipStateUpdate(ski, Approved) => PairSki(s, ski)
    case ShipStateUpdate(ski, DataExchange) => PairSki(s, ski)
    case ShipStateUpdate(ski, OtherState) => s
    case ShipStateUpdate(ski, _) => s.(pendingSki := if s.pendingSki == ski then "" else s.pendingSki)
    case EnterPairing(now) => OpenPairing(s, now)
    case AcceptPairing => if s.pendingSki == "" then s else ClosePairing(s).(remoteSki := s.pendingSki)
    case RejectPairing => ClosePairing(s).(pendingSki := "")
    case ForgetPairing(ski, now) =>
      OpenPairing(ForgetSki(s, ski).(remoteSki := if s.remoteSki == ski then "" else s.remoteSki), now)
    case PowerLimit(w, active, now) => ReceiveLimit(s, w, active, now)
    case FailsafeLimit(w) => s.(failsafe := w)
    case Heartbeat(now) => s.(lastHeartbeat := now, heartbeatLost := false)
  }

  function PairSki(s: State, ski: string): State {
    if InvalidSki(ski) || s.pairedSki == ski then s
    else ClosePairing(s).(pairedSki := ski, pendingSki := "")
  }

  function Initial(remoteSki: string, failsafe: real): State {
    State(NoService, remoteSki, "", "", false, 0.0, failsafe, false, 0, false, 0, [], [])
  }

  function Run(s: State, events: seq<Event>): State
    decreases |events|
  {
    if events == [] then s else Run(Step(s, events[0]), events[1..])
  }

  // ---------------------------------------------------------------- every run

  /** A limit is in force exactly when the last trigger was an active one, and it is the one
      that trigger carried; a clearing always follows an active limit. */
  predicate LimitsAgree(s: State) {
    var n := |s.triggers|;
    && (s.limitActive <==> n > 0 && s.triggers[n - 1].LimitActive?)
    && (s.limitActive ==> s.currentLimit == s.triggers[n - 1].w)
    && (forall i | 0 <= i < n && s.triggers[i].LimitCleared? :: i > 0 && s.triggers[i - 1].LimitActive?)
  }

  /** The lost flag never outlives the callback that sets it, and a closed window has no
      deadline. */
  predicate AtRest(s: State) {
    !s.heartbeatLost && (!s.pairing ==> s.deadline == 0)
  }

  predicate Invariant(s: State) {
    LimitsAgree(s) && AtRest(s)
  }

  lemma ReceiveLimitAgrees(s: State, w: real, active: bool, now: Clock)
    requires LimitsAgree(s)
    ensures LimitsAgree(ReceiveLimit(s, w, active, now))
  {
  }

  /** Only limit messages, the watchdog and a disconnect touch the limit. */
  lemma LimitUntouched(s: State, e: Event)
    requires !e.PowerLimit? && !e.Disconnected? && !(e.Loop? && s.service.Flag? && WatchdogTrips(s, e.now))
    ensures
      var t := Step(s, e);
      t.limitActive == s.limitActive && t.currentLimit == s.currentLimit && t.triggers == s.triggers
  {
  }

  lemma StepKeepsLimits(s: State, e: Event)
    requires LimitsAgree(s)
    ensures LimitsAgree(Step(s, e))
  {
    if e.PowerLimit? {
      ReceiveLimitAgrees(s, e.w, e.active, e.now);
    } else if e.Loop? && s.service.Flag? && WatchdogTrips(s, e.now) {
      ReceiveLimitAgrees(s, s.failsafe, true, e.now);
    } else if !e.Disconnected? {
      LimitUntouched(s, e);
    }
  }

  lemma StepKeepsRest(s: State, e: Event)
    requires AtRest(s)
    ensures AtRest(Step(s, e))
  {
  }

  lemma {:induction false} RunKeepsInvariant(s: State, events: seq<Event>)
    requires Invariant(s)
    ensures Invariant(Run(s, events))
    decreases |events|
  {
    if events != [] {
      StepKeepsLimits(s, events[0]);
      StepKeepsRest(s, events[0]);
      RunKeepsInvariant(Step(s, events[0]), events[1..]);
    }
  }

  /** In every run from power-up the limit state agrees with the triggers fired. */
  lemma EveryRunAgrees(remoteSki: string, failsafe: real, events: seq<Event>)
    ensures Invariant(Run(Initial(remoteSki, failsafe), events))
  {
    RunKeepsInvariant(Initial(remoteSki, failsafe), events);
  }

  /** After a loop tick an active limit has a heartbeat no older than the timeout, unless the
      stamp is the zero that means no heartbeat, and an open window has time left. */
  lemma TickIsTimely(s: State, now: Clock)
    requires Invariant(s) && s.service.Flag?
    ensures
      var t := Step(s, Loop(now));
      && (t.limitActive && t.lastHeartbeat > 0 ==> Age(now, t.lastHeartbeat) <= HEARTBEAT_TIMEOUT_MS)
      && (t.pairing ==> now < t.deadline)
      && (WatchdogTrips(s, now) ==> t.limitActive && t.currentLimit == t.failsafe == s.failsafe)
  {
  }

  /** When the watchdog trips, told by the time since the last heartbeat: with a limit active, and
      only then, as soon as more than a minute has passed. */
  lemma TripsAfterAMinute(s: State, elapsed: nat)
    requires AtRest(s) && elapsed < TWO_32
    ensures
      WatchdogTrips(s, After(s.lastHeartbeat, elapsed)) <==>
      s.limitActive && s.lastHeartbeat > 0 && elapsed > 60000
  {
    AgeIsElapsed(s.lastHeartbeat, elapsed);
  }

  /** A tick within a minute of the last heartbeat leaves the received limit as it is, and one after
      it replaces an active limit by the failsafe value and fires its trigger. */
  lemma TickOnLimit(s: State, elapsed: nat)
    requires AtRest(s) && s.service.Flag? && elapsed < TWO_32 && s.lastHeartbeat > 0
    ensures
      var t := Step(s, Loop(After(s.lastHeartbeat, elapsed)));
      if s.limitActive && elapsed > 60000
      then t.limitActive && t.currentLimit == s.failsafe && t.triggers == s.triggers + [LimitActive(s.failsafe)]
      else t.limitActive == s.limitActive && t.currentLimit == s.currentLimit && t.triggers == s.triggers
  {
    TripsAfterAMinute(s, elapsed);
  }

  /** A peer identifier needs forty characters; the word for an unknown one is shorter anyway. */
  lemma ShortSkisAreInvalid(ski: string)
    ensures InvalidSki(ski) <==> |ski| <= 39
  {
  }

  /** A value that was the failsafe limit at some point of the run. */
  predicate WasFailsafe(failsafe: real, events: seq<Event>, w: real) {
    w == failsafe || FailsafeLimit(w) in events
  }

  /** Once the watchdog has tripped, a limit stays in force until a limit message or a
      disconnect: the one it applied, or a failsafe value applied by a later trip. */
  lemma {:induction false} FailsafeStaysInForce(s: State, events: seq<Event>)
    requires s.limitActive && s.currentLimit == s.failsafe
    requires forall i | 0 <= i < |events| :: !events[i].PowerLimit? && !events[i].Disconnected?
    ensures var t := Run(s, events); t.limitActive && WasFailsafe(s.failsafe, events, t.currentLimit)
  {
    LimitIsHeld(s, events);
  }

  lemma {:induction false} LimitIsHeld(s: State, events: seq<Event>)
    requires s.limitActive
    requires forall i | 0 <= i < |events| :: !events[i].PowerLimit? && !events[i].Disconnected?
    ensures
      var t := Run(s, events);
      t.limitActive && (t.currentLimit == s.currentLimit || WasFailsafe(s.failsafe, events, t.currentLimit))
    decreases |events|
  {
    if events != [] {
      var e := events[0];
      var next := Step(s, e);
      if !(e.Loop? && s.service.Flag? && WatchdogTrips(s, e.now)) {
        LimitUntouched(s, e);
      }
      assert next.limitActive && (next.currentLimit == s.currentLimit || next.currentLimit == s.failsafe);
      assert next.failsafe == s.failsafe || e == FailsafeLimit(next.failsafe);
      LimitIsHeld(next, events[1..]);
      assert forall w :: FailsafeLimit(w) in events[1..] ==> FailsafeLimit(w) in events;
    }
  }

  // ---------------------------------------------------------------- the mirrored flag

  /** What the component believes about the window is what the service answers. */
  predicate InSync(s: State) {
    s.service.Flag? ==> s.service.pairingPossible == s.pairing
  }

  /** Creating the service starts its flag at false, whatever the window; everything else keeps
      the two together. */
  lemma StepKeepsSync(s: State, e: Event)
    requires InSync(s)
    ensures InSync(Step(s, e)) <==> !(e.CreateService? && s.service.NoService? && s.pairing)
  {
  }

  /** No service is created while a window is open. */
  predicate CreatedClosed(s: State, events: seq<Event>)
    decreases |events|
  {
    events == [] ||
    (!(events[0].CreateService? && s.service.NoService? && s.pairing) && CreatedClosed(Step(s, events[0]), events[1..]))
  }

  lemma {:induction false} RunKeepsSync(s: State, events: seq<Event>)
    requires InSync(s) && CreatedClosed(s, events)
    ensures InSync(Run(s, events))
    decreases |events|
  {
    if events != [] {
      StepKeepsSync(s, events[0]);
      RunKeepsSync(Step(s, events[0]), events[1..]);
    }
  }

  predicate AlwaysInSync(s: State, events: seq<Event>)
    decreases |events|
  {
    InSync(s) && (events == [] || AlwaysInSync(Step(s, events[0]), events[1..]))
  }

  /** That is the only way out of step: a run stays in sync throughout exactly when its service is
      not created under an open window. */
  lemma {:induction false} OutOfSyncOnlyByEarlyWindow(s: State, events: seq<Event>)
    requires InSync(s)
    ensures AlwaysInSync(s, events) <==> CreatedClosed(s, events)
    decreases |events|
  {
    if events != [] {
      StepKeepsSync(s, events[0]);
      if InSync(Step(s, events[0])) {
        OutOfSyncOnlyByEarlyWindow(Step(s, events[0]), events[1..]);
      } else {
        assert events[1..] == [] || !AlwaysInSync(Step(s, events[0]), events[1..]);
      }
    }
  }

  /** A window opened before setup is open for the component and closed for the service. */
  lemma EarlyWindowIsOutOfSync(now: Clock)
    ensures !InSync(Run(Initial("", 4200.0), [EnterPairing(now), CreateService(now, true)]))
  {
    var s0 := Initial("", 4200.0);
    var es := [EnterPairing(now), CreateService(now, true)];
    assert es[1..] == [CreateService(now, true)] && es[1..][1..] == [];
    assert Run(s0, es) == Run(Step(Step(s0, es[0]), es[1]), []);
  }

  /** The answer SHIP gets to its trust query, and the component's own time-checked one. */
  predicate ServiceAllowsTrust(s: State) {
    s.service.Flag? && s.service.pairingPossible
  }

  predicate ComponentAllowsTrust(s: State, now: Clock) {
    s.pairing && now < s.deadline
  }

  /** In sync, the two answers agree right after every tick, and in between the service is at
      most more permissive: it does not look at the clock. */
  lemma TrustAnswersAgreeAfterTick(s: State, now: Clock)
    requires Invariant(s) && InSync(s) && s.service.Flag?
    ensures var t := Step(s, Loop(now)); ServiceAllowsTrust(t) <==> ComponentAllowsTrust(t, now)
    ensures ComponentAllowsTrust(s, now) ==> ServiceAllowsTrust(s)
  {
  }

  /** Events other than ticks that do nothing to the window. */
  predicate LeavesWindow(e: Event) {
    match e
    case EnterPairing(_) => false
    case AcceptPairing => false
    case RejectPairing => false
    case ForgetPairing(_, _) => false
    case ShipStateUpdate(_, state) => state != Approved && state != DataExchange
    case _ => true
  }

  /** The clock readings of the run's ticks. */
  function Readings(events: seq<Event>): seq<Clock> {
    if events == [] then []
    else if events[0].Loop? then [events[0].now] + Readings(events[1..])
    else Readings(events[1..])
  }

  function WindowOf(s: State): Window {
    Window(s.pairing, s.deadline)
  }

  lemma WindowStep(s: State, e: Event)
    requires s.service.Flag? && LeavesWindow(e)
    ensures
      var next := Step(s, e);
      && next.service.Flag?
      && WindowOf(next) == if e.Loop? then CloseIfDue(WindowOf(s), e.now) else WindowOf(s)
  {
  }

  lemma {:induction false} WindowRuns(s: State, events: seq<Event>)
    requires s.service.Flag? && forall i | 0 <= i < |events| :: LeavesWindow(events[i])
    ensures WindowOf(Run(s, events)) == Ticked(WindowOf(s), Readings(events))
    decreases |events|
  {
    if events != [] {
      WindowStep(s, events[0]);
      WindowRuns(Step(s, events[0]), events[1..]);
      if events[0].Loop? {
        var readings := [events[0].now] + Readings(events[1..]);
        assert readings[1..] == Readings(events[1..]);
      }
    }
  }

  /** After any run that does not itself open or close it, a window is open exactly when every
      tick so far was before the deadline on the clock. */
  lemma WindowOverRun(s: State, start: Clock, events: seq<Event>)
    requires s.service.Flag? && forall i | 0 <= i < |events| :: LeavesWindow(events[i])
    ensures
      Run(Step(s, EnterPairing(start)), events).pairing <==> AllBefore(Readings(events), Deadline(start))
  {
    var open := Step(s, EnterPairing(start));
    WindowRuns(open, events);
    OpenWhileInTime(WindowOf(open), Readings(events));
  }

  /** So a tick closes a window before its five minutes are over exactly when the deadline has
      wrapped and the clock has not yet, and leaves it open beyond them exactly when the clock
      has wrapped and the deadline has not. */
  lemma WindowLength(s: State, start: Clock, elapsed: nat)
    requires s.service.Flag? && elapsed < TWO_32
    ensures
      var open := Step(Step(s, EnterPairing(start)), Loop(After(start, elapsed))).pairing;
      var tickWraps, deadlineWraps := start + elapsed >= TWO_32, start + PAIRING_WINDOW_MS >= TWO_32;
      && (elapsed < PAIRING_WINDOW_MS ==> (!open <==> deadlineWraps && !tickWraps))
      && (elapsed >= PAIRING_WINDOW_MS ==> (open <==> tickWraps && !deadlineWraps))
  {
    InTime(start, elapsed);
  }

  // ---------------------------------------------------------------- the component

  class Component {
    var service: Service?
    var remoteSki: string
    var pairedSki: string
    var pendingSki: string
    var limitActive: bool
    var currentLimit: real
    var failsafe: real
    var heartbeatLost: bool
    var lastHeartbeat: Clock
    var pairing: bool
    var deadline: Clock
    var triggers: seq<Trigger>
    var requests: seq<string>

    ghost function View(): State
      reads this, service
    {
      State(if service == null then NoService else Flag(service.isPairingPossible),
            remoteSki, pairedSki, pendingSki, limitActive, currentLimit, failsafe,
            heartbeatLost, lastHeartbeat, pairing, deadline, triggers, requests)
    }

    constructor (remoteSki: string, failsafe: real)
      ensures View() == Initial(remoteSki, failsafe) && service == null
    {
      this.service, this.remoteSki, this.failsafe := null, remoteSki, failsafe;
      pairedSki, pendingSki, limitActive, currentLimit := "", "", false, 0.0;
      heartbeatLost, lastHeartbeat, pairing, deadline := false, 0, false, 0;
      triggers, requests := [], [];
    }

    method StartService(now: Clock, ready: bool)
      modifies this
      ensures View() == Step(old(View()), CreateService(now, ready))
    {
      if service != null {
        return;
      }
      service := new Service();
      if InvalidSki(remoteSki) {
        remoteSki := "";
      }
      if ready {
        lastHeartbeat := now;
      }
    }

    method Loop(now: Clock)
      modifies this, service
      ensures View() == Step(old(View()), Event.Loop(now)) && service == old(service)
    {
      if service == null {
        return;
      }
      if limitActive && !heartbeatLost && lastHeartbeat > 0 {
        if Age(now, lastHeartbeat) > HEARTBEAT_TIMEOUT_MS {
          heartbeatLost := true;
          OnPowerLimitReceive(failsafe, true, now);
        }
      }
      if pairing && now >= deadline {
        pairing, deadline := false, 0;
        service.SetPairingPossible(false);
        if pendingSki != "" {
          RejectPairing();
        }
      }
    }

    method OnRemoteSkiConnected(ski: string, now: Clock)
      modifies this
      ensures View() == Step(old(View()), Connected(ski, now)) && service == old(service)
    {
      pendingSki := ski;
      if remoteSki != "" && remoteSki == ski {
      } else if pairedSki == ski {
        remoteSki := ski;
      } else if pairing && now < deadline {
        requests := requests + [ski];
      } else {
        pendingSki := "";
      }
    }

    method OnRemoteSkiDisconnected(ski: string)
      modifies this
      ensures View() == Step(old(View()), Disconnected(ski)) && service == old(service)
    {
      if pairedSki == ski {
        pairedSki := "";
      }
      if pendingSki == ski {
        pendingSki := "";
      }
      if limitActive {
        limitActive, currentLimit := false, 0.0;
        triggers := triggers + [LimitCleared];
      }
    }

    method OnShipStateUpdate(ski: string, state: ShipState)
      modifies this, service
      ensures View() == Step(old(View()), ShipStateUpdate(ski, state)) && service == old(service)
    {
      if state == Approved || state == DataExchange {
        if InvalidSki(ski) {
          return;
        }
        if pairedSki != ski {
          pairedSki, pendingSki := ski, "";
          pairing, deadline := false, 0;
          if service != null {
            service.SetPairingPossible(false);
          }
        }
      } else if state == HelloAbort || state == HelloRejected || state == StateError {
        if pendingSki == ski {
          pendingSki := "";
        }
      }
    }

    method EnterPairingMode(now: Clock)
      modifies this, service
      ensures View() == Step(old(View()), EnterPairing(now)) && service == old(service)
    {
      pairing := true;
      deadline := Deadline(now);
      if service != null {
        service.SetPairingPossible(true);
      }
    }

    method AcceptPairing()
      modifies this, service
      ensures View() == Step(old(View()), Event.AcceptPairing) && service == old(service)
    {
      if pendingSki == "" {
        return;
      }
      pairing, deadline := false, 0;
      if service != null {
        service.SetPairingPossible(false);
      }
      remoteSki := pendingSki;
    }

    method RejectPairing()
      modifies this, service
      ensures View() == Step(old(View()), Event.RejectPairing) && service == old(service)
    {
      if pendingSki != "" {
        pendingSki := "";
      }
      pairing, deadline := false, 0;
      if service != null {
        service.SetPairingPossible(false);
      }
    }

    method ForgetPairing(ski: string, now: Clock)
      modifies this, service
      ensures View() == Step(old(View()), Event.ForgetPairing(ski, now)) && service == old(service)
    {
      if pairedSki == ski {
        pairedSki := "";
      }
      if pendingSki == ski {
        pendingSki := "";
      }
      if remoteSki == ski {
        remoteSki := "";
      }
      EnterPairingMode(now);
    }

    method OnPowerLimitReceive(w: real, active: bool, now: Clock)
      modifies this
      ensures View() == ReceiveLimit(old(View()), w, active, now) && service == old(service)
    {
      currentLimit, heartbeatLost, lastHeartbeat := w, false, now;
      if active && !limitActive {
        limitActive := true;
        triggers := triggers + [LimitActive(w)];
      } else if !active && limitActive {
        limitActive, currentLimit := false, 0.0;
        triggers := triggers + [LimitCleared];
      } else if active {
        triggers := triggers + [LimitActive(w)];
      }
    }

    method OnFailsafeLimitReceive(w: real)
      modifies this
      ensures View() == Step(old(View()), FailsafeLimit(w)) && service == old(service)
    {
      failsafe := w;
    }

    method OnHeartbeatReceive(now: Clock)
      modifies this
      ensures View() == Step(old(View()), Heartbeat(now)) && service == old(service)
    {
      lastHeartbeat, heartbeatLost := now, false;
    }
  }
}
