/** The heat-pump component: the power limit it sends and remembers, the pairing window, and the
    start of heartbeat and service on the first time synchronisation. */
module Wp {
  import opened Ticks

  const MIN_LIMIT := 4200.0
  const ALARM_MS := 120000

  datatype LoadLimit = LoadLimit(value: int, isActive: bool)

  datatype Started = HeartbeatStarted | ServiceStarted

  datatype State = State(
    service: ServiceFlag, hasUseCase: bool,
    connected: bool, haveEntity: bool, activeLimit: real,
    alarm: bool, connectedSince: Clock, lastHeartbeat: Clock,
    timeSynced: bool, serviceStarted: bool,
    pairing: bool, deadline: Clock,
    sent: seq<LoadLimit>, started: seq<Started>)

  /** `accepted` is whether the remote write of a limit succeeded; `useCase` whether the use case
      could be created. */
  datatype Event =
    | Setup(useCase: bool)
    | Loop(now: Clock)
    | SetLimit(watts: real, accepted: bool)
    | EntityConnect(now: Clock, accepted: bool)
    | EntityDisconnect
    | HeartbeatReceived(now: Clock)
    | DataExchange
    | EnterPairing(now: Clock)
    | RefreshHeartbeat

  function Clamp(watts: real): real {
    if 0.0 < watts < MIN_LIMIT then MIN_LIMIT else watts
  }

  function LimitFor(watts: real): LoadLimit {
    if watts <= 0.0 then LoadLimit(99999, false) else LoadLimit(watts.Floor, true)
  }

  function SendLimit(s: State, watts: real, accepted: bool): State {
    if !s.connected || !s.haveEntity || !s.hasUseCase then s
    else
      var w := Clamp(watts);
      var t := s.(sent := s.sent + [LimitFor(w)]);
      if accepted then t.(activeLimit := if w > 0.0 then w else 0.0) else t
  }

  function ClosePairing(s: State): State {
    s.(pairing := false, deadline := 0, service := SetFlag(s.service, false))
  }

  predicate HeartbeatOverdue(s: State, now: Clock) {
    && s.connected && Age(now, s.connectedSince) >= ALARM_MS
    && (s.lastHeartbeat == 0 || Age(now, s.lastHeartbeat) >= ALARM_MS)
  }

  /** A connected entity, before any limit is sent to it. */
  function Entered(s: State, now: Clock): State {
    s.(connected := true, haveEntity := true, alarm := false, connectedSince := now)
  }

  function Step(s: State, e: Event): State {
    match e
    case Setup(useCase) =>
      if s.service.Flag? then s
      else s.(service := Flag(false), hasUseCase := useCase, pairing := false, deadline := 0)
    case Loop(now) =>
      if s.service.NoService? || !s.hasUseCase then s
      else
        var t := s.(alarm := HeartbeatOverdue(s, now));
        if s.pairing && now >= s.deadline then ClosePairing(t) else t
    case SetLimit(watts, accepted) => SendLimit(s, watts, accepted)
    case EntityConnect(now, accepted) =>
      SendLimit(Entered(s, now), 0.0, accepted)
    case EntityDisconnect => s.(connected := false, haveEntity := false, lastHeartbeat := 0, activeLimit := 0.0)
    case HeartbeatReceived(now) => s.(lastHeartbeat := now)
    case DataExchange => if s.pairing then ClosePairing(s) else s
    case EnterPairing(now) =>
      s.(pairing := true, deadline := Deadline(now), service := SetFlag(s.service, true))
    case RefreshHeartbeat =>
      if !s.hasUseCase then s
      else
        var h := if s.timeSynced then s else s.(timeSynced := true, started := s.started + [HeartbeatStarted]);
        if h.serviceStarted || h.service.NoService? then h
        else h.(serviceStarted := true, started := h.started + [ServiceStarted])
  }

  const INITIAL := State(NoService, false, false, false, 0.0, false, 0, 0, false, false, false, 0, [], [])

  function Run(s: State, events: seq<Event>): State
    decreases |events|
  {
    if events == [] then s else Run(Step(s, events[0]), events[1..])
  }

  // ---------------------------------------------------------------- every run

  /** The remembered limit is none or at least the legal minimum, and there is one only while
      connected; every active limit ever sent is at least the minimum. */
  predicate LimitsAreLegal(s: State) {
    && (s.activeLimit == 0.0 || s.activeLimit >= MIN_LIMIT)
    && (s.activeLimit != 0.0 ==> s.connected)
    && (forall i | 0 <= i < |s.sent| && s.sent[i].isActive :: s.sent[i].value >= 4200)
  }

  /** The heartbeat is started at most once and the service at most once, after it. */
  predicate StartsOnce(s: State) {
    && (s.serviceStarted ==> s.timeSynced)
    && s.started ==
       (if s.timeSynced then [HeartbeatStarted] else []) + (if s.serviceStarted then [ServiceStarted] else [])
  }

  /** Window and service flag agree, and a closed window has no deadline: setup closes any
      window opened before it. */
  predicate InSync(s: State) {
    (s.service.Flag? ==> s.service.pairingPossible == s.pairing) && (!s.pairing ==> s.deadline == 0)
  }

  predicate Invariant(s: State) {
    LimitsAreLegal(s) && StartsOnce(s) && InSync(s)
  }

  /** What is sent for a limit, told from the watts: nothing while not connected; no limit for zero or
      less; the legal minimum below it; from there on the watts as given, whole. Once accepted, that
      is what is remembered. */
  lemma LimitSent(s: State, watts: real, accepted: bool)
    ensures
      var t, ready := SendLimit(s, watts, accepted), s.connected && s.haveEntity && s.hasUseCase;
      && (!ready ==> t == s)
      && (ready && watts <= 0.0 ==>
            t.sent == s.sent + [LoadLimit(99999, false)] && (accepted ==> t.activeLimit == 0.0))
      && (ready && 0.0 < watts < 4200.0 ==>
            t.sent == s.sent + [LoadLimit(4200, true)] && (accepted ==> t.activeLimit == 4200.0))
      && (ready && watts >= 4200.0 ==>
            && |t.sent| == |s.sent| + 1 && t.sent[..|s.sent|] == s.sent && t.sent[|s.sent|].isActive
            && t.sent[|s.sent|].value as real <= watts < t.sent[|s.sent|].value as real + 1.0
            && (accepted ==> t.activeLimit == watts))
      && (!accepted ==> t.activeLimit == s.activeLimit)
  {
  }

  /** When the alarm is raised: connected for two minutes, and no heartbeat ever or for two minutes. */
  lemma AlarmAfterTwoMinutes(s: State, connectedFor: nat, silentFor: nat, now: Clock)
    requires s.service.Flag? && s.hasUseCase && connectedFor < TWO_32 && silentFor < TWO_32
    requires now == After(s.connectedSince, connectedFor) == After(s.lastHeartbeat, silentFor)
    ensures
      Step(s, Loop(now)).alarm <==>
      s.connected && connectedFor >= 120000 && (s.lastHeartbeat == 0 || silentFor >= 120000)
  {
    AgeIsElapsed(s.connectedSince, connectedFor);
    AgeIsElapsed(s.lastHeartbeat, silentFor);
  }

  lemma SendLimitIsLegal(s: State, watts: real, accepted: bool)
    requires LimitsAreLegal(s)
    ensures LimitsAreLegal(SendLimit(s, watts, accepted))
  {
  }

  lemma StepKeepsLimitsLegal(s: State, e: Event)
    requires LimitsAreLegal(s)
    ensures LimitsAreLegal(Step(s, e))
  {
    match e
    case SetLimit(watts, accepted) => SendLimitIsLegal(s, watts, accepted);
    case EntityConnect(now, accepted) =>
      SendLimitIsLegal(Entered(s, now), 0.0, accepted);
    case _ =>
  }

  /** Sending a limit touches neither the window nor the start-up. */
  lemma SendLimitLeavesRest(s: State, watts: real, accepted: bool)
    ensures
      var t := SendLimit(s, watts, accepted);
      && t.service == s.service && t.hasUseCase == s.hasUseCase && t.pairing == s.pairing && t.deadline == s.deadline
      && t.timeSynced == s.timeSynced && t.serviceStarted == s.serviceStarted && t.started == s.started
  {
  }

  lemma StepKeepsStartsAndSync(s: State, e: Event)
    requires StartsOnce(s) && InSync(s)
    ensures StartsOnce(Step(s, e)) && InSync(Step(s, e))
  {
    match e
    case SetLimit(watts, accepted) => SendLimitLeavesRest(s, watts, accepted);
    case EntityConnect(now, accepted) =>
      SendLimitLeavesRest(Entered(s, now), 0.0, accepted);
    case _ =>
  }

  lemma {:induction false} RunKeepsInvariant(s: State, events: seq<Event>)
    requires Invariant(s)
    ensures Invariant(Run(s, events))
    decreases |events|
  {
    if events != [] {
      StepKeepsLimitsLegal(s, events[0]);
      StepKeepsStartsAndSync(s, events[0]);
      RunKeepsInvariant(Step(s, events[0]), events[1..]);
    }
  }

  lemma EveryRunIsLegal(events: seq<Event>)
    ensures Invariant(Run(INITIAL, events))
  {
    RunKeepsInvariant(INITIAL, events);
  }

  /** The clock readings of the run's ticks. */
  function Readings(events: seq<Event>): seq<Clock> {
    if events == [] then []
    else if events[0].Loop? then [events[0].now] + Readings(events[1..])
    else Readings(events[1..])
  }

  function WindowOf(s: State): Window {
    Window(s.pairing, s.deadline)
  }

  lemma WindowStep(s: State, e: Event)
    requires s.service.Flag? && s.hasUseCase && !e.EnterPairing? && !e.DataExchange?
    ensures
      var next := Step(s, e);
      && next.service.Flag? && next.hasUseCase
      && WindowOf(next) == if e.Loop? then CloseIfDue(WindowOf(s), e.now) else WindowOf(s)
  {
    match e
    case SetLimit(watts, accepted) => SendLimitLeavesRest(s, watts, accepted);
    case EntityConnect(now, accepted) =>
      SendLimitLeavesRest(Entered(s, now), 0.0, accepted);
    case _ =>
  }

  lemma {:induction false} WindowRuns(s: State, events: seq<Event>)
    requires s.service.Flag? && s.hasUseCase
    requires forall i | 0 <= i < |events| :: !events[i].EnterPairing? && !events[i].DataExchange?
    ensures WindowOf(Run(s, events)) == Ticked(WindowOf(s), Readings(events))
    decreases |events|
  {
    if events != [] {
      WindowStep(s, events[0]);
      WindowRuns(Step(s, events[0]), events[1..]);
      if events[0].Loop? {
        var readings := [events[0].now] + Readings(events[1..]);
        assert readings[1..] == Readings(events[1..]);
      }
    }
  }

  /** After any run without a completed handshake a window is open exactly when every tick so far
      was before its deadline on the clock. */
  lemma WindowOverRun(s: State, start: Clock, events: seq<Event>)
    requires s.service.Flag? && s.hasUseCase
    requires forall i | 0 <= i < |events| :: !events[i].EnterPairing? && !events[i].DataExchange?
    ensures
      Run(Step(s, EnterPairing(start)), events).pairing <==> AllBefore(Readings(events), Deadline(start))
  {
    var open := Step(s, EnterPairing(start));
    WindowRuns(open, events);
    OpenWhileInTime(WindowOf(open), Readings(events));
  }

  // ---------------------------------------------------------------- the component

  class Component {
    var service: Service?
    var hasUseCase: bool
    var connected: bool
    var haveEntity: bool
    var activeLimit: real
    var alarm: bool
    var connectedSince: Clock
    var lastHeartbeat: Clock
    var timeSynced: bool
    var serviceStarted: bool
    var pairing: bool
    var deadline: Clock
    var sent: seq<LoadLimit>
    var started: seq<Started>

    ghost function View(): State
      reads this, service
    {
      State(if service == null then NoService else Flag(service.isPairingPossible), hasUseCase,
            connected, haveEntity, activeLimit, alarm, connectedSince, lastHeartbeat,
            timeSynced, serviceStarted, pairing, deadline, sent, started)
    }

    constructor ()
      ensures View() == INITIAL && service == null
    {
      service, hasUseCase, connected, haveEntity, activeLimit := null, false, false, false, 0.0;
      alarm, connectedSince, lastHeartbeat := false, 0, 0;
      timeSynced, serviceStarted, pairing, deadline := false, false, false, 0;
      sent, started := [], [];
    }

    method StartEebusService(useCase: bool)
      modifies this
      ensures View() == Step(old(View()), Setup(useCase))
    {
      if service != null {
        return;
      }
      service := new Service();
      pairing, deadline := false, 0;
      hasUseCase := useCase;
    }

    method Loop(now: Clock)
      modifies this, service
      ensures View() == Step(old(View()), Event.Loop(now)) && service == old(service)
    {
      if service == null || !hasUseCase {
        return;
      }
      var grace := connected && Age(now, connectedSince) < ALARM_MS;
      var heartbeatOk := lastHeartbeat != 0 && Age(now, lastHeartbeat) < ALARM_MS;
      if connected && !grace && !heartbeatOk {
        alarm := true;
      } else {
        alarm := false;
      }
      if pairing && now >= deadline {
        pairing, deadline := false, 0;
        service.SetPairingPossible(false);
      }
    }

    method SetLimit(watts: real, accepted: bool)
      modifies this
      ensures View() == SendLimit(old(View()), watts, accepted) && service == old(service)
    {
      if !connected || !haveEntity || !hasUseCase {
        return;
      }
      var w := watts;
      if w > 0.0 && w < MIN_LIMIT {
        w := MIN_LIMIT;
      }
      var limit: LoadLimit;
      if w <= 0.0 {
        limit := LoadLimit(99999, false);
      } else {
        limit := LoadLimit(w.Floor, true);
      }
      sent := sent + [limit];
      if !accepted {
        return;
      }
      activeLimit := if w > 0.0 then w else 0.0;
    }

    method OnEntityConnect(now: Clock, accepted: bool)
      modifies this
      ensures View() == Step(old(View()), EntityConnect(now, accepted)) && service == old(service)
    {
      connected, alarm, connectedSince, haveEntity := true, false, now, true;
      SetLimit(0.0, accepted);
    }

    method OnEntityDisconnect()
      modifies this
      ensures View() == Step(old(View()), EntityDisconnect) && service == old(service)
    {
      connected, lastHeartbeat, haveEntity, activeLimit := false, 0, false, 0.0;
    }

    method OnHeartbeatReceived(now: Clock)
      modifies this
      ensures View() == Step(old(View()), HeartbeatReceived(now)) && service == old(service)
    {
      lastHeartbeat := now;
    }

    method OnShipDataExchange()
      modifies this, service
      ensures View() == Step(old(View()), DataExchange) && service == old(service)
    {
      if pairing {
        pairing, deadline := false, 0;
        if service != null {
          service.SetPairingPossible(false);
        }
      }
    }

    method EnterPairingMode(now: Clock)
      modifies this, service
      ensures View() == Step(old(View()), EnterPairing(now)) && service == old(service)
    {
      pairing := true;
      deadline := Deadline(now);
      if service != null {
        service.SetPairingPossible(true);
      }
    }

    method RefreshHeartbeat()
      modifies this
      ensures View() == Step(old(View()), Event.RefreshHeartbeat) && service == old(service)
    {
      if !hasUseCase {
        return;
      }
      if !timeSynced {
        timeSynced := true;
        started := started + [HeartbeatStarted];
      }
      if !serviceStarted && service != null {
        serviceStarted := true;
        started := started + [ServiceStarted];
      }
    }
  }
}
