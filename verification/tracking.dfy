/**
  The live-tracking session of the map screen as an immutable record and the
  events that change it: the simulated GPS tick, the tracking Switch, the
  Start/Stop button, the Save Trip button and the expiry of the status
  message. The random speed and the wall clock are parameters of the events
  that read them.
 */
module Tracking {
  import opened Kotlin

  const TRACKING_STARTED: string := "Tracking started successfully!"
  const TRIP_SAVED: string := "Trip saved successfully!"

  /** The screen-local state: speed in km/h, distance in km, elapsed time in ms
      and the session start as a wall-clock reading in ms. */
  datatype Session = Session(
    isTracking: bool,
    currentSpeed: real,
    distance: real,
    elapsedTime: Long,
    routePoints: Int,
    errorMessage: Option<string>,
    startTime: Long)

  /** The state when the screen is first shown. */
  const Initial: Session := Session(false, 0.0, 0.0, 0, 0, None, 0)

  /** The four figures the Switch resets. */
  datatype Metrics = Metrics(currentSpeed: real, distance: real, elapsedTime: Long, routePoints: Int)

  const ZeroMetrics: Metrics := Metrics(0.0, 0.0, 0, 0)

  function MetricsOf(s: Session): Metrics {
    Metrics(s.currentSpeed, s.distance, s.elapsedTime, s.routePoints)
  }

  /** The speeds `Random.nextFloat() * 25f + 15f` can yield. The top value is
      included: the largest `nextFloat()` result rounds to exactly 40.0f. */
  predicate IsDrawnSpeed(v: real) {
    15.0 <= v <= 40.0
  }

  /** Kilometres covered during one two-second tick at `speed` km/h. */
  function TickDistance(speed: real): (d: real)
    requires IsDrawnSpeed(speed)
    ensures 1.0 / 120.0 <= d <= 1.0 / 45.0
  {
    speed / 3.6 * 2.0 / 1000.0
  }

  /** One pass of the update loop after its delay: nothing unless tracking is
      still on; otherwise a new speed, more distance, the elapsed wall-clock
      time since the session started, and one more route point. */
  function Tick(s: Session, speed: real, now: Long): (r: Session)
    requires IsDrawnSpeed(speed)
    ensures !s.isTracking ==> r == s
    ensures s.isTracking ==> r.isTracking && r.errorMessage == s.errorMessage && r.startTime == s.startTime
    ensures s.isTracking ==> r.currentSpeed == speed && IsDrawnSpeed(r.currentSpeed)
    ensures s.isTracking ==> r.elapsedTime == LongSub(now, r.startTime)
    ensures s.isTracking ==> s.distance + 1.0 / 120.0 <= r.distance <= s.distance + 1.0 / 45.0
    ensures s.isTracking && s.routePoints < INT_MAX ==> r.routePoints == s.routePoints + 1
  {
    if s.isTracking then
      s.(currentSpeed := speed,
         distance := s.distance + TickDistance(speed),
         elapsedTime := LongSub(now, s.startTime),
         routePoints := IntInc(s.routePoints))
    else
      s
  }

  /** The Switch reports its new position. Turning tracking on stamps the session
      start (the tracking effect restarts); turning it off zeroes the metrics. */
  function SwitchChanged(s: Session, checked: bool, now: Long): (r: Session)
    ensures r.isTracking == checked
    ensures !checked ==> MetricsOf(r) == ZeroMetrics
    ensures checked ==> MetricsOf(r) == MetricsOf(s)
    ensures r.errorMessage == s.errorMessage
    ensures r.startTime == (if checked && !s.isTracking then now else s.startTime)
  {
    var r := s.(isTracking := checked, startTime := if checked && !s.isTracking then now else s.startTime);
    if checked then r
    else r.(currentSpeed := 0.0, distance := 0.0, elapsedTime := 0, routePoints := 0)
  }

  /** The Start/Stop button flips tracking and announces a start; it never
      touches the metrics. */
  function StartStopPressed(s: Session, now: Long): (r: Session)
    ensures r.isTracking == !s.isTracking
    ensures MetricsOf(r) == MetricsOf(s)
    ensures r.errorMessage == (if r.isTracking then Some(TRACKING_STARTED) else None)
    ensures r.startTime == (if r.isTracking then now else s.startTime)
  {
    var tracking := !s.isTracking;
    var cleared := s.(isTracking := tracking, errorMessage := None);
    if tracking then cleared.(errorMessage := Some(TRACKING_STARTED), startTime := now) else cleared
  }

  /** Save Trip is enabled only while tracking: it stops tracking, keeps the
      metrics and announces the save. */
  function SaveTripPressed(s: Session): (r: Session)
    ensures !s.isTracking ==> r == s
    ensures s.isTracking ==> !r.isTracking && r.errorMessage == Some(TRIP_SAVED)
    ensures MetricsOf(r) == MetricsOf(s) && r.startTime == s.startTime
  {
    if s.isTracking then s.(isTracking := false, errorMessage := Some(TRIP_SAVED)) else s
  }

  /** The status message clears itself some seconds after it was set. */
  function MessageExpired(s: Session): (r: Session)
    ensures r.errorMessage == None
    ensures r.isTracking == s.isTracking && MetricsOf(r) == MetricsOf(s) && r.startTime == s.startTime
  {
    s.(errorMessage := None)
  }

  datatype Event =
    | TickEvent(speed: real, now: Long)
    | SwitchEvent(checked: bool, now: Long)
    | StartStopEvent(now: Long)
    | SaveTripEvent
    | MessageExpiredEvent

  /** The random draws an event carries are ones the app can produce. */
  predicate Feasible(e: Event) {
    e.TickEvent? ==> IsDrawnSpeed(e.speed)
  }

  predicate AllFeasible(es: seq<Event>) {
    forall i :: 0 <= i < |es| ==> Feasible(es[i])
  }

  function Step(s: Session, e: Event): Session
    requires Feasible(e)
  {
    match e
    case TickEvent(speed, now) => Tick(s, speed, now)
    case SwitchEvent(checked, now) => SwitchChanged(s, checked, now)
    case StartStopEvent(now) => StartStopPressed(s, now)
    case SaveTripEvent => SaveTripPressed(s)
    case MessageExpiredEvent => MessageExpired(s)
  }

  /** The session after a sequence of events, in order. */
  function Run(s: Session, es: seq<Event>): Session
    requires AllFeasible(es)
    decreases |es|
  {
    if |es| == 0 then s else Run(Step(s, es[0]), es[1..])
  }

  predicate AllTicks(es: seq<Event>) {
    forall i :: 0 <= i < |es| ==> es[i].TickEvent? && IsDrawnSpeed(es[i].speed)
  }

  /** Total distance the ticks of a run add while tracking. */
  function TicksDistance(es: seq<Event>): real
    requires AllTicks(es)
    decreases |es|
  {
    if |es| == 0 then 0.0 else TickDistance(es[0].speed) + TicksDistance(es[1..])
  }

  /** While tracking, N ticks add exactly N route points (short of `Int`
      overflow), add the distances of the drawn speeds, leave the flag, the
      message and the start stamp alone, and report the last draw and the
      wall-clock time since the start. */
  lemma {:induction false} TrackingTicks(s: Session, es: seq<Event>)
    requires s.isTracking && AllTicks(es)
    requires s.routePoints + |es| <= INT_MAX
    ensures AllFeasible(es)
    ensures Run(s, es).isTracking
    ensures Run(s, es).routePoints == s.routePoints + |es|
    ensures Run(s, es).distance == s.distance + TicksDistance(es) >= s.distance
    ensures Run(s, es).errorMessage == s.errorMessage && Run(s, es).startTime == s.startTime
    ensures |es| > 0 ==> Run(s, es).currentSpeed == es[|es| - 1].speed
    ensures |es| > 0 ==> Run(s, es).elapsedTime == LongSub(es[|es| - 1].now, s.startTime)
    decreases |es|
  {
    if |es| > 0 {
      var s1 := Step(s, es[0]);
      assert AllTicks(es[1..]);
      TrackingTicks(s1, es[1..]);
      if |es| > 1 {
        assert es[1..][|es[1..]| - 1] == es[|es| - 1];
      }
    }
  }

  /** While not tracking, ticks change nothing at all. */
  lemma {:induction false} IdleTicks(s: Session, es: seq<Event>)
    requires !s.isTracking && AllTicks(es)
    ensures AllFeasible(es)
    ensures Run(s, es) == s
    decreases |es|
  {
    if |es| > 0 {
      assert AllTicks(es[1..]);
      IdleTicks(s, es[1..]);
    }
  }

  /** Counting from a Switch reset: after the Switch goes off and on again, N
      ticks leave exactly N route points, the summed tick distances, and an
      elapsed time measured from the moment the Switch went on. */
  lemma TicksSinceSwitchOn(s: Session, off: Long, on: Long, es: seq<Event>)
    requires AllTicks(es) && |es| <= INT_MAX
    ensures AllFeasible(es)
    ensures var r := Run(SwitchChanged(SwitchChanged(s, false, off), true, on), es);
      && r.routePoints == |es|
      && r.distance == TicksDistance(es)
      && (|es| > 0 ==> r.elapsedTime == LongSub(es[|es| - 1].now, on))
  {
    TrackingTicks(SwitchChanged(SwitchChanged(s, false, off), true, on), es);
  }

  /** Only the Switch lowers the distance: along any run without a Switch-off
      event the distance never decreases. */
  lemma {:induction false} DistanceMonotone(s: Session, es: seq<Event>)
    requires AllFeasible(es)
    requires forall i :: 0 <= i < |es| ==> !(es[i].SwitchEvent? && !es[i].checked)
    ensures Run(s, es).distance >= s.distance
    decreases |es|
  {
    if |es| > 0 {
      DistanceMonotone(Step(s, es[0]), es[1..]);
    }
  }

  /** The metrics hang together: a zero distance means no tick since the last
      reset, so every metric is zero; a positive distance carries a drawn speed. */
  ghost predicate Consistent(s: Session) {
    && s.distance >= 0.0
    && (s.distance == 0.0 ==> MetricsOf(s) == ZeroMetrics)
    && (s.distance > 0.0 ==> IsDrawnSpeed(s.currentSpeed))
  }

  lemma InitialConsistent()
    ensures Consistent(Initial)
  {
  }

  lemma StepConsistent(s: Session, e: Event)
    requires Consistent(s) && Feasible(e)
    ensures Consistent(Step(s, e))
  {
  }

  /** Every reachable session is consistent. */
  lemma {:induction false} RunConsistent(s: Session, es: seq<Event>)
    requires Consistent(s) && AllFeasible(es)
    ensures Consistent(Run(s, es))
    decreases |es|
  {
    if |es| > 0 {
      StepConsistent(s, es[0]);
      RunConsistent(Step(s, es[0]), es[1..]);
    }
  }

  /** Stop and Start again on the button: tracking and every metric are as they
      were; only the start stamp is renewed and the start is announced again. */
  lemma StartStopTwice(s: Session, t1: Long, t2: Long)
    requires s.isTracking
    ensures var r := StartStopPressed(StartStopPressed(s, t1), t2);
      r.isTracking && MetricsOf(r) == MetricsOf(s) && r.startTime == t2 && r.errorMessage == Some(TRACKING_STARTED)
  {
  }

  /** A saved trip is frozen: later ticks change nothing until tracking resumes. */
  lemma SavedTripIsFrozen(s: Session, es: seq<Event>)
    requires s.isTracking && AllTicks(es)
    ensures AllFeasible(es)
    ensures Run(SaveTripPressed(s), es) == SaveTripPressed(s)
    ensures MetricsOf(Run(SaveTripPressed(s), es)) == MetricsOf(s)
  {
    IdleTicks(SaveTripPressed(s), es);
  }

  /** Switching off twice is the same as switching off once. */
  lemma SwitchOffIdempotent(s: Session, t1: Long, t2: Long)
    ensures SwitchChanged(SwitchChanged(s, false, t1), false, t2) == SwitchChanged(s, false, t1)
  {
  }
}
