/**
  What the map screen shows for a session: the vertices of the drawn route,
  the place markers, the unit of the distance figure, and the `formatTime`
  text of the elapsed time.
 */
module MapsView {
  import opened Kotlin
  import opened Decimal
  import opened TimeFields
  import Tracking

  /** The fixed places of the mock map, in route order. */
  datatype Place = SmartVillage | SixthOctober | Giza | DowntownCairo {
    /** The position of the place along the route. */
    function RouteIndex(): (i: nat)
      ensures i < |Waypoints| && Waypoints[i] == this
    {
      match this
      case SmartVillage => 0
      case SixthOctober => 1
      case Giza => 2
      case DowntownCairo => 3
    }

    function Name(): string {
      match this
      case SmartVillage => "Smart Village"
      case SixthOctober => "6th October"
      case Giza => "Giza"
      case DowntownCairo => "Downtown Cairo"
    }
  }

  const Waypoints: seq<Place> := [SmartVillage, SixthOctober, Giza, DowntownCairo]

  /** Waypoint `i` is reached once the route-point count exceeds `Thresholds[i]`. */
  const Thresholds: seq<int> := [0, 2, 5, 8]

  /** The vertices of the route path. The path is drawn only while tracking with
      at least one point; it starts at Smart Village and extends through each
      later waypoint whose threshold the count exceeds. */
  function RoutePath(isTracking: bool, routePoints: int): (path: seq<Place>)
    ensures |path| <= |Waypoints| && path == Waypoints[..|path|]
    ensures forall i :: 0 <= i < |Waypoints| ==> (i < |path| <==> isTracking && routePoints > Thresholds[i])
  {
    if isTracking && routePoints > 0 then
      [SmartVillage]
      + (if routePoints > 2 then [SixthOctober] else [])
      + (if routePoints > 5 then [Giza] else [])
      + (if routePoints > 8 then [DowntownCairo] else [])
    else
      []
  }

  /** More points never shorten the route: the path for a smaller count is a
      prefix of the path for a larger one. */
  lemma RoutePathGrows(isTracking: bool, p: int, q: int)
    requires p <= q
    ensures |RoutePath(isTracking, p)| <= |RoutePath(isTracking, q)|
    ensures RoutePath(isTracking, p) == RoutePath(isTracking, q)[..|RoutePath(isTracking, p)|]
  {
    var a, b := RoutePath(isTracking, p), RoutePath(isTracking, q);
    assert b[..|a|] == Waypoints[..|a|];
  }

  /** The markers laid out on the map, top row first. Smart Village and Downtown
      Cairo are always there; 6th October and Giza appear once the point count
      passes their thresholds, whether or not tracking is on. */
  function VisibleMarkers(routePoints: int): (markers: seq<Place>)
    ensures |markers| >= 2 && markers[0] == SmartVillage && markers[|markers| - 1] == DowntownCairo
    ensures SixthOctober in markers <==> routePoints > Thresholds[1]
    ensures Giza in markers <==> routePoints > Thresholds[2]
    ensures forall i, j :: 0 <= i < j < |markers| ==> markers[i].RouteIndex() < markers[j].RouteIndex()
  {
    [SmartVillage]
    + (if routePoints > 2 then [SixthOctober] else [])
    + (if routePoints > 5 then [Giza] else [])
    + [DowntownCairo]
  }

  /** While the route is drawn, each intermediate place has a marker exactly when
      the path runs through it; Downtown Cairo is marked before the path reaches it. */
  lemma MarkersFollowRoute(routePoints: int)
    requires routePoints > 0
    ensures SixthOctober in VisibleMarkers(routePoints) <==> SixthOctober in RoutePath(true, routePoints)
    ensures Giza in VisibleMarkers(routePoints) <==> Giza in RoutePath(true, routePoints)
    ensures DowntownCairo in VisibleMarkers(routePoints)
    ensures DowntownCairo in RoutePath(true, routePoints) <==> routePoints > 8
  {
  }

  /** After Stop on the button the points are kept, so every marker stays while the
      path disappears. */
  lemma StoppedSessionKeepsMarkers(s: Tracking.Session, now: Long)
    requires s.isTracking
    ensures var r := Tracking.StartStopPressed(s, now);
      RoutePath(r.isTracking, r.routePoints) == [] && VisibleMarkers(r.routePoints) == VisibleMarkers(s.routePoints)
  {
  }

  /** The distance figure: kilometres from 1 km up, metres below. */
  datatype DistanceText = Kilometres(km: real) | Metres(m: real)

  /** The distance in kilometres that a shown figure stands for. */
  function InKilometres(d: DistanceText): real {
    match d
    case Kilometres(km) => km
    case Metres(m) => m / 1000.0
  }

  function DistanceLabel(distance: real): (d: DistanceText)
    ensures d.Kilometres? <==> distance >= 1.0
    ensures InKilometres(d) == distance
    ensures d.Metres? && distance >= 0.0 ==> 0.0 <= d.m < 1000.0
  {
    if distance >= 1.0 then Kilometres(distance) else Metres(distance * 1000.0)
  }

  /** Reads a clock text back as a number of seconds. */
  function ParseClock(s: string): Option<nat> {
    if |s| == 5 && s[2] == ':' && AllDigits(s[..2]) && AllDigits(s[3..]) then
      Some(60 * DigitsValue(s[..2]) + DigitsValue(s[3..]))
    else if |s| == 8 && s[2] == ':' && s[5] == ':' && AllDigits(s[..2]) && AllDigits(s[3..5]) && AllDigits(s[6..]) then
      Some(3600 * DigitsValue(s[..2]) + 60 * DigitsValue(s[3..5]) + DigitsValue(s[6..]))
    else
      None
  }

  /** `s` shows the given clock fields: `HH:MM:SS` when the hour is positive and
      `MM:SS` otherwise, each field as two digits. */
  predicate ShowsClock(s: string, hours: int, minutes: int, seconds: int) {
    if hours > 0 then
      && |s| == 8 && s[2] == ':' && s[5] == ':'
      && IsTwoDigits(s[..2], hours) && IsTwoDigits(s[3..5], minutes) && IsTwoDigits(s[6..], seconds)
    else
      && |s| == 5 && s[2] == ':'
      && IsTwoDigits(s[..2], minutes) && IsTwoDigits(s[3..], seconds)
  }

  /** Only one text shows a given set of clock fields. */
  lemma ClockTextUnique(a: string, b: string, hours: int, minutes: int, seconds: int)
    requires ShowsClock(a, hours, minutes, seconds) && ShowsClock(b, hours, minutes, seconds)
    ensures a == b
  {
    if hours > 0 {
      TwoDigitsUnique(a[..2], b[..2], hours);
      TwoDigitsUnique(a[3..5], b[3..5], minutes);
      TwoDigitsUnique(a[6..], b[6..], seconds);
      assert a == a[..2] + [':'] + a[3..5] + [':'] + a[6..];
      assert b == b[..2] + [':'] + b[3..5] + [':'] + b[6..];
    } else {
      TwoDigitsUnique(a[..2], b[..2], minutes);
      TwoDigitsUnique(a[3..], b[3..], seconds);
      assert a == a[..2] + [':'] + a[3..];
      assert b == b[..2] + [':'] + b[3..];
    }
  }

  /** `formatTime` of the map screen (a duration in ms). */
  function FormatTime(t: Long): (r: string)
    ensures t >= 0 ==> (|r| == 8 <==> HourField(t) > 0)
    ensures t >= 0 ==> ShowsClock(r, HourField(t), MinuteField(t), SecondField(t))
  {
    var seconds := SecondField(t);
    var minutes := MinuteField(t);
    var hours := HourField(t);
    FieldRanges(t);
    if hours > 0 then
      var r := Pad2(hours) + ":" + Pad2(minutes) + ":" + Pad2(seconds);
      assert t >= 0 ==> r[..2] == Pad2(hours) && r[3..5] == Pad2(minutes) && r[6..] == Pad2(seconds);
      r
    else
      var r := Pad2(minutes) + ":" + Pad2(seconds);
      assert t >= 0 ==> r[..2] == Pad2(minutes) && r[3..] == Pad2(seconds);
      r
  }

  /** The text of a non-negative time is the one text that shows its clock fields. */
  lemma FormatTimeIsTheClockText(t: Long, s: string)
    requires t >= 0
    ensures ShowsClock(s, HourField(t), MinuteField(t), SecondField(t)) <==> s == FormatTime(t)
  {
    if ShowsClock(s, HourField(t), MinuteField(t), SecondField(t)) {
      ClockTextUnique(s, FormatTime(t), HourField(t), MinuteField(t), SecondField(t));
    }
  }

  /** Reading `formatTime` back gives the time of day in whole seconds: the text
      keeps seconds, minutes and hours, drops milliseconds, and wraps every 24 hours. */
  lemma FormatTimeRoundTrip(t: Long)
    requires t >= 0
    ensures ParseClock(FormatTime(t)) == Some(SecondOfDay(t))
  {
    NonNegativeFields(t);
  }

  /** Two non-negative times read the same exactly when they fall on the same
      second of the day. */
  lemma FormatTimeSameText(t1: Long, t2: Long)
    requires t1 >= 0 && t2 >= 0
    ensures FormatTime(t1) == FormatTime(t2) <==> SecondOfDay(t1) == SecondOfDay(t2)
  {
    FormatTimeRoundTrip(t1);
    FormatTimeRoundTrip(t2);
    NonNegativeFields(t1);
    NonNegativeFields(t2);
    if SecondOfDay(t1) == SecondOfDay(t2) {
      assert HourField(t1) == HourField(t2);
      assert MinuteField(t1) == MinuteField(t2);
    }
  }

  /** Sample value: zero. */
  lemma FormatTimeZero()
    ensures FormatTime(0) == "00:00"
  {
    TwoDigitsRead("00");
    assert HourField(0) == 0 && MinuteField(0) == 0 && SecondField(0) == 0;
    FormatTimeIsTheClockText(0, "00:00");
  }

  /** Sample value: a minute and five seconds. */
  lemma FormatTimeMinuteExample()
    ensures FormatTime(65_000) == "01:05"
  {
    TwoDigitsRead("01");
    TwoDigitsRead("05");
    assert HourField(65_000) == 0 && MinuteField(65_000) == 1 && SecondField(65_000) == 5;
    FormatTimeIsTheClockText(65_000, "01:05");
  }

  /** Sample value: an hour, a minute and a second. */
  lemma FormatTimeHourExample()
    ensures FormatTime(3_661_000) == "01:01:01"
  {
    TwoDigitsRead("01");
    assert HourField(3_661_000) == 1 && MinuteField(3_661_000) == 1 && SecondField(3_661_000) == 1;
    FormatTimeIsTheClockText(3_661_000, "01:01:01");
  }

  /** A whole day wraps to zero. */
  lemma FormatTimeDayWrap()
    ensures FormatTime(86_400_000) == "00:00"
  {
    TwoDigitsRead("00");
    assert HourField(86_400_000) == 0 && MinuteField(86_400_000) == 0 && SecondField(86_400_000) == 0;
    FormatTimeIsTheClockText(86_400_000, "00:00");
  }

  /** A clock that went back shows negative, unpadded fields, so the text can be
      neither five nor eight characters long. */
  lemma FormatTimeNegativeExamples()
    ensures FormatTime(-5_000) == "00:-5"
    ensures FormatTime(-610_000) == "-10:-10"
  {
    assert Pad2(0) == "00" && Pad2(-5) == "-5";
    assert NatToString(10) == "10" by {
      assert NatToString(1) == "1" && NatToString(0) == "0";
    }
    assert Pad2(-10) == "-10";
    assert HourField(-5_000) == 0 && MinuteField(-5_000) == 0 && SecondField(-5_000) == -5;
    assert HourField(-610_000) == 0 && MinuteField(-610_000) == -10 && SecondField(-610_000) == -10;
  }
}
