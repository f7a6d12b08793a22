/**
  The navigation shell's route table: the five destinations, the bottom bar,
  the trip-detail route built from a trip id, and the decoding of that id
  from the route argument.
 */
module Navigation {
  import opened Kotlin
  import opened Decimal

  datatype Screen = Dashboard | Maps | TripList | Settings | TripDetail {
    /** The route pattern the destination is registered under. */
    function Route(): string {
      match this
      case Dashboard => "dashboard"
      case Maps => "maps"
      case TripList => "triplist"
      case Settings => "settings"
      case TripDetail => "tripdetail/{tripId}"
    }

    function Title(): string {
      match this
      case Dashboard => "Dashboard"
      case Maps => "Maps"
      case TripList => "Trips"
      case Settings => "Settings"
      case TripDetail => "Trip Detail"
    }
  }

  /** The bottom navigation bar, left to right. */
  const BottomNavItems: seq<Screen> := [Dashboard, Maps, TripList, Settings]

  const StartDestination: Screen := Dashboard

  /** The fixed part of every concrete trip-detail route. */
  const TRIP_DETAIL_PREFIX: string := "tripdetail/"

  predicate HasTripDetailPrefix(route: string) {
    |route| >= |TRIP_DETAIL_PREFIX| && route[..|TRIP_DETAIL_PREFIX|] == TRIP_DETAIL_PREFIX
  }

  /** `Screen.TripDetail.createRoute(tripId)`. */
  function CreateRoute(tripId: Long): (route: string)
    ensures HasTripDetailPrefix(route) && |route| > |TRIP_DETAIL_PREFIX|
  {
    TRIP_DETAIL_PREFIX + LongToString(tripId)
  }

  /** The `tripId` path segment the navigation library hands to the destination:
      whatever follows the prefix, and nothing for a route of another shape. */
  function TripIdArgument(route: string): Option<string> {
    if HasTripDetailPrefix(route) then Some(route[|TRIP_DETAIL_PREFIX|..]) else None
  }

  /** The trip id the detail destination works with:
      `arguments?.getString("tripId")?.toLongOrNull() ?: 0L`. */
  function DecodeTripId(arg: Option<string>): (id: Long)
    ensures arg.None? ==> id == 0
    ensures arg.Some? && !IsLongLiteral(arg.value) ==> id == 0
    ensures arg.Some? && IsLongLiteral(arg.value) ==>
      id == (if LONG_MIN <= LiteralValue(arg.value) <= LONG_MAX then LiteralValue(arg.value) else 0)
  {
    match arg
    case None => 0
    case Some(text) => ParseLong(text).GetOr(0)
  }

  /** Following a route built for any trip id hands the destination that same id. */
  lemma RouteRoundTrip(tripId: Long)
    ensures TripIdArgument(CreateRoute(tripId)) == Some(LongToString(tripId))
    ensures DecodeTripId(TripIdArgument(CreateRoute(tripId))) == tripId
  {
    var route := CreateRoute(tripId);
    assert route[|TRIP_DETAIL_PREFIX|..] == LongToString(tripId);
    LongRoundTrip(tripId);
  }

  /** Distinct trips get distinct routes. */
  lemma CreateRouteInjective(a: Long, b: Long)
    ensures CreateRoute(a) == CreateRoute(b) <==> a == b
  {
    RouteRoundTrip(a);
    RouteRoundTrip(b);
  }

  /** Decoding never fails: missing and malformed arguments become trip 0, while
      a sign and leading zeros are accepted. */
  lemma DecodeTripIdExamples()
    ensures DecodeTripId(None) == 0
    ensures DecodeTripId(Some("")) == 0
    ensures DecodeTripId(Some("-")) == 0
    ensures DecodeTripId(Some(" 7")) == 0
    ensures DecodeTripId(Some("{tripId}")) == 0
    ensures DecodeTripId(Some("+42")) == 42
    ensures DecodeTripId(Some("-42")) == -42
    ensures DecodeTripId(Some("007")) == 7
  {
    assert !IsDigit('{') && !IsDigit(' ');
    assert "+42"[1..] == "42" && "-42"[1..] == "42";
    assert DigitsValue("42") == 42 by {
      assert "42"[..1] == "4";
    }
    assert DigitsValue("007") == 7 by {
      assert "007"[..2] == "00" && "00"[..1] == "0";
    }
  }

  /** The bottom bar offers four destinations, starting with the start destination;
      their routes are pairwise different, differ from the detail pattern, and
      none of them can be mistaken for a trip-detail route. */
  lemma BottomNavRoutes()
    ensures |BottomNavItems| == 4 && BottomNavItems[0] == StartDestination
    ensures forall i, j :: 0 <= i < j < |BottomNavItems| ==> BottomNavItems[i].Route() != BottomNavItems[j].Route()
    ensures forall s :: s in BottomNavItems <==> s != TripDetail
    ensures forall s :: s in BottomNavItems ==> s.Route() != TripDetail.Route()
    ensures forall s :: s in BottomNavItems ==> TripIdArgument(s.Route()) == None
    ensures forall s, id: Long :: s in BottomNavItems ==> s.Route() != CreateRoute(id)
  {
    forall s, id: Long | s in BottomNavItems
      ensures s.Route() != CreateRoute(id)
    {
      assert !HasTripDetailPrefix(s.Route());
    }
  }
}
