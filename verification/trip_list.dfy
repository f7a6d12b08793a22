/**
  The trip list screen: the trip record, the search filter over the list, the
  `formatDuration` text of a trip's duration, and the built-in sample trips.
 */
module TripList {
  import opened Kotlin
  import opened Decimal
  import opened Text
  import opened TimeFields

  /** One trip: times in ms since the epoch, distance in km, duration in ms,
      average speed in km/h. */
  datatype TripItem = TripItem(
    id: Long,
    name: string,
    startTime: Long,
    endTime: Long,
    distance: real,
    duration: Long,
    averageSpeed: real,
    startAddress: string,
    endAddress: string,
    isCompleted: bool)

  /** The search test: the name or either address contains the query, ignoring case. */
  predicate MatchesQuery(trip: TripItem, query: string) {
    || ContainsIgnoreCase(trip.name, query)
    || ContainsIgnoreCase(trip.startAddress, query)
    || ContainsIgnoreCase(trip.endAddress, query)
  }

  /** `trips.filter { ... }`: the matching trips, in list order. */
  function KeepMatching(trips: seq<TripItem>, query: string): (r: seq<TripItem>)
    ensures |r| <= |trips|
    ensures forall t :: t in r <==> t in trips && MatchesQuery(t, query)
    decreases |trips|
  {
    if |trips| == 0 then []
    else (if MatchesQuery(trips[0], query) then [trips[0]] else []) + KeepMatching(trips[1..], query)
  }

  /** The list shown for a search query: everything for an empty query, the
      matching trips otherwise. */
  function FilterTrips(trips: seq<TripItem>, query: string): (r: seq<TripItem>)
    ensures |query| == 0 ==> r == trips
    ensures |r| <= |trips|
    ensures forall t :: t in r <==> t in trips && MatchesQuery(t, query)
  {
    if |query| == 0 then
      EmptyQueryMatchesAll(trips);
      trips
    else
      KeepMatching(trips, query)
  }

  /** Every trip contains the empty query. */
  lemma EmptyQueryMatchesAll(trips: seq<TripItem>)
    ensures forall t :: t in trips ==> MatchesQuery(t, "")
  {
    forall t | t in trips
      ensures MatchesQuery(t, "")
    {
      ContainsEmpty(t.name);
    }
  }

  /** The filter keeps a list in which every trip matches as it is. */
  lemma {:induction false} KeepMatchingAll(trips: seq<TripItem>, query: string)
    requires forall t :: t in trips ==> MatchesQuery(t, query)
    ensures KeepMatching(trips, query) == trips
    decreases |trips|
  {
    if |trips| > 0 {
      assert trips[0] in trips;
      KeepMatchingAll(trips[1..], query);
      assert [trips[0]] + trips[1..] == trips;
    }
  }

  /** The empty-query branch returns what filtering with the empty query would:
      the special case is a shortcut, not a different answer. */
  lemma EmptyQueryShortcut(trips: seq<TripItem>)
    ensures KeepMatching(trips, "") == FilterTrips(trips, "")
  {
    EmptyQueryMatchesAll(trips);
    KeepMatchingAll(trips, "");
  }

  /** `a` is `b` with some elements left out, the rest in the same order. */
  ghost predicate IsSubsequence<T>(a: seq<T>, b: seq<T>)
    decreases |b|
  {
    if |a| == 0 then true
    else if |b| == 0 then false
    else (a[0] == b[0] && IsSubsequence(a[1..], b[1..])) || IsSubsequence(a, b[1..])
  }

  /** The filter keeps the list order. */
  lemma {:induction false} FilterKeepsOrder(trips: seq<TripItem>, query: string)
    ensures IsSubsequence(FilterTrips(trips, query), trips)
  {
    if |query| == 0 {
      SubsequenceReflexive(trips);
    } else {
      KeepMatchingKeepsOrder(trips, query);
    }
  }

  lemma {:induction false} SubsequenceReflexive<T>(a: seq<T>)
    ensures IsSubsequence(a, a)
    decreases |a|
  {
    if |a| > 0 {
      SubsequenceReflexive(a[1..]);
    }
  }

  lemma {:induction false} KeepMatchingKeepsOrder(trips: seq<TripItem>, query: string)
    ensures IsSubsequence(KeepMatching(trips, query), trips)
    decreases |trips|
  {
    if |trips| > 0 {
      var rest := KeepMatching(trips[1..], query);
      KeepMatchingKeepsOrder(trips[1..], query);
      if MatchesQuery(trips[0], query) {
        assert KeepMatching(trips, query)[1..] == rest;
      } else {
        assert KeepMatching(trips, query) == rest;
      }
    }
  }

  /** Each matching trip is kept as many times as it occurs, and no other trip is kept. */
  lemma FilterCounts(trips: seq<TripItem>, query: string, t: TripItem)
    ensures multiset(FilterTrips(trips, query))[t] == if MatchesQuery(t, query) then multiset(trips)[t] else 0
  {
    if |query| == 0 {
      EmptyQueryMatchesAll([t]);
    } else {
      KeepMatchingCounts(trips, query, t);
    }
  }

  lemma {:induction false} KeepMatchingCounts(trips: seq<TripItem>, query: string, t: TripItem)
    ensures multiset(KeepMatching(trips, query))[t] == if MatchesQuery(t, query) then multiset(trips)[t] else 0
    decreases |trips|
  {
    if |trips| > 0 {
      KeepMatchingCounts(trips[1..], query, t);
      assert trips == [trips[0]] + trips[1..];
      assert multiset(trips) == multiset([trips[0]]) + multiset(trips[1..]);
    }
  }

  /** Filtering the filtered list again with the same query changes nothing. */
  lemma FilterIdempotent(trips: seq<TripItem>, query: string)
    ensures FilterTrips(FilterTrips(trips, query), query) == FilterTrips(trips, query)
  {
    var r := FilterTrips(trips, query);
    if |query| > 0 {
      KeepMatchingAll(r, query);
    }
  }

  /** Queries that differ only in the case of ASCII letters give the same list. */
  lemma FilterIgnoresQueryCase(trips: seq<TripItem>, q1: string, q2: string)
    requires FoldCase(q1) == FoldCase(q2)
    ensures FilterTrips(trips, q1) == FilterTrips(trips, q2)
  {
    assert |q1| == |FoldCase(q1)| == |FoldCase(q2)| == |q2|;
    if |q1| > 0 {
      KeepMatchingIgnoresQueryCase(trips, q1, q2);
    }
  }

  lemma {:induction false} KeepMatchingIgnoresQueryCase(trips: seq<TripItem>, q1: string, q2: string)
    requires FoldCase(q1) == FoldCase(q2)
    ensures KeepMatching(trips, q1) == KeepMatching(trips, q2)
    decreases |trips|
  {
    if |trips| > 0 {
      var t := trips[0];
      ContainsIgnoresNeedleCase(t.name, q1, q2);
      ContainsIgnoresNeedleCase(t.startAddress, q1, q2);
      ContainsIgnoresNeedleCase(t.endAddress, q1, q2);
      KeepMatchingIgnoresQueryCase(trips[1..], q1, q2);
    }
  }

  /** `formatDuration`: whole hours (within the day) and minutes, `{h}h {m}m`, or
      just `{m}m` when the hour field is zero; no padding, seconds dropped. */
  function FormatDuration(durationMs: Long): (r: string)
    ensures |r| >= 2 && r[|r| - 1] == 'm'
    ensures durationMs >= 0 ==> |r| <= 7
    ensures durationMs >= 0 ==> ('h' in r <==> HourField(durationMs) > 0)
    ensures durationMs >= 0 ==> ShowsDuration(r, HourField(durationMs), MinuteField(durationMs))
  {
    var minutes := MinuteField(durationMs);
    var hours := HourField(durationMs);
    FieldRanges(durationMs);
    if hours > 0 then
      var hs, ms := LongToString(hours), LongToString(minutes);
      var r := hs + "h " + ms + "m";
      assert r[..|hs|] == hs && r[|hs|] == 'h' && r[|hs| + 2..|r| - 1] == ms;
      assert DigitRun(r) == |hs|;
      r
    else
      var ms := LongToString(minutes);
      assert (ms + "m")[..|ms|] == ms;
      ms + "m"
  }

  /** `s` shows the given fields as `formatDuration` lays them out: `{h}h {m}m`
      when the hour is positive and `{m}m` otherwise, each number a canonical
      numeral (no padding, no leading zeros). */
  predicate ShowsDuration(s: string, hours: int, minutes: int) {
    if hours > 0 then
      var n := DigitRun(s);
      && n + 3 < |s| && s[n] == 'h' && s[n + 1] == ' ' && s[|s| - 1] == 'm'
      && IsNumeral(s[..n], hours) && IsNumeral(s[n + 2..|s| - 1], minutes)
    else
      && |s| >= 2 && s[|s| - 1] == 'm'
      && IsNumeral(s[..|s| - 1], minutes)
  }

  /** A long-form text is its hours numeral, "h ", its minutes numeral and "m". */
  lemma LongFormParts(s: string, n: nat)
    requires n + 3 < |s| && s[n] == 'h' && s[n + 1] == ' ' && s[|s| - 1] == 'm'
    ensures s == s[..n] + "h " + s[n + 2..|s| - 1] + "m"
  {
  }

  /** A short-form text is its minutes numeral and "m". */
  lemma ShortFormParts(s: string)
    requires |s| >= 1 && s[|s| - 1] == 'm'
    ensures s == s[..|s| - 1] + "m"
  {
  }

  /** Only one text shows a given pair of duration fields. */
  lemma DurationTextUnique(a: string, b: string, hours: int, minutes: int)
    requires ShowsDuration(a, hours, minutes) && ShowsDuration(b, hours, minutes)
    ensures a == b
  {
    if hours > 0 {
      var na, nb := DigitRun(a), DigitRun(b);
      NumeralUnique(a[..na], hours);
      NumeralUnique(b[..nb], hours);
      NumeralUnique(a[na + 2..|a| - 1], minutes);
      NumeralUnique(b[nb + 2..|b| - 1], minutes);
      LongFormParts(a, na);
      LongFormParts(b, nb);
    } else {
      NumeralUnique(a[..|a| - 1], minutes);
      NumeralUnique(b[..|b| - 1], minutes);
      ShortFormParts(a);
      ShortFormParts(b);
    }
  }

  /** The text of a non-negative duration is the one text that shows its fields. */
  lemma FormatDurationIsTheDurationText(d: Long, s: string)
    requires d >= 0
    ensures ShowsDuration(s, HourField(d), MinuteField(d)) <==> s == FormatDuration(d)
  {
    if ShowsDuration(s, HourField(d), MinuteField(d)) {
      DurationTextUnique(s, FormatDuration(d), HourField(d), MinuteField(d));
    }
  }

  /** Length of the run of digits a string starts with. */
  function DigitRun(s: string): (n: nat)
    ensures n <= |s| && AllDigits(s[..n])
    ensures n < |s| ==> !IsDigit(s[n])
    decreases |s|
  {
    if |s| == 0 || !IsDigit(s[0]) then 0 else 1 + DigitRun(s[1..])
  }

  /** Reads a duration text back as a number of minutes. */
  function ParseDuration(s: string): Option<nat> {
    if |s| < 2 || s[|s| - 1] != 'm' then None
    else
      var n := DigitRun(s);
      if n == |s| - 1 then
        Some(DigitsValue(s[..n]))
      else if 0 < n && n + 3 < |s| && s[n] == 'h' && s[n + 1] == ' ' && AllDigits(s[n + 2..|s| - 1]) then
        Some(60 * DigitsValue(s[..n]) + DigitsValue(s[n + 2..|s| - 1]))
      else
        None
  }

  /** Reading `formatDuration` back gives the minute of the day: the text keeps
      minutes and hours, drops seconds, and wraps every 24 hours. */
  lemma FormatDurationRoundTrip(d: Long)
    requires d >= 0
    ensures ParseDuration(FormatDuration(d)) == Some(MinuteOfDay(d))
  {
    NonNegativeFields(d);
  }

  /** Two non-negative durations read the same exactly when they fall on the same
      minute of the day. */
  lemma FormatDurationSameText(d1: Long, d2: Long)
    requires d1 >= 0 && d2 >= 0
    ensures FormatDuration(d1) == FormatDuration(d2) <==> MinuteOfDay(d1) == MinuteOfDay(d2)
  {
    FormatDurationRoundTrip(d1);
    FormatDurationRoundTrip(d2);
    NonNegativeFields(d1);
    NonNegativeFields(d2);
    if MinuteOfDay(d1) == MinuteOfDay(d2) {
      assert HourField(d1) == HourField(d2);
    }
  }

  /** Sample value: zero. */
  lemma FormatDurationZero()
    ensures FormatDuration(0) == "0m"
  {
    assert HourField(0) == 0 && MinuteField(0) == 0;
    assert "0m"[..1] == "0" && DigitsValue("0") == 0;
    FormatDurationIsTheDurationText(0, "0m");
  }

  /** Sample value: 45 minutes. */
  lemma FormatDurationMinutesExample()
    ensures FormatDuration(2_700_000) == "45m"
  {
    assert HourField(2_700_000) == 0 && MinuteField(2_700_000) == 45;
    assert "45m"[..2] == "45" && "45"[..1] == "4";
    assert DigitsValue("45") == 45;
    FormatDurationIsTheDurationText(2_700_000, "45m");
  }

  /** Sample value: three hours, whose minutes show as an unpadded zero. */
  lemma FormatDurationHoursExample()
    ensures FormatDuration(10_800_000) == "3h 0m"
  {
    var s := "3h 0m";
    assert HourField(10_800_000) == 3 && MinuteField(10_800_000) == 0;
    assert DigitRun(s) == 1 by {
      assert DigitRun(s[1..]) == 0;
    }
    assert s[..1] == "3" && DigitsValue("3") == 3;
    assert s[3..4] == "0" && DigitsValue("0") == 0;
    FormatDurationIsTheDurationText(10_800_000, s);
  }

  /** A whole day wraps to zero. */
  lemma FormatDurationDayWrap()
    ensures FormatDuration(86_400_000) == "0m"
  {
    assert HourField(86_400_000) == 0 && MinuteField(86_400_000) == 0;
    assert "0m"[..1] == "0" && DigitsValue("0") == 0;
    FormatDurationIsTheDurationText(86_400_000, "0m");
  }

  const MILLIS_PER_DAY: int := 24 * MILLIS_PER_HOUR

  /** Builds a sample trip that started `daysAgo` days before `now` and lasted
      `duration` ms; the end time is computed as `now - daysAgo days + duration`. */
  function SampleTrip(id: Long, name: string, now: Long, daysAgo: nat, duration: Long, distance: real,
                      averageSpeed: real, startAddress: string, endAddress: string): TripItem
    requires daysAgo * MILLIS_PER_DAY <= INT_MAX
  {
    var startTime := LongSub(now, daysAgo * MILLIS_PER_DAY);
    TripItem(id, name, startTime, LongAdd(startTime, duration), distance, duration,
             averageSpeed, startAddress, endAddress, true)
  }

  /** `getSampleTrips()`, with the wall-clock reading `now` as a parameter. */
  function SampleTrips(now: Long): seq<TripItem> {
    [ SampleTrip(1, "Smart Village Commute", now, 2, 45 * MILLIS_PER_MINUTE, 32.5, 43.3,
                 "Smart Village, 6th October City", "Downtown Cairo, Tahrir Square"),
      SampleTrip(2, "Weekend Shopping", now, 1, 35 * MILLIS_PER_MINUTE, 18.7, 32.0,
                 "Zamalek, Cairo", "City Stars Mall, Nasr City"),
      SampleTrip(3, "Cairo to Alexandria", now, 3, 3 * MILLIS_PER_HOUR, 220.5, 73.5,
                 "Cairo International Airport", "Alexandria Corniche, Mediterranean"),
      SampleTrip(4, "New Capital Visit", now, 4, 50 * MILLIS_PER_MINUTE, 45.2, 54.2,
                 "Maadi, Cairo", "New Administrative Capital"),
      SampleTrip(5, "Giza Pyramids Tour", now, 5, 25 * MILLIS_PER_MINUTE, 15.8, 37.9,
                 "Heliopolis, Cairo", "Great Pyramids of Giza") ]
  }

  /** Five completed trips with ids 1 to 5 and positive durations. For any clock
      reading past five days (so no `Long` arithmetic wraps) each trip ends exactly
      its duration after it starts, and before `now`. */
  lemma SampleTripsInvariants(now: Long)
    ensures var trips := SampleTrips(now);
      && |trips| == 5
      && (forall i :: 0 <= i < 5 ==> trips[i].id == i + 1 && trips[i].isCompleted && trips[i].duration > 0)
      && (forall i, j :: 0 <= i < j < 5 ==> trips[i].id != trips[j].id)
    ensures 5 * MILLIS_PER_DAY <= now ==> forall t :: t in SampleTrips(now) ==>
      t.endTime == t.startTime + t.duration && t.startTime < t.endTime < now
  {
  }
}
