# Vehicle tracker core in Dafny

A model of the logic inside the Android Automotive vehicle tracker app. The model has four parts:

- **Tracking session** (`Tracking`). The map screen keeps a flag, a speed, a distance, an elapsed time, a route-point count, a status message and a start stamp. These change through five events:
  - a simulated GPS tick every two seconds;
  - the tracking Switch;
  - the Start/Stop button;
  - the Save Trip button;
  - the status message clearing itself.

  The random speed and the wall clock are parameters of the events that read them.
- **Map view** (`MapsView`). This covers what the map screen draws for a session:
  - the route path through Smart Village, 6th October, Giza and Downtown Cairo, with thresholds 0/2/5/8 on the point count;
  - the place markers;
  - the km/m unit choice for the distance;
  - `formatTime` (`MM:SS` or `HH:MM:SS`).
- **Trip list** (`TripList`). This covers:
  - the trip record;
  - the search filter: name, start address or end address contains the query, ignoring case;
  - `formatDuration` (`{h}h {m}m` or `{m}m`);
  - the five sample trips.
- **Navigation** (`Navigation`). This covers:
  - the five destinations and the four-item bottom bar;
  - the `tripdetail/{id}` route built by `createRoute`;
  - reading the id back with `toLongOrNull() ?: 0L`.

Four support modules give the Kotlin/JVM semantics these rely on:

- `Kotlin`:
  - nullable values;
  - 64-bit `Long` and 32-bit `Int`, with two's-complement wrap-around;
  - `/` and `%`, which truncate toward zero.
- `Decimal`:
  - `Long.toString`;
  - `"%02d"`;
  - `toLongOrNull`. It is written as the standard library's negative-accumulation loop and proved equal to a declarative reading of a decimal literal.
- `Text`: `contains(…, ignoreCase = true)`.
- `TimeFields`: the `(t / unit) % range` clock fields. Both duration formatters use them.

Three behaviours of the code that the model keeps:

- **Only the Switch resets the metrics.** Turning the Switch off sets speed, distance, elapsed time and point count to zero (`MapsScreen.kt:320-328`). The Start/Stop button and Save Trip stop tracking but keep every metric. So "the point count equals the number of ticks" holds only when counted from a Switch reset (`Tracking.TicksSinceSwitchOn`), not from any start.
- **The speed can reach 40.** The speed is drawn as `Random.nextFloat() * 25f + 15f`, commented `// 15-40 km/h` (`MapsScreen.kt:44`). The arithmetic is in `Float`. The largest `nextFloat()` value is 1 − 2⁻²⁴; times 25 it rounds to 25 − 2⁻¹⁹, and adding 15 lands halfway between 40 − 2⁻¹⁸ and 40, which rounds to the even neighbour, exactly `40.0f`. The model therefore takes the closed range [15, 40].
- **Negative times show a minus sign.** The formatters use truncating `/` and `%`. With a negative time (a clock that went backwards), `formatTime` prints unpadded negative fields, for example `00:-5` or `-10:-10`. So its text is five or eight characters long only for non-negative times. The model keeps this behaviour (`MapsView.FormatTimeNegativeExamples`).

## Model

| member | source | states |
|---|---|---|
| Tracking.Tick | app/src/main/java/com/automotive/vehicletracker/ui/screens/maps/MapsScreen.kt:41-48 | A tick after tracking went off changes nothing. A tick while tracking shows the drawn speed (in 15–40 km/h) and sets the elapsed time to the clock reading minus the start. It keeps the flag, the message and the start stamp. It adds between 1/120 and 1/45 km, and exactly one route point below `Int.MAX_VALUE` |
| Tracking.TickDistance | app/src/main/java/com/automotive/vehicletracker/ui/screens/maps/MapsScreen.kt:44-45 | Two seconds at a drawn speed of 15–40 km/h covers between 1/120 and 1/45 km |
| Tracking.SwitchChanged | app/src/main/java/com/automotive/vehicletracker/ui/screens/maps/MapsScreen.kt:320-328 | The flag follows the Switch. Turning it off zeroes all four metrics. Turning it on keeps them. The start is stamped only when tracking actually turns on. The message is untouched |
| Tracking.StartStopPressed | app/src/main/java/com/automotive/vehicletracker/ui/screens/maps/MapsScreen.kt:416-423 | The flag flips and every metric is kept. The message is the start announcement exactly when tracking turns on, and is cleared otherwise. Turning on stamps the start |
| Tracking.SaveTripPressed | app/src/main/java/com/automotive/vehicletracker/ui/screens/maps/MapsScreen.kt:397-408 | The button is disabled when not tracking, so pressing it then changes nothing. Otherwise it stops tracking, announces the save, and keeps the metrics and the start stamp |
| Tracking.MessageExpired | app/src/main/java/com/automotive/vehicletracker/ui/screens/maps/MapsScreen.kt:436-441 | The message clears and nothing else changes |
| Tracking.TrackingTicks | app/src/main/java/com/automotive/vehicletracker/ui/screens/maps/MapsScreen.kt:41-49 | While tracking, N ticks add exactly N points (short of overflow) and the sum of their tick distances. The shown speed is the last draw, and the elapsed time is the last clock reading minus the start |
| Tracking.IdleTicks | app/src/main/java/com/automotive/vehicletracker/ui/screens/maps/MapsScreen.kt:43-48 | Ticks while not tracking leave the session exactly as it was |
| Tracking.TicksSinceSwitchOn | app/src/main/java/com/automotive/vehicletracker/ui/screens/maps/MapsScreen.kt:320-328 | After the Switch goes off and on, N ticks leave exactly N points and the summed distance, with elapsed time measured from the switch-on moment |
| Tracking.DistanceMonotone | app/src/main/java/com/automotive/vehicletracker/ui/screens/maps/MapsScreen.kt:45-45 | Along any run of events with no Switch-off, the distance never decreases |
| Tracking.InitialConsistent | app/src/main/java/com/automotive/vehicletracker/ui/screens/maps/MapsScreen.kt:28-35 | The first state satisfies the session invariant: distance ≥ 0, zero distance means all metrics are zero, and positive distance carries a drawn speed |
| Tracking.StepConsistent | app/src/main/java/com/automotive/vehicletracker/ui/screens/maps/MapsScreen.kt:318-330 | Every event preserves the session invariant |
| Tracking.RunConsistent | app/src/main/java/com/automotive/vehicletracker/ui/screens/maps/MapsScreen.kt:38-51 | Every session reachable by any sequence of events satisfies the invariant |
| Tracking.StartStopTwice | app/src/main/java/com/automotive/vehicletracker/ui/screens/maps/MapsScreen.kt:416-423 | Stop then Start on the button restores tracking with every metric as before. Only the start stamp is renewed, and the start is announced again |
| Tracking.SavedTripIsFrozen | app/src/main/java/com/automotive/vehicletracker/ui/screens/maps/MapsScreen.kt:398-405 | After Save Trip, later ticks leave the saved session unchanged, metrics included, until tracking resumes |
| Tracking.SwitchOffIdempotent | app/src/main/java/com/automotive/vehicletracker/ui/screens/maps/MapsScreen.kt:320-328 | Switching off twice is the same as switching off once |
| MapsView.RoutePath | app/src/main/java/com/automotive/vehicletracker/ui/screens/maps/MapsScreen.kt:112-139 | The path is a prefix of the waypoint list. Waypoint i is on it exactly when tracking and the point count exceeds threshold i (0, 2, 5, 8) |
| MapsView.RoutePathGrows | app/src/main/java/com/automotive/vehicletracker/ui/screens/maps/MapsScreen.kt:121-139 | More points never shorten the path: the path for fewer points is a prefix of the path for more |
| MapsView.VisibleMarkers | app/src/main/java/com/automotive/vehicletracker/ui/screens/maps/MapsScreen.kt:162-254 | Smart Village is always first and Downtown Cairo always last. 6th October is present exactly when the count exceeds 2, and Giza exactly when it exceeds 5. The markers appear in route order (6th October before Giza), so none appears twice |
| MapsView.MarkersFollowRoute | app/src/main/java/com/automotive/vehicletracker/ui/screens/maps/MapsScreen.kt:168-248 | While the route is drawn, the intermediate places have markers exactly when the path passes them. Downtown Cairo is marked before the path reaches it (more than 8 points) |
| MapsView.StoppedSessionKeepsMarkers | app/src/main/java/com/automotive/vehicletracker/ui/screens/maps/MapsScreen.kt:416-423 | After Stop on the button, the path disappears and the markers are exactly those shown before Stop, for any point count |
| MapsView.DistanceLabel | app/src/main/java/com/automotive/vehicletracker/ui/screens/maps/MapsScreen.kt:347-347 | Kilometres are shown exactly from 1 km up. The figure shown, read in its unit, is the distance. The metres figure for a sub-kilometre distance is in [0, 1000) |
| MapsView.FormatTime | app/src/main/java/com/automotive/vehicletracker/ui/screens/maps/MapsScreen.kt:474-484 | For a non-negative time the text shows the hour, minute and second fields as two digits each: `HH:MM:SS` when the hour field is non-zero, `MM:SS` otherwise |
| MapsView.ClockTextUnique | app/src/main/java/com/automotive/vehicletracker/ui/screens/maps/MapsScreen.kt:479-483 | Two texts that show the same fields in this layout are equal, so the layout determines the text |
| MapsView.FormatTimeIsTheClockText | app/src/main/java/com/automotive/vehicletracker/ui/screens/maps/MapsScreen.kt:474-484 | For a non-negative time, a text shows its clock fields exactly when it is the `formatTime` text |
| MapsView.FormatTimeRoundTrip | app/src/main/java/com/automotive/vehicletracker/ui/screens/maps/MapsScreen.kt:475-483 | Reading the text back gives the whole seconds since the last multiple of 24 hours: milliseconds are dropped and days wrap |
| MapsView.FormatTimeSameText | app/src/main/java/com/automotive/vehicletracker/ui/screens/maps/MapsScreen.kt:474-484 | Two non-negative times show the same text exactly when they fall on the same second of the day |
| MapsView.FormatTimeZero | app/src/main/java/com/automotive/vehicletracker/ui/screens/maps/MapsScreen.kt:481-482 | 0 ms shows `00:00` |
| MapsView.FormatTimeMinuteExample | app/src/main/java/com/automotive/vehicletracker/ui/screens/maps/MapsScreen.kt:481-482 | 65 s shows `01:05` |
| MapsView.FormatTimeHourExample | app/src/main/java/com/automotive/vehicletracker/ui/screens/maps/MapsScreen.kt:479-480 | 1 h 1 min 1 s shows `01:01:01` |
| MapsView.FormatTimeDayWrap | app/src/main/java/com/automotive/vehicletracker/ui/screens/maps/MapsScreen.kt:477-477 | A whole day wraps to `00:00` |
| MapsView.FormatTimeNegativeExamples | app/src/main/java/com/automotive/vehicletracker/ui/screens/maps/MapsScreen.kt:475-482 | −5 s shows `00:-5`, and −610 s shows `-10:-10`, which is seven characters |
| TimeFields.NonNegativeFields | app/src/main/java/com/automotive/vehicletracker/ui/screens/maps/MapsScreen.kt:475-477 | For a non-negative count the seconds, minutes and hours fields are in their clock ranges, and together they spell out the second and the minute of the day |
| TimeFields.FieldRanges | app/src/main/java/com/automotive/vehicletracker/ui/screens/triplist/TripListScreen.kt:443-444 | Each field is in its clock range for a non-negative count and in the mirrored non-positive range for a negative one |
| Decimal.Pad2 | app/src/main/java/com/automotive/vehicletracker/ui/screens/maps/MapsScreen.kt:480-482 | `%02d` of 0–99 is two digits reading back as the value. A negative value is not padded: it is `-` followed by the canonical digits of its magnitude, the same text as `toString` |
| Decimal.LongToString | app/src/main/java/com/automotive/vehicletracker/MainActivity.kt:37-37 | A `Long` in a string template is the canonical numeral of its magnitude, with no leading zeros, after a `-` exactly when it is negative |
| Decimal.NumeralUnique | app/src/main/java/com/automotive/vehicletracker/ui/screens/triplist/TripListScreen.kt:446-448 | A number has exactly one canonical numeral, so the template text of a non-negative value is determined by the value |
| Kotlin.Div | app/src/main/java/com/automotive/vehicletracker/ui/screens/maps/MapsScreen.kt:475-477 | `/` on a positive divisor rounds the exact quotient toward zero: from below for a non-negative dividend, from above for a negative one |
| Kotlin.Rem | app/src/main/java/com/automotive/vehicletracker/ui/screens/triplist/TripListScreen.kt:443-444 | `%` on a positive divisor leaves the remainder that completes the truncated quotient. It has the sign of the dividend and is smaller in magnitude than the divisor |
| Decimal.LongRoundTrip | app/src/main/java/com/automotive/vehicletracker/MainActivity.kt:37-37 | Every `Long` rendered by a string template is a literal that `toLongOrNull` reads back as itself |
| Decimal.ToLongOrNull | app/src/main/java/com/automotive/vehicletracker/MainActivity.kt:132-132 | The step-by-step parse returns a value exactly for an optionally signed digit string whose value fits a `Long`, that value, and null otherwise, including on overflow |
| Text.IndexOfIgnoreCase | app/src/main/java/com/automotive/vehicletracker/ui/screens/triplist/TripListScreen.kt:55-57 | The result is the first position at or after the start where the needle matches ignoring case, or −1 when there is none |
| Text.ContainsIgnoreCaseIsFoldedSubstring | app/src/main/java/com/automotive/vehicletracker/ui/screens/triplist/TripListScreen.kt:55-57 | The ignore-case search succeeds exactly when the case-folded query is a substring of the case-folded text |
| Text.ContainsIgnoresNeedleCase | app/src/main/java/com/automotive/vehicletracker/ui/screens/triplist/TripListScreen.kt:54-58 | Two queries with the same case-folded form give the same answer |
| TripList.KeepMatching | app/src/main/java/com/automotive/vehicletracker/ui/screens/triplist/TripListScreen.kt:54-58 | The kept trips are exactly the listed trips whose name or either address contains the query, ignoring case |
| TripList.FilterTrips | app/src/main/java/com/automotive/vehicletracker/ui/screens/triplist/TripListScreen.kt:50-60 | An empty query shows the list unchanged. Otherwise a trip is shown exactly when it is listed and matches, and never more trips than listed |
| TripList.EmptyQueryShortcut | app/src/main/java/com/automotive/vehicletracker/ui/screens/triplist/TripListScreen.kt:51-53 | The empty-query branch gives the same list that filtering with the empty query would |
| TripList.FilterKeepsOrder | app/src/main/java/com/automotive/vehicletracker/ui/screens/triplist/TripListScreen.kt:50-60 | The shown list is a subsequence of the full list: the order is kept |
| TripList.FilterCounts | app/src/main/java/com/automotive/vehicletracker/ui/screens/triplist/TripListScreen.kt:50-60 | Each matching trip is shown as many times as it is listed, and a non-matching trip not at all |
| TripList.FilterIdempotent | app/src/main/java/com/automotive/vehicletracker/ui/screens/triplist/TripListScreen.kt:50-60 | Filtering the shown list again with the same query changes nothing |
| TripList.FilterIgnoresQueryCase | app/src/main/java/com/automotive/vehicletracker/ui/screens/triplist/TripListScreen.kt:55-57 | Queries that differ only in letter case show the same list |
| TripList.FormatDuration | app/src/main/java/com/automotive/vehicletracker/ui/screens/triplist/TripListScreen.kt:442-450 | The text always ends in `m`. For a non-negative duration it shows the hour and minute fields as unpadded numerals with no leading zeros: `{h}h {m}m` when the hour field is non-zero, `{m}m` otherwise. It is at most seven characters (`23h 59m`) |
| TripList.DurationTextUnique | app/src/main/java/com/automotive/vehicletracker/ui/screens/triplist/TripListScreen.kt:445-449 | Two texts that show the same fields in this layout are equal, so the layout determines the text |
| TripList.FormatDurationIsTheDurationText | app/src/main/java/com/automotive/vehicletracker/ui/screens/triplist/TripListScreen.kt:442-450 | For a non-negative duration, a text shows its fields exactly when it is the `formatDuration` text |
| TripList.FormatDurationRoundTrip | app/src/main/java/com/automotive/vehicletracker/ui/screens/triplist/TripListScreen.kt:443-449 | Reading the text back gives the whole minutes since the last multiple of 24 hours: seconds are dropped and days wrap |
| TripList.FormatDurationSameText | app/src/main/java/com/automotive/vehicletracker/ui/screens/triplist/TripListScreen.kt:442-450 | Two non-negative durations show the same text exactly when they fall on the same minute of the day |
| TripList.FormatDurationZero | app/src/main/java/com/automotive/vehicletracker/ui/screens/triplist/TripListScreen.kt:448-448 | 0 ms shows `0m` |
| TripList.FormatDurationMinutesExample | app/src/main/java/com/automotive/vehicletracker/ui/screens/triplist/TripListScreen.kt:448-448 | 45 min shows `45m` |
| TripList.FormatDurationHoursExample | app/src/main/java/com/automotive/vehicletracker/ui/screens/triplist/TripListScreen.kt:446-446 | 3 h shows `3h 0m`, with an unpadded zero for the minutes |
| TripList.FormatDurationDayWrap | app/src/main/java/com/automotive/vehicletracker/ui/screens/triplist/TripListScreen.kt:444-444 | A whole day wraps to `0m` |
| TripList.SampleTripsInvariants | app/src/main/java/com/automotive/vehicletracker/ui/screens/triplist/TripListScreen.kt:366-429 | There are five completed sample trips with distinct ids 1–5 and positive durations. With a clock past five days, each ends its duration after it starts, and before now |
| Navigation.CreateRoute | app/src/main/java/com/automotive/vehicletracker/MainActivity.kt:37-37 | Every detail route is the `tripdetail/` prefix followed by a non-empty id |
| Navigation.DecodeTripId | app/src/main/java/com/automotive/vehicletracker/MainActivity.kt:132-132 | A missing argument, a non-literal, or an out-of-range literal decodes to trip 0. An in-range signed literal decodes to its value |
| Navigation.RouteRoundTrip | app/src/main/java/com/automotive/vehicletracker/MainActivity.kt:125-132 | Following the route built for any trip id hands the detail screen that same id |
| Navigation.CreateRouteInjective | app/src/main/java/com/automotive/vehicletracker/MainActivity.kt:36-37 | Two trips get the same route exactly when they have the same id |
| Navigation.DecodeTripIdExamples | app/src/main/java/com/automotive/vehicletracker/MainActivity.kt:132-132 | The empty argument, a lone sign, a leading space and the unfilled pattern all give 0. `+42`, `-42` and `007` give 42, −42 and 7 |
| Navigation.BottomNavRoutes | app/src/main/java/com/automotive/vehicletracker/MainActivity.kt:60-65 | The bar lists four destinations, starting with the start destination, with pairwise different routes. They are all destinations except trip detail. None of their routes equals the detail pattern, and none can be taken for a concrete detail route |

## Left out

- Tracking.TickDistance: computes in exact reals. The source computes `currentSpeed / 3.6f * 2f / 1000f` and the accumulated distance in `Float`, so rounding is not modelled.
- Tracking.Tick: the model treats the two-second `delay`, the coroutine lifetime and the cancellation of the effect as the order in which events arrive. `Random.nextFloat()` and `System.currentTimeMillis()` become the parameters `speed` and `now`.
- MapsView.FormatTime: the contract speaks only of non-negative times. A negative time (the wall clock moved back) gives unpadded negative fields, which `MapsView.FormatTimeNegativeExamples` shows.
- TripList.FormatDuration: the contract speaks only of non-negative durations beyond the final `m`. Negative durations print negative fields, as `formatTime` does.
- MapsView.DistanceLabel: the `"%.2f"` and `"%.0f"` renderings of the figure, and the speed's `"%.1f"`, are not modelled. Locale-dependent float formatting is out of scope, so the label carries the exact figure.
- Decimal.ToLongOrNull: only ASCII `0`–`9` are digits. The JVM's `Character.digit` also accepts other Unicode decimal digits.
- Text.CharEqualsIgnoreCase: case mapping covers ASCII letters only. Unicode case mapping is not modelled.
- Decimal.Pad2: `String.format` uses the default locale. Locales with non-ASCII digits are not modelled.
- The drawing itself (canvas coordinates, colours, stroke) and the speed/distance/time/points badges are left out. The vertices and markers are what the logic decides.
- `formatDate` and the trip list's own `formatTime` (`TripListScreen.kt:432-440`) are left out. They delegate to `SimpleDateFormat` with the device locale and time zone.
- The trip list's "This Month" count and total-distance sum (`TripListScreen.kt:125-133`) are left out. They read the clock and format floats.
- The back stack, `popBackStack`, and the navigation library's matching of a route against `tripdetail/{tripId}` are left out. `Navigation.TripIdArgument` stands for that matching by taking everything after the prefix.
- The Dashboard, Trip Detail and Settings screens are not part of this model. Only the detail screen's trip id is.
