# headways.py — a verified model of the bus headway engine

`headways.py` estimates how often CTA buses reach each stop of a route.
It compares the GTFS timetable with the vehicle positions of the Bus Tracker
feed. The model follows its pipeline, function by function:

- **Feeds** (`feeds.dfy`).
  - `string_to_datetime` parses a `YYYY-MM-DD` date.
  - `get_chn_vehicles` keeps the samples that fall inside one service day's
    window, which is open at the start and closed at the end.
  - `get_patterns` asks for pattern ids in batches of ten.
- **Pattern stops** (`crossings.dfy`). `get_pattern_stops` keeps the stop
  points of every pattern in `seq` order. Each one is tagged with its pattern
  id and with the direction of the first pattern row that has that id.
- **Vehicle intervals** (`intervals.dfy`). `get_vehicle_intervals` first
  filters to the route. It then groups the samples by vehicle and by
  pattern, in order of first appearance, and sorts each group by time. Each
  pair of consecutive samples in a group becomes one motion interval; the
  `np.roll` row that wraps round is dropped.
- **Stop crossings** (`crossings.dfy`).
  - `interpolate_stop_time` places the stop in proportion to the distance
    covered between the two ends of an interval, assuming constant speed.
    It then rounds to the nearest minute, with an exact half minute going to
    the even minute.
  - `get_stoptimes` keeps the intervals that cross a stop: they start before
    the stop's distance and end at or beyond it. It turns each such interval
    into a crossing.
- **Timetable service windows** (`service_windows.dfy`).
  `get_active_service_times` takes, for each GTFS service id at one stop and
  direction, the range from its first to its last visit. It then sweeps the
  sorted ranges into the windows in which some service runs. The sweep is
  modelled twice:
  - once exactly as written (`SweepAsWritten`);
  - once as its documentation describes (`MergeRanges`), with the windows
    proved disjoint, ordered, covering every range and anchored at visits.
- **Scheduled headways** (`scheduled.dfy`). `get_scheduled_headways` sorts
  the visits of the stop and subtracts from each one its rolled predecessor.
  It then clears the headway of every visit that opens a service window.
- **Actual headways** (`actual.dfy`). `get_actual_headways` does the same per
  (stop, direction) for the estimated crossings. There the first crossing of
  each group is the one that is cleared. The rows of every group are pooled
  into one table.
- **Statistics** (`statistics.dfy`).
  - `get_headway_stats` gives the mean, maximum and minimum of the non-null
    headways.
  - `get_average_wait_time` gives, per stop id, the Average Wait Time: the
    sum of squared headways in minutes divided by twice the observed
    timeframe in minutes.
  - `RegularServiceWait` proves that perfectly regular service gives half a
    headway. The comment at `headways.py:871` says that the formula
    simplifies to D/T when D = T. That comment does not describe what the
    code computes.

Timestamps are integer seconds. A pandas null is `Option.None`. `sort_values`
is `Sorting.SortBy`, an ascending permutation. `np.roll(s, 1)` is
`Sorting.Roll`. `unique().tolist()` is `Sorting.Distinct`. A boolean-mask
selection `df.loc[mask]` is `Sorting.Filter`, and taking one column is
`Sorting.Map`. Loops that build
a dataframe group by group are methods whose loop invariants tie the partial
result to a fold function; the lemmas are stated about those functions.

## Model

| member | source | states |
|---|---|---|
| Feeds.ParseInt | headways.py:86-88 | `int()` of a slice succeeds exactly when the slice is a non-empty run of digits |
| Feeds.Slice | headways.py:86-88 | Python slicing: the length is clipped to the string and is zero for an empty or inverted range |
| Feeds.StringToDate | headways.py:81-89 | a date is produced exactly when the year, month and day slices all parse and name a real calendar day, as `pendulum.datetime` demands |
| Feeds.DaysInMonth | headways.py:89 | a month has 28 to 31 days, and 29 exactly for February of a Gregorian leap year |
| Feeds.MonthOutOfRange | headways.py:89 | `2023-13-01` parses field by field but is rejected, since month 13 does not exist |
| Feeds.PaddedValue | headways.py:86-88 | a zero-padded numeral reads back as the number it was written from |
| Feeds.DateRoundTrip | headways.py:81-89 | parsing a `YYYY-MM-DD` rendering of any valid date gives that date back |
| Feeds.SamplesInWindow | headways.py:495-500 | exactly the samples strictly after the service-day start and at or before its end are kept |
| Feeds.SamplesInWindowCount | headways.py:498-500 | every in-window sample is kept as often as it occurs, and no other sample |
| Feeds.PatternBatches | headways.py:533-539 | the batches concatenate back to the id list; each holds 1 to 10 ids, all but the last exactly 10, and there are ceil(n/10) of them |
| Sorting.SortBy | headways.py:672 | `sort_values`: the result is ascending in the key and is a permutation of the input |
| Sorting.Distinct | headways.py:657 | `unique().tolist()`: every input element appears, nothing else does, and none twice |
| Sorting.Roll | headways.py:676 | `np.roll(s, 1)`: the last element moves to the front and every other moves one place later |
| Sorting.Filter | headways.py:649 | boolean-mask selection `df.loc[mask]`: every kept row satisfies the mask and comes from the input, and every input row satisfying it is kept |
| Sorting.FilterCount | headways.py:649 | `.loc[mask]` keeps every row satisfying the mask as often as it occurs, and no other row |
| Sorting.FilterAppend | headways.py:649 | selecting from a concatenation selects from each part in turn, so the kept rows stay in input order |
| Sorting.DistinctFirstAppearance | headways.py:657 | `unique()` lists values in order of first appearance: an earlier listed value occurs before any occurrence of a later one |
| Intervals.Pairs | headways.py:674-686 | one interval per consecutive pair of a group, from the earlier to the later sample; the wrapped first row gives none |
| Intervals.Group | headways.py:665-672 | the samples of one vehicle and pattern, sorted by time |
| Intervals.GroupCount | headways.py:665-672 | a group holds every sample of its vehicle and pattern as often as it occurs, and nothing else, so its length is the number of such samples |
| Intervals.GroupIntervals | headways.py:672-686 | the intervals of one vehicle-and-pattern group are its consecutive pairs |
| Intervals.OneVehicleIntervals | headways.py:667-689 | the pattern loop yields one vehicle's intervals pattern by pattern, in the order of the given pattern ids |
| Intervals.RouteIntervals | headways.py:662-689 | the vehicle loop yields the intervals of the given vehicles, vehicle by vehicle, each from that vehicle's own pattern ids |
| Intervals.VehicleIntervals | headways.py:646-691 | the output is the intervals of the route's samples, vehicle by vehicle in `unique()` order (`Sorting.DistinctFirstAppearance`); with `IntervalsConsecutive` and `IntervalsComplete` these are exactly the consecutive pairs of every vehicle-and-pattern group |
| Intervals.GroupMembers | headways.py:665-670 | a sample is in a group exactly when it has that group's vehicle and pattern |
| Intervals.PairConsecutive | headways.py:672-686 | each group pair joins two samples of the same vehicle and pattern with no sample of the group between them in time |
| Intervals.PairsConsecutive | headways.py:674-686 | every interval of a group is such a pair, moves forward in time and keeps the group's vehicle and pattern |
| Intervals.VehicleIntervalsConsecutive | headways.py:662-689 | every interval of a vehicle joins consecutive samples and does not run backwards in time |
| Intervals.IntervalsConsecutive | headways.py:662-691 | every interval of the route joins consecutive samples of one vehicle and pattern |
| Intervals.VehicleIntervalsHold | headways.py:667-689 | every interval of one of a vehicle's pattern groups is among that vehicle's intervals |
| Intervals.RouteIntervalsHold | headways.py:662-689 | every interval of one of the listed vehicles is among the route's intervals |
| Intervals.IntervalsComplete | headways.py:662-691 | every pair of consecutive samples of any vehicle and pattern of the route becomes an interval of the output |
| Intervals.ThreeSamplesTwoIntervals | headways.py:674-686 | three samples of one vehicle and pattern give exactly two intervals; one sample gives none |
| Crossings.DirectionOf | headways.py:618 | the direction is that of the first pattern row with the id |
| Crossings.StopsOfPointsSound | headways.py:621 | every stop kept is a point of type `S`, tagged with pattern and direction |
| Crossings.StopsOfPointsComplete | headways.py:621 | every point of type `S` is kept |
| Crossings.StopsOfPointsSorted | headways.py:614-621 | filtering points sorted by `seq` keeps the stops sorted |
| Crossings.PatternStops | headways.py:612-631 | the output is the stops of every pattern, pattern by pattern |
| Crossings.PatternStopsSorted | headways.py:614-621 | the stops of one pattern are in `seq` order |
| Crossings.PatternStopsAreStopPoints | headways.py:612-621 | the stops of a pattern are exactly its `S` points, each tagged with the pattern's first direction |
| Crossings.Qualifies | headways.py:771-776 | an interval that starts before the stop and ends at or beyond it moves forward, so the distance ratio has a positive denominator |
| Crossings.RoundToMinute | headways.py:724 | the result is a whole minute within half a minute of the exact time; an exact half minute goes to the even minute |
| Crossings.EstimateStopTime | headways.py:696-726 | the estimate is a whole minute within half a minute of the constant-speed time at the stop |
| Crossings.ExactTimeWithinInterval | headways.py:717-721 | the constant-speed time is after the interval's start and no later than its end, and it equals the end exactly when the stop is at the end distance |
| Crossings.EstimateNearInterval | headways.py:717-724 | the rounded estimate lies within half a minute of the interval |
| Crossings.InterpolationExample | headways.py:717-724 | from 100 s at distance 0 to 200 s at distance 100, a stop at 40 is crossed at 140 s, which rounds to 120 s |
| Crossings.CrossingsAt | headways.py:766-799 | the crossings are exactly those of the pattern's intervals that pass the stop, each timed by the estimate |
| Crossings.CrossingsAtCount | headways.py:766-799 | each passing interval of the pattern gives its crossing exactly as often as the interval occurs |
| Crossings.FirstDist | headways.py:758-763 | the stop distance is that of the first listed stop row with the same stop id and pattern |
| Crossings.StopTimes | headways.py:755-802 | the output concatenates the crossings of every stop row in order |
| Crossings.CrossingsSound | headways.py:755-802 | every crossing comes from an input interval that passes the stop, is timed by the estimate, and belongs to a stop row with its stop, direction and pattern, whose distance is the first listed one for that stop and pattern |
| Crossings.CrossingsComplete | headways.py:755-802 | every interval of a stop row's pattern that passes the stop's first listed distance gives a crossing |
| ServiceWindows.AtStop | headways.py:178-180 | exactly the visits of the stop and direction are kept |
| ServiceWindows.AtStopCount | headways.py:177-180 | every visit of the stop and direction is kept as often as it occurs, and no other visit |
| ServiceWindows.FindService | headways.py:183-186 | finds the range already opened for a service id, or reports that there is none |
| ServiceWindows.ServiceTimesFromVisits | headways.py:186-188 | every time gathered for a service is the time of one of its visits |
| ServiceWindows.AbsorbNewService | headways.py:183-199 | a visit of a new service adds a range for it and keeps every range correct |
| ServiceWindows.AbsorbKnownService | headways.py:183-199 | a visit of a known service widens its range and keeps every range correct |
| ServiceWindows.ServiceRangesCorrect | headways.py:183-199 | there is one range per service id, from its earliest to its latest visit |
| ServiceWindows.ServiceRangesCount | headways.py:183-199 | there are at most as many ranges as visits, and none exactly when there is no visit |
| ServiceWindows.SpansAtVisits | headways.py:186-190 | every range is well-formed and starts and ends at visit times |
| ServiceWindows.SpansHoldVisits | headways.py:186-190 | every visit time falls inside some range; there are no ranges exactly when there are no visits |
| ServiceWindows.SortedRangesAtVisits | headways.py:178-202 | the ranges of the stop are sorted by start and anchored at its visits |
| ServiceWindows.SortedRangesHoldVisits | headways.py:178-202 | every visit of the stop lies in one of its ranges |
| ServiceWindows.MergeRanges | headways.py:166-171 | the windows are ordered, separated by gaps, each covered throughout by ranges, and every range lies in one window |
| ServiceWindows.ActiveServiceTimesAsWritten | headways.py:213-245 | the loop emits exactly the sweep as written over the sorted ranges |
| ServiceWindows.SweepAsWritten | headways.py:213-245 | the sweep emits no more windows than ranges, some exactly when there is a range, and the last window closes at the last sorted range's own end |
| ServiceWindows.SweepFromShape | headways.py:219-245 | the sweep from any row onwards emits a window exactly when rows remain, no more windows than rows, the last ending at the last row's end |
| ServiceWindows.SweepAsWrittenLosesStart | headways.py:222-226 | a single range is emitted with the sentinel start 0 |
| ServiceWindows.SweepAsWrittenSplitsCoveredTime | headways.py:236-242 | a window is closed at a time that a longer earlier range still covers |
| ServiceWindows.WindowsHoldVisits | headways.py:166-171 | once every range lies in a window, every visit lies in a window |
| ServiceWindows.WindowsAtVisits | headways.py:166-171 | windows built from ranges that start and end at visits also start and end at visits |
| ServiceWindows.FirstWindowEarliest | headways.py:202 | the first start of the sorted ranges is no later than any visit |
| ServiceWindows.MergedWindowsAreActive | headways.py:151-245 | the merged windows of the stop's ranges are active windows for its visits |
| ServiceWindows.FirstWindowOpensEarliest | headways.py:166-171 | with any visit, the first window opens at the earliest visit |
| ServiceWindows.GappedOrder | headways.py:166-171 | of two windows, the earlier one ends strictly before the later one starts |
| ServiceWindows.NoStartInsideRange | headways.py:166-171 | no window opens strictly inside a service range, since that range lies in one window |
| ServiceWindows.SplitWindowsNotActive | headways.py:166-171 | splitting one service's range (100 s, 300 s) into two windows does not give active windows |
| ServiceWindows.ActiveServiceTimes | headways.py:151-245 | the result is the active windows of the stop's visits: ordered, gapped, covered by ranges, holding every visit and every service range inside one |
| Scheduled.HeadwayRowAt | headways.py:287-302 | row i holds visit i, its rolled predecessor and their difference, both cleared when the visit opens a window |
| Scheduled.EarliestIsFirst | headways.py:287 | after sorting, the first visit is the earliest one |
| Scheduled.HeadwayRowsVisits | headways.py:287-304 | the rows hold the sorted visits, in order |
| Scheduled.HeadwayRowsNulls | headways.py:297-302 | a headway is null exactly when its visit opens a window, and so is the previous time |
| Scheduled.HeadwayRowsGaps | headways.py:290-293 | every non-null row after the first holds the previous visit's time and the non-negative gap to it |
| Scheduled.HeadwayRowsCorrect | headways.py:287-302 | when the earliest visit opens a window, the rows are the visits in time order, null exactly at window starts, the first row null, and every other row the gap to the previous visit |
| Scheduled.EarliestVisitStartsWindow | headways.py:278-299 | with documented windows, the earliest visit opens a window, so the wrapped first row is cleared |
| Scheduled.ScheduledHeadways | headways.py:257-304 | the rows are the stop's visits sorted by time, with a headway to the previous visit except at the opening of each active window |
| Scheduled.NullOnlyAfterBreak | headways.py:297-302 | a null scheduled headway never falls strictly inside a service range, so it marks a real break in service |
| Scheduled.TwoVisitsServiceRange | headways.py:183-190 | two visits of one service at 100 s and 200 s give that service the single range 100 s to 200 s |
| Scheduled.TwoVisitsOneRange | headways.py:183-202 | two visits of one service at 100 s and 200 s make one range, 100 s to 200 s |
| Scheduled.WrapSurfacesAsWritten | headways.py:290-302 | with the sweep as written, the first of those visits keeps the wrapped predecessor 200 s and a headway of -100 s |
| Actual.StopKeys | headways.py:829 | every (stop, direction) of the crossings occurs once |
| Actual.AtKeyCount | headways.py:832 | exactly the crossings of one (stop, direction) are kept, with their multiplicities |
| Actual.Subtract | headways.py:838-847 | the subtraction pairs every sorted crossing with its time minus the rolled previous time |
| Actual.RolledRowAt | headways.py:838-847 | row i holds crossing i and its time minus the rolled previous time |
| Actual.RolledRowsGaps | headways.py:835-847 | after sorting, every row but the first holds the time since the crossing before it |
| Actual.NullFirst | headways.py:855 | clearing the first headway keeps the crossings and the later gaps |
| Actual.GroupHeadways | headways.py:832-855 | a group's rows are its crossings sorted by time, the first with no headway and every other with the time since the one before |
| Actual.PoolGroup | headways.py:857 | appending the rows of a new (stop, direction) keeps the pooled table's headway invariant |
| Actual.ActualHeadways | headways.py:809-859 | the table holds every crossing once; a headway is null exactly at the first crossing of its stop and direction, and otherwise it is the gap to the previous crossing of that stop and direction, in time order |
| Statistics.Values | headways.py:327-331 | the non-null headways, each as many times as it occurs |
| Statistics.ValuesCount | headways.py:327-329 | there are as many values as non-null headways |
| Statistics.MinOf | headways.py:331 | the minimum is one of the values and bounds them all from below |
| Statistics.MaxOf | headways.py:330 | the maximum is one of the values and bounds them all from above |
| Statistics.SumBounds | headways.py:329 | a sum of n values between lo and hi lies between n·lo and n·hi |
| Statistics.HeadwayStats | headways.py:318-336 | the statistics are null exactly when every headway is null; otherwise min and max are attained non-null headways that bound all the others |
| Statistics.MeanWithinRange | headways.py:329-331 | the mean lies between the minimum and the maximum |
| Statistics.MeanValue | headways.py:329 | the mean is the sum of the non-null headways divided by their count |
| Statistics.EqualHeadwaysMean | headways.py:329 | when every non-null headway is h, the mean is h |
| Statistics.TimedeltaSeconds | headways.py:882 | `.seconds` lies in one day and differs from the span by whole days |
| Statistics.TimeframeWithinDay | headways.py:879-882 | when every interval runs forward inside one window shorter than a day, `.seconds` drops nothing: the timeframe is the latest end minus the earliest start, and no interval is longer |
| Statistics.RowsAtStop | headways.py:878 | exactly the rows of one stop id are kept, in both directions |
| Statistics.RowsAtStopCount | headways.py:878 | every row of the stop is kept as often as it occurs, and no other row |
| Statistics.TimeframeSpan | headways.py:879-882 | the timeframe is the `.seconds` of the span from the earliest interval start to the latest interval end |
| Statistics.Timeframe | headways.py:879-882 | the observed timeframe, as `Timedelta.seconds`, lies within one day |
| Statistics.SquareSumNonNegative | headways.py:885 | the sum of squared headways is not negative |
| Statistics.AwtOf | headways.py:882-885 | AWT is undefined exactly when the timeframe is zero, and is otherwise not negative |
| Statistics.MeanMinutes | headways.py:884-888 | the mean headway is undefined exactly when there is no headway; otherwise, in minutes, times the count, it gives the total in seconds over 60 |
| Statistics.NoHeadways | headways.py:884-888 | a stop has no headway values exactly when every one of its rows is null |
| Statistics.WaitAt | headways.py:878-888 | a stop's AWT is undefined exactly when its timeframe is zero, and its mean is undefined exactly when all its headways are null |
| Statistics.RegularServiceWait | headways.py:870-885 | equal headways of h seconds filling the timeframe give an AWT of h/2 seconds, in minutes |
| Statistics.StopIds | headways.py:873 | each stop id of the rows occurs once, and each has rows |
| Statistics.AverageWaitTimes | headways.py:864-892 | one wait record per distinct stop id, in `unique()` order, each computed from that stop's rows (`Sorting.DistinctFirstAppearance` gives the order) |

## Left out

- Network access, the Bus Tracker API key, JSON decoding and S3 storage are not modelled. The feeds are given as sequences of records.
- `get_stop_details`: the GTFS loading and the dataframe merges are not modelled. Its output is the input `Visit` sequence.
- `get_pattern_linestrings`, the geometry columns and all map drawing are not modelled. They compute no headway.
- `get_headway_stats`: the quartiles and the median are not modelled.
- Crossings.EstimateStopTime: rounding is exact rational arithmetic. Floating-point error in the distance ratio and nanosecond truncation in pandas are not modelled.
- Statistics.AwtOf: AWT and the mean headway are exact reals rather than floats.
- Statistics.HeadwayStats: the mean is a real number of seconds rather than a `Timedelta`.
- Statistics.AwtOf: a zero timeframe yields `None`. Python would give `inf`, or `NaN` when the sum is also zero.
- Feeds.ParseInt: it accepts only plain digit strings. Python's `int()` also takes a sign, surrounding spaces and underscores.
- Feeds.SamplesInWindow: building the window with `pd.to_datetime` of the date plus `pd.Timedelta` offsets is left out. The day and the offsets are parameters.
- Sorting.SortBy: `sort_values` is not stable. The model uses the stable order, which keeps ties in input order. The contracts that name pairs of sorted samples (Intervals.Pairs, Intervals.PairConsecutive, Intervals.IntervalsComplete, Intervals.VehicleIntervals) and the as-written sweep (ServiceWindows.SweepAsWritten) describe that order: two samples of one group with the same timestamp may be paired the other way round by pandas, and two ranges with the same start may be swept in the other order. Intervals.IntervalsConsecutive, ServiceWindows.MergeRanges, Scheduled.ScheduledHeadways and Actual.ActualHeadways state only what every ascending order satisfies.
- Scheduled.ScheduledHeadways: the source sorts on the `arrival_time` string. The model sorts on the visit time, which gives the same order for zero-padded `HH:MM:SS` times.
- Actual.ActualHeadways: the source visits the (stop, direction) keys in the iteration order of a Python set. The model uses first-appearance order. Its contract holds for any order.
- Crossings.StopTimes: when no vehicle runs on the route, the source fetches no pattern and raises `KeyError` at `df_output['pt']` (headways.py:554); the model returns no crossings there. When vehicles run but no interval passes any stop, the source returns a frame with no columns (headways.py:760-782, 802) and the model returns an empty sequence.
- Actual.ActualHeadways: on a crossings frame with no columns the source raises `KeyError` at `df_stoptimes['stpid']` (headways.py:829); the model returns an empty table.
- Statistics.AverageWaitTimes: on a headways frame with no columns the source raises `KeyError` at `headways['stpid']` (headways.py:873); the model returns no wait records.
- ServiceWindows.ServiceRangesCorrect: the source iterates the service ids as a set and re-sorts after each one. The model gathers them in first-appearance order and sorts once, which yields the same sorted ranges.
- Chained assignment through `.iloc` is taken to write through to the frame, which is what the code relies on.
- The notebook cells that run the pipeline for one route and day are not modelled.

## Findings

| source | as written | input that shows it | evidently intended | confidence | as-written member | corrected member |
|---|---|---|---|---|---|---|
| headways.py:222-226 | the last range is emitted with whatever `start_time` holds, and that is the sentinel 0 when no window is open | one service whose visits run from 100 s to 200 s yields the window (0, 200) | the window opens at the range's start, (100, 200) | not executed | ServiceWindows.SweepAsWrittenLosesStart | ServiceWindows.MergeRanges |
| headways.py:239-242 | a window is closed when the next start is after this row's own end, even when an earlier, longer range is still running | ranges (100, 1000), (200, 300) and (500, 600) yield a window ending at 300, although 400 s lies inside (100, 1000) | close only when the next start is after the running window's latest end | not executed | ServiceWindows.SweepAsWrittenSplitsCoveredTime | ServiceWindows.MergeRanges |
| headways.py:290-302 | the first sorted visit keeps its rolled predecessor whenever the window list does not contain its time | two visits of one service at 100 s and 200 s: the first row gets previous 200 s and headway -100 s | the earliest visit has no previous visit and a null headway | not executed | Scheduled.WrapSurfacesAsWritten | Scheduled.ScheduledHeadways |
