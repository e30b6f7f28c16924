/**
 * The pure logic around the two external feeds: the service-date string, the
 * service-day window applied to vehicle position samples, and the batching of
 * pattern ids for the pattern-topology request. The downloads themselves are
 * not part of this model.
 */
module Feeds {
  import opened Wrappers

  /** Seconds since the epoch. */
  type Time = int

  /** One scraped vehicle position: vehicle `vid`, pattern `pid`, route `rt`, time `tmstmp`, distance `pdist`. */
  datatype Sample = Sample(vehicle: int, pattern: int, route: string, time: Time, dist: int)

  function SampleTime(s: Sample): int { s.time }

  // ---------------------------------------------------------------------------
  // The "YYYY-MM-DD" service-date string

  datatype Date = Date(year: nat, month: nat, day: nat)

  predicate IsDigit(c: char) { '0' <= c <= '9' }

  predicate AllDigits(s: string) { forall i :: 0 <= i < |s| ==> IsDigit(s[i]) }

  /** The decimal value of a string of digits. */
  function DigitsValue(s: string): nat
    requires AllDigits(s)
  {
    if s == [] then 0 else DigitsValue(s[..|s| - 1]) * 10 + (s[|s| - 1] as int - '0' as int)
  }

  /** Python's `int(text)` on plain decimal text: `None` models the ValueError raised on anything else. */
  function ParseInt(text: string): (r: Option<nat>)
    ensures r.Some? <==> |text| > 0 && AllDigits(text)
  {
    if |text| > 0 && AllDigits(text) then Some(DigitsValue(text)) else None
  }

  /** Python slice `s[lo:hi]` for non-negative bounds: bounds past the end are clipped. */
  function Slice(s: string, lo: nat, hi: nat): (r: string)
    ensures |r| == if lo <= hi && lo <= |s| then (if hi <= |s| then hi else |s|) - lo else 0
  {
    var h := if hi <= |s| then hi else |s|;
    if lo <= h then s[lo..h] else []
  }

  predicate IsLeapYear(year: int)
  {
    year % 4 == 0 && (year % 100 != 0 || year % 400 == 0)
  }

  /** The length of a month of the proleptic Gregorian calendar. */
  function DaysInMonth(year: int, month: int): (n: int)
    requires 1 <= month <= 12
    ensures 28 <= n <= 31
    ensures n == 29 <==> month == 2 && IsLeapYear(year)
  {
    if month == 2 then (if IsLeapYear(year) then 29 else 28)
    else if month == 4 || month == 6 || month == 9 || month == 11 then 30
    else 31
  }

  /** A date `datetime` accepts: year 1 to 9999, month 1 to 12, a day of that month. */
  predicate ValidDate(d: Date)
  {
    1 <= d.year <= 9999 && 1 <= d.month <= 12 && 1 <= d.day <= DaysInMonth(d.year, d.month)
  }

  /**
   * `string_to_datetime`: year from characters 0-3, month from 5-6, day from 8
   * onward; the separators are never inspected. `None` when a field is not a
   * number or the fields name no calendar day (the source raises in `int` or
   * in `pendulum.datetime`).
   */
  function StringToDate(text: string): (r: Option<Date>)
    ensures r.Some? <==>
      ParseInt(Slice(text, 0, 4)).Some? && ParseInt(Slice(text, 5, 7)).Some? &&
      ParseInt(Slice(text, 8, |text|)).Some? &&
      ValidDate(Date(ParseInt(Slice(text, 0, 4)).value, ParseInt(Slice(text, 5, 7)).value,
                     ParseInt(Slice(text, 8, |text|)).value))
    ensures r.Some? ==> ValidDate(r.value)
  {
    var year := ParseInt(Slice(text, 0, 4));
    var month := ParseInt(Slice(text, 5, 7));
    var day := ParseInt(Slice(text, 8, |text|));
    if year.Some? && month.Some? && day.Some? && ValidDate(Date(year.value, month.value, day.value)) then
      Some(Date(year.value, month.value, day.value))
    else None
  }

  /** A thirteenth month is rejected although every field parses. */
  lemma {:induction false} MonthOutOfRange()
    ensures StringToDate("2023-13-01") == None
  {
    var text := "2023-13-01";
    assert Slice(text, 5, 7) == "13";
    assert DigitsValue("13") == 13 by {
      assert "13"[..1] == "1";
      assert "1"[..0] == [];
    }
  }

  function Pow10(n: nat): nat
  {
    if n == 0 then 1 else 10 * Pow10(n - 1)
  }

  /** `n` written with exactly `width` decimal digits, zero padded. */
  function Padded(n: nat, width: nat): (s: string)
    requires n < Pow10(width)
    ensures |s| == width && AllDigits(s)
  {
    if width == 0 then []
    else Padded(n / 10, width - 1) + ['0' + ((n % 10) as char)]
  }

  /** The "YYYY-MM-DD" rendering of a date, the format the service-date parameters use. */
  function FormatDate(d: Date): (s: string)
    requires d.year < 10000 && d.month < 100 && d.day < 100
    ensures |s| == 10 && s[4] == '-' && s[7] == '-'
  {
    Padded(d.year, 4) + "-" + Padded(d.month, 2) + "-" + Padded(d.day, 2)
  }

  lemma {:induction false} PaddedValue(n: nat, width: nat)
    requires n < Pow10(width)
    ensures DigitsValue(Padded(n, width)) == n
  {
    if width > 0 {
      var s := Padded(n, width);
      assert s[..|s| - 1] == Padded(n / 10, width - 1);
      PaddedValue(n / 10, width - 1);
    }
  }

  /** Parsing the "YYYY-MM-DD" rendering of a calendar day gives back that day. */
  lemma {:induction false} DateRoundTrip(d: Date)
    requires ValidDate(d)
    ensures StringToDate(FormatDate(d)) == Some(d)
  {
    var s := FormatDate(d);
    assert Slice(s, 0, 4) == Padded(d.year, 4);
    assert Slice(s, 5, 7) == Padded(d.month, 2);
    assert Slice(s, 8, |s|) == Padded(d.day, 2);
    PaddedValue(d.year, 4);
    PaddedValue(d.month, 2);
    PaddedValue(d.day, 2);
  }

  // ---------------------------------------------------------------------------
  // The service-day window of `get_chn_vehicles`

  /** A sample is kept when `day + startOffset < t <= day + endOffset` (offsets from midnight may pass 24:00). */
  predicate InServiceDay(t: Time, day: Time, startOffset: int, endOffset: int)
  {
    day + startOffset < t <= day + endOffset
  }

  /** The samples of the two stitched calendar days that fall inside the service-day window, in input order. */
  function SamplesInWindow(samples: seq<Sample>, day: Time, startOffset: int, endOffset: int): (r: seq<Sample>)
    ensures forall i :: 0 <= i < |r| ==> r[i] in samples && InServiceDay(r[i].time, day, startOffset, endOffset)
    ensures forall i :: 0 <= i < |samples| && InServiceDay(samples[i].time, day, startOffset, endOffset) ==> samples[i] in r
    ensures |r| <= |samples|
  {
    if samples == [] then []
    else
      var last := samples[|samples| - 1];
      var p := SamplesInWindow(samples[..|samples| - 1], day, startOffset, endOffset);
      assert samples == samples[..|samples| - 1] + [last];
      if InServiceDay(last.time, day, startOffset, endOffset) then p + [last] else p
  }

  /** The window keeps every in-window sample as often as it occurs, and nothing else. */
  lemma {:induction false} SamplesInWindowCount(samples: seq<Sample>, day: Time, startOffset: int, endOffset: int, x: Sample)
    ensures multiset(SamplesInWindow(samples, day, startOffset, endOffset))[x] ==
      if InServiceDay(x.time, day, startOffset, endOffset) then multiset(samples)[x] else 0
  {
    if samples != [] {
      var init, last := samples[..|samples| - 1], samples[|samples| - 1];
      assert samples == init + [last];
      SamplesInWindowCount(init, day, startOffset, endOffset, x);
    }
  }

  // ---------------------------------------------------------------------------
  // Pattern-id batches of `get_patterns`

  /** The pattern-topology request accepts at most this many pattern ids. */
  const BATCH_SIZE := 10

  /** The concatenation of a sequence of sequences. */
  function Flatten<T>(chunks: seq<seq<T>>): seq<T>
  {
    if chunks == [] then [] else Flatten(chunks[..|chunks| - 1]) + chunks[|chunks| - 1]
  }

  /**
   * Splits the pattern ids into the consecutive batches `ids[i:i+10]` for
   * `i in range(0, len(ids), 10)`, one request each.
   */
  method PatternBatches<T>(ids: seq<T>) returns (batches: seq<seq<T>>)
    ensures Flatten(batches) == ids
    ensures forall k :: 0 <= k < |batches| ==> 0 < |batches[k]| <= BATCH_SIZE
    ensures forall k :: 0 <= k < |batches| - 1 ==> |batches[k]| == BATCH_SIZE
    ensures |batches| == (|ids| + BATCH_SIZE - 1) / BATCH_SIZE
  {
    batches := [];
    var i := 0;
    while i < |ids|
      invariant i <= |ids|
      invariant i == if BATCH_SIZE * |batches| < |ids| then BATCH_SIZE * |batches| else |ids|
      invariant |batches| > 0 ==> BATCH_SIZE * (|batches| - 1) < |ids|
      invariant Flatten(batches) == ids[..i]
      invariant forall k :: 0 <= k < |batches| ==> 0 < |batches[k]| <= BATCH_SIZE
      invariant forall k :: 0 <= k < |batches| - 1 ==> |batches[k]| == BATCH_SIZE
      invariant i < |ids| ==> forall k :: 0 <= k < |batches| ==> |batches[k]| == BATCH_SIZE
    {
      var hi := if i + BATCH_SIZE <= |ids| then i + BATCH_SIZE else |ids|;
      var chunk := ids[i..hi];
      assert (batches + [chunk])[..|batches|] == batches;
      assert ids[..hi] == ids[..i] + chunk;
      batches := batches + [chunk];
      i := hi;
    }
    assert ids[..i] == ids;
  }
}
