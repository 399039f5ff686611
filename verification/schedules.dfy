/**
 * The daily schedule of a Nightscout profile (`Schedule` in
 * py_nightscout/models.py): change points given as offsets from local
 * midnight, recurring every day in the schedule's fixed zone, with a point
 * query (`value_at_date`) and a range query (`between`) that turns the
 * recurring schedule into absolute change points.
 */
module Schedules {
  import opened Wrappers
  import opened FixedZones
  import Sorting

  /** A change point: from `offset` after local midnight on, `value` is in effect. */
  datatype ScheduleEntry = ScheduleEntry(offset: int, value: real)

  /** A change point anchored to one day: `value` takes effect at `startDate`. */
  datatype AbsoluteScheduleEntry = AbsoluteScheduleEntry(startDate: Instant, value: real)

  /** An aware datetime: an instant together with the UTC offset of its zone. */
  datatype LocalDateTime = LocalDateTime(instant: Instant, zone: Zone)

  /** The entries, sorted by offset at construction, and the zone that fixes local midnight. */
  datatype Schedule = Schedule(entries: seq<ScheduleEntry>, timezone: Zone)

  /** The sort key of a schedule entry. */
  function Offset(e: ScheduleEntry): int {
    e.offset
  }

  /** What construction guarantees: the entries ascend by offset. */
  ghost predicate Valid(s: Schedule) {
    Sorting.SortedBy(s.entries, Offset)
  }

  /** Every offset lies within one day, as the entries of a profile do. */
  ghost predicate WithinDay(s: Schedule) {
    forall i :: 0 <= i < |s.entries| ==> 0 <= s.entries[i].offset < Day
  }

  /** No two entries share an offset. */
  ghost predicate DistinctOffsets(s: Schedule) {
    forall i, j :: 0 <= i < j < |s.entries| ==> s.entries[i].offset != s.entries[j].offset
  }

  /**
   * `Schedule(entries, timezone)`: sorts the caller's list in place by offset
   * (a stable sort) and keeps it.
   */
  method NewSchedule(entries: array<ScheduleEntry>, timezone: Zone) returns (s: Schedule)
    modifies entries
    ensures entries[..] == Sorting.SortBy(old(entries[..]), Offset)
    ensures s == Schedule(entries[..], timezone)
    ensures Valid(s)
  {
    Sorting.SortInPlace(entries, Offset);
    Sorting.SortBySorted(old(entries[..]), Offset);
    s := Schedule(entries[..], timezone);
  }

  /**
   * `value_at_date`: the value of the last stored entry whose offset is at
   * most the time of day of `localDate` in `localDate`'s own zone;
   * `IndexError` when no entry qualifies.
   */
  function ValueAtDate(s: Schedule, localDate: LocalDateTime): (r: Result<real>)
    ensures r.Err? ==> r.error == IndexError
  {
    var offset := TimeOfDay(localDate.zone, localDate.instant);
    match Sorting.LastAtMost(s.entries, Offset, offset, |s.entries|)
    case None => Err(IndexError)
    case Some(i) => Ok(s.entries[i].value)
  }

  /**
   * `value_at_date` succeeds exactly when some entry starts no later than the
   * time of day, and then yields the value of such an entry after which every
   * entry starts later.
   */
  lemma ValueAtDateSpec(s: Schedule, localDate: LocalDateTime)
    ensures var offset := TimeOfDay(localDate.zone, localDate.instant);
            ValueAtDate(s, localDate).Ok? <==>
              exists i :: 0 <= i < |s.entries| && s.entries[i].offset <= offset
    ensures var offset := TimeOfDay(localDate.zone, localDate.instant);
            ValueAtDate(s, localDate).Ok? ==>
              exists i :: 0 <= i < |s.entries| && s.entries[i].offset <= offset
                && s.entries[i].value == ValueAtDate(s, localDate).value
                && forall j :: i < j < |s.entries| ==> s.entries[j].offset > offset
  {
    var offset := TimeOfDay(localDate.zone, localDate.instant);
    Sorting.LastAtMostSpec(s.entries, Offset, offset, |s.entries|);
    match Sorting.LastAtMost(s.entries, Offset, offset, |s.entries|)
    case None =>
      assert forall i :: 0 <= i < |s.entries| ==> Offset(s.entries[i]) > offset;
    case Some(i) =>
      forall j | i < j < |s.entries| ensures s.entries[j].offset > offset {
        assert Offset(s.entries[j]) > offset;
      }
  }

  /** Between two neighbouring change points the earlier one's value is in effect. */
  lemma ValueAtDateBetweenChangePoints(s: Schedule, localDate: LocalDateTime, i: nat)
    requires Valid(s) && i < |s.entries|
    requires s.entries[i].offset <= TimeOfDay(localDate.zone, localDate.instant)
    requires i + 1 < |s.entries| ==> TimeOfDay(localDate.zone, localDate.instant) < s.entries[i + 1].offset
    ensures ValueAtDate(s, localDate) == Ok(s.entries[i].value)
  {
    var offset := TimeOfDay(localDate.zone, localDate.instant);
    forall j | i < j < |s.entries| ensures Offset(s.entries[j]) > offset {
      assert Offset(s.entries[i + 1]) <= Offset(s.entries[j]);
    }
    Sorting.LastAtMostAt(s.entries, Offset, offset, |s.entries|, i);
  }

  /**
   * The loop's `end_index`: the first entry from `from` on whose offset
   * exceeds `endOffset`, or `|entries|` when there is none.
   */
  function WindowEnd(entries: seq<ScheduleEntry>, endOffset: int, from: nat): (r: nat)
    requires from <= |entries|
    ensures from <= r <= |entries|
    ensures r < |entries| ==> entries[r].offset > endOffset
    decreases |entries| - from
  {
    if from == |entries| || entries[from].offset > endOffset then from
    else WindowEnd(entries, endOffset, from + 1)
  }

  /** Every entry `WindowEnd` passes over starts no later than `endOffset`. */
  lemma {:induction false} WindowEndSpec(entries: seq<ScheduleEntry>, endOffset: int, from: nat)
    requires from <= |entries|
    ensures forall j :: from <= j < WindowEnd(entries, endOffset, from) ==> entries[j].offset <= endOffset
    decreases |entries| - from
  {
    if from < |entries| && entries[from].offset <= endOffset {
      WindowEndSpec(entries, endOffset, from + 1);
    }
  }

  /** `WindowEnd` is pinned down by its characterisation. */
  lemma {:induction false} WindowEndAt(entries: seq<ScheduleEntry>, endOffset: int, from: nat, n: nat)
    requires from <= n <= |entries|
    requires forall j :: from <= j < n ==> entries[j].offset <= endOffset
    requires n < |entries| ==> entries[n].offset > endOffset
    ensures WindowEnd(entries, endOffset, from) == n
    decreases n - from
  {
    if from < n {
      WindowEndAt(entries, endOffset, from + 1, n);
    }
  }

  /**
   * The loop's `start_index`: the last of the first `n` entries whose offset
   * is at most `startOffset`, or 0 when there is none.
   */
  function WindowStart(entries: seq<ScheduleEntry>, startOffset: int, n: nat): (r: nat)
    requires n <= |entries|
    ensures r <= n && (0 < n ==> r < n)
  {
    if n == 0 then 0
    else if entries[n - 1].offset <= startOffset then n - 1
    else WindowStart(entries, startOffset, n - 1)
  }

  /**
   * Every entry after `WindowStart` starts later than `startOffset`, and when
   * the entry at `WindowStart` does too, it is the default 0 and so do all of
   * the first `n`.
   */
  lemma {:induction false} WindowStartSpec(entries: seq<ScheduleEntry>, startOffset: int, n: nat)
    requires n <= |entries|
    ensures forall j :: WindowStart(entries, startOffset, n) < j < n ==> entries[j].offset > startOffset
    ensures 0 < n && entries[WindowStart(entries, startOffset, n)].offset > startOffset
            ==> WindowStart(entries, startOffset, n) == 0
                && forall j :: 0 <= j < n ==> entries[j].offset > startOffset
  {
    if 0 < n && entries[n - 1].offset > startOffset {
      WindowStartSpec(entries, startOffset, n - 1);
    }
  }

  /** `start_index` is the entry `value_at_date` would select among the first `n`. */
  lemma {:induction false} WindowStartIsLastAtMost(entries: seq<ScheduleEntry>, startOffset: int, n: nat)
    requires n <= |entries|
    ensures WindowStart(entries, startOffset, n)
            == match Sorting.LastAtMost(entries, Offset, startOffset, n)
               case None => 0
               case Some(i) => i
  {
    if 0 < n && entries[n - 1].offset > startOffset {
      WindowStartIsLastAtMost(entries, startOffset, n - 1);
    }
  }

  /**
   * `AbsoluteScheduleEntry(reference_date + entry.offset, entry.value)` for
   * each entry from `lo` up to `hi`.
   */
  function Anchor(entries: seq<ScheduleEntry>, lo: nat, hi: nat, referenceDate: Instant)
    : (r: seq<AbsoluteScheduleEntry>)
    requires lo <= hi <= |entries|
    ensures |r| == hi - lo
    decreases hi
  {
    if lo == hi then []
    else Anchor(entries, lo, hi - 1, referenceDate)
         + [AbsoluteScheduleEntry(referenceDate + entries[hi - 1].offset, entries[hi - 1].value)]
  }

  /** Element `i` of an anchored slice is entry `lo + i`, anchored. */
  lemma {:induction false} AnchorAt(entries: seq<ScheduleEntry>, lo: nat, hi: nat, referenceDate: Instant, i: nat)
    requires lo <= hi <= |entries| && i < hi - lo
    ensures Anchor(entries, lo, hi, referenceDate)[i]
            == AbsoluteScheduleEntry(referenceDate + entries[lo + i].offset, entries[lo + i].value)
    decreases hi
  {
    if i < hi - 1 - lo {
      AnchorAt(entries, lo, hi - 1, referenceDate, i);
    }
  }

  /**
   * The change points of one local day: the entries from `start_index` up to
   * `end_index`, anchored at `referenceDate`.
   */
  function DayWindow(s: Schedule, referenceDate: Instant, startOffset: int, endOffset: int)
    : (r: seq<AbsoluteScheduleEntry>)
  {
    var endIndex := WindowEnd(s.entries, endOffset, 0);
    Anchor(s.entries, WindowStart(s.entries, startOffset, endIndex), endIndex, referenceDate)
  }

  /**
   * `between(start_date, end_date)`: empty when the interval is reversed;
   * split at the next local midnight when the end lies more than a day after
   * the start's local midnight; otherwise the window of that one day.
   */
  function Between(s: Schedule, startDate: Instant, endDate: Instant): (r: seq<AbsoluteScheduleEntry>)
    decreases endDate - startDate
  {
    if startDate > endDate then []
    else
      var referenceDate := Midnight(s.timezone, startDate);
      var startOffset := startDate - referenceDate;
      // `start_offset + (end_date - start_date)` and the boundary
      // `start_date + (one day - start_offset)`, written from the reference date
      var endOffset := endDate - referenceDate;
      if endOffset > Day then
        var boundaryDate := referenceDate + Day;
        Between(s, startDate, boundaryDate) + Between(s, boundaryDate, endDate)
      else
        DayWindow(s, referenceDate, startOffset, endOffset)
  }

  /**
   * The loop of `between` that finds `start_index` and `end_index`, with its
   * early `break`; it computes the window `Between` uses.
   */
  method ScanWindow(entries: seq<ScheduleEntry>, startOffset: int, endOffset: int)
    returns (startIndex: nat, endIndex: nat)
    requires startOffset <= endOffset
    ensures endIndex == WindowEnd(entries, endOffset, 0)
    ensures startIndex == WindowStart(entries, startOffset, endIndex)
  {
    startIndex, endIndex := 0, |entries|;
    var index := 0;
    while index < |entries|
      invariant 0 <= index <= |entries|
      invariant endIndex == |entries|
      invariant forall j :: 0 <= j < index ==> entries[j].offset <= endOffset
      invariant startIndex == WindowStart(entries, startOffset, index)
    {
      var item := entries[index];
      if startOffset >= item.offset {
        startIndex := index;
      }
      if endOffset < item.offset {
        endIndex := index;
        break;
      }
      index := index + 1;
    }
    WindowEndAt(entries, endOffset, 0, endIndex);
  }
}
