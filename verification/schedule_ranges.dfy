/**
 * What `between` computes, proved about `Schedules.Between`: the split at
 * local midnight, the order of the change points it returns, that each is a
 * change point of the schedule inside the interval, that every change point
 * of the interval is among them, and that the first one is the entry
 * `value_at_date` finds at the start.
 */
module ScheduleRanges {
  import opened Wrappers
  import opened FixedZones
  import opened Schedules
  import Sorting

  /** Start dates never decrease along `r`. */
  ghost predicate Chronological(r: seq<AbsoluteScheduleEntry>) {
    forall i, j :: 0 <= i < j < |r| ==> r[i].startDate <= r[j].startDate
  }

  /** Every change point of `r` lies after `t`. */
  ghost predicate AllAfter(t: Instant, r: seq<AbsoluteScheduleEntry>) {
    forall i :: 0 <= i < |r| ==> t < r[i].startDate
  }

  /**
   * What a range query from `startDate` to `endDate` may return: change points
   * between the start's local midnight and the end, all but the first after
   * the start, each an entry of `s` anchored on its local day.
   */
  ghost predicate SoundFor(s: Schedule, startDate: Instant, endDate: Instant, r: seq<AbsoluteScheduleEntry>) {
    forall i :: 0 <= i < |r| ==>
      && Midnight(s.timezone, startDate) <= r[i].startDate <= endDate
      && (0 < i ==> startDate < r[i].startDate)
      && ScheduleEntry(TimeOfDay(s.timezone, r[i].startDate), r[i].value) in s.entries
  }

  /** Element `i` of a day window is entry `start_index + i`, anchored at the reference date. */
  lemma DayWindowAt(s: Schedule, referenceDate: Instant, startOffset: int, endOffset: int, i: nat)
    requires i < |DayWindow(s, referenceDate, startOffset, endOffset)|
    ensures var endIndex := WindowEnd(s.entries, endOffset, 0);
            var j := WindowStart(s.entries, startOffset, endIndex) + i;
            j < endIndex
            && DayWindow(s, referenceDate, startOffset, endOffset)[i]
               == AbsoluteScheduleEntry(referenceDate + s.entries[j].offset, s.entries[j].value)
  {
    var endIndex := WindowEnd(s.entries, endOffset, 0);
    AnchorAt(s.entries, WindowStart(s.entries, startOffset, endIndex), endIndex, referenceDate, i);
  }

  /** The range query of a span that stays within one local day is that day's window. */
  lemma BetweenWithinDay(s: Schedule, startDate: Instant, endDate: Instant)
    requires startDate <= endDate <= Midnight(s.timezone, startDate) + Day
    ensures var referenceDate := Midnight(s.timezone, startDate);
            Between(s, startDate, endDate)
            == DayWindow(s, referenceDate, startDate - referenceDate, endDate - referenceDate)
  {
  }

  /**
   * A span that ends after the next local midnight `b` is the span up to `b`
   * followed by the span from `b`; `b` lies strictly inside the span.
   */
  lemma BetweenSplit(s: Schedule, startDate: Instant, endDate: Instant) returns (b: Instant)
    requires startDate <= endDate && endDate > Midnight(s.timezone, startDate) + Day
    ensures b == Midnight(s.timezone, startDate) + Day && IsMidnight(s.timezone, b)
    ensures Midnight(s.timezone, b) == b
    ensures startDate < b < endDate
    ensures Between(s, startDate, endDate) == Between(s, startDate, b) + Between(s, b, endDate)
  {
    b := Midnight(s.timezone, startDate) + Day;
    NextMidnight(s.timezone, b - Day);
    MidnightUnique(s.timezone, b, b);
  }

  /** `a == x + yz`, `yz == y + z` and `xy == x + y` give `a == xy + z`. */
  lemma Regroup<T>(a: seq<T>, x: seq<T>, yz: seq<T>, xy: seq<T>, y: seq<T>, z: seq<T>)
    requires a == x + yz && yz == y + z && xy == x + y
    ensures a == xy + z
  {
    assert x + (y + z) == (x + y) + z;
  }

  /**
   * Splitting at any local midnight strictly inside the span gives the same
   * result: `between(s, e) == between(s, m) + between(m, e)`.
   */
  lemma {:induction false} BetweenSplitsAtMidnight(s: Schedule, startDate: Instant, m: Instant, endDate: Instant)
    requires startDate < m < endDate && IsMidnight(s.timezone, m)
    ensures Between(s, startDate, endDate) == Between(s, startDate, m) + Between(s, m, endDate)
    decreases endDate - startDate
  {
    var referenceDate := Midnight(s.timezone, startDate);
    MidnightsApart(s.timezone, referenceDate, m);
    var b := BetweenSplit(s, startDate, endDate);
    if b < m {
      var b' := BetweenSplit(s, startDate, m);
      BetweenSplitsAtMidnight(s, b, m, endDate);
      Regroup(Between(s, startDate, endDate), Between(s, startDate, b), Between(s, b, endDate),
              Between(s, startDate, m), Between(s, b, m), Between(s, m, endDate));
    } else {
      assert b == m;
    }
  }

  /** `between(s, e)` with `s > e` is empty. */
  lemma BetweenReversed(s: Schedule, startDate: Instant, endDate: Instant)
    requires startDate > endDate
    ensures Between(s, startDate, endDate) == []
  {
  }

  /** The results of two neighbouring spans, split at the midnight `b`, join soundly. */
  lemma SoundConcat(s: Schedule, startDate: Instant, b: Instant, endDate: Instant,
                    r1: seq<AbsoluteScheduleEntry>, r2: seq<AbsoluteScheduleEntry>)
    requires startDate < b <= endDate && Midnight(s.timezone, b) == b
    requires Midnight(s.timezone, startDate) <= startDate
    requires SoundFor(s, startDate, b, r1) && SoundFor(s, b, endDate, r2)
    ensures SoundFor(s, startDate, endDate, r1 + r2)
  {
    var r := r1 + r2;
    forall i | 0 <= i < |r|
      ensures Midnight(s.timezone, startDate) <= r[i].startDate <= endDate
      ensures 0 < i ==> startDate < r[i].startDate
      ensures ScheduleEntry(TimeOfDay(s.timezone, r[i].startDate), r[i].value) in s.entries
    {
      if i < |r1| {
        assert r[i] == r1[i];
      } else {
        assert r[i] == r2[i - |r1|];
      }
    }
  }

  /** A day window holds only entries of the schedule, anchored inside the span. */
  lemma DayWindowSound(s: Schedule, startDate: Instant, endDate: Instant)
    requires WithinDay(s)
    requires startDate <= endDate <= Midnight(s.timezone, startDate) + Day
    ensures var referenceDate := Midnight(s.timezone, startDate);
            SoundFor(s, startDate, endDate,
                     DayWindow(s, referenceDate, startDate - referenceDate, endDate - referenceDate))
  {
    var referenceDate := Midnight(s.timezone, startDate);
    var startOffset, endOffset := startDate - referenceDate, endDate - referenceDate;
    var r := DayWindow(s, referenceDate, startOffset, endOffset);
    var endIndex := WindowEnd(s.entries, endOffset, 0);
    var startIndex := WindowStart(s.entries, startOffset, endIndex);
    WindowEndSpec(s.entries, endOffset, 0);
    WindowStartSpec(s.entries, startOffset, endIndex);
    forall i | 0 <= i < |r|
      ensures referenceDate <= r[i].startDate <= endDate
      ensures 0 < i ==> startDate < r[i].startDate
      ensures ScheduleEntry(TimeOfDay(s.timezone, r[i].startDate), r[i].value) in s.entries
    {
      DayWindowAt(s, referenceDate, startOffset, endOffset, i);
      var j := startIndex + i;
      MidnightUnique(s.timezone, referenceDate, r[i].startDate);
      assert ScheduleEntry(TimeOfDay(s.timezone, r[i].startDate), r[i].value) == s.entries[j];
    }
  }

  /**
   * Every returned change point lies between the start's local midnight and
   * the end, all but the first lie after the start, and each is an entry of
   * the schedule: its local time of day is the entry's offset and it carries
   * the entry's value.
   */
  lemma {:induction false} BetweenSound(s: Schedule, startDate: Instant, endDate: Instant)
    requires WithinDay(s)
    ensures SoundFor(s, startDate, endDate, Between(s, startDate, endDate))
    decreases endDate - startDate
  {
    var referenceDate := Midnight(s.timezone, startDate);
    if startDate > endDate {
    } else if endDate > referenceDate + Day {
      var b := BetweenSplit(s, startDate, endDate);
      BetweenSound(s, startDate, b);
      BetweenSound(s, b, endDate);
      SoundConcat(s, startDate, b, endDate, Between(s, startDate, b), Between(s, b, endDate));
    } else {
      BetweenWithinDay(s, startDate, endDate);
      DayWindowSound(s, startDate, endDate);
    }
  }

  /** Two chronological results split at the midnight `b` join chronologically. */
  lemma ChronologicalConcat(s: Schedule, startDate: Instant, b: Instant, endDate: Instant,
                            r1: seq<AbsoluteScheduleEntry>, r2: seq<AbsoluteScheduleEntry>)
    requires Midnight(s.timezone, b) == b
    requires SoundFor(s, startDate, b, r1) && SoundFor(s, b, endDate, r2)
    requires Chronological(r1) && Chronological(r2)
    ensures Chronological(r1 + r2)
  {
    var r := r1 + r2;
    forall i, j | 0 <= i < j < |r| ensures r[i].startDate <= r[j].startDate {
      if j < |r1| {
        assert r[i] == r1[i] && r[j] == r1[j];
      } else if |r1| <= i {
        assert r[i] == r2[i - |r1|] && r[j] == r2[j - |r1|];
      } else {
        assert r[i] == r1[i] && r[j] == r2[j - |r1|];
      }
    }
  }

  /** A day window of a sorted schedule is chronological. */
  lemma DayWindowChronological(s: Schedule, referenceDate: Instant, startOffset: int, endOffset: int)
    requires Valid(s)
    ensures Chronological(DayWindow(s, referenceDate, startOffset, endOffset))
  {
    var r := DayWindow(s, referenceDate, startOffset, endOffset);
    var startIndex := WindowStart(s.entries, startOffset, WindowEnd(s.entries, endOffset, 0));
    forall i, j | 0 <= i < j < |r| ensures r[i].startDate <= r[j].startDate {
      DayWindowAt(s, referenceDate, startOffset, endOffset, i);
      DayWindowAt(s, referenceDate, startOffset, endOffset, j);
      assert Offset(s.entries[startIndex + i]) <= Offset(s.entries[startIndex + j]);
    }
  }

  /** The change points come out in chronological order. */
  lemma {:induction false} BetweenChronological(s: Schedule, startDate: Instant, endDate: Instant)
    requires Valid(s) && WithinDay(s)
    ensures Chronological(Between(s, startDate, endDate))
    decreases endDate - startDate
  {
    var referenceDate := Midnight(s.timezone, startDate);
    if startDate > endDate {
    } else if endDate > referenceDate + Day {
      var b := BetweenSplit(s, startDate, endDate);
      BetweenChronological(s, startDate, b);
      BetweenChronological(s, b, endDate);
      BetweenSound(s, startDate, b);
      BetweenSound(s, b, endDate);
      ChronologicalConcat(s, startDate, b, endDate, Between(s, startDate, b), Between(s, b, endDate));
    } else {
      BetweenWithinDay(s, startDate, endDate);
      DayWindowChronological(s, referenceDate, startDate - referenceDate, endDate - referenceDate);
    }
  }

  /**
   * In a sorted schedule, an entry whose offset is at most `endOffset` comes
   * before `end_index`.
   */
  lemma BeforeWindowEnd(s: Schedule, endOffset: int, k: nat)
    requires Valid(s) && k < |s.entries| && s.entries[k].offset <= endOffset
    ensures k < WindowEnd(s.entries, endOffset, 0)
  {
  }

  /**
   * In a sorted schedule, `start_index` is the entry `value_at_date` selects
   * at `startOffset` whenever it selects one.
   */
  lemma WindowStartInEffect(s: Schedule, startOffset: int, endOffset: int, k: nat)
    requires Valid(s) && startOffset <= endOffset
    requires Sorting.LastAtMost(s.entries, Offset, startOffset, |s.entries|) == Some(k)
    ensures k < WindowEnd(s.entries, endOffset, 0)
    ensures WindowStart(s.entries, startOffset, WindowEnd(s.entries, endOffset, 0)) == k
  {
    var endIndex := WindowEnd(s.entries, endOffset, 0);
    BeforeWindowEnd(s, endOffset, k);
    Sorting.LastAtMostPrefix(s.entries, Offset, startOffset, endIndex, |s.entries|);
    WindowStartIsLastAtMost(s.entries, startOffset, endIndex);
  }

  /** What `BetweenStartsWithValueAtDate` states of a range query result `r`. */
  ghost predicate StartsWith(s: Schedule, startDate: Instant, r: seq<AbsoluteScheduleEntry>) {
    var v := ValueAtDate(s, LocalDateTime(startDate, s.timezone));
    && (v.Ok? ==> r != [] && r[0].value == v.value && r[0].startDate <= startDate)
    && (v.Err? ==> AllAfter(startDate, r))
  }

  /** `value_at_date` at an instant of the schedule's own zone, by the distance to local midnight. */
  lemma ValueAtOwnZone(s: Schedule, t: Instant)
    ensures ValueAtDate(s, LocalDateTime(t, s.timezone))
            == match Sorting.LastAtMost(s.entries, Offset, t - Midnight(s.timezone, t), |s.entries|)
               case None => Err(IndexError)
               case Some(i) => Ok(s.entries[i].value)
  {
    assert t - Midnight(s.timezone, t) == TimeOfDay(s.timezone, t);
  }

  /** A day window starts with the value in effect at its start. */
  lemma DayWindowStartsWith(s: Schedule, startDate: Instant, endDate: Instant)
    requires Valid(s) && startDate <= endDate
    ensures var referenceDate := Midnight(s.timezone, startDate);
            StartsWith(s, startDate,
                       DayWindow(s, referenceDate, startDate - referenceDate, endDate - referenceDate))
  {
    var referenceDate := Midnight(s.timezone, startDate);
    var startOffset, endOffset := startDate - referenceDate, endDate - referenceDate;
    var r := DayWindow(s, referenceDate, startOffset, endOffset);
    ValueAtOwnZone(s, startDate);
    match Sorting.LastAtMost(s.entries, Offset, startOffset, |s.entries|)
    case Some(k) =>
      WindowStartInEffect(s, startOffset, endOffset, k);
      DayWindowAt(s, referenceDate, startOffset, endOffset, 0);
      assert r[0] == AbsoluteScheduleEntry(referenceDate + s.entries[k].offset, s.entries[k].value);
    case None =>
      Sorting.LastAtMostSpec(s.entries, Offset, startOffset, |s.entries|);
      forall i | 0 <= i < |r| ensures startDate < r[i].startDate {
        DayWindowAt(s, referenceDate, startOffset, endOffset, i);
        var j := WindowStart(s.entries, startOffset, WindowEnd(s.entries, endOffset, 0)) + i;
        assert Offset(s.entries[j]) > startOffset;
      }
      assert AllAfter(startDate, r);
  }

  /** Joining a later span's result keeps what the first span's result starts with. */
  lemma StartsWithConcat(s: Schedule, startDate: Instant, b: Instant, endDate: Instant,
                         r1: seq<AbsoluteScheduleEntry>, r2: seq<AbsoluteScheduleEntry>)
    requires startDate < b && Midnight(s.timezone, b) == b
    requires StartsWith(s, startDate, r1) && SoundFor(s, b, endDate, r2)
    ensures StartsWith(s, startDate, r1 + r2)
  {
    var r := r1 + r2;
    if ValueAtDate(s, LocalDateTime(startDate, s.timezone)).Ok? {
      assert r[0] == r1[0];
    } else {
      forall i | 0 <= i < |r| ensures startDate < r[i].startDate {
        if i < |r1| {
          assert r[i] == r1[i];
        } else {
          assert r[i] == r2[i - |r1|];
        }
      }
    }
  }

  /**
   * The first change point returned is the entry `value_at_date` finds at the
   * start, taking effect no later than the start; when `value_at_date` finds
   * none, every returned change point lies after the start.
   */
  lemma {:induction false} BetweenStartsWithValueAtDate(s: Schedule, startDate: Instant, endDate: Instant)
    requires Valid(s) && WithinDay(s) && startDate <= endDate
    ensures var v := ValueAtDate(s, LocalDateTime(startDate, s.timezone));
            var r := Between(s, startDate, endDate);
            && (v.Ok? ==> r != [] && r[0].value == v.value && r[0].startDate <= startDate)
            && (v.Err? ==> forall i :: 0 <= i < |r| ==> startDate < r[i].startDate)
    decreases endDate - startDate
  {
    var referenceDate := Midnight(s.timezone, startDate);
    if endDate > referenceDate + Day {
      var b := BetweenSplit(s, startDate, endDate);
      BetweenStartsWithValueAtDate(s, startDate, b);
      BetweenSound(s, b, endDate);
      StartsWithConcat(s, startDate, b, endDate, Between(s, startDate, b), Between(s, b, endDate));
    } else {
      BetweenWithinDay(s, startDate, endDate);
      DayWindowStartsWith(s, startDate, endDate);
    }
  }

  /**
   * A zero-width query is not empty: it returns the entry in effect at that
   * instant, if there is one, and nothing else.
   */
  lemma BetweenZeroWidth(s: Schedule, t: Instant)
    requires Valid(s)
    ensures var v := ValueAtDate(s, LocalDateTime(t, s.timezone));
            && (v.Err? ==> Between(s, t, t) == [])
            && (v.Ok? ==> |Between(s, t, t)| == 1 && Between(s, t, t)[0].value == v.value
                          && Between(s, t, t)[0].startDate <= t)
  {
    var referenceDate := Midnight(s.timezone, t);
    var offset := t - referenceDate;
    BetweenWithinDay(s, t, t);
    DayWindowStartsWith(s, t, t);
    MidnightUnique(s.timezone, referenceDate, t);
    Sorting.LastAtMostSpec(s.entries, Offset, offset, |s.entries|);
    match Sorting.LastAtMost(s.entries, Offset, offset, |s.entries|)
    case Some(k) =>
      WindowStartInEffect(s, offset, offset, k);
      forall j | 0 <= j <= k ensures s.entries[j].offset <= offset {
        assert Offset(s.entries[j]) <= Offset(s.entries[k]);
      }
      WindowEndAt(s.entries, offset, 0, k + 1);
    case None =>
      WindowEndAt(s.entries, offset, 0, 0);
  }

  /**
   * In a sorted schedule without repeated offsets, every entry whose offset
   * lies between the window's offsets appears in the day's window.
   */
  lemma DayWindowComplete(s: Schedule, referenceDate: Instant, startOffset: int, endOffset: int, k: nat)
    requires Valid(s) && DistinctOffsets(s) && k < |s.entries|
    requires startOffset <= s.entries[k].offset <= endOffset
    ensures AbsoluteScheduleEntry(referenceDate + s.entries[k].offset, s.entries[k].value)
            in DayWindow(s, referenceDate, startOffset, endOffset)
  {
    var endIndex := WindowEnd(s.entries, endOffset, 0);
    var startIndex := WindowStart(s.entries, startOffset, endIndex);
    BeforeWindowEnd(s, endOffset, k);
    WindowStartSpec(s.entries, startOffset, endIndex);
    DayWindowAt(s, referenceDate, startOffset, endOffset, k - startIndex);
  }

  /**
   * Completeness: in a sorted schedule whose offsets lie within a day and do
   * not repeat, every change point in `[startDate, endDate)`, an instant
   * whose local time of day is some entry's offset, is returned with that
   * entry's value.
   */
  lemma {:induction false} BetweenComplete(s: Schedule, startDate: Instant, endDate: Instant, k: nat, c: Instant)
    requires Valid(s) && WithinDay(s) && DistinctOffsets(s)
    requires k < |s.entries| && startDate <= c < endDate
    requires TimeOfDay(s.timezone, c) == s.entries[k].offset
    ensures AbsoluteScheduleEntry(c, s.entries[k].value) in Between(s, startDate, endDate)
    decreases endDate - startDate
  {
    var referenceDate := Midnight(s.timezone, startDate);
    if endDate > referenceDate + Day {
      var b := BetweenSplit(s, startDate, endDate);
      if c < b {
        BetweenComplete(s, startDate, b, k, c);
      } else {
        BetweenComplete(s, b, endDate, k, c);
      }
    } else {
      BetweenWithinDay(s, startDate, endDate);
      MidnightUnique(s.timezone, referenceDate, c);
      DayWindowComplete(s, referenceDate, startDate - referenceDate, endDate - referenceDate, k);
    }
  }
}
