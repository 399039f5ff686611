/**
 * Instants and fixed-offset time zones.
 *
 * An instant is an integer number of milliseconds since the Unix epoch; a
 * zone is a fixed offset from UTC, also in milliseconds (the zone
 * `Etc/GMT+5` is `-5 * Hour`). Local midnight of an instant `t` in `zone` is
 * `t - (t + zone) mod Day`, which is what `datetime.replace(hour=0, minute=0,
 * second=0, microsecond=0)` yields on a datetime whose zone has a fixed offset.
 */
module FixedZones {

  type Instant = int
  type Zone = int

  const Second: int := 1000
  const Minute: int := 60 * Second
  const Hour: int := 60 * Minute
  const Day: int := 24 * Hour

  /** Time elapsed since local midnight, the local time of day of `t`. */
  function TimeOfDay(zone: Zone, t: Instant): (r: int)
    ensures 0 <= r < Day
  {
    (t + zone) % Day
  }

  /** `t` truncated to local midnight in `zone`. */
  function Midnight(zone: Zone, t: Instant): (r: Instant)
    ensures r <= t < r + Day
    ensures TimeOfDay(zone, r) == 0
  {
    var m := t - TimeOfDay(zone, t);
    assert m + zone == Day * ((t + zone) / Day);
    m
  }

  /** A local midnight in `zone`. */
  predicate IsMidnight(zone: Zone, t: Instant) {
    TimeOfDay(zone, t) == 0
  }

  /** Two distinct local midnights are at least a day apart. */
  lemma MidnightsApart(zone: Zone, m1: Instant, m2: Instant)
    requires IsMidnight(zone, m1) && IsMidnight(zone, m2) && m1 < m2
    ensures m1 + Day <= m2
  {
    var q1, q2 := (m1 + zone) / Day, (m2 + zone) / Day;
    assert m1 + zone == Day * q1;
    assert m2 + zone == Day * q2;
    assert q1 < q2;
  }

  /**
   * `Midnight` is the one local midnight at most a day before `t`, and the
   * time of day is the distance to it.
   */
  lemma MidnightUnique(zone: Zone, m: Instant, t: Instant)
    requires IsMidnight(zone, m) && m <= t < m + Day
    ensures Midnight(zone, t) == m
    ensures TimeOfDay(zone, t) == t - m
  {
    var n := Midnight(zone, t);
    if n < m {
      MidnightsApart(zone, n, m);
    } else if m < n {
      MidnightsApart(zone, m, n);
    }
  }

  /** The next local midnight after `m` is a day later. */
  lemma NextMidnight(zone: Zone, m: Instant)
    requires IsMidnight(zone, m)
    ensures IsMidnight(zone, m + Day)
  {
    assert (m + Day + zone) % Day == (m + zone) % Day;
  }
}
