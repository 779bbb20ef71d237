/**
 * Simulated time. A timestamp is a whole number of seconds since
 * 1970-01-01 00:00 (naive, no time zone), which is all the simulator ever
 * does with its `datetime` values: add minutes, seconds, days and hours,
 * and read off the calendar date and the hour of the day.
 */
module Clock {

  const SecondsPerMinute: int := 60
  const SecondsPerHour: int := 3600
  const SecondsPerDay: int := 86400

  /** 2020-01-01 00:00, the base of the historical date fields of a new record. */
  const Jan2020: int := 1577836800

  /** An instant lies in the one-hour window that opens at `base`. */
  predicate InHour(t: int, base: int)
  {
    base <= t < base + SecondsPerHour
  }

  /** A timestamp that starts a whole hour. */
  predicate HourAligned(t: int)
  {
    t % SecondsPerHour == 0
  }

  /** The draws of `np.random.randint(0, 60)` for the minute and the second. */
  predicate ValidOffset(minute: int, second: int)
  {
    0 <= minute < 60 && 0 <= second < 60
  }

  /** `random_timestamp_within_hour`: the base plus a drawn minute and second. */
  function WithinHour(base: int, minute: int, second: int): (t: int)
    requires ValidOffset(minute, second)
    ensures InHour(t, base)
    ensures t - base <= 59 * SecondsPerMinute + 59
  {
    base + minute * SecondsPerMinute + second
  }

  /** Every instant of the hour is produced by exactly one pair of draws. */
  lemma WithinHourReachesEveryInstant(base: int, t: int)
    requires InHour(t, base)
    ensures ValidOffset((t - base) / 60, (t - base) % 60)
    ensures WithinHour(base, (t - base) / 60, (t - base) % 60) == t
    ensures forall m, s :: ValidOffset(m, s) && WithinHour(base, m, s) == t ==>
              m == (t - base) / 60 && s == (t - base) % 60
  {
    var d := t - base;
    assert d == (d / 60) * 60 + d % 60;
    forall m, s | ValidOffset(m, s) && WithinHour(base, m, s) == t
      ensures m == d / 60 && s == d % 60
    {
      assert d == m * 60 + s;
      DivModUnique(d, m, s);
    }
  }

  /** Helper: quotient and remainder by 60 are unique. */
  lemma DivModUnique(d: int, q: int, r: int)
    requires 0 <= r < 60 && d == q * 60 + r
    ensures q == d / 60 && r == d % 60
  {
    var q', r' := d / 60, d % 60;
    assert d == q' * 60 + r';
    assert (q - q') * 60 == r' - r;
  }

  /** `datetime.date()`: the calendar day, counted in days since 1970-01-01. */
  function DayOf(t: int): int
  {
    t / SecondsPerDay
  }

  /** `datetime.hour`: the hour of the day. */
  function HourOf(t: int): (h: int)
    ensures 0 <= h < 24
  {
    (t % SecondsPerDay) / SecondsPerHour
  }

  /**
   * A timestamp drawn inside the hour that opens at a whole hour falls on
   * the same calendar day and the same hour of the day as that hour's start,
   * so the `Day` and `Hour` written beside it describe it.
   */
  lemma {:induction false} SameBucket(base: int, t: int)
    requires HourAligned(base) && InHour(t, base)
    ensures DayOf(t) == DayOf(base) && HourOf(t) == HourOf(base)
  {
    var q := base / SecondsPerDay;
    var rem := base % SecondsPerDay;
    var h := rem / SecondsPerHour;
    assert base == q * SecondsPerDay + rem;
    assert rem % SecondsPerHour == 0 by {
      assert base == (q * 24 + base / SecondsPerHour - q * 24) * SecondsPerHour;
      assert base == (base / SecondsPerHour) * SecondsPerHour;
      assert rem == base - q * SecondsPerDay;
      assert rem == (base / SecondsPerHour - q * 24) * SecondsPerHour;
    }
    assert rem == h * SecondsPerHour;
    assert 0 <= h < 24;
    var d := t - base;
    assert t == q * SecondsPerDay + (h * SecondsPerHour + d);
    assert 0 <= h * SecondsPerHour + d < SecondsPerDay;
    DayDivUnique(t, q, h * SecondsPerHour + d);
    assert t % SecondsPerDay == h * SecondsPerHour + d;
    HourDivUnique(h * SecondsPerHour + d, h, d);
  }

  /** Helper: quotient and remainder by a day are unique. */
  lemma DayDivUnique(t: int, q: int, r: int)
    requires 0 <= r < SecondsPerDay && t == q * SecondsPerDay + r
    ensures q == t / SecondsPerDay && r == t % SecondsPerDay
  {
    var q', r' := t / SecondsPerDay, t % SecondsPerDay;
    assert t == q' * SecondsPerDay + r';
    assert (q - q') * SecondsPerDay == r' - r;
  }

  /** Helper: quotient and remainder by an hour are unique. */
  lemma HourDivUnique(t: int, q: int, r: int)
    requires 0 <= r < SecondsPerHour && t == q * SecondsPerHour + r
    ensures q == t / SecondsPerHour && r == t % SecondsPerHour
  {
    var q', r' := t / SecondsPerHour, t % SecondsPerHour;
    assert t == q' * SecondsPerHour + r';
    assert (q - q') * SecondsPerHour == r' - r;
  }

  /**
   * When the clock starts at midnight and advances one hour per step, the
   * hour of the day at step k is k mod 24: the scheduler's inner loop index
   * and the clock's own hour agree.
   */
  lemma {:induction false} HourOfStep(start: int, k: nat)
    requires start % SecondsPerDay == 0
    ensures HourOf(start + k * SecondsPerHour) == k % 24
    ensures DayOf(start + k * SecondsPerHour) == DayOf(start) + k / 24
  {
    var q := start / SecondsPerDay;
    assert start == q * SecondsPerDay;
    var t := start + k * SecondsPerHour;
    var days, h := k / 24, k % 24;
    assert k == days * 24 + h;
    assert t == (q + days) * SecondsPerDay + h * SecondsPerHour;
    DayDivUnique(t, q + days, h * SecondsPerHour);
    HourDivUnique(h * SecondsPerHour, h, 0);
    DayDivUnique(start, q, 0);
  }
}
