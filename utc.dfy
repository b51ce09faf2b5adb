// The purge cutoff: midnight UTC on the first day of the current month, as
// `new Date(Date.UTC(now.getUTCFullYear(), now.getUTCMonth(), 1))` computes
// it. Instants are milliseconds since 1970-01-01T00:00Z on the proleptic
// Gregorian calendar; months are numbered 0 (January) to 11 as in JavaScript.
module Utc {

  const DAY_MS: int := 86400000

  predicate IsLeap(y: int) {
    y % 4 == 0 && (y % 100 != 0 || y % 400 == 0)
  }

  function DaysInMonth(y: int, m: int): (n: int)
    requires 0 <= m < 12
    ensures 28 <= n <= 31
  {
    if m == 1 then (if IsLeap(y) then 29 else 28)
    else if m == 3 || m == 5 || m == 8 || m == 10 then 30
    else 31
  }

  /** n/4 - n/100 + n/400: differences of this count the leap years in a
      range of years. */
  function LeapCount(n: int): int {
    n / 4 - n / 100 + n / 400
  }

  /** Days from 1970-01-01 to January 1st of year y. */
  function DaysBeforeYear(y: int): int {
    365 * (y - 1970) + LeapCount(y - 1) - LeapCount(1969)
  }

  /** Days from January 1st of year y to the first of month m. */
  function DaysBeforeMonth(y: int, m: int): int
    requires 0 <= m < 12
  {
    var cumulative := [0, 31, 59, 90, 120, 151, 181, 212, 243, 273, 304, 334];
    cumulative[m] + (if m >= 2 && IsLeap(y) then 1 else 0)
  }

  /** The day on which month m of year y begins, counted from the epoch. */
  function DaysBefore(y: int, m: int): int
    requires 0 <= m < 12
  {
    DaysBeforeYear(y) + DaysBeforeMonth(y, m)
  }

  /** The instant at which month m of year y begins. */
  function MonthStart(y: int, m: int): int
    requires 0 <= m < 12
  {
    DaysBefore(y, m) * DAY_MS
  }

  /** Date.UTC reads a year from 0 to 99 as 1900 to 1999. */
  function DateUtcYear(y: int): int {
    if 0 <= y <= 99 then 1900 + y else y
  }

  /** `Date.UTC(year, month, 1)`. */
  function DateUtcFirstOfMonth(y: int, m: int): (t: int)
    requires 0 <= m < 12
    ensures !(0 <= y <= 99) ==> t == MonthStart(y, m)
    ensures 0 <= y <= 99 ==> t == MonthStart(y + 1900, m)
  {
    MonthStart(DateUtcYear(y), m)
  }

  /** The instant `now` falls in month m of year y, which is what
      getUTCFullYear and getUTCMonth report for it. */
  predicate InMonth(now: int, y: int, m: int)
    requires 0 <= m < 12
  {
    MonthStart(y, m) <= now < MonthStart(y, m) + DaysInMonth(y, m) * DAY_MS
  }

  /** startOfCurrentMonthUTC, given the clock's UTC year and month. */
  function StartOfCurrentMonthUtc(y: int, m: int): (cutoff: int)
    requires 0 <= m < 12
    ensures cutoff == DateUtcFirstOfMonth(y, m)
    ensures cutoff % DAY_MS == 0
  {
    var d := DaysBefore(DateUtcYear(y), m);
    DivUnique(d * DAY_MS, DAY_MS, d, 0);
    DateUtcFirstOfMonth(y, m)
  }

  /** Division by a positive divisor is determined by quotient and remainder. */
  lemma DivUnique(n: int, d: int, q: int, r: int)
    requires d > 0 && n == q * d + r && 0 <= r < d
    ensures n / d == q && n % d == r
  {
    var q0, r0 := n / d, n % d;
    assert n == q0 * d + r0 && 0 <= r0 < d;
    if q0 > q {
      assert (q0 - q) * d == q0 * d - q * d;
      MulAtLeast(q0 - q, d);
    } else if q0 < q {
      assert (q - q0) * d == q * d - q0 * d;
      MulAtLeast(q - q0, d);
    }
  }

  lemma {:induction false} MulAtLeast(a: int, d: int)
    requires a >= 1 && d > 0
    ensures a * d >= d
    decreases a
  {
    if a > 1 {
      MulAtLeast(a - 1, d);
      assert a * d == (a - 1) * d + d;
    }
  }

  lemma DivStep(n: int, d: int)
    requires d > 0
    ensures n / d - (n - 1) / d == (if n % d == 0 then 1 else 0)
  {
    var q, r := (n - 1) / d, (n - 1) % d;
    assert n - 1 == q * d + r && 0 <= r < d;
    if r + 1 < d {
      DivUnique(n, d, q, r + 1);
    } else {
      assert n == (q + 1) * d + 0;
      DivUnique(n, d, q + 1, 0);
    }
  }

  /** Each year has 365 days, plus one in a leap year. */
  lemma YearLength(y: int)
    ensures DaysBeforeYear(y + 1) - DaysBeforeYear(y) == 365 + (if IsLeap(y) then 1 else 0)
  {
    DivStep(y, 4);
    DivStep(y, 100);
    DivStep(y, 400);
    if y % 400 == 0 {
      assert y % 100 == 0 && y % 4 == 0 by {
        assert y == (y / 400) * 400;
        assert y == ((y / 400) * 4) * 100 + 0;
        assert y == ((y / 400) * 100) * 4 + 0;
      }
    } else if y % 100 == 0 {
      assert y % 4 == 0 by {
        assert y == (y / 100) * 100;
        assert y == ((y / 100) * 25) * 4 + 0;
      }
    }
  }

  /** The month after month m of year y, as (year, month). */
  function NextMonth(y: int, m: int): (r: (int, int))
    requires 0 <= m < 12
    ensures 0 <= r.1 < 12
  {
    if m < 11 then (y, m + 1) else (y + 1, 0)
  }

  /** A month lasts DaysInMonth days: the next month starts exactly then. */
  lemma MonthLength(y: int, m: int)
    requires 0 <= m < 12
    ensures MonthStart(NextMonth(y, m).0, NextMonth(y, m).1) == MonthStart(y, m) + DaysInMonth(y, m) * DAY_MS
  {
    if m == 11 {
      YearLength(y);
    }
  }

  /** Months in order: a position on the calendar counted in months. */
  function MonthIndex(y: int, m: int): int {
    12 * y + m
  }

  /** Later years start no earlier: a year has a positive number of days. */
  lemma {:induction false} YearStartMonotone(y: int, k: nat)
    ensures DaysBeforeYear(y) <= DaysBeforeYear(y + k)
    decreases k
  {
    if k > 0 {
      YearStartMonotone(y, k - 1);
      YearLength(y + k - 1);
    }
  }

  /** Within a year, later months start no earlier, and every month starts
      before the year ends. */
  lemma MonthOfYearMonotone(y: int, m: int, m2: int)
    requires 0 <= m <= m2 < 12
    ensures DaysBeforeMonth(y, m) <= DaysBeforeMonth(y, m2)
    ensures DaysBeforeMonth(y, m2) < 365 + (if IsLeap(y) then 1 else 0)
  {
  }

  lemma DaysBeforeMonotone(y: int, m: int, y2: int, m2: int)
    requires 0 <= m < 12 && 0 <= m2 < 12
    requires MonthIndex(y, m) <= MonthIndex(y2, m2)
    ensures DaysBefore(y, m) <= DaysBefore(y2, m2)
  {
    if y < y2 {
      MonthBeforeNextYear(y, m);
      YearStartMonotone(y + 1, y2 - y - 1);
      MonthOfYearMonotone(y2, 0, m2);
    } else {
      MonthOfYearMonotone(y, m, m2);
    }
  }

  lemma MonthBeforeNextYear(y: int, m: int)
    requires 0 <= m < 12
    ensures DaysBefore(y, m) < DaysBeforeYear(y + 1)
  {
    MonthOfYearMonotone(y, m, m);
    YearLength(y);
  }

  /** A later month does not start earlier. */
  lemma MonthStartMonotone(y: int, m: int, y2: int, m2: int)
    requires 0 <= m < 12 && 0 <= m2 < 12
    requires MonthIndex(y, m) <= MonthIndex(y2, m2)
    ensures MonthStart(y, m) <= MonthStart(y2, m2)
  {
    DaysBeforeMonotone(y, m, y2, m2);
    ScaleByDay(DaysBefore(y, m), DaysBefore(y2, m2));
  }

  lemma ScaleByDay(a: int, b: int)
    requires a <= b
    ensures a * DAY_MS <= b * DAY_MS
  {
  }

  /** What the purge promises: for a clock reading in month (y, m), with a
      year Date.UTC does not reinterpret, an instant falling in an earlier
      month lies before the cutoff, and one in this month or a later month
      does not. */
  lemma CutoffSeparatesMonths(y: int, m: int, t: int, ty: int, tm: int)
    requires 0 <= m < 12 && 0 <= tm < 12
    requires !(0 <= y <= 99)
    requires InMonth(t, ty, tm)
    ensures t < StartOfCurrentMonthUtc(y, m) <==> MonthIndex(ty, tm) < MonthIndex(y, m)
  {
    var cutoff := StartOfCurrentMonthUtc(y, m);
    assert cutoff == MonthStart(y, m);
    if MonthIndex(ty, tm) < MonthIndex(y, m) {
      var n := NextMonth(ty, tm);
      MonthLength(ty, tm);
      MonthStartMonotone(n.0, n.1, y, m);
    } else {
      MonthStartMonotone(y, m, ty, tm);
    }
  }

  /** getUTCFullYear and getUTCMonth are defined for every instant: it lies
      in some month. */
  lemma EveryInstantInAMonth(t: int)
    ensures exists y, m :: 0 <= m < 12 && InMonth(t, y, m)
  {
    assert MonthStart(1970, 0) == 0;
    if t >= 0 {
      InMonthFrom(t, 1970, 0);
    } else {
      InMonthBefore(t, 1970, 0);
    }
  }

  /** ... and in only one. */
  lemma InstantInOneMonth(t: int, y: int, m: int, y2: int, m2: int)
    requires 0 <= m < 12 && 0 <= m2 < 12
    requires InMonth(t, y, m) && InMonth(t, y2, m2)
    ensures y == y2 && m == m2
  {
    if MonthIndex(y, m) < MonthIndex(y2, m2) {
      EndsBeforeLaterMonth(t, y, m, y2, m2);
    } else if MonthIndex(y2, m2) < MonthIndex(y, m) {
      EndsBeforeLaterMonth(t, y2, m2, y, m);
    }
  }

  /** An instant in one month lies before the start of every later month. */
  lemma EndsBeforeLaterMonth(t: int, y: int, m: int, y2: int, m2: int)
    requires 0 <= m < 12 && 0 <= m2 < 12
    requires InMonth(t, y, m) && MonthIndex(y, m) < MonthIndex(y2, m2)
    ensures t < MonthStart(y2, m2)
  {
    var n := NextMonth(y, m);
    MonthLength(y, m);
    MonthStartMonotone(n.0, n.1, y2, m2);
  }

  /** Walking forward month by month from a month that starts no later than
      t reaches the month holding t. */
  lemma {:induction false} InMonthFrom(t: int, y: int, m: int)
    requires 0 <= m < 12 && MonthStart(y, m) <= t
    ensures exists ry, rm :: 0 <= rm < 12 && InMonth(t, ry, rm)
    decreases t - MonthStart(y, m)
  {
    if !InMonth(t, y, m) {
      var n := NextMonth(y, m);
      MonthLength(y, m);
      InMonthFrom(t, n.0, n.1);
    }
  }

  /** Walking backward month by month from a month that starts after t
      reaches the month holding t. */
  lemma {:induction false} InMonthBefore(t: int, y: int, m: int)
    requires 0 <= m < 12 && t < MonthStart(y, m)
    ensures exists ry, rm :: 0 <= rm < 12 && InMonth(t, ry, rm)
    decreases MonthStart(y, m) - t
  {
    var p := if m > 0 then (y, m - 1) else (y - 1, 11);
    assert NextMonth(p.0, p.1) == (y, m);
    MonthLength(p.0, p.1);
    if t < MonthStart(p.0, p.1) {
      InMonthBefore(t, p.0, p.1);
    } else {
      assert InMonth(t, p.0, p.1);
    }
  }

  /** The epoch is the start of January 1970. */
  lemma EpochIsMonthStart()
    ensures StartOfCurrentMonthUtc(1970, 0) == 0
  {
  }

  /** 2024-02-01T00:00:00Z. */
  lemma February2024()
    ensures StartOfCurrentMonthUtc(2024, 1) == 1706745600000
  {
    assert LeapCount(2023) == 490 && LeapCount(1969) == 477;
    assert DaysBeforeYear(2024) == 19723;
  }
}
