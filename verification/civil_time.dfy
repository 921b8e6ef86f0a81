/**
 * The proleptic Gregorian calendar as Go's `time` package uses it, on
 * instants counted in nanoseconds since 1970-01-01T00:00:00Z.
 *
 * An `Hour` is a civil (year, month, day, hour) tuple. `CivilHour` splits a
 * wall-clock instant into such a tuple; `HourStart` goes back. `DateNanos`
 * is Go's `time.Date(y, m, d, h, 0, 0, 0, UTC)`, including its
 * normalisation of out-of-range months and days.
 */
module CivilTime {

  import Decimal

  const NanosPerSecond: int := 1_000_000_000
  const NanosPerHour: int := 3_600_000_000_000
  const NanosPerDay: int := 86_400_000_000_000

  datatype Hour = Hour(year: int, month: int, day: int, hour: int)

  predicate IsLeapYear(y: int) {
    y % 4 == 0 && (y % 100 != 0 || y % 400 == 0)
  }

  function YearLength(y: int): (n: int)
    ensures n == 365 || n == 366
  {
    if IsLeapYear(y) then 366 else 365
  }

  function DaysInMonth(y: int, m: int): (n: int)
    requires 1 <= m <= 12
    ensures 28 <= n <= 31
  {
    if m == 2 then (if IsLeapYear(y) then 29 else 28)
    else if m == 4 || m == 6 || m == 9 || m == 11 then 30
    else 31
  }

  /** Days in year `y` before the first of month `m` (13 means the whole year). */
  function DaysBeforeMonth(y: int, m: int): int
    requires 1 <= m <= 13
  {
    var common :=
      if m == 1 then 0 else if m == 2 then 31 else if m == 3 then 59
      else if m == 4 then 90 else if m == 5 then 120 else if m == 6 then 151
      else if m == 7 then 181 else if m == 8 then 212 else if m == 9 then 243
      else if m == 10 then 273 else if m == 11 then 304 else if m == 12 then 334
      else 365;
    common + (if IsLeapYear(y) && m >= 3 then 1 else 0)
  }

  lemma DaysBeforeMonthStep(y: int, m: int)
    requires 1 <= m <= 12
    ensures DaysBeforeMonth(y, m + 1) == DaysBeforeMonth(y, m) + DaysInMonth(y, m)
    ensures DaysBeforeMonth(y, 1) == 0 && DaysBeforeMonth(y, 13) == YearLength(y)
  {
  }

  /** Number of leap years in 1..y-1 (extended to all integers by floor division). */
  function LeapsBefore(y: int): int {
    (y - 1) / 4 - (y - 1) / 100 + (y - 1) / 400
  }

  /** Days from 1970-01-01 to the first of January of year `y`. */
  function DaysBeforeYear(y: int): int {
    365 * (y - 1970) + LeapsBefore(y) - 477
  }

  lemma FloorDivStep(y: int, k: int)
    requires k == 4 || k == 100 || k == 400
    ensures y / k - (y - 1) / k == (if y % k == 0 then 1 else 0)
  {
    var q := (y - 1) / k;
    var r := (y - 1) % k;
    assert y - 1 == q * k + r && 0 <= r < k;
    if r == k - 1 {
      assert y == (q + 1) * k;
    } else {
      assert y == q * k + (r + 1) && 0 <= r + 1 < k;
    }
  }

  /** Each year contributes exactly its own length to the day count. */
  lemma YearStep(y: int)
    ensures DaysBeforeYear(y + 1) == DaysBeforeYear(y) + YearLength(y)
  {
    FloorDivStep(y, 4);
    FloorDivStep(y, 100);
    FloorDivStep(y, 400);
  }

  lemma {:induction false} DaysBeforeYearMonotone(a: int, b: int)
    requires a < b
    ensures DaysBeforeYear(a) + YearLength(a) <= DaysBeforeYear(b)
    decreases b - a
  {
    YearStep(a);
    if a + 1 < b {
      DaysBeforeYearMonotone(a + 1, b);
      YearStep(a + 1);
    }
  }

  lemma {:induction false} DaysBeforeYearGrowth(a: int, b: int)
    requires a <= b
    ensures 365 * (b - a) <= DaysBeforeYear(b) - DaysBeforeYear(a)
    decreases b - a
  {
    if a < b {
      YearStep(a);
      DaysBeforeYearGrowth(a + 1, b);
    }
  }

  /** The year whose days contain day number `d`, searched outward from year `y`. */
  function FindYear(d: int, y: int): (r: int)
    ensures DaysBeforeYear(r) <= d < DaysBeforeYear(r) + YearLength(r)
    decreases if d < DaysBeforeYear(y) then DaysBeforeYear(y) - d + 1000 else d - DaysBeforeYear(y)
  {
    YearStep(y - 1);
    YearStep(y);
    if d < DaysBeforeYear(y) then FindYear(d, y - 1)
    else if d >= DaysBeforeYear(y + 1) then FindYear(d, y + 1)
    else y
  }

  /** The month of year `y` containing day `r` of that year, searched from month `m`. */
  function FindMonth(y: int, r: int, m: int): (n: int)
    requires 1 <= m <= 12
    requires DaysBeforeMonth(y, m) <= r < YearLength(y)
    ensures m <= n <= 12
    ensures DaysBeforeMonth(y, n) <= r < DaysBeforeMonth(y, n + 1)
    decreases 12 - m
  {
    DaysBeforeMonthStep(y, m);
    if r < DaysBeforeMonth(y, m + 1) || m == 12 then m else FindMonth(y, r, m + 1)
  }

  predicate ValidHour(h: Hour) {
    && 1 <= h.month <= 12
    && 1 <= h.day <= DaysInMonth(h.year, h.month)
    && 0 <= h.hour <= 23
  }

  /** Days since 1970-01-01 of the day of `h` (for a valid `h`). */
  function DayNumber(h: Hour): int
    requires 1 <= h.month <= 12
  {
    DaysBeforeYear(h.year) + DaysBeforeMonth(h.year, h.month) + h.day - 1
  }

  /** The instant at which hour `h` starts, in the frame `h` is written in. */
  function HourStart(h: Hour): int
    requires 1 <= h.month <= 12
  {
    (DayNumber(h) * 24 + h.hour) * NanosPerHour
  }

  /** The civil hour of a wall-clock instant counted in nanoseconds. */
  function CivilHour(wall: int): (h: Hour)
    ensures ValidHour(h)
    ensures HourStart(h) <= wall < HourStart(h) + NanosPerHour
  {
    var index := wall / NanosPerHour;
    var d := index / 24;
    var y := FindYear(d, 1970);
    var r := d - DaysBeforeYear(y);
    DaysBeforeMonthStep(y, 1);
    var m := FindMonth(y, r, 1);
    DaysBeforeMonthStep(y, m);
    var h := Hour(y, m, r - DaysBeforeMonth(y, m) + 1, index % 24);
    assert DayNumber(h) == d;
    assert DayNumber(h) * 24 + h.hour == index;
    h
  }

  /**
   * Every instant Go can hold as 64-bit nanoseconds (years 1677 to 2262)
   * falls in a four-digit year.
   */
  lemma CivilHourYearRange(wall: int)
    requires Decimal.MinInt64 <= wall <= Decimal.MaxInt64
    ensures 1000 <= CivilHour(wall).year <= 9999
  {
    var h := CivilHour(wall);
    var d := wall / NanosPerHour / 24;
    assert -106752 <= d <= 106751;
    assert DayNumber(h) == d by {
      HourIndexOfWall(wall, DayNumber(h) * 24 + h.hour);
    }
    DaysBeforeMonthStep(h.year, h.month);
    DaysBeforeMonthStep(h.year, 12);
    assert DaysBeforeYear(h.year) <= d < DaysBeforeYear(h.year) + YearLength(h.year);
    if h.year > 9999 {
      DaysBeforeYearGrowth(1970, h.year);
    } else if h.year < 1000 {
      YearStep(h.year);
      DaysBeforeYearGrowth(h.year + 1, 1970);
    }
  }

  /** The day of the year of a valid hour lies within its month, and so within its year. */
  lemma DayOfYearBounds(h: Hour)
    requires ValidHour(h)
    ensures DaysBeforeMonth(h.year, h.month) <= DaysBeforeMonth(h.year, h.month) + h.day - 1
    ensures DaysBeforeMonth(h.year, h.month) + h.day - 1 < DaysBeforeMonth(h.year, h.month + 1)
    ensures DaysBeforeMonth(h.year, h.month + 1) <= YearLength(h.year)
  {
    DaysBeforeMonthStep(h.year, h.month);
  }

  lemma DaysBeforeMonthMonotone(y: int, m: int, n: int)
    requires 1 <= m < n <= 13
    ensures DaysBeforeMonth(y, m + 1) <= DaysBeforeMonth(y, n)
  {
  }

  /** Two valid hours on the same day number are on the same calendar day. */
  lemma DayNumberInjective(a: Hour, b: Hour)
    requires ValidHour(a) && ValidHour(b)
    requires DayNumber(a) == DayNumber(b)
    ensures a.year == b.year && a.month == b.month && a.day == b.day
  {
    DayOfYearBounds(a);
    DayOfYearBounds(b);
    if a.year < b.year {
      DaysBeforeYearMonotone(a.year, b.year);
    } else if b.year < a.year {
      DaysBeforeYearMonotone(b.year, a.year);
    }
    assert a.year == b.year;
    if a.month < b.month {
      DaysBeforeMonthMonotone(a.year, a.month, b.month);
    } else if b.month < a.month {
      DaysBeforeMonthMonotone(a.year, b.month, a.month);
    }
  }

  /** Two valid hours that start at the same instant are the same hour. */
  lemma HourStartInjective(a: Hour, b: Hour)
    requires ValidHour(a) && ValidHour(b)
    requires HourStart(a) == HourStart(b)
    ensures a == b
  {
    var ka := DayNumber(a) * 24 + a.hour;
    var kb := DayNumber(b) * 24 + b.hour;
    assert ka * NanosPerHour == kb * NanosPerHour;
    assert ka == kb;
    DayNumberInjective(a, b);
  }

  /** `CivilHour` is the only valid hour whose span contains the instant. */
  lemma CivilHourUnique(wall: int, h: Hour)
    requires ValidHour(h)
    requires HourStart(h) <= wall < HourStart(h) + NanosPerHour
    ensures CivilHour(wall) == h
  {
    var c := CivilHour(wall);
    HourIndexOfWall(wall, DayNumber(c) * 24 + c.hour);
    HourIndexOfWall(wall, DayNumber(h) * 24 + h.hour);
    HourStartInjective(c, h);
  }

  /** An instant lies in exactly one span of whole hours. */
  lemma HourIndexOfWall(wall: int, k: int)
    requires k * NanosPerHour <= wall < k * NanosPerHour + NanosPerHour
    ensures wall / NanosPerHour == k
  {
  }

  /** Moving an instant by whole hours moves its hour index by as many. */
  lemma HourShift(x: int, k: int)
    ensures (x + k * NanosPerHour) / NanosPerHour == x / NanosPerHour + k
  {
    var q := x / NanosPerHour;
    var r := x % NanosPerHour;
    assert x + k * NanosPerHour == (q + k) * NanosPerHour + r;
    HourIndexOfWall(x + k * NanosPerHour, q + k);
  }

  /** The civil hour depends only on which whole hour the instant falls in. */
  lemma CivilHourSameHour(a: int, b: int)
    ensures CivilHour(a) == CivilHour(b) <==> a / NanosPerHour == b / NanosPerHour
  {
  }

  /**
   * Go's `time.Date(y, m, d, h, 0, 0, 0, UTC)`: the month is first folded
   * into the year, then days and hours are added linearly.
   */
  function DateNanos(y: int, m: int, d: int, h: int): (t: int)
    ensures 1 <= m <= 12 ==> t == HourStart(Hour(y, m, d, h))
  {
    var year := y + (m - 1) / 12;
    var month := (m - 1) % 12 + 1;
    HourStart(Hour(year, month, d, h))
  }
}
