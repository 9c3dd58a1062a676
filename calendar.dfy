/**
 * The calendar behind `gmtime` and `timegm`: POSIX "Seconds Since the
 * Epoch" (section 4.16 of the Base Definitions volume of POSIX.1-2017), that
 * is the proleptic Gregorian calendar in UTC with every day 86400 seconds
 * long and no leap seconds.
 *
 * Days are converted to dates through the 400-, 100-, 4- and 1-year cycles of
 * the Gregorian calendar. Dafny's `/` and `%` are Euclidean, so with a
 * positive divisor they are floor division and a non-negative remainder,
 * which is what makes the conversion correct for every integer day, before
 * 1970 and before year 1 included.
 */
module Calendar {

  predicate IsLeapYear(y: int) {
    y % 4 == 0 && (y % 100 != 0 || y % 400 == 0)
  }

  function DaysInYear(y: int): int {
    if IsLeapYear(y) then 366 else 365
  }

  function DaysInMonth(y: int, m: int): int
    requires 1 <= m <= 12
  {
    if m == 2 then (if IsLeapYear(y) then 29 else 28)
    else if m == 4 || m == 6 || m == 9 || m == 11 then 30
    else 31
  }

  /** Days from 1 January of year `y` to the first day of month `m`. */
  function DaysBeforeMonth(y: int, m: int): int
    requires 1 <= m <= 12
  {
    var common :=
      if m == 1 then 0 else if m == 2 then 31 else if m == 3 then 59
      else if m == 4 then 90 else if m == 5 then 120 else if m == 6 then 151
      else if m == 7 then 181 else if m == 8 then 212 else if m == 9 then 243
      else if m == 10 then 273 else if m == 11 then 304 else 334;
    common + (if m > 2 && IsLeapYear(y) then 1 else 0)
  }

  lemma {:induction false} DaysBeforeMonthStep(y: int, m: int)
    requires 1 <= m <= 12
    ensures m < 12 ==> DaysBeforeMonth(y, m + 1) == DaysBeforeMonth(y, m) + DaysInMonth(y, m)
    ensures m == 12 ==> DaysBeforeMonth(y, m) + DaysInMonth(y, m) == DaysInYear(y)
  {
  }

  lemma {:induction false} DaysBeforeMonthMonotone(y: int, i: int, j: int)
    requires 1 <= i <= j <= 12
    ensures DaysBeforeMonth(y, i) <= DaysBeforeMonth(y, j)
  {
  }

  /** Days from 0001-01-01 to 1 January of year `y` (negative before year 1). */
  function DaysBeforeYear(y: int): int {
    var p := y - 1;
    365 * p + p / 4 - p / 100 + p / 400
  }

  /** DaysBeforeYear(1970): the day count of the Unix epoch from 0001-01-01. */
  const EpochDay: int := 719162

  /** A date of the proleptic Gregorian calendar; months and days count from 1. */
  datatype Civil = Civil(year: int, month: int, day: int)

  predicate ValidCivil(c: Civil) {
    1 <= c.month <= 12 && 1 <= c.day <= DaysInMonth(c.year, c.month)
  }

  /** Days since 1970-01-01; the day and month may be out of range, and then count on. */
  function DaysFromCivil(c: Civil): int
    requires 1 <= c.month <= 12
  {
    DaysBeforeYear(c.year) + DaysBeforeMonth(c.year, c.month) + c.day - 1 - EpochDay
  }

  /** The month in which day-of-year `doy` falls, searching down from month `m`. */
  function FindMonth(y: int, doy: int, m: int): (r: int)
    requires 1 <= m <= 12
    ensures 1 <= r <= m
  {
    if m == 1 || DaysBeforeMonth(y, m) <= doy then m else FindMonth(y, doy, m - 1)
  }

  /** The year that day `z` (counted from 0001-01-01) falls in, and the day of that year from 0. */
  function YearAndDay(z: int): (int, int) {
    var q400 := z / 146097;
    var r400 := z % 146097;
    var q100 := if r400 / 36524 == 4 then 3 else r400 / 36524;
    var r100 := r400 - q100 * 36524;
    var q4 := r100 / 1461;
    var r4 := r100 % 1461;
    var q1 := if r4 / 365 == 4 then 3 else r4 / 365;
    (400 * q400 + 100 * q100 + 4 * q4 + q1 + 1, r4 - q1 * 365)
  }

  lemma {:induction false} MulNonNegative(a: int, b: int)
    requires 0 <= a && 0 <= b
    ensures 0 <= a * b
  {
  }

  /** Division with a positive divisor: the quotient and remainder are unique. */
  lemma {:induction false} DivMod(x: int, d: int, q: int, r: int)
    requires d > 0 && 0 <= r < d && x == q * d + r
    ensures x / d == q && x % d == r
  {
    var k := q - x / d;
    assert k * d == x % d - r;
    if k > 0 {
      MulNonNegative(k - 1, d);
    } else if k < 0 {
      MulNonNegative(-k - 1, d);
    }
  }

  /**
   * The year after 400a + 100b + 4c + e full years: its first day, and
   * whether it is a leap year.
   */
  lemma {:induction false} CycleYear(a: int, b: int, c: int, e: int)
    requires 0 <= b <= 3 && 0 <= c <= 24 && 0 <= e <= 3
    ensures DaysBeforeYear(400 * a + 100 * b + 4 * c + e + 1)
         == 146097 * a + 36524 * b + 1461 * c + 365 * e
    ensures IsLeapYear(400 * a + 100 * b + 4 * c + e + 1) <==> e == 3 && (c != 24 || b == 3)
  {
    var p := 400 * a + 100 * b + 4 * c + e;
    var y := p + 1;
    DivMod(p, 4, 100 * a + 25 * b + c, e);
    DivMod(p, 100, 4 * a + b, 4 * c + e);
    DivMod(p, 400, a, 100 * b + 4 * c + e);
    if e == 3 {
      DivMod(y, 4, 100 * a + 25 * b + c + 1, 0);
    } else {
      DivMod(y, 4, 100 * a + 25 * b + c, e + 1);
    }
    if c == 24 && e == 3 {
      DivMod(y, 100, 4 * a + b + 1, 0);
    } else {
      DivMod(y, 100, 4 * a + b, 4 * c + e + 1);
    }
    if b == 3 && c == 24 && e == 3 {
      DivMod(y, 400, a + 1, 0);
    } else {
      DivMod(y, 400, a, 100 * b + 4 * c + e + 1);
    }
  }

  /** YearAndDay splits day `z` into the first day of a year and a day within it. */
  lemma {:induction false} YearAndDaySplits(z: int)
    ensures var (y, doy) := YearAndDay(z);
      DaysBeforeYear(y) + doy == z && 0 <= doy < DaysInYear(y)
  {
    var q400 := z / 146097;
    var r400 := z % 146097;
    var q100 := if r400 / 36524 == 4 then 3 else r400 / 36524;
    var r100 := r400 - q100 * 36524;
    var q4 := r100 / 1461;
    var r4 := r100 % 1461;
    var q1 := if r4 / 365 == 4 then 3 else r4 / 365;
    assert 0 <= r100 <= 36524 && (r100 == 36524 ==> q100 == 3);
    assert 0 <= q4 <= 24 && (q4 == 24 ==> r4 <= 1460);
    assert r4 == 1460 && q4 == 24 ==> q100 == 3;
    CycleYear(q400, q100, q4, q1);
  }

  /** The day of year of a date, from 0. */
  function DayOfYear(c: Civil): int
    requires 1 <= c.month <= 12
  {
    DaysBeforeMonth(c.year, c.month) + c.day - 1
  }

  /** The first day of year `y` and a day within it are found again by YearAndDay. */
  lemma {:induction false} YearAndDayOf(y: int, doy: int)
    requires 0 <= doy < DaysInYear(y)
    ensures YearAndDay(DaysBeforeYear(y) + doy) == (y, doy)
  {
    var p := y - 1;
    var a, r := p / 400, p % 400;
    var b, r2 := r / 100, r % 100;
    var c, e := r2 / 4, r2 % 4;
    assert p == 400 * a + 100 * b + 4 * c + e;
    CycleYear(a, b, c, e);
    var z := DaysBeforeYear(y) + doy;
    var r400 := 36524 * b + 1461 * c + 365 * e + doy;
    assert r400 < 146097;
    DivMod(z, 146097, a, r400);
    var r100 := 1461 * c + 365 * e + doy;
    if b < 3 {
      DivMod(r400, 36524, b, r100);
    } else if r100 < 36524 {
      DivMod(r400, 36524, 3, r100);
    } else {
      DivMod(r400, 36524, 4, 0);
    }
    var r4 := 365 * e + doy;
    DivMod(r100, 1461, c, r4);
    if doy < 365 {
      DivMod(r4, 365, e, doy);
    } else {
      DivMod(r4, 365, 4, 0);
    }
    YearAndDayParts(z, a, b, c, e, doy);
  }

  /** YearAndDay put together from the quotients and remainders of its three cycles. */
  lemma {:induction false} YearAndDayParts(z: int, a: int, b: int, c: int, e: int, doy: int)
    requires z / 146097 == a && z % 146097 == 36524 * b + 1461 * c + 365 * e + doy
    requires (if (z % 146097) / 36524 == 4 then 3 else (z % 146097) / 36524) == b
    requires (1461 * c + 365 * e + doy) / 1461 == c && (1461 * c + 365 * e + doy) % 1461 == 365 * e + doy
    requires (if (365 * e + doy) / 365 == 4 then 3 else (365 * e + doy) / 365) == e
    ensures YearAndDay(z) == (400 * a + 100 * b + 4 * c + e + 1, doy)
  {
  }

  /** FindMonth finds the month containing `doy` when `doy` is before month m + 1. */
  lemma {:induction false} FindMonthContains(y: int, doy: int, m: int)
    requires 1 <= m <= 12 && 0 <= doy
    requires doy < DaysBeforeMonth(y, m) + DaysInMonth(y, m)
    ensures var r := FindMonth(y, doy, m);
      DaysBeforeMonth(y, r) <= doy < DaysBeforeMonth(y, r) + DaysInMonth(y, r)
  {
    if m > 1 && DaysBeforeMonth(y, m) > doy {
      DaysBeforeMonthStep(y, m - 1);
      FindMonthContains(y, doy, m - 1);
    }
  }

  /** FindMonth, searching down from m, stops at the month k that contains `doy`. */
  lemma {:induction false} FindMonthFinds(y: int, doy: int, m: int, k: int)
    requires 1 <= k <= m <= 12
    requires DaysBeforeMonth(y, k) <= doy < DaysBeforeMonth(y, k) + DaysInMonth(y, k)
    ensures FindMonth(y, doy, m) == k
  {
    if m > k {
      DaysBeforeMonthStep(y, k);
      DaysBeforeMonthMonotone(y, k + 1, m);
      FindMonthFinds(y, doy, m - 1, k);
    }
  }

  /**
   * The date of day `n`, counted from 1970-01-01: a valid date, and the one
   * whose day count is `n`.
   */
  function CivilFromDays(n: int): (c: Civil)
    ensures ValidCivil(c)
    ensures DaysFromCivil(c) == n
  {
    var (y, doy) := YearAndDay(n + EpochDay);
    YearAndDaySplits(n + EpochDay);
    DaysBeforeMonthStep(y, 12);
    FindMonthContains(y, doy, 12);
    var m := FindMonth(y, doy, 12);
    Civil(y, m, doy - DaysBeforeMonth(y, m) + 1)
  }

  /** Every valid date is found again from its day number. */
  lemma {:induction false} DaysFromCivilInverse(c: Civil)
    requires ValidCivil(c)
    ensures CivilFromDays(DaysFromCivil(c)) == c
  {
    var doy := DayOfYear(c);
    assert 0 <= doy < DaysInYear(c.year) by {
      DaysBeforeMonthStep(c.year, c.month);
      DaysBeforeMonthMonotone(c.year, c.month, 12);
      DaysBeforeMonthStep(c.year, 12);
    }
    assert FindMonth(c.year, doy, 12) == c.month by {
      DaysBeforeMonthStep(c.year, c.month);
      FindMonthFinds(c.year, doy, 12, c.month);
    }
    CivilFromYearDay(c.year, doy, DaysFromCivil(c));
  }

  /** Day `doy` of year `y` is dated in that year, in the month FindMonth picks. */
  lemma {:induction false} CivilFromYearDay(y: int, doy: int, n: int)
    requires 0 <= doy < DaysInYear(y) && n == DaysBeforeYear(y) + doy - EpochDay
    ensures var m := FindMonth(y, doy, 12);
      CivilFromDays(n) == Civil(y, m, doy - DaysBeforeMonth(y, m) + 1)
  {
    YearAndDayOf(y, doy);
    assert YearAndDay(n + EpochDay) == (y, doy);
  }

  /** Consecutive years: the next one starts DaysInYear(y) days later. */
  lemma {:induction false} DaysBeforeYearStep(y: int)
    ensures DaysBeforeYear(y + 1) == DaysBeforeYear(y) + DaysInYear(y)
  {
    var p := y - 1;
    var a, r := p / 400, p % 400;
    var b, r2 := r / 100, r % 100;
    var c, e := r2 / 4, r2 % 4;
    assert p == 400 * a + 100 * b + 4 * c + e;
    CycleYear(a, b, c, e);
    if e < 3 {
      CycleYear(a, b, c, e + 1);
    } else if c < 24 {
      CycleYear(a, b, c + 1, 0);
    } else if b < 3 {
      CycleYear(a, b + 1, 0, 0);
    } else {
      CycleYear(a + 1, 0, 0, 0);
    }
  }

  lemma {:induction false} DaysBeforeYearMonotone(x: int, y: int)
    requires x <= y
    ensures DaysBeforeYear(x) + 365 * (y - x) <= DaysBeforeYear(y)
    decreases y - x
  {
    if x < y {
      DaysBeforeYearStep(y - 1);
      DaysBeforeYearMonotone(x, y - 1);
    }
  }

  /** Every valid date falls between the first days of its year and of the next. */
  lemma {:induction false} DaysFromCivilWithinYear(c: Civil)
    requires ValidCivil(c)
    ensures DaysBeforeYear(c.year) - EpochDay <= DaysFromCivil(c) < DaysBeforeYear(c.year + 1) - EpochDay
  {
    DaysBeforeMonthStep(c.year, c.month);
    DaysBeforeMonthMonotone(c.year, c.month, 12);
    DaysBeforeMonthStep(c.year, 12);
    DaysBeforeYearStep(c.year);
  }

  /** Day numbers from `lo` to `hi` fall in years `ylo` to `yhi` when those years' bounds say so. */
  lemma {:induction false} CivilFromDaysYearRange(n: int, ylo: int, yhi: int)
    requires DaysBeforeYear(ylo) - EpochDay <= n < DaysBeforeYear(yhi + 1) - EpochDay
    ensures ylo <= CivilFromDays(n).year <= yhi
  {
    var c := CivilFromDays(n);
    DaysFromCivilWithinYear(c);
    if c.year < ylo {
      DaysBeforeYearMonotone(c.year + 1, ylo);
    } else if c.year > yhi {
      DaysBeforeYearMonotone(yhi + 1, c.year);
    }
  }

  /** The date that follows a valid date. */
  function NextDay(c: Civil): (r: Civil)
    requires ValidCivil(c)
    ensures ValidCivil(r)
  {
    if c.day < DaysInMonth(c.year, c.month) then Civil(c.year, c.month, c.day + 1)
    else if c.month < 12 then Civil(c.year, c.month + 1, 1)
    else Civil(c.year + 1, 1, 1)
  }

  /** Day n + 1 is the date after day n. */
  lemma {:induction false} CivilFromDaysSucc(n: int)
    ensures CivilFromDays(n + 1) == NextDay(CivilFromDays(n))
  {
    var c := CivilFromDays(n);
    var next := NextDay(c);
    NextDayCounts(c);
    DaysFromCivilInverse(next);
    assert DaysFromCivil(next) == n + 1;
    assert CivilFromDays(n + 1) == next;
  }

  lemma {:induction false} NextDayCounts(c: Civil)
    requires ValidCivil(c)
    ensures DaysFromCivil(NextDay(c)) == DaysFromCivil(c) + 1
  {
    DaysBeforeMonthStep(c.year, c.month);
    if c.day == DaysInMonth(c.year, c.month) && c.month == 12 {
      DaysBeforeYearStep(c.year);
    }
  }
}
