/**
 * `struct tm` and the two C calls that convert it: `gmtime` (seconds since
 * the epoch to UTC calendar fields) and `timegm` (the reverse, normalising
 * fields that are out of range).
 */
module CTime {
  import opened Calendar

  /**
   * The fields of `struct tm` that the codec reads or writes, with C's
   * conventions: `year` counts from 1900 and `mon` from 0. The weekday, the
   * day of the year and the daylight-saving flag are not modelled.
   */
  datatype Tm = Tm(year: int, mon: int, mday: int, hour: int, min: int, sec: int)

  /** `tm tm = {};` */
  const ZeroTm: Tm := Tm(0, 0, 0, 0, 0, 0)

  /** The calendar date a `tm` names, in Civil's conventions. */
  function DateOf(tm: Tm): Civil {
    Civil(tm.year + 1900, tm.mon + 1, tm.mday)
  }

  /** Every field within its range, as `gmtime` produces them (no leap second). */
  predicate IsCanonical(tm: Tm) {
    && 0 <= tm.mon <= 11
    && ValidCivil(DateOf(tm))
    && 0 <= tm.hour <= 23 && 0 <= tm.min <= 59 && 0 <= tm.sec <= 59
  }

  /** A second of the day split into hours, minutes and seconds. */
  lemma {:induction false} TimeOfDay(secs: int)
    requires 0 <= secs < 86400
    ensures 0 <= secs / 3600 <= 23 && 0 <= secs % 3600 / 60 <= 59 && 0 <= secs % 3600 % 60 <= 59
    ensures secs / 3600 * 3600 + secs % 3600 / 60 * 60 + secs % 3600 % 60 == secs
  {
  }

  /** `gmtime`: the UTC calendar fields of `t` seconds since the epoch. */
  function Gmtime(t: int): (tm: Tm)
    ensures IsCanonical(tm)
    ensures DaysFromCivil(DateOf(tm)) == t / 86400
    ensures tm.hour * 3600 + tm.min * 60 + tm.sec == t % 86400
  {
    var c := CivilFromDays(t / 86400);
    var secs := t % 86400;
    TimeOfDay(secs);
    Tm(c.year - 1900, c.month - 1, c.day, secs / 3600, secs % 3600 / 60, secs % 3600 % 60)
  }

  /**
   * `timegm`: seconds since the epoch of a UTC calendar time. A month
   * outside 0..11 carries into the year; the day, hour, minute and second
   * count on linearly, so that day 0 is the last day of the previous month.
   */
  function Timegm(tm: Tm): int {
    var year := tm.year + 1900 + tm.mon / 12;
    var month := tm.mon % 12 + 1;
    DaysFromCivil(Civil(year, month, tm.mday)) * 86400 + tm.hour * 3600 + tm.min * 60 + tm.sec
  }

  /** `timegm` undoes `gmtime` for every second. */
  lemma {:induction false} TimegmGmtime(t: int)
    ensures Timegm(Gmtime(t)) == t
  {
    var tm := Gmtime(t);
    assert tm.mon / 12 == 0 && tm.mon % 12 == tm.mon;
  }

  /** `gmtime` undoes `timegm` for every canonical calendar time. */
  lemma {:induction false} GmtimeTimegm(tm: Tm)
    requires IsCanonical(tm)
    ensures Gmtime(Timegm(tm)) == tm
  {
    assert tm.mon / 12 == 0 && tm.mon % 12 == tm.mon;
    var days := DaysFromCivil(DateOf(tm));
    var secs := tm.hour * 3600 + tm.min * 60 + tm.sec;
    var t := Timegm(tm);
    assert t == days * 86400 + secs;
    DivMod(t, 86400, days, secs);
    DaysFromCivilInverse(DateOf(tm));
    DivMod(secs, 3600, tm.hour, tm.min * 60 + tm.sec);
    DivMod(tm.min * 60 + tm.sec, 60, tm.min, tm.sec);
    DivMod(secs, 60, tm.hour * 60 + tm.min, tm.sec);
  }

  /** A day later, at second `later`, `gmtime` gives the same clock time on the next date. */
  lemma {:induction false} GmtimeNextDay(t: int, later: int)
    requires later == t + 86400
    ensures DateOf(Gmtime(later)) == NextDay(DateOf(Gmtime(t)))
    ensures var tm, tm' := Gmtime(t), Gmtime(later);
      tm'.hour == tm.hour && tm'.min == tm.min && tm'.sec == tm.sec
  {
    var n := t / 86400;
    assert later / 86400 == n + 1 && later % 86400 == t % 86400 by {
      DivMod(later, 86400, n + 1, t % 86400);
    }
    assert DateOf(Gmtime(t)) == CivilFromDays(n);
    assert DateOf(Gmtime(later)) == CivilFromDays(n + 1);
    CivilFromDaysSucc(n);
  }
}
