/** What the codec of src/date.cpp promises, proved about the model in module Date. */
module DateLemmas {
  import opened Wrappers
  import opened CText
  import opened Calendar
  import opened CTime
  import opened TimeText
  import opened Date

  /** The end of year 9999 in milliseconds: 10000-01-01T00:00:00 UTC. */
  const EndOf9999: int := 253402300800000

  /**
   * `toISODate` prints the four-digit year, two-digit month, day, hour,
   * minute and second of the UTC calendar time for `t / 1000` (truncating),
   * then `.`, the millisecond remainder unpadded, and `+00:00`.
   */
  lemma {:induction false} ToISODateLayout(t: int)
    requires 1000 <= Gmtime(TruncDiv(t, 1000)).year + 1900 <= 9999
    ensures var tm := Gmtime(TruncDiv(t, 1000));
      ToISODate(t)
      == ZeroPad(tm.year + 1900, 4) + ("-" + (ZeroPad(tm.mon + 1, 2) + ("-" + (ZeroPad(tm.mday, 2)
       + ("T" + (ZeroPad(tm.hour, 2) + (":" + (ZeroPad(tm.min, 2) + (":" + ZeroPad(tm.sec, 2))))))))))
       + "." + IntToString(Millis(t)) + "+00:00"
  {
    var tm := Gmtime(TruncDiv(t, 1000));
    var fields := ZeroPad(tm.year + 1900, 4) + ("-" + (ZeroPad(tm.mon + 1, 2) + ("-" + (ZeroPad(tm.mday, 2)
       + ("T" + (ZeroPad(tm.hour, 2) + (":" + (ZeroPad(tm.min, 2) + (":" + ZeroPad(tm.sec, 2))))))))));
    assert PutTime(tm, IsoFormat) == fields by {
      CanonicalInRange(tm);
      PutTimeLayout(tm, 'T');
    }
    assert ToISODate(t) == PutTime(tm, IsoFormat) + "." + IntToString(Millis(t)) + "+00:00";
  }

  /** The text ends in `+00:00`, so it always holds a `+`. */
  lemma {:induction false} ToISODateHasPlus(t: int)
    ensures '+' in ToISODate(t)
  {
    var p := PutTime(Gmtime(TruncDiv(t, 1000)), IsoFormat) + "." + IntToString(Millis(t));
    assert ToISODate(t) == p + "+00:00";
    assert ToISODate(t)[|p|] == '+';
  }

  /** Text with a `T` in the part before its last `.` is split there into the fields and the rest. */
  lemma {:induction false} IsoSplit(start: string, rem: string)
    requires 'T' in start && '.' !in rem
    ensures DecodeIso(start + "." + rem) == DecodeIsoParts(start, rem)
  {
    var d := start + "." + rem;
    assert LastIndexOf(d, 'T').Some? by {
      var k :| 0 <= k < |start| && start[k] == 'T';
      assert d[k] == 'T';
    }
    assert d[|start| + 1..] == rem;
    LastIndexOfAt(d, '.', |start|);
    assert d[..|start|] == start;
  }

  /** After the dot, the text up to the last `+` is read as milliseconds and the offset is ignored. */
  lemma {:induction false} IsoPartsValue(start: string, ms: string, offset: string)
    requires '+' !in offset
    ensures DecodeIsoParts(start, ms + "+" + offset) == Ok(IsoMillis(start, ms))
  {
    var rem := ms + "+" + offset;
    assert rem[|ms| + 1..] == offset;
    LastIndexOfAt(rem, '+', |ms|);
    assert rem[..|ms|] == ms;
  }

  /** Appending the dot, the milliseconds, the plus and the offset in one go or in two. */
  lemma {:induction false} IsoConcat(start: string, ms: string, offset: string)
    ensures start + "." + ms + "+" + offset == start + "." + (ms + "+" + offset)
  {
  }

  /**
   * Decoding text that has a `T`: the fields before the last `.` are read
   * with TIME_FORMAT, the text up to the last `+` after it is read with
   * `atol` as milliseconds, and whatever follows that `+` plays no part.
   */
  lemma {:induction false} DecodeIsoValue(start: string, ms: string, offset: string)
    requires 'T' in start
    requires '.' !in ms && '.' !in offset && '+' !in offset
    ensures DecodeIso(start + "." + ms + "+" + offset) == Ok(IsoMillis(start, ms))
  {
    var rem := ms + "+" + offset;
    assert '.' !in rem;
    IsoConcat(start, ms, offset);
    IsoSplit(start, rem);
    IsoPartsValue(start, ms, offset);
  }

  /** The same, as the C++ function returns it. */
  lemma {:induction false} FromISODateValue(text: string, start: string, ms: string, offset: string)
    requires 'T' in start
    requires '.' !in ms && '.' !in offset && '+' !in offset
    requires text == start + "." + ms + "+" + offset
    ensures FromISODate(text) == IsoSeconds(start) * 1000 + Atol(ms)
  {
    DecodeIsoValue(start, ms, offset);
  }

  /** The offset after the `+` is ignored: any two offsets decode alike. */
  lemma {:induction false} DecodeIsoIgnoresOffset(start: string, ms: string, offset1: string, offset2: string)
    requires 'T' in start
    requires '.' !in ms && '.' !in offset1 && '+' !in offset1 && '.' !in offset2 && '+' !in offset2
    ensures DecodeIso(start + "." + ms + "+" + offset1) == DecodeIso(start + "." + ms + "+" + offset2)
  {
    DecodeIsoValue(start, ms, offset1);
    DecodeIsoValue(start, ms, offset2);
  }

  /** Reading TIME_FORMAT back from what it printed restores every field. */
  lemma {:induction false} IsoFieldsRoundTrip(tm: Tm)
    requires IsCanonical(tm) && 1000 <= tm.year + 1900 <= 9999
    ensures GetTime(PutTime(tm, IsoFormat), IsoFormat, ZeroTm) == tm
  {
    var p := PutTime(tm, IsoFormat);
    CanonicalInRange(tm);
    GetTimePutTime(tm, IsoFormat, ZeroTm, []);
    assert p + [] == p;
    FormatsComplete();
    AssignAll(ZeroTm, tm, IsoFormat);
  }

  /** The seconds read back from printed fields are the seconds of the calendar time printed. */
  lemma {:induction false} IsoSecondsRoundTrip(tm: Tm)
    requires IsCanonical(tm) && 1000 <= tm.year + 1900 <= 9999
    ensures IsoSeconds(PutTime(tm, IsoFormat)) == Timegm(tm)
  {
    IsoFieldsRoundTrip(tm);
  }

  /** The printed fields contain the `T` of TIME_FORMAT. */
  lemma {:induction false} IsoFieldsHaveT(tm: Tm)
    ensures 'T' in PutTime(tm, IsoFormat)
  {
    assert IsoFormat[5] == Literal('T');
    PutTimeHasLiterals(tm, IsoFormat, 'T');
  }

  /** A printed integer reads back with `atol` and holds no `.` or `+`. */
  lemma {:induction false} MillisReadBack(ms: int)
    ensures Atol(IntToString(ms)) == ms
    ensures '.' !in IntToString(ms) && '+' !in IntToString(ms)
  {
    MillisAtol(ms);
    MillisChars(ms);
  }

  lemma {:induction false} MillisAtol(ms: int)
    ensures Atol(IntToString(ms)) == ms
  {
    var m := IntToString(ms);
    AtolIntToString(ms, []);
    assert m + [] == m;
  }

  lemma {:induction false} MillisChars(ms: int)
    ensures '.' !in IntToString(ms) && '+' !in IntToString(ms)
  {
    IntToStringChars(ms);
  }

  /**
   * The text for any calendar time and millisecond count is split where
   * `toISODate` put its dot and plus: into the printed fields and the printed
   * millisecond count.
   */
  lemma {:induction false} IsoTextSplits(tm: Tm, ms: int)
    ensures DecodeIso(IsoText(tm, ms)) == Ok(IsoMillis(PutTime(tm, IsoFormat), IntToString(ms)))
  {
    IsoTextPieces(tm, ms);
    IsoFieldsHaveT(tm);
    MillisReadBack(ms);
    DecodeIsoUtc(PutTime(tm, IsoFormat), IntToString(ms));
  }

  /** The same for the `+00:00` offset that `toISODate` writes. */
  lemma {:induction false} DecodeIsoUtc(start: string, ms: string)
    requires 'T' in start && '.' !in ms
    ensures DecodeIso(start + "." + ms + "+" + "00:00") == Ok(IsoMillis(start, ms))
  {
    DecodeIsoValue(start, ms, "00:00");
  }

  /** The text, with its `+00:00` suffix taken as a plus followed by the offset. */
  lemma {:induction false} IsoTextPieces(tm: Tm, ms: int)
    ensures IsoText(tm, ms) == PutTime(tm, IsoFormat) + "." + IntToString(ms) + "+" + "00:00"
  {
  }

  /** The text for a canonical calendar time with a four-digit year decodes to its seconds and milliseconds. */
  lemma {:induction false} IsoTextDecodes(tm: Tm, ms: int)
    requires IsCanonical(tm) && 1000 <= tm.year + 1900 <= 9999
    ensures DecodeIso(IsoText(tm, ms)).Ok?
    ensures FromISODate(IsoText(tm, ms)) == Timegm(tm) * 1000 + ms
  {
    IsoTextSplits(tm, ms);
    IsoSecondsRoundTrip(tm);
    MillisReadBack(ms);
  }

  /** Text that `toISODate` printed for a year from 0 to 9999 decodes to the same timestamp. */
  lemma {:induction false} IsoRoundTrip(t: int)
    requires 1000 <= Gmtime(TruncDiv(t, 1000)).year + 1900 <= 9999
    ensures DecodeIso(ToISODate(t)).Ok?
    ensures FromISODate(ToISODate(t)) == t
  {
    var tnum := TruncDiv(t, 1000);
    IsoTextDecodes(Gmtime(tnum), Millis(t));
    TimegmGmtime(tnum);
    MillisBounds(t);
  }

  /** The round trip holds for every timestamp from the epoch to the end of year 9999. */
  lemma {:induction false} IsoRoundTripFromEpoch(t: int)
    requires 0 <= t < EndOf9999
    ensures FromISODate(ToISODate(t)) == t
  {
    var tnum := TruncDiv(t, 1000);
    assert 0 <= tnum < 253402300800;
    var days := tnum / 86400;
    assert 0 <= days < 2932897;
    CivilFromDaysYearRange(days, 1970, 9999);
    IsoRoundTrip(t);
  }

  /** Text without a `T` anywhere is handed to the legacy decoder unchanged. */
  lemma {:induction false} DecodeIsoDispatch(d: string)
    requires 'T' !in d
    ensures DecodeIso(d) == DecodeRuby(d)
    ensures FromISODate(d) == FromRubyDate(d)
  {
  }

  /** Text with a `T` fails for want of a dot exactly when it has no `.` at all. */
  lemma {:induction false} DecodeIsoNoDot(d: string)
    requires 'T' in d
    ensures DecodeIso(d) == Err(NoDot) <==> '.' !in d
  {
  }

  /**
   * Text with a `T` whose last `.` is at `dot` decodes exactly when a `+`
   * follows that dot, and fails for want of a plus otherwise.
   */
  lemma {:induction false} DecodeIsoNoPlus(d: string, dot: nat)
    requires 'T' in d
    requires dot < |d| && d[dot] == '.' && '.' !in d[dot + 1..]
    ensures DecodeIso(d) == Err(NoPlus) <==> '+' !in d[dot + 1..]
    ensures DecodeIso(d).Ok? <==> '+' in d[dot + 1..]
  {
    LastIndexOfAt(d, '.', dot);
  }

  /**
   * The digits after the dot are a count of milliseconds, not a decimal
   * fraction: `.5` adds 5 milliseconds and `.500` adds 500.
   */
  lemma {:induction false} FractionIsUnscaled(start: string)
    requires 'T' in start
    ensures FromISODate(start + "." + "5" + "+" + "00:00") == IsoSeconds(start) * 1000 + 5
    ensures FromISODate(start + "." + "500" + "+" + "00:00") == IsoSeconds(start) * 1000 + 500
  {
    UtcDigits(start, "5");
    UtcDigits(start, "500");
  }

  /** A run of digits after the dot is read as that many milliseconds. */
  lemma {:induction false} UtcDigits(start: string, ms: string)
    requires 'T' in start && |ms| > 0 && AllDigits(ms)
    ensures FromISODate(start + "." + ms + "+" + "00:00") == IsoSeconds(start) * 1000 + DigitsValue(ms)
  {
    AtolDigits(ms, []);
    assert ms + [] == ms;
    assert '.' !in ms by {
      forall i | 0 <= i < |ms| ensures ms[i] != '.' {
        assert IsDigit(ms[i]);
      }
    }
    DecodeIsoUtc(start, ms);
  }

  /**
   * `getFutureTime` prints the instant `hours` hours after `now`: moving the
   * whole seconds and adding back the millisecond remainder loses nothing.
   */
  lemma {:induction false} GetFutureTimeShift(now: int, hours: int)
    ensures GetFutureTime(now, hours) == ToISODate(now + hours * 3600000)
  {
    var t := ShiftedMillis(now, hours);
    assert GetFutureTime(now, hours) == ToISODate(t);
    assert t == now + hours * 3600000;
  }

  /** A shift of zero hours prints `now` itself, negative or not. */
  lemma {:induction false} GetFutureTimeZero(now: int)
    ensures GetFutureTime(now, 0) == ToISODate(now)
  {
    var later := ShiftedMillis(now, 0);
    assert later == now;
  }

  /**
   * 24 hours ahead moves the whole seconds by a day and keeps the
   * milliseconds, from a non-negative `now`, from one at least a day before
   * the epoch, or from a whole second.
   */
  lemma {:induction false} GetFutureTimeDay(now: int)
    requires now >= 0 || now <= -86400000 || now % 1000 == 0
    ensures GetFutureTime(now, 24) == IsoText(Gmtime(TruncDiv(now, 1000) + 86400), Millis(now))
  {
    DayLaterSplits(now);
    var later := ShiftedMillis(now, 24);
    assert later == now + 86400000;
  }

  /**
   * A day later a timestamp has 86400 more whole seconds and the same
   * remainder, when truncation rounds both the same way: both are on one
   * side of the epoch, or the remainder is 0.
   */
  lemma {:induction false} DayLaterSplits(now: int)
    requires now >= 0 || now <= -86400000 || now % 1000 == 0
    ensures TruncDiv(now + 86400000, 1000) == TruncDiv(now, 1000) + 86400
    ensures Millis(now + 86400000) == Millis(now)
  {
    if now >= 0 {
      MillisBounds(now);
      DivMod(now + 86400000, 1000, TruncDiv(now, 1000) + 86400, Millis(now));
    } else if now <= -86400000 {
      var m := -now;
      DivMod(m - 86400000, 1000, m / 1000 - 86400, m % 1000);
    } else {
      DivMod(-now, 1000, -(now / 1000), 0);
      DivMod(now + 86400000, 1000, now / 1000 + 86400, 0);
    }
  }

  /**
   * Less than a day before the epoch and off the whole second, a day later
   * truncates the other way: 86399 more whole seconds, and the negative
   * remainder becomes a positive one 1000 above it.
   */
  lemma {:induction false} DayLaterCrosses(now: int)
    requires -86400000 < now < 0 && Millis(now) != 0
    ensures TruncDiv(now + 86400000, 1000) == TruncDiv(now, 1000) + 86399
    ensures Millis(now + 86400000) == Millis(now) + 1000
    ensures Millis(now) < 0 < Millis(now) + 1000
  {
    var m := -now;
    DivMod(m, 1000, m / 1000, m % 1000);
    DivMod(86400000 - m, 1000, 86399 - m / 1000, 1000 - m % 1000);
  }

  /**
   * Less than a day before the epoch and off the whole second, 24 hours
   * ahead crosses the epoch: truncation then prints one second less than a
   * day later, with a positive remainder where `now` has a negative one.
   */
  lemma {:induction false} GetFutureTimeDayBeforeEpoch(now: int)
    requires -86400000 < now < 0 && Millis(now) != 0
    ensures GetFutureTime(now, 24) == IsoText(Gmtime(TruncDiv(now, 1000) + 86399), Millis(now) + 1000)
    ensures Millis(now) < 0 < Millis(now) + 1000
  {
    DayLaterCrosses(now);
    var later := ShiftedMillis(now, 24);
    assert later == now + 86400000;
  }

  /**
   * Within a second before the epoch (half a second before it, say), 24
   * hours ahead prints 23:59:59 on 1970-01-01, the date `now` itself prints,
   * and not the next day.
   */
  lemma {:induction false} GetFutureTimeSubSecondBeforeEpoch(now: int)
    requires -1000 < now < 0
    ensures GetFutureTime(now, 24) == IsoText(Gmtime(TruncDiv(now, 1000) + 86399), now + 1000)
    ensures DateOf(Gmtime(TruncDiv(now, 1000) + 86399)) == DateOf(Gmtime(TruncDiv(now, 1000)))
  {
    SubSecond(now);
    GetFutureTimeDayBeforeEpoch(now);
    GmtimeSameDay(TruncDiv(now, 1000) + 86399, TruncDiv(now, 1000));
  }

  /** Less than a second from the epoch, either way, has no whole second: the remainder is the timestamp itself. */
  lemma {:induction false} SubSecond(t: int)
    requires -1000 < t < 1000
    ensures TruncDiv(t, 1000) == 0 && Millis(t) == t
  {
    if t < 0 {
      DivMod(-t, 1000, 0, -t);
    } else {
      DivMod(t, 1000, 0, t);
    }
  }

  /** Two seconds of the same day share their date. */
  lemma {:induction false} GmtimeSameDay(t: int, u: int)
    requires t / 86400 == u / 86400
    ensures DateOf(Gmtime(t)) == DateOf(Gmtime(u))
  {
  }

  /**
   * The second `getFutureTime(now, 24)` prints when DayLaterSplits holds,
   * 86400 seconds after that of `now`, is the next calendar day at the same
   * hour, minute and second.
   */
  lemma {:induction false} GetFutureTimeNextDay(now: int)
    ensures DateOf(Gmtime(TruncDiv(now, 1000) + 86400)) == NextDay(DateOf(Gmtime(TruncDiv(now, 1000))))
    ensures var tm, tm' := Gmtime(TruncDiv(now, 1000)), Gmtime(TruncDiv(now, 1000) + 86400);
      tm'.hour == tm.hour && tm'.min == tm.min && tm'.sec == tm.sec
  {
    GmtimeNextDay(TruncDiv(now, 1000), TruncDiv(now, 1000) + 86400);
  }
}
