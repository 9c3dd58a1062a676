/**
 * `std::put_time` and `std::get_time` for the two formats of the codec,
 * TIME_FORMAT "%Y-%m-%dT%H:%M:%S" and RUBY_TIME_FORMAT "%Y-%m-%d %H:%M:%S".
 * `put_time` formats through the C library's `strftime`, which prints `%Y`
 * in plain decimal and the other conversions in two digits; `get_time`
 * reads each field with its full width.
 */
module TimeText {
  import opened Wrappers
  import opened CText
  import opened Calendar
  import opened CTime

  /** One element of a format string: a conversion, or a character that stands for itself. */
  datatype Directive = Year | Month | Day | Hour | Minute | Second | Literal(c: char)

  type Format = seq<Directive>

  /** TIME_FORMAT: "%Y-%m-%dT%H:%M:%S". */
  const IsoFormat: Format := [Year, Literal('-'), Month, Literal('-'), Day, Literal('T'),
                              Hour, Literal(':'), Minute, Literal(':'), Second]

  /** RUBY_TIME_FORMAT: "%Y-%m-%d %H:%M:%S". */
  const RubyFormat: Format := [Year, Literal('-'), Month, Literal('-'), Day, Literal(' '),
                               Hour, Literal(':'), Minute, Literal(':'), Second]

  /** The number of digits a conversion prints and reads. */
  function Width(d: Directive): nat {
    match d
    case Year => 4
    case Literal(_) => 1
    case _ => 2
  }

  /** The smallest and largest value `get_time` accepts for a conversion. */
  function Lo(d: Directive): int {
    if d == Month || d == Day then 1 else 0
  }

  function Hi(d: Directive): int {
    match d
    case Year => 9999
    case Month => 12
    case Day => 31
    case Hour => 23
    case Minute => 59
    case Second => 60
    case Literal(_) => 0
  }

  /** The number a conversion prints for `tm`: the year in full, the month from 1. */
  function Shown(tm: Tm, d: Directive): int
    requires !d.Literal?
  {
    match d
    case Year => tm.year + 1900
    case Month => tm.mon + 1
    case Day => tm.mday
    case Hour => tm.hour
    case Minute => tm.min
    case Second => tm.sec
  }

  /** `tm` with the field of conversion `d` set from the number `v` that was read. */
  function Store(tm: Tm, d: Directive, v: int): (r: Tm)
    requires !d.Literal?
    ensures Shown(r, d) == v
  {
    match d
    case Year => tm.(year := v - 1900)
    case Month => tm.(mon := v - 1)
    case Day => tm.(mday := v)
    case Hour => tm.(hour := v)
    case Minute => tm.(min := v)
    case Second => tm.(sec := v)
  }

  /**
   * `put_time` for one directive: the year is printed in plain decimal, so
   * year 999 is `999`; a two-digit conversion in range is zero-padded to two
   * digits, and outside that range printed in plain decimal.
   */
  function Put(tm: Tm, d: Directive): string {
    if d.Literal? then [d.c]
    else
      var v := Shown(tm, d);
      if d != Year && 0 <= v < Pow10(Width(d)) then ZeroPad(v, Width(d)) else IntToString(v)
  }

  function PutTime(tm: Tm, fmt: Format): string {
    if fmt == [] then "" else Put(tm, fmt[0]) + PutTime(tm, fmt[1..])
  }

  /**
   * `get_time` for one directive: a literal must be the next character; a
   * conversion takes exactly its width of digits, in its range. The result
   * is the updated `tm` and the number of characters used, or None on a
   * mismatch.
   */
  function Get(s: string, d: Directive, tm: Tm): (r: Option<(Tm, nat)>)
    ensures r.Some? ==> r.value.1 <= |s|
  {
    if d.Literal? then
      if |s| > 0 && s[0] == d.c then Some((tm, 1)) else None
    else
      var w := Width(d);
      if |s| >= w && AllDigits(s[..w]) && Lo(d) <= DigitsValue(s[..w]) <= Hi(d) then
        Some((Store(tm, d, DigitsValue(s[..w])), w))
      else None
  }

  /**
   * `ss >> get_time(&tm, fmt)`: directives are matched in order and each
   * field is stored as it is read; at the first mismatch, or when the text
   * runs out, reading stops and the fields read so far stay in `tm`. Text
   * left over after the last directive is not looked at.
   */
  function GetTime(s: string, fmt: Format, tm: Tm): Tm
    decreases fmt
  {
    if fmt == [] then tm
    else
      match Get(s, fmt[0], tm)
      case None => tm
      case Some((tm', n)) => GetTime(s[n..], fmt[1..], tm')
  }

  /** Every field of `tm` prints in exactly its width and within the range `get_time` accepts. */
  predicate InRange(tm: Tm) {
    && Pow10(Width(Year) - 1) <= Shown(tm, Year) <= Hi(Year)
    && Lo(Month) <= Shown(tm, Month) <= Hi(Month)
    && Lo(Day) <= Shown(tm, Day) <= Hi(Day)
    && Lo(Hour) <= Shown(tm, Hour) <= Hi(Hour)
    && Lo(Minute) <= Shown(tm, Minute) <= Hi(Minute)
    && Lo(Second) <= Shown(tm, Second) <= Hi(Second)
  }

  /** A canonical calendar time whose year has four digits prints every field within its width. */
  lemma {:induction false} CanonicalInRange(tm: Tm)
    requires IsCanonical(tm) && 1000 <= tm.year + 1900 <= 9999
    ensures InRange(tm)
  {
    assert Pow10(3) == 1000;
    assert tm.mday <= 31 by {
      assert DaysInMonth(DateOf(tm).year, DateOf(tm).month) <= 31;
    }
  }

  /** What reading back `fmt` does to `tm0`: the fields that `fmt` mentions are those of `tm`. */
  function Assign(tm0: Tm, tm: Tm, fmt: Format): Tm
    decreases fmt
  {
    if fmt == [] then tm0
    else
      var d := fmt[0];
      Assign(if d.Literal? then tm0 else Store(tm0, d, Shown(tm, d)), tm, fmt[1..])
  }

  /** The field of `tm` that a conversion reads comes from `tm` when `fmt` mentions it. */
  lemma {:induction false} AssignFields(tm0: Tm, tm: Tm, fmt: Format)
    ensures var r := Assign(tm0, tm, fmt);
      && r.year == (if Year in fmt then tm.year else tm0.year)
      && r.mon == (if Month in fmt then tm.mon else tm0.mon)
      && r.mday == (if Day in fmt then tm.mday else tm0.mday)
      && r.hour == (if Hour in fmt then tm.hour else tm0.hour)
      && r.min == (if Minute in fmt then tm.min else tm0.min)
      && r.sec == (if Second in fmt then tm.sec else tm0.sec)
    decreases fmt
  {
    if fmt != [] {
      var d := fmt[0];
      AssignFields(if d.Literal? then tm0 else Store(tm0, d, Shown(tm, d)), tm, fmt[1..]);
      assert fmt == [d] + fmt[1..];
    }
  }

  /** A format that mentions all six conversions reads back the whole `tm`. */
  lemma {:induction false} AssignAll(tm0: Tm, tm: Tm, fmt: Format)
    requires Year in fmt && Month in fmt && Day in fmt
    requires Hour in fmt && Minute in fmt && Second in fmt
    ensures Assign(tm0, tm, fmt) == tm
  {
    AssignFields(tm0, tm, fmt);
  }

  /** Both formats of the codec mention all six conversions. */
  lemma FormatsComplete()
    ensures Year in IsoFormat && Month in IsoFormat && Day in IsoFormat
    ensures Hour in IsoFormat && Minute in IsoFormat && Second in IsoFormat
    ensures Year in RubyFormat && Month in RubyFormat && Day in RubyFormat
    ensures Hour in RubyFormat && Minute in RubyFormat && Second in RubyFormat
  {
    assert IsoFormat[0] == Year && IsoFormat[2] == Month && IsoFormat[4] == Day;
    assert IsoFormat[6] == Hour && IsoFormat[8] == Minute && IsoFormat[10] == Second;
    assert RubyFormat[0] == Year && RubyFormat[2] == Month && RubyFormat[4] == Day;
    assert RubyFormat[6] == Hour && RubyFormat[8] == Minute && RubyFormat[10] == Second;
  }

  /** One directive reads back what it printed, whatever follows. */
  lemma {:induction false} GetPut(tm: Tm, d: Directive, tm0: Tm, rest: string)
    requires InRange(tm)
    ensures Get(Put(tm, d) + rest, d, tm0)
         == Some((if d.Literal? then tm0 else Store(tm0, d, Shown(tm, d)), |Put(tm, d)|))
  {
    if !d.Literal? {
      var v := Shown(tm, d);
      var w := Width(d);
      assert Lo(d) <= v <= Hi(d);
      PutInRange(tm, d);
      assert (Put(tm, d) + rest)[..w] == ZeroPad(v, w);
    }
  }

  /** `get_time` reads back what `put_time` printed with the same format, whatever follows. */
  lemma {:induction false} GetTimePutTime(tm: Tm, fmt: Format, tm0: Tm, rest: string)
    requires InRange(tm)
    ensures GetTime(PutTime(tm, fmt) + rest, fmt, tm0) == Assign(tm0, tm, fmt)
    decreases fmt
  {
    if fmt != [] {
      var d := fmt[0];
      var tm1 := if d.Literal? then tm0 else Store(tm0, d, Shown(tm, d));
      var tail := PutTime(tm, fmt[1..]) + rest;
      assert PutTime(tm, fmt) + rest == Put(tm, d) + tail;
      GetPut(tm, d, tm0, tail);
      assert (Put(tm, d) + tail)[|Put(tm, d)|..] == tail;
      GetTimePutTime(tm, fmt[1..], tm1, rest);
    }
  }

  /** Every literal character of the format appears in the text `put_time` prints. */
  lemma {:induction false} PutTimeHasLiterals(tm: Tm, fmt: Format, c: char)
    requires Literal(c) in fmt
    ensures c in PutTime(tm, fmt)
  {
    if fmt[0] == Literal(c) {
      assert PutTime(tm, fmt)[0] == c;
    } else {
      PutTimeHasLiterals(tm, fmt[1..], c);
      assert PutTime(tm, fmt) == Put(tm, fmt[0]) + PutTime(tm, fmt[1..]);
    }
  }

  /** A character that is neither a digit, a minus sign nor a literal of the format is never printed. */
  lemma {:induction false} PutTimeLacks(tm: Tm, fmt: Format, c: char)
    requires !IsDigit(c) && c != '-' && Literal(c) !in fmt
    ensures c !in PutTime(tm, fmt)
  {
    if fmt != [] {
      PutTimeLacks(tm, fmt[1..], c);
      var d := fmt[0];
      if !d.Literal? {
        IntToStringChars(Shown(tm, d));
      }
    }
  }

  /** A conversion that is in range prints as its value zero-padded to its width. */
  lemma {:induction false} PutInRange(tm: Tm, d: Directive)
    requires InRange(tm) && !d.Literal?
    ensures 0 <= Shown(tm, d) < Pow10(Width(d))
    ensures Put(tm, d) == ZeroPad(Shown(tm, d), Width(d))
  {
    Pow10Values();
    if d == Year {
      assert Pow10(3) == 1000;
      NatToStringWidth(Shown(tm, d), 4);
    }
  }

  /** The date directives "%Y-%m-%d" and the clock directives "%H:%M:%S" that both formats share. */
  const DateFormat: Format := [Year, Literal('-'), Month, Literal('-'), Day]
  const ClockFormat: Format := [Hour, Literal(':'), Minute, Literal(':'), Second]

  /** Each format is the date directives, one separator and the clock directives. */
  lemma FormatsSplit()
    ensures IsoFormat == DateFormat + [Literal('T')] + ClockFormat
    ensures RubyFormat == DateFormat + [Literal(' ')] + ClockFormat
  {
  }

  /** Printing a format made of two parts prints the parts one after the other. */
  lemma {:induction false} PutTimeAppend(tm: Tm, a: Format, b: Format)
    ensures PutTime(tm, a + b) == PutTime(tm, a) + PutTime(tm, b)
    decreases a
  {
    if a == [] {
      assert a + b == b;
    } else {
      assert (a + b)[0] == a[0] && (a + b)[1..] == a[1..] + b;
      PutTimeAppend(tm, a[1..], b);
    }
  }

  /** The date part prints a four-digit year, then two digits each of month and day. */
  lemma {:induction false} PutDate(tm: Tm)
    requires InRange(tm)
    ensures PutTime(tm, DateFormat)
         == ZeroPad(tm.year + 1900, 4) + ("-" + (ZeroPad(tm.mon + 1, 2) + ("-" + ZeroPad(tm.mday, 2))))
  {
    var fmt := DateFormat;
    PutInRange(tm, Year);
    PutInRange(tm, Month);
    PutInRange(tm, Day);
    assert fmt[5..] == [];
    PutTimeCons(tm, fmt, 4);
    PutTimeCons(tm, fmt, 3);
    PutTimeCons(tm, fmt, 2);
    PutTimeCons(tm, fmt, 1);
    PutTimeCons(tm, fmt, 0);
    assert fmt[0..] == fmt;
  }

  /** The clock part prints two digits each of hour, minute and second. */
  lemma {:induction false} PutClock(tm: Tm)
    requires InRange(tm)
    ensures PutTime(tm, ClockFormat)
         == ZeroPad(tm.hour, 2) + (":" + (ZeroPad(tm.min, 2) + (":" + ZeroPad(tm.sec, 2))))
  {
    var fmt := ClockFormat;
    PutInRange(tm, Hour);
    PutInRange(tm, Minute);
    PutInRange(tm, Second);
    assert fmt[5..] == [];
    PutTimeCons(tm, fmt, 4);
    PutTimeCons(tm, fmt, 3);
    PutTimeCons(tm, fmt, 2);
    PutTimeCons(tm, fmt, 1);
    PutTimeCons(tm, fmt, 0);
    assert fmt[0..] == fmt;
  }

  /**
   * TIME_FORMAT and RUBY_TIME_FORMAT write four digits of year, then two
   * digits each of month, day, hour, minute and second, with `sep` between the
   * date and the time.
   */
  lemma {:induction false} PutTimeLayout(tm: Tm, sep: char)
    requires InRange(tm)
    requires sep == 'T' || sep == ' '
    ensures PutTime(tm, if sep == 'T' then IsoFormat else RubyFormat)
         == ZeroPad(tm.year + 1900, 4) + ("-" + (ZeroPad(tm.mon + 1, 2) + ("-" + (ZeroPad(tm.mday, 2)
          + ([sep] + (ZeroPad(tm.hour, 2) + (":" + (ZeroPad(tm.min, 2) + (":" + ZeroPad(tm.sec, 2))))))))))
  {
    FormatsSplit();
    PutTimeSeparated(tm, DateFormat, sep, ClockFormat);
    PutDate(tm);
    PutClock(tm);
    LayoutConcat(PutTime(tm, DateFormat), PutTime(tm, ClockFormat), sep,
                 ZeroPad(tm.year + 1900, 4), ZeroPad(tm.mon + 1, 2), ZeroPad(tm.mday, 2),
                 ZeroPad(tm.hour, 2), ZeroPad(tm.min, 2), ZeroPad(tm.sec, 2));
  }

  /** A literal between two parts of a format is printed between the two parts' texts. */
  lemma {:induction false} PutTimeSeparated(tm: Tm, a: Format, sep: char, b: Format)
    ensures PutTime(tm, a + [Literal(sep)] + b) == PutTime(tm, a) + ([sep] + PutTime(tm, b))
  {
    PutTimeAppend(tm, a + [Literal(sep)], b);
    PutTimeAppend(tm, a, [Literal(sep)]);
    assert PutTime(tm, [Literal(sep)]) == [sep] by {
      assert [Literal(sep)][1..] == [];
    }
    CharBetween(PutTime(tm, a), sep, PutTime(tm, b));
  }

  lemma {:induction false} CharBetween(x: string, c: char, y: string)
    ensures (x + [c]) + y == x + ([c] + y)
  {
  }

  lemma {:induction false} LayoutConcat(date: string, clock: string, sep: char,
                                        y: string, mo: string, d: string, h: string, mi: string, se: string)
    requires date == y + ("-" + (mo + ("-" + d)))
    requires clock == h + (":" + (mi + (":" + se)))
    ensures date + ([sep] + clock)
         == y + ("-" + (mo + ("-" + (d + ([sep] + (h + (":" + (mi + (":" + se)))))))))
  {
  }

  lemma {:induction false} PutTimeCons(tm: Tm, fmt: Format, i: nat)
    requires i < |fmt|
    ensures PutTime(tm, fmt[i..]) == Put(tm, fmt[i]) + PutTime(tm, fmt[i + 1..])
  {
    assert fmt[i..][1..] == fmt[i + 1..];
  }
}
