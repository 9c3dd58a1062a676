/**
 * What the legacy decoder of src/date.cpp does with text of the form
 * `YYYY-MM-DD HH:MM:SS <token>`, proved about the model in module Date.
 */
module LegacyLemmas {
  import opened Wrappers
  import opened CText
  import Calendar
  import opened CTime
  import opened TimeText
  import opened Date
  import DateLemmas

  /** The legacy form carries no milliseconds: every result, the error value 0 included, is whole seconds. */
  lemma {:induction false} FromRubyDateWholeSeconds(d: string)
    ensures FromRubyDate(d) % 1000 == 0
    ensures DecodeRuby(d).Ok? ==> DecodeRuby(d).value % 1000 == 0
  {
    match DecodeRuby(d)
    case Err(_) =>
    case Ok(v) =>
      var spc := LastIndexOf(d, ' ').value;
      var start, token := d[..spc], d[spc + 1..];
      assert LastIndexOf(token, '+').Some?;
      var secs := RubySeconds(start) + RubyOffset(token);
      assert v == secs * 1000;
      Calendar.DivMod(v, 1000, secs, 0);
  }

  /** The failure branch for want of a space is taken exactly when the text has no space. */
  lemma {:induction false} DecodeRubyNoSpace(d: string)
    ensures DecodeRuby(d) == Err(NoSpace) <==> ' ' !in d
  {
  }

  /** Text whose last space is followed by a token without one is split there into the clock reading and the token. */
  lemma {:induction false} RubySplit(start: string, token: string)
    requires ' ' !in token
    ensures DecodeRuby(start + " " + token) == DecodeRubyParts(start, token)
  {
    var d := start + " " + token;
    assert d[|start|] == ' ';
    assert d[|start| + 1..] == token;
    LastIndexOfAt(d, ' ', |start|);
    assert d[..|start|] == start;
  }

  /**
   * Text whose last space is followed by a token holding a `+`: the clock
   * reading before the space, moved by the offset of the token.
   */
  lemma {:induction false} DecodeRubyValue(start: string, token: string)
    requires ' ' !in token && '+' in token
    ensures |token| > 0
    ensures DecodeRuby(start + " " + token) == Ok(RubyMillis(start, token))
  {
    RubySplit(start, token);
  }

  /** A token without a `+` is refused, whatever its sign: the result is 0. */
  lemma {:induction false} DecodeRubyNoPlus(start: string, token: string)
    requires ' ' !in token
    ensures DecodeRuby(start + " " + token) == Err(NoPlus) <==> '+' !in token
    ensures '+' !in token ==> FromRubyDate(start + " " + token) == 0
  {
    RubySplit(start, token);
  }

  /** The usual negative offset `-HHMM` is refused for want of a `+`. */
  lemma {:induction false} NegativeOffsetRefused(start: string)
    ensures DecodeRuby(start + " " + "-0500") == Err(NoPlus)
    ensures FromRubyDate(start + " " + "-0500") == 0
  {
    DecodeRubyNoPlus(start, "-0500");
  }

  /** A sign, digits and text without a space make a token without a space that holds a `+`. */
  lemma {:induction false} SignedToken(sign: char, digits: string, rest: string)
    requires sign == '+' || sign == '-'
    requires AllDigits(digits) && ' ' !in rest
    requires sign == '+' || '+' in rest
    ensures var token := [sign] + digits + rest;
      && token[0] == sign && token[1..] == digits + rest
      && ' ' !in token && '+' in token
  {
    var token := [sign] + digits + rest;
    assert token[1..] == digits + rest;
    assert forall i :: 1 <= i <= |digits| ==> token[i] == digits[i - 1];
    assert forall i :: 1 + |digits| <= i < |token| ==> token[i] == rest[i - 1 - |digits|];
    if sign == '-' {
      var k :| 0 <= k < |rest| && rest[k] == '+';
      assert token[1 + |digits| + k] == '+';
    }
  }

  /**
   * The offset of a token made of a sign, digits and then text that starts
   * with no digit: the digits are read as HHMM and only their whole hours
   * count (truncating), negated when the sign is `-`.
   */
  lemma {:induction false} SignedOffset(sign: char, digits: string, rest: string)
    requires sign == '+' || sign == '-'
    requires |digits| > 0 && AllDigits(digits)
    requires rest == [] || !IsDigit(rest[0])
    ensures |[sign] + digits + rest| > 0
    ensures RubyOffset([sign] + digits + rest) == (if sign == '-' then -(DigitsValue(digits) / 100 * 3600) else DigitsValue(digits) / 100 * 3600)
  {
    var token := [sign] + digits + rest;
    assert token[0] == sign && token[1..] == digits + rest;
    AtolDigits(digits, rest);
  }

  /**
   * A token made of a sign, digits and then text that starts with no digit:
   * the digits are read as HHMM, only their whole hours count (truncating),
   * and they move the clock reading forward, or back when the sign is `-`.
   * A `+` must still appear in the token.
   */
  lemma {:induction false} DecodeRubyOffset(start: string, sign: char, digits: string, rest: string)
    requires sign == '+' || sign == '-'
    requires |digits| > 0 && AllDigits(digits)
    requires rest == [] || !IsDigit(rest[0])
    requires ' ' !in rest
    requires sign == '+' || '+' in rest
    ensures DecodeRuby(start + " " + ([sign] + digits + rest)).Ok?
    ensures FromRubyDate(start + " " + ([sign] + digits + rest))
         == (RubySeconds(start) + (if sign == '-' then -(DigitsValue(digits) / 100 * 3600) else DigitsValue(digits) / 100 * 3600)) * 1000
  {
    SignedToken(sign, digits, rest);
    SignedOffset(sign, digits, rest);
    DecodeRubyValue(start, [sign] + digits + rest);
  }

  /** `+0530` moves the clock reading forward by five hours: its minutes are dropped. */
  lemma {:induction false} HalfHourOffsetDropsMinutes(start: string)
    ensures FromRubyDate(start + " " + "+0530") == (RubySeconds(start) + 5 * 3600) * 1000
  {
    assert "+0530" == ['+'] + "0530" + [];
    DigitsValueFour("0530");
    assert DigitsValue("0530") == 530;
    DecodeRubyOffset(start, '+', "0530", []);
  }

  /** The sign is honoured only when a `+` follows: `-0500+` moves the clock reading back by five hours. */
  lemma {:induction false} NegativeOffsetWithPlus(start: string)
    ensures FromRubyDate(start + " " + "-0500+") == (RubySeconds(start) - 5 * 3600) * 1000
  {
    assert "-0500+" == ['-'] + "0500" + "+";
    DigitsValueFour("0500");
    assert DigitsValue("0500") == 500;
    DecodeRubyOffset(start, '-', "0500", "+");
  }

  /** Reading RUBY_TIME_FORMAT back from what it printed restores every field. */
  lemma {:induction false} RubyFieldsRoundTrip(tm: Tm)
    requires IsCanonical(tm) && 1000 <= tm.year + 1900 <= 9999
    ensures GetTime(PutTime(tm, RubyFormat), RubyFormat, ZeroTm) == tm
  {
    var p := PutTime(tm, RubyFormat);
    CanonicalInRange(tm);
    GetTimePutTime(tm, RubyFormat, ZeroTm, []);
    assert p + [] == p;
    FormatsComplete();
    AssignAll(ZeroTm, tm, RubyFormat);
  }

  /** The seconds read back from printed legacy fields are the seconds of the calendar time printed. */
  lemma {:induction false} RubySecondsRoundTrip(tm: Tm)
    requires IsCanonical(tm) && 1000 <= tm.year + 1900 <= 9999
    ensures RubySeconds(PutTime(tm, RubyFormat)) == Timegm(tm)
  {
    RubyFieldsRoundTrip(tm);
  }

  /**
   * A legacy UTC time `YYYY-MM-DD HH:MM:SS +0000` decodes to the same
   * timestamp as the ISO text for the same calendar time with 0 milliseconds,
   * whether it is given to `fromRubyDate` or to `fromISODate`.
   */
  lemma {:induction false} LegacyUtcAgreesWithIso(tm: Tm)
    requires IsCanonical(tm) && 1000 <= tm.year + 1900 <= 9999
    ensures FromRubyDate(PutTime(tm, RubyFormat) + " " + "+0000") == Timegm(tm) * 1000
    ensures FromISODate(PutTime(tm, RubyFormat) + " " + "+0000") == Timegm(tm) * 1000
    ensures FromISODate(IsoText(tm, 0)) == Timegm(tm) * 1000
  {
    var p := PutTime(tm, RubyFormat);
    var d := p + " " + "+0000";
    assert FromRubyDate(d) == Timegm(tm) * 1000 by {
      assert "+0000" == ['+'] + "0000" + [];
      DigitsValueFour("0000");
      assert DigitsValue("0000") == 0;
      DecodeRubyOffset(p, '+', "0000", []);
      RubySecondsRoundTrip(tm);
    }
    assert 'T' !in d by {
      assert Literal('T') !in RubyFormat;
      PutTimeLacks(tm, RubyFormat, 'T');
    }
    DateLemmas.DecodeIsoDispatch(d);
    DateLemmas.IsoTextDecodes(tm, 0);
  }
}
