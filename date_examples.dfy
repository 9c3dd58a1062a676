/**
 * Worked examples of the codec of src/date.cpp: the epoch, the timestamp
 * quoted in include/date.hpp, and two legacy texts.
 */
module DateExamples {
  import opened CText
  import opened Calendar
  import opened CTime
  import opened TimeText
  import opened Date
  import opened DateLemmas
  import opened LegacyLemmas

  /** Two digits `a` and `b` are printed as themselves. */
  lemma {:induction false} ZeroPadTwoDigits(n: nat, a: nat, b: nat)
    requires a <= 9 && b <= 9 && n == 10 * a + b
    ensures ZeroPad(n, 2) == [DigitChar(a), DigitChar(b)]
  {
    assert n / 10 == a && n % 10 == b;
    assert ZeroPad(a, 1) == ZeroPad(0, 0) + [DigitChar(a)];
  }

  /** Four digits `a`, `b`, `c` and `d` are printed as themselves. */
  lemma {:induction false} ZeroPadFourDigits(n: nat, a: nat, b: nat, c: nat, d: nat)
    requires a <= 9 && b <= 9 && c <= 9 && d <= 9 && n == 1000 * a + 100 * b + 10 * c + d
    ensures ZeroPad(n, 4) == [DigitChar(a), DigitChar(b), DigitChar(c), DigitChar(d)]
  {
    var hi, lo := 100 * a + 10 * b + c, 10 * a + b;
    DivMod(n, 10, hi, d);
    DivMod(hi, 10, lo, c);
    Pow10Values();
    assert Pow10(3) == 1000;
    assert ZeroPad(n, 4) == ZeroPad(hi, 3) + [DigitChar(d)];
    assert ZeroPad(hi, 3) == ZeroPad(lo, 2) + [DigitChar(c)];
    ZeroPadTwoDigits(lo, a, b);
  }

  // The epoch.

  /** The second 0 falls on the first day of 1970 at midnight. */
  lemma GmtimeEpoch()
    ensures Gmtime(0) == Tm(70, 0, 1, 0, 0, 0)
  {
    var tm := Tm(70, 0, 1, 0, 0, 0);
    assert DaysFromCivil(DateOf(tm)) == 0;
    DaysFromCivilInverse(DateOf(tm));
  }

  lemma {:induction false} EpochAssembly(text: string, y: string, o: string, z: string)
    requires text == y + ("-" + (o + ("-" + (o + ("T" + (z + (":" + (z + (":" + z)))))))))
    requires y == "1970" && o == "01" && z == "00"
    ensures text == "1970-01-01T00:00:00"
  {
  }

  /** TIME_FORMAT prints the epoch's calendar time as midnight on 1 January 1970. */
  lemma EpochFields()
    ensures PutTime(Tm(70, 0, 1, 0, 0, 0), IsoFormat) == "1970-01-01T00:00:00"
  {
    var tm := Tm(70, 0, 1, 0, 0, 0);
    PutTimeLayout(tm, 'T');
    ZeroPadFourDigits(1970, 1, 9, 7, 0);
    ZeroPadTwoDigits(1, 0, 1);
    ZeroPadTwoDigits(0, 0, 0);
    EpochAssembly(PutTime(tm, IsoFormat), ZeroPad(1970, 4), ZeroPad(1, 2), ZeroPad(0, 2));
  }

  lemma {:induction false} EpochTextAssembly(text: string, fields: string, m: string)
    requires text == fields + "." + m + "+00:00"
    requires fields == "1970-01-01T00:00:00" && m == "0"
    ensures text == "1970-01-01T00:00:00.0+00:00"
  {
  }

  /** The epoch is printed with a single `0` for its milliseconds. */
  lemma ToISODateEpoch()
    ensures ToISODate(0) == "1970-01-01T00:00:00.0+00:00"
  {
    var tm := Tm(70, 0, 1, 0, 0, 0);
    EpochSecondText(0);
    EpochFields();
    assert IntToString(0) == "0";
    EpochTextAssembly(IsoText(tm, 0), PutTime(tm, IsoFormat), IntToString(0));
  }

  lemma MinusFiveHundred()
    ensures IntToString(-500) == "-500"
  {
    assert NatToString(5) == "5";
    assert NatToString(50) == NatToString(5) + "0";
    assert NatToString(500) == NatToString(50) + "0";
  }

  lemma {:induction false} NegativeTextAssembly(text: string, fields: string, m: string)
    requires text == fields + "." + m + "+00:00"
    requires fields == "1970-01-01T00:00:00" && m == "-500"
    ensures text == "1970-01-01T00:00:00.-500+00:00"
  {
  }

  /**
   * Half a second before the epoch truncates to the epoch's second, and the
   * negative remainder is printed with its minus sign after the dot.
   */
  lemma ToISODateNegativeMillis()
    ensures ToISODate(-500) == "1970-01-01T00:00:00.-500+00:00"
  {
    var tm := Tm(70, 0, 1, 0, 0, 0);
    EpochSecondText(-500);
    EpochFields();
    MinusFiveHundred();
    NegativeTextAssembly(IsoText(tm, -500), PutTime(tm, IsoFormat), IntToString(-500));
  }

  /** Less than a second from the epoch, either way, prints the epoch's fields and the offset itself as milliseconds. */
  lemma {:induction false} EpochSecondText(t: int)
    requires -1000 < t < 1000
    ensures ToISODate(t) == IsoText(Tm(70, 0, 1, 0, 0, 0), t)
  {
    GmtimeEpoch();
    SubSecond(t);
  }

  // The timestamp quoted in include/date.hpp: 2024-07-25T06:54:39.599+00:00.

  lemma {:induction false} HeaderAssembly(text: string, y: string, mo: string, d: string, h: string, mi: string, s: string)
    requires text == y + ("-" + (mo + ("-" + (d + ("T" + (h + (":" + (mi + (":" + s)))))))))
    requires y == "2024" && mo == "07" && d == "25" && h == "06" && mi == "54" && s == "39"
    ensures text == "2024-07-25T06:54:39"
  {
  }

  /** TIME_FORMAT prints 25 July 2024, 06:54:39 as the quoted fields. */
  lemma HeaderFields()
    ensures PutTime(Tm(124, 6, 25, 6, 54, 39), IsoFormat) == "2024-07-25T06:54:39"
  {
    var tm := Tm(124, 6, 25, 6, 54, 39);
    assert InRange(tm);
    PutTimeLayout(tm, 'T');
    ZeroPadFourDigits(2024, 2, 0, 2, 4);
    ZeroPadTwoDigits(7, 0, 7);
    ZeroPadTwoDigits(25, 2, 5);
    ZeroPadTwoDigits(6, 0, 6);
    ZeroPadTwoDigits(54, 5, 4);
    ZeroPadTwoDigits(39, 3, 9);
    HeaderAssembly(PutTime(tm, IsoFormat), ZeroPad(2024, 4), ZeroPad(7, 2), ZeroPad(25, 2),
                   ZeroPad(6, 2), ZeroPad(54, 2), ZeroPad(39, 2));
  }

  lemma HeaderCanonical()
    ensures IsCanonical(Tm(124, 6, 25, 6, 54, 39))
  {
    assert DaysInMonth(2024, 7) == 31;
  }

  /** TIME_FORMAT reads the quoted fields back as 25 July 2024, 06:54:39. */
  lemma HeaderFieldsRead()
    ensures GetTime("2024-07-25T06:54:39", IsoFormat, ZeroTm) == Tm(124, 6, 25, 6, 54, 39)
  {
    HeaderCanonical();
    IsoFieldsRoundTrip(Tm(124, 6, 25, 6, 54, 39));
    HeaderFields();
  }

  /** 25 July 2024 is day 19929 after the epoch, and 06:54:39 adds 24879 seconds. */
  lemma HeaderSeconds()
    ensures Timegm(Tm(124, 6, 25, 6, 54, 39)) == 1721890479
  {
    assert DaysFromCivil(Civil(2024, 7, 25)) == 19929;
  }

  lemma {:induction false} HeaderText(text: string, start: string)
    requires text == "2024-07-25T06:54:39.599+00:00" && start == "2024-07-25T06:54:39"
    ensures text == start + "." + "599" + "+" + "00:00"
    ensures 'T' in start
  {
    assert start[10] == 'T';
  }

  lemma HeaderDecodes()
    ensures FromISODate("2024-07-25T06:54:39.599+00:00")
         == IsoSeconds("2024-07-25T06:54:39") * 1000 + Atol("599")
  {
    HeaderText("2024-07-25T06:54:39.599+00:00", "2024-07-25T06:54:39");
    FromISODateValue("2024-07-25T06:54:39.599+00:00", "2024-07-25T06:54:39", "599", "00:00");
  }

  lemma Atol599()
    ensures Atol("599") == 599
  {
    AtolDigits("599", []);
    assert "599" + [] == "599";
    assert "599"[..2][..1][..0] == [];
  }

  /** The timestamp quoted in include/date.hpp decodes to 1721890479599 milliseconds. */
  lemma HeaderExample()
    ensures FromISODate("2024-07-25T06:54:39.599+00:00") == 1721890479599
  {
    HeaderDecodes();
    HeaderFieldsRead();
    HeaderSeconds();
    Atol599();
  }

  // Legacy texts for 1 July 2024, 06:54:39.

  /** `-0500` is refused: the legacy decoder returns 0 for it. */
  lemma LegacyMinusExample()
    ensures FromRubyDate("2024-07-01 06:54:39 -0500") == 0
  {
    assert "2024-07-01 06:54:39 -0500" == "2024-07-01 06:54:39" + " " + "-0500";
    NegativeOffsetRefused("2024-07-01 06:54:39");
  }

  lemma {:induction false} JulyFirstAssembly(ruby: string, iso: string, y: string, mo: string, d: string, h: string, mi: string, s: string)
    requires ruby == y + ("-" + (mo + ("-" + (d + (" " + (h + (":" + (mi + (":" + s)))))))))
    requires iso == y + ("-" + (mo + ("-" + (d + ("T" + (h + (":" + (mi + (":" + s)))))))))
    requires y == "2024" && mo == "07" && d == "01" && h == "06" && mi == "54" && s == "39"
    ensures ruby == "2024-07-01 06:54:39" && iso == "2024-07-01T06:54:39"
  {
  }

  /** Both formats write 1 July 2024, 06:54:39 as expected. */
  lemma JulyFirstFields()
    ensures PutTime(Tm(124, 6, 1, 6, 54, 39), RubyFormat) == "2024-07-01 06:54:39"
    ensures PutTime(Tm(124, 6, 1, 6, 54, 39), IsoFormat) == "2024-07-01T06:54:39"
  {
    var tm := Tm(124, 6, 1, 6, 54, 39);
    assert InRange(tm);
    PutTimeLayout(tm, ' ');
    PutTimeLayout(tm, 'T');
    ZeroPadFourDigits(2024, 2, 0, 2, 4);
    ZeroPadTwoDigits(7, 0, 7);
    ZeroPadTwoDigits(1, 0, 1);
    ZeroPadTwoDigits(6, 0, 6);
    ZeroPadTwoDigits(54, 5, 4);
    ZeroPadTwoDigits(39, 3, 9);
    JulyFirstAssembly(PutTime(tm, RubyFormat), PutTime(tm, IsoFormat), ZeroPad(2024, 4), ZeroPad(7, 2),
                      ZeroPad(1, 2), ZeroPad(6, 2), ZeroPad(54, 2), ZeroPad(39, 2));
  }

  lemma {:induction false} JulyFirstTexts(ruby: string, iso: string, rubyFields: string, isoFields: string, m: string)
    requires rubyFields == "2024-07-01 06:54:39" && isoFields == "2024-07-01T06:54:39" && m == "0"
    requires ruby == "2024-07-01 06:54:39 +0000" && iso == "2024-07-01T06:54:39.0+00:00"
    ensures ruby == rubyFields + " " + "+0000"
    ensures iso == isoFields + "." + m + "+00:00"
  {
  }

  lemma JulyFirstUtcTexts()
    ensures "2024-07-01 06:54:39 +0000" == PutTime(Tm(124, 6, 1, 6, 54, 39), RubyFormat) + " " + "+0000"
    ensures "2024-07-01T06:54:39.0+00:00" == IsoText(Tm(124, 6, 1, 6, 54, 39), 0)
  {
    var tm := Tm(124, 6, 1, 6, 54, 39);
    JulyFirstFields();
    assert IntToString(0) == "0";
    JulyFirstTexts("2024-07-01 06:54:39 +0000", "2024-07-01T06:54:39.0+00:00",
                   PutTime(tm, RubyFormat), PutTime(tm, IsoFormat), IntToString(0));
  }

  /** 1 July 2024, 06:54:39 is a canonical time, so both of its UTC texts decode to its seconds. */
  lemma {:induction false} JulyFirstAgrees(tm: Tm)
    requires tm == Tm(124, 6, 1, 6, 54, 39)
    ensures FromRubyDate(PutTime(tm, RubyFormat) + " " + "+0000") == FromISODate(IsoText(tm, 0))
  {
    assert IsCanonical(tm) by {
      assert DaysInMonth(2024, 7) == 31;
    }
    LegacyUtcAgreesWithIso(tm);
  }

  /** The legacy UTC text and the ISO text for the same second decode alike. */
  lemma LegacyUtcExample()
    ensures FromRubyDate("2024-07-01 06:54:39 +0000") == FromISODate("2024-07-01T06:54:39.0+00:00")
  {
    JulyFirstUtcTexts();
    JulyFirstAgrees(Tm(124, 6, 1, 6, 54, 39));
  }
}
