/**
 * The pieces of the C and C++ libraries that the date codec leans on for
 * text: decimal printing of an integer (`ss << ms`), `atol`, and
 * `std::string::rfind` for a single character.
 */
module CText {
  import opened Wrappers

  predicate IsDigit(c: char) {
    '0' <= c <= '9'
  }

  /** What `isspace` accepts in the "C" locale. */
  predicate IsSpace(c: char) {
    c == ' ' || 9 <= c as int <= 13
  }

  predicate AllDigits(s: string) {
    forall i :: 0 <= i < |s| ==> IsDigit(s[i])
  }

  function DigitValue(c: char): (d: nat)
    requires IsDigit(c)
    ensures d <= 9
  {
    c as int - '0' as int
  }

  function DigitChar(d: nat): (c: char)
    requires d <= 9
    ensures IsDigit(c) && DigitValue(c) == d
  {
    ('0' as int + d) as char
  }

  /** The number a string of decimal digits denotes, most significant first. */
  function DigitsValue(s: string): nat
    requires AllDigits(s)
  {
    if s == [] then 0 else DigitsValue(s[..|s| - 1]) * 10 + DigitValue(s[|s| - 1])
  }

  lemma {:induction false} DigitsValueSnoc(s: string, c: char)
    requires AllDigits(s) && IsDigit(c)
    ensures AllDigits(s + [c]) && DigitsValue(s + [c]) == DigitsValue(s) * 10 + DigitValue(c)
  {
    assert (s + [c])[..|s|] == s;
  }

  /** Four digits `HHMM` are worth their place values. */
  lemma {:induction false} DigitsValueFour(s: string)
    requires |s| == 4 && AllDigits(s)
    ensures DigitsValue(s) == 1000 * DigitValue(s[0]) + 100 * DigitValue(s[1]) + 10 * DigitValue(s[2]) + DigitValue(s[3])
  {
    var s3, s2, s1 := s[..3], s[..2], s[..1];
    assert s[..|s| - 1] == s3 && s3[..2] == s2 && s2[..1] == s1 && s1[..0] == [];
    assert DigitsValue(s1) == DigitValue(s[0]);
    assert DigitsValue(s2) == DigitsValue(s1) * 10 + DigitValue(s[1]);
    assert DigitsValue(s3) == DigitsValue(s2) * 10 + DigitValue(s[2]);
  }

  function Pow10(w: nat): (p: nat)
    ensures p >= 1
  {
    if w == 0 then 1 else 10 * Pow10(w - 1)
  }

  lemma Pow10Values()
    ensures Pow10(2) == 100 && Pow10(4) == 10000
  {
    assert Pow10(3) == 1000;
  }

  /** `n` printed in exactly `w` digits with leading zeros, as `%02d` or `%04d` would. */
  function ZeroPad(n: nat, w: nat): (s: string)
    requires n < Pow10(w)
    ensures |s| == w && AllDigits(s) && DigitsValue(s) == n
  {
    if w == 0 then []
    else
      var s' := ZeroPad(n / 10, w - 1);
      DigitsValueSnoc(s', DigitChar(n % 10));
      s' + [DigitChar(n % 10)]
  }

  /** A natural number in decimal, no leading zeros: what `ostream << n` prints for n >= 0. */
  function NatToString(n: nat): (s: string)
    ensures 1 <= |s| && AllDigits(s) && DigitsValue(s) == n
    ensures n < 10 <==> |s| == 1
    ensures s[0] == '0' <==> n == 0
  {
    if n < 10 then
      [DigitChar(n)]
    else
      var s' := NatToString(n / 10);
      DigitsValueSnoc(s', DigitChar(n % 10));
      s' + [DigitChar(n % 10)]
  }

  /** An integer in decimal with a leading `-` when negative: what `ostream << n` prints. */
  function IntToString(n: int): (s: string)
    ensures 1 <= |s|
    ensures n < 0 <==> s[0] == '-'
    ensures n >= 0 ==> AllDigits(s)
    ensures n < 0 ==> forall i :: 1 <= i < |s| ==> IsDigit(s[i])
  {
    if n < 0 then "-" + NatToString(-n) else NatToString(n)
  }

  /** The characters `IntToString` prints are digits and, first, a minus sign. */
  lemma {:induction false} IntToStringChars(n: int)
    ensures forall i :: 0 <= i < |IntToString(n)| ==> IsDigit(IntToString(n)[i]) || IntToString(n)[i] == '-'
  {
    var s := IntToString(n);
    if n < 0 {
      assert forall i :: 1 <= i < |s| ==> s[i] == s[1..][i - 1];
    }
  }

  /** A number with exactly `w` digits prints the same with or without zero padding to `w`. */
  lemma {:induction false} NatToStringWidth(n: nat, w: nat)
    requires 1 <= w && Pow10(w - 1) <= n < Pow10(w)
    ensures NatToString(n) == ZeroPad(n, w)
    decreases w
  {
    if w > 1 {
      assert Pow10(w - 2) <= n / 10 < Pow10(w - 1);
      NatToStringWidth(n / 10, w - 1);
    } else {
      assert ZeroPad(n / 10, 0) == [];
    }
  }

  /** `s` with its leading white space removed. */
  function SkipSpaces(s: string): (r: string)
    ensures |r| <= |s| && forall i :: 0 <= i < |r| ==> r[i] == s[|s| - |r| + i]
    ensures r == [] || !IsSpace(r[0])
    ensures forall i :: 0 <= i < |s| - |r| ==> IsSpace(s[i])
  {
    if |s| > 0 && IsSpace(s[0]) then SkipSpaces(s[1..]) else s
  }

  /** The length of the longest prefix of `s` made of decimal digits. */
  function LeadingDigits(s: string): (p: nat)
    ensures p <= |s| && AllDigits(s[..p])
    ensures p < |s| ==> !IsDigit(s[p])
  {
    if |s| > 0 && IsDigit(s[0]) then
      var p := 1 + LeadingDigits(s[1..]);
      assert s[..p] == [s[0]] + s[1..][..p - 1];
      p
    else 0
  }

  /** The value of the leading digits of `s`, 0 when there are none. */
  function LeadingValue(s: string): nat {
    DigitsValue(s[..LeadingDigits(s)])
  }

  /**
   * C's `atol`: leading white space, an optional sign, then as many decimal
   * digits as follow; 0 when no digit follows. The C result is undefined on
   * overflow; the model's integers are unbounded.
   */
  function Atol(s: string): int {
    var u := SkipSpaces(s);
    if |u| > 0 && u[0] == '-' then 0 - LeadingValue(u[1..]) as int
    else if |u| > 0 && u[0] == '+' then LeadingValue(u[1..])
    else LeadingValue(u)
  }

  /** A digit string followed by anything but a digit reads back as its value. */
  lemma {:induction false} LeadingValueOfDigits(s: string, rest: string)
    requires AllDigits(s)
    requires rest == [] || !IsDigit(rest[0])
    ensures LeadingDigits(s + rest) == |s|
    ensures LeadingValue(s + rest) == DigitsValue(s)
  {
    var p := LeadingDigits(s + rest);
    assert forall i :: 0 <= i < |s| ==> (s + rest)[i] == s[i];
    assert |rest| > 0 ==> (s + rest)[|s|] == rest[0];
    assert p == |s|;
    assert (s + rest)[..p] == s;
  }

  /** `atol` reads back what `ostream << n` printed, whatever non-digit text follows. */
  lemma {:induction false} AtolIntToString(n: int, rest: string)
    requires rest == [] || !IsDigit(rest[0])
    ensures Atol(IntToString(n) + rest) == n
  {
    if n < 0 {
      var digits := NatToString(-n);
      assert IntToString(n) + rest == "-" + (digits + rest);
      AtolMinus(digits + rest);
      LeadingValueOfDigits(digits, rest);
    } else {
      AtolDigits(NatToString(n), rest);
    }
  }

  /** `atol` of text that starts with `-` is minus the value of the digits after it. */
  lemma {:induction false} AtolMinus(t: string)
    ensures Atol("-" + t) == 0 - LeadingValue(t)
  {
    var s := "-" + t;
    assert s[0] == '-' && s[1..] == t;
    assert SkipSpaces(s) == s;
  }

  /** `atol` of text that starts with a digit is the value of its leading digits. */
  lemma {:induction false} AtolUnsigned(s: string)
    requires |s| > 0 && IsDigit(s[0])
    ensures Atol(s) == LeadingValue(s)
  {
    assert SkipSpaces(s) == s;
  }

  /** `atol` of a run of digits is their value, whatever non-digit text follows. */
  lemma {:induction false} AtolDigits(digits: string, rest: string)
    requires |digits| > 0 && AllDigits(digits)
    requires rest == [] || !IsDigit(rest[0])
    ensures Atol(digits + rest) == DigitsValue(digits)
  {
    assert (digits + rest)[0] == digits[0];
    AtolUnsigned(digits + rest);
    LeadingValueOfDigits(digits, rest);
  }

  /** `atol` is 0 when no digit follows the white space and the optional sign. */
  lemma {:induction false} AtolNoDigits(s: string)
    requires var u := SkipSpaces(s);
      var v := if |u| > 0 && (u[0] == '-' || u[0] == '+') then u[1..] else u;
      v == [] || !IsDigit(v[0])
    ensures Atol(s) == 0
  {
  }

  /**
   * `s.rfind(c)`: the index of the last occurrence of `c` in `s`, or None
   * where the C++ code gets `string::npos`.
   */
  function LastIndexOf(s: string, c: char): (r: Option<nat>)
    ensures r.None? <==> c !in s
    ensures r.Some? ==> r.value < |s| && s[r.value] == c
    ensures r.Some? ==> forall j :: r.value < j < |s| ==> s[j] != c
  {
    if |s| == 0 then None
    else if s[|s| - 1] == c then Some(|s| - 1)
    else
      var r := LastIndexOf(s[..|s| - 1], c);
      assert s == s[..|s| - 1] + [s[|s| - 1]];
      r
  }

  /** The position of the last `c` is the one a caller can point at. */
  lemma {:induction false} LastIndexOfAt(s: string, c: char, i: nat)
    requires i < |s| && s[i] == c && c !in s[i + 1..]
    ensures LastIndexOf(s, c) == Some(i)
  {
    var r := LastIndexOf(s, c);
  }
}
