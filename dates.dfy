/**
 * Calendar dates as the scraper prints them: `Date#to_s` writes
 * `YYYY-MM-DD`, the year zero-padded to at least four digits and month
 * and day to two. `ParseIso` reads that form back, so the round trip
 * `ParseIso(ToIso(d)) == Some(d)` shows the printed form loses nothing.
 */
module Dates {
  import opened Wrappers

  datatype Date = Date(year: nat, month: nat, day: nat)

  predicate IsLeapYear(y: nat) {
    y % 4 == 0 && (y % 100 != 0 || y % 400 == 0)
  }

  function DaysInMonth(y: nat, m: nat): nat
    requires 1 <= m <= 12
  {
    if m == 2 then (if IsLeapYear(y) then 29 else 28)
    else if m == 4 || m == 6 || m == 9 || m == 11 then 30
    else 31
  }

  predicate ValidDate(d: Date) {
    1 <= d.month <= 12 && 1 <= d.day <= DaysInMonth(d.year, d.month)
  }

  /** A date on the (proleptic Gregorian) calendar. */
  type CivilDate = d: Date | ValidDate(d) witness Date(1970, 1, 1)

  predicate IsDigit(c: char) {
    '0' <= c <= '9'
  }

  predicate AllDigits(s: string) {
    forall i :: 0 <= i < |s| ==> IsDigit(s[i])
  }

  function DigitChar(n: nat): (c: char)
    requires n < 10
    ensures IsDigit(c)
  {
    ('0' as int + n) as char
  }

  function DigitValue(c: char): (n: nat)
    requires IsDigit(c)
    ensures n < 10 && DigitChar(n) == c
  {
    c as int - '0' as int
  }

  /** Decimal numeral of `n`, most significant digit first, without leading zeros. */
  function Decimal(n: nat): (s: string)
    ensures 1 <= |s| && AllDigits(s)
    ensures n < 10 ==> |s| == 1
    ensures 10 <= n < 100 ==> |s| == 2
    ensures (s[0] == '0') == (n == 0)
    ensures |s| > 1 ==> s[0] != '0'
  {
    if n < 10 then [DigitChar(n)] else Decimal(n / 10) + [DigitChar(n % 10)]
  }

  /** Numeric value of a string of decimal digits. */
  function Value(s: string): nat
    requires AllDigits(s)
  {
    if s == [] then 0 else Value(s[..|s| - 1]) * 10 + DigitValue(s[|s| - 1])
  }

  /** `s` with zeros in front until it is at least `width` long. */
  function ZeroPad(s: string, width: nat): (r: string)
    ensures |r| == if |s| < width then width else |s|
    ensures AllDigits(s) ==> AllDigits(r)
    ensures |s| >= width ==> r == s
    decreases width - |s|
  {
    if |s| < width then ZeroPad(['0'] + s, width) else s
  }

  lemma {:induction false} ValueDecimal(n: nat)
    ensures Value(Decimal(n)) == n
  {
    if n >= 10 {
      ValueDecimal(n / 10);
      var s := Decimal(n);
      assert s[..|s| - 1] == Decimal(n / 10);
    }
  }

  lemma {:induction false} ValueLeadingZero(s: string)
    requires AllDigits(s)
    ensures Value(['0'] + s) == Value(s)
    decreases |s|
  {
    if s != [] {
      var t := ['0'] + s;
      assert t[..|t| - 1] == ['0'] + s[..|s| - 1];
      ValueLeadingZero(s[..|s| - 1]);
    }
  }

  lemma {:induction false} ValueZeroPad(s: string, width: nat)
    requires AllDigits(s)
    ensures Value(ZeroPad(s, width)) == Value(s)
    decreases width - |s|
  {
    if |s| < width {
      ValueLeadingZero(s);
      ValueZeroPad(['0'] + s, width);
    }
  }

  /** `n` as `%0<width>d` would print it. */
  function Padded(n: nat, width: nat): (s: string)
    ensures AllDigits(s) && Value(s) == n
    ensures |s| >= width
    ensures |s| == width || s == Decimal(n)
  {
    ValueDecimal(n);
    ValueZeroPad(Decimal(n), width);
    ZeroPad(Decimal(n), width)
  }

  /** `Date#to_s`: `YYYY-MM-DD`. */
  function ToIso(d: CivilDate): string {
    Padded(d.year, 4) + "-" + Padded(d.month, 2) + "-" + Padded(d.day, 2)
  }

  /** Reads `YYYY-MM-DD` back into a date. The year has four digits, or
      more without a leading zero; anything else, or an impossible date,
      gives `None`. */
  function ParseIso(s: string): Option<CivilDate> {
    if |s| < 10 || s[|s| - 6] != '-' || s[|s| - 3] != '-' then None
    else
      var y, m, dd := s[..|s| - 6], s[|s| - 5..|s| - 3], s[|s| - 2..];
      if !(AllDigits(y) && AllDigits(m) && AllDigits(dd)) then None
      else if |y| > 4 && y[0] == '0' then None
      else
        var d := Date(Value(y), Value(m), Value(dd));
        if ValidDate(d) then Some(d) else None
  }

  predicate IsIsoDate(s: string) {
    ParseIso(s).Some?
  }

  /** The printed form of a date reads back as the same date. */
  lemma IsoRoundTrip(d: CivilDate)
    ensures ParseIso(ToIso(d)) == Some(d)
  {
    var y, m, dd := Padded(d.year, 4), Padded(d.month, 2), Padded(d.day, 2);
    var s := ToIso(d);
    assert |m| == 2 && |dd| == 2;
    assert s[..|s| - 6] == y;
    assert s[|s| - 5..|s| - 3] == m;
    assert s[|s| - 2..] == dd;
  }

  /** Different dates print differently. */
  lemma ToIsoInjective(d1: CivilDate, d2: CivilDate)
    requires ToIso(d1) == ToIso(d2)
    ensures d1 == d2
  {
    IsoRoundTrip(d1);
    IsoRoundTrip(d2);
  }

  lemma {:induction false} ValuePositive(s: string)
    requires AllDigits(s) && s != [] && s[0] != '0'
    ensures Value(s) >= 1
    decreases |s|
  {
    if |s| > 1 {
      ValuePositive(s[..|s| - 1]);
    }
  }

  /** A numeral without leading zeros is the decimal form of its value. */
  lemma {:induction false} DecimalValue(s: string)
    requires AllDigits(s) && s != [] && (|s| == 1 || s[0] != '0')
    ensures Decimal(Value(s)) == s
    decreases |s|
  {
    if |s| > 1 {
      var p := s[..|s| - 1];
      ValuePositive(p);
      DecimalValue(p);
      assert s == p + [s[|s| - 1]];
    }
  }

  lemma {:induction false} ZeroPadStep(x: string, width: nat)
    requires |x| < width
    ensures ZeroPad(x, width) == ['0'] + ZeroPad(x, width - 1)
    decreases width - |x|
  {
    if |x| < width - 1 {
      ZeroPadStep(['0'] + x, width);
    }
  }

  /** A numeral of exactly `width` digits is `n` printed to that width. */
  lemma {:induction false} PaddedValue(s: string, width: nat)
    requires AllDigits(s) && |s| == width >= 1
    ensures Padded(Value(s), width) == s
    decreases |s|
  {
    if |s| == 1 || s[0] != '0' {
      DecimalValue(s);
    } else {
      var t := s[1..];
      assert s == ['0'] + t;
      ValueLeadingZero(t);
      PaddedValue(t, width - 1);
      ZeroPadStep(Decimal(Value(t)), width);
    }
  }

  /** The printed form is the only text that reads back as a date. */
  lemma ParseIsoCanonical(s: string)
    requires IsIsoDate(s)
    ensures s == ToIso(ParseIso(s).value)
  {
    var y, m, dd := s[..|s| - 6], s[|s| - 5..|s| - 3], s[|s| - 2..];
    if |y| == 4 {
      PaddedValue(y, 4);
    } else {
      DecimalValue(y);
    }
    PaddedValue(m, 2);
    PaddedValue(dd, 2);
    assert s == y + "-" + m + "-" + dd;
  }
}
