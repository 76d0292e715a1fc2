/**
 * The two java.time formats the service uses, in their STRICT form:
 * ISO_LOCAL_DATE (`uuuu-MM-dd`) and ISO_LOCAL_DATE_TIME
 * (`uuuu-MM-dd'T'HH:mm[:ss[.fffffffff]]`), parsing and printing.
 * A parser consumes a prefix of its input and hands back the rest.
 */
module IsoFormat {
  import opened Wrappers
  import opened Decimals
  import opened Calendar

  predicate IsDigit(c: char)
  {
    '0' <= c <= '9'
  }

  predicate AllDigits(s: string)
  {
    forall i :: 0 <= i < |s| ==> IsDigit(s[i])
  }

  /** The value of a run of decimal digits, most significant first. */
  function DigitsValue(s: string): (n: nat)
    requires AllDigits(s)
    ensures n < Pow10(|s|)
  {
    if s == [] then 0
    else DigitsValue(s[..|s| - 1]) * 10 + (s[|s| - 1] as int - '0' as int)
  }

  /** v followed by k zeros, that is v * 10^k, built by steps of ten. */
  function Scaled(v: nat, k: nat): (r: nat)
  {
    if k == 0 then v else Scaled(v, k - 1) * 10
  }

  function DigitChar(d: int): (c: char)
    requires 0 <= d <= 9
    ensures IsDigit(c) && c as int - '0' as int == d
  {
    ('0' as int + d) as char
  }

  /** The decimal digits of n, left-padded with zeros to at least `width` characters. */
  function PadDigits(n: nat, width: nat): (s: string)
    ensures AllDigits(s) && DigitsValue(s) == n
    ensures |s| >= width && |s| >= 1
    decreases n + width
  {
    if n < 10 && width <= 1 then [DigitChar(n)]
    else
      var init := PadDigits(n / 10, if width > 0 then width - 1 else 0);
      var s := init + [DigitChar(n % 10)];
      assert s[..|s| - 1] == init;
      assert DigitsValue(s) == (n / 10) * 10 + n % 10;
      s
  }

  /** The digits, with the zeros at their end removed. */
  function StripTrailingZeros(s: string): (r: string)
    requires AllDigits(s)
    ensures |r| <= |s| && r == s[..|r|] && AllDigits(r)
    ensures Scaled(DigitsValue(r), |s| - |r|) == DigitsValue(s)
    ensures DigitsValue(s) > 0 ==> r != [] && r[|r| - 1] != '0'
  {
    if s != [] && s[|s| - 1] == '0' then
      var init := s[..|s| - 1];
      var r := StripTrailingZeros(init);
      assert init[..|r|] == s[..|r|];
      TrailingZero(s, DigitsValue(r), |init| - |r|);
      r
    else s
  }

  /** The length of the run of digits that starts s, counting at most `max` of them. */
  function DigitPrefix(s: string, max: nat): (n: nat)
    ensures n <= |s| && n <= max && AllDigits(s[..n])
    ensures n < |s| && n < max ==> !IsDigit(s[n])
  {
    if s == [] || max == 0 || !IsDigit(s[0]) then 0
    else
      var n := 1 + DigitPrefix(s[1..], max - 1);
      assert s[..n] == [s[0]] + s[1..][..n - 1];
      n
  }

  // ---------------------------------------------------------------------
  // Parsing
  // ---------------------------------------------------------------------

  /**
   * The year field, `appendValue(YEAR, 4, 10, EXCEEDS_PAD)` read strictly:
   * exactly 4 digits without a sign, '+' with 5 to 10 digits, or '-' with
   * 4 to 10 digits that are not all zero.
   */
  function ParseYear(s: string): (r: Option<(int, string)>)
  {
    if s != [] && (s[0] == '+' || s[0] == '-') then
      var t := s[1..];
      var n := DigitPrefix(t, 10);
      var v: int := DigitsValue(t[..n]);
      if n < 4 then None
      else if s[0] == '-' then (if v == 0 then None else Some((-v, t[n..])))
      else if n == 4 then None
      else Some((v, t[n..]))
    else
      var n := DigitPrefix(s, 10);
      if n != 4 then None else Some((DigitsValue(s[..4]), s[4..]))
  }

  /** A two-digit field without a sign (`appendValue(field, 2)`). */
  function TwoDigits(s: string): (r: Option<(int, string)>)
    ensures r.Some? ==> |s| >= 2 && 0 <= r.value.0 <= 99 && r.value.1 == s[2..]
  {
    if |s| >= 2 && IsDigit(s[0]) && IsDigit(s[1]) then Some((DigitsValue(s[..2]), s[2..])) else None
  }

  /** A literal character. */
  function Literal(c: char, s: string): (r: Option<string>)
    ensures r.Some? <==> s != [] && s[0] == c
    ensures r.Some? ==> r.value == s[1..]
  {
    if s != [] && s[0] == c then Some(s[1..]) else None
  }

  /** `uuuu-MM-dd` as fields, before the resolver checks them. */
  function ParseDateFields(s: string): (r: Option<(Date, string)>)
  {
    var y :- ParseYear(s);
    var md :- ParseMonthDay(y.1);
    Some((Date(y.0, md.0, md.1), md.2))
  }

  /** "-MM-dd": month and day of month, two digits each, and the text after them. */
  function ParseMonthDay(s: string): (r: Option<(int, int, string)>)
  {
    var r1 :- Literal('-', s);
    var m :- TwoDigits(r1);
    var r2 :- Literal('-', m.1);
    var d :- TwoDigits(r2);
    Some((m.0, d.0, d.1))
  }

  /** LocalDate.parse(s, ISO_LOCAL_DATE): the whole text is a date that exists. */
  function ParseIsoLocalDate(s: string): (r: Option<Date>)
    ensures r.Some? ==> ValidDate(r.value)
  {
    var p :- ParseDateFields(s);
    if p.1 == [] && ValidDate(p.0) then Some(p.0) else None
  }

  /** A local date and time of day, to the nanosecond. */
  datatype LocalDateTime = LocalDateTime(date: Date, hour: int, minute: int, second: int, nano: int)

  predicate ValidDateTime(t: LocalDateTime)
  {
    ValidDate(t.date) && 0 <= t.hour <= 23 && 0 <= t.minute <= 59 && 0 <= t.second <= 59
    && 0 <= t.nano < 1_000_000_000
  }

  /**
   * The optional fraction `.fffffffff` up to the end of the text, as nanos:
   * n digits count 10^(9-n) each. At most nine digits are read, so a tenth
   * digit, like any other character after them, is left over and fails.
   */
  function ParseFraction(s: string): (r: Option<int>)
    ensures r.Some? ==> 0 <= r.value < 1_000_000_000
  {
    if s == [] then Some(0)
    else
      var digits :- Literal('.', s);
      if AllDigits(digits) && |digits| <= 9 then
        FractionBound(DigitsValue(digits), |digits|);
        Some(Scaled(DigitsValue(digits), 9 - |digits|))
      else None
  }

  /** The optional `:ss[.fffffffff]` up to the end of the text: second and nano-of-second. */
  function ParseSeconds(s: string): (r: Option<(int, int)>)
    ensures r.Some? ==> 0 <= r.value.1 < 1_000_000_000
  {
    if s == [] then Some((0, 0))
    else
      var r1 :- Literal(':', s);
      var sec :- TwoDigits(r1);
      var nano :- ParseFraction(sec.1);
      Some((sec.0, nano))
  }

  /** `HH:mm[:ss[.fffffffff]]` up to the end of the text: hour, minute, second and nano-of-second. */
  function ParseTimeFields(s: string): (r: Option<(int, int, int, int)>)
    ensures r.Some? ==> 0 <= r.value.3 < 1_000_000_000
  {
    var h :- TwoDigits(s);
    var r1 :- Literal(':', h.1);
    var mi :- TwoDigits(r1);
    var sn :- ParseSeconds(mi.1);
    Some((h.0, mi.0, sn.0, sn.1))
  }

  /** LocalDateTime.parse(s, ISO_LOCAL_DATE_TIME); the 'T' is matched case-insensitively. */
  function ParseIsoLocalDateTime(s: string): (r: Option<LocalDateTime>)
    ensures r.Some? ==> ValidDateTime(r.value)
  {
    var p :- ParseDateFields(s);
    var r1 :- if p.1 != [] && (p.1[0] == 'T' || p.1[0] == 't') then Some(p.1[1..]) else None;
    var t :- ParseTimeFields(r1);
    var dt := LocalDateTime(p.0, t.0, t.1, t.2, t.3);
    if ValidDateTime(dt) then Some(dt) else None
  }

  // ---------------------------------------------------------------------
  // Printing
  // ---------------------------------------------------------------------

  /** The year, padded to 4 digits, with '+' above 9999 and '-' below zero. */
  function FormatYear(y: int): (s: string)
  {
    if y > 9999 then "+" + PadDigits(y, 4)
    else if y < 0 then "-" + PadDigits(-y, 4)
    else PadDigits(y, 4)
  }

  /** LocalDate.format(ISO_LOCAL_DATE). */
  function FormatIsoLocalDate(d: Date): (s: string)
    requires ValidDate(d)
  {
    FormatYear(d.year) + "-" + PadDigits(d.month, 2) + "-" + PadDigits(d.day, 2)
  }

  /** The fraction of a second: nothing when it is zero, else '.' and its 9 digits without trailing zeros. */
  function FormatFraction(nano: int): (s: string)
    requires 0 <= nano < 1_000_000_000
  {
    if nano > 0 then "." + StripTrailingZeros(PadDigits(nano, 9)) else ""
  }

  /** The seconds, which the printer always writes, then the fraction. */
  function FormatSeconds(second: int, nano: int): (s: string)
    requires 0 <= second <= 59 && 0 <= nano < 1_000_000_000
  {
    ":" + PadDigits(second, 2) + FormatFraction(nano)
  }

  /** The time of day: HH:mm:ss, then the fraction if it is not zero. */
  function FormatTime(t: LocalDateTime): (s: string)
    requires ValidDateTime(t)
  {
    PadDigits(t.hour, 2) + ":" + PadDigits(t.minute, 2) + FormatSeconds(t.second, t.nano)
  }

  /** LocalDateTime.format(ISO_LOCAL_DATE_TIME). */
  function FormatIsoLocalDateTime(t: LocalDateTime): (s: string)
    requires ValidDateTime(t)
  {
    FormatIsoLocalDate(t.date) + "T" + FormatTime(t)
  }

  // ---------------------------------------------------------------------
  // Round trips
  // ---------------------------------------------------------------------

  /** A trailing zero multiplies the value by ten. */
  lemma TrailingZero(s: string, v: nat, k: nat)
    requires AllDigits(s) && s != [] && s[|s| - 1] == '0'
    requires Scaled(v, k) == DigitsValue(s[..|s| - 1])
    ensures Scaled(v, k + 1) == DigitsValue(s)
  {
  }

  /** Scaling is multiplication by a power of ten. */
  lemma {:induction false} ScaledIsProduct(v: nat, k: nat)
    ensures Scaled(v, k) == v * Pow10(k)
  {
    if k > 0 {
      ScaledIsProduct(v, k - 1);
      MulTen(v, Pow10(k - 1));
    }
  }

  /** Scaling by ten commutes with a product. */
  lemma MulTen(v: int, p: int)
    ensures v * (10 * p) == (v * p) * 10
  {
  }

  /** A value of n digits scaled by k stays a value of n + k digits. */
  lemma {:induction false} ScaledBelow(v: nat, n: nat, k: nat)
    requires v < Pow10(n)
    ensures Scaled(v, k) < Pow10(n + k)
  {
    if k > 0 {
      ScaledBelow(v, n, k - 1);
    }
  }

  /** n fraction digits scaled to nanoseconds stay below one second. */
  lemma FractionBound(v: nat, n: nat)
    requires n <= 9 && v < Pow10(n)
    ensures Scaled(v, 9 - n) < 1_000_000_000
  {
    ScaledBelow(v, n, 9 - n);
    assert Pow10(9) == 1_000_000_000;
  }

  lemma {:induction false} Pow10Monotonic(a: nat, b: nat)
    requires a <= b
    ensures Pow10(a) <= Pow10(b)
    decreases b
  {
    if a < b {
      Pow10Monotonic(a, b - 1);
    }
  }

  /** Padding adds no digit beyond the width or the length the value needs. */
  lemma {:induction false} PadDigitsLength(n: nat, width: nat, k: nat)
    requires k >= 1 && n < Pow10(k)
    ensures |PadDigits(n, width)| <= if width > k then width else k
    decreases n + width
  {
    if !(n < 10 && width <= 1) {
      var k' := if k > 1 then k - 1 else 1;
      PadDigitsLength(n / 10, if width > 0 then width - 1 else 0, k');
    }
  }

  /** A value of at least 10^m takes more than m digits. */
  lemma PadDigitsLonger(n: nat, width: nat, m: nat)
    requires n >= Pow10(m)
    ensures |PadDigits(n, width)| > m
  {
    var s := PadDigits(n, width);
    if |s| <= m {
      Pow10Monotonic(|s|, m);
    }
  }

  /** The digit run at the head of x + rest is x when rest does not continue it. */
  lemma DigitPrefixOf(x: string, rest: string, max: nat)
    requires AllDigits(x) && |x| <= max
    requires rest == [] || !IsDigit(rest[0]) || |x| == max
    ensures DigitPrefix(x + rest, max) == |x|
    ensures (x + rest)[..|x|] == x && (x + rest)[|x|..] == rest
  {
  }

  lemma TwoDigitsRoundTrip(v: int, rest: string)
    requires 0 <= v <= 99
    ensures TwoDigits(PadDigits(v, 2) + rest) == Some((v, rest))
  {
    var x := PadDigits(v, 2);
    PadDigitsLength(v, 2, 2);
    assert (x + rest)[..2] == x && (x + rest)[2..] == rest;
  }

  lemma YearRoundTrip(y: int, rest: string)
    requires MinYear <= y <= MaxYear
    requires rest == [] || !IsDigit(rest[0])
    ensures ParseYear(FormatYear(y) + rest) == Some((y, rest))
  {
    if y > 9999 {
      LongYearRoundTrip(y, rest);
    } else if y < 0 {
      NegativeYearRoundTrip(y, rest);
    } else {
      var x := PadDigits(y, 4);
      assert Pow10(4) == 10_000;
      PadDigitsLength(y, 4, 4);
      DigitPrefixOf(x, rest, 10);
    }
  }

  lemma LongYearRoundTrip(y: int, rest: string)
    requires 9999 < y <= MaxYear
    requires rest == [] || !IsDigit(rest[0])
    ensures ParseYear(FormatYear(y) + rest) == Some((y, rest))
  {
    var x := PadDigits(y, 4);
    YearDigitsLength(y);
    assert Pow10(4) == 10_000;
    PadDigitsLonger(y, 4, 4);
    DigitPrefixOf(x, rest, 10);
    SignedYearParse(FormatYear(y) + rest, '+', x, rest);
  }

  lemma NegativeYearRoundTrip(y: int, rest: string)
    requires MinYear <= y < 0
    requires rest == [] || !IsDigit(rest[0])
    ensures ParseYear(FormatYear(y) + rest) == Some((y, rest))
  {
    var x := PadDigits(-y, 4);
    YearDigitsLength(-y);
    DigitPrefixOf(x, rest, 10);
    var s := FormatYear(y) + rest;
    assert FormatYear(y) == "-" + x;
    assert s == ['-'] + x + rest;
    assert 4 <= |x| <= 10 && DigitPrefix(x + rest, 10) == |x|;
    SignedYearParse(s, '-', x, rest);
  }

  /** A year number below 10^9 prints as 4 to 9 digits. */
  lemma YearDigitsLength(v: nat)
    requires v < 1_000_000_000
    ensures 4 <= |PadDigits(v, 4)| <= 9
  {
    assert Pow10(9) == 1_000_000_000;
    PadDigitsLength(v, 4, 9);
  }

  /** How ParseYear reads a sign followed by a digit run x that it takes whole. */
  lemma SignedYearParse(s: string, sign: char, x: string, rest: string)
    requires sign == '+' || sign == '-'
    requires s == [sign] + x + rest
    requires AllDigits(x) && 4 <= |x| <= 10 && DigitPrefix(x + rest, 10) == |x|
    requires (x + rest)[..|x|] == x && (x + rest)[|x|..] == rest
    ensures sign == '+' && |x| > 4 ==> ParseYear(s) == Some((DigitsValue(x), rest))
    ensures sign == '-' && DigitsValue(x) != 0 ==> ParseYear(s) == Some((-(DigitsValue(x) as int), rest))
  {
    assert s[1..] == x + rest;
  }

  /** Printing a date and reading it back yields the date and leaves what follows. */
  lemma DateFieldsRoundTrip(d: Date, rest: string)
    requires ValidDate(d)
    ensures ParseDateFields(FormatIsoLocalDate(d) + rest) == Some((d, rest))
  {
    var y, m, dd := FormatYear(d.year), PadDigits(d.month, 2), PadDigits(d.day, 2);
    var afterYear := "-" + m + "-" + dd + rest;
    var s := FormatIsoLocalDate(d) + rest;
    assert s == y + "-" + m + "-" + dd + rest;
    SplitAfterYear(y, m, dd, rest);
    YearRoundTrip(d.year, afterYear);
    MonthDayRoundTrip(d.month, d.day, rest);
    assert ParseYear(s) == Some((d.year, afterYear));
  }

  /** The printed date followed by more text is the year followed by the rest. */
  lemma SplitAfterYear(y: string, m: string, dd: string, rest: string)
    ensures y + "-" + m + "-" + dd + rest == y + ("-" + m + "-" + dd + rest)
  {
    var t := "-" + m + "-" + dd + rest;
    assert y + "-" + m + "-" + dd + rest == y + t by {
      forall i | 0 <= i < |y| + |t|
        ensures (y + "-" + m + "-" + dd + rest)[i] == (y + t)[i]
      {
      }
    }
  }

  /** The printed month and day read back, leaving what follows. */
  lemma MonthDayRoundTrip(month: int, day: int, rest: string)
    requires 1 <= month <= 12 && 1 <= day <= 31
    ensures ParseMonthDay("-" + PadDigits(month, 2) + "-" + PadDigits(day, 2) + rest) == Some((month, day, rest))
  {
    var m, dd := PadDigits(month, 2), PadDigits(day, 2);
    var afterMonth := "-" + dd + rest;
    var s := "-" + m + afterMonth;
    assert "-" + m + "-" + dd + rest == s;
    TwoDigitsRoundTrip(month, afterMonth);
    TwoDigitsRoundTrip(day, rest);
    assert s[1..] == m + afterMonth;
    assert afterMonth[1..] == dd + rest;
  }

  /** ISO_LOCAL_DATE reads back every date it prints. */
  lemma DateRoundTrip(d: Date)
    requires ValidDate(d)
    ensures ParseIsoLocalDate(FormatIsoLocalDate(d)) == Some(d)
  {
    DateFieldsRoundTrip(d, []);
    assert FormatIsoLocalDate(d) + [] == FormatIsoLocalDate(d);
  }

  /** The printed fraction reads back as the same nano-of-second. */
  lemma FractionRoundTrip(nano: int)
    requires 0 <= nano < 1_000_000_000
    ensures ParseFraction(FormatFraction(nano)) == Some(nano)
  {
    if nano > 0 {
      assert Pow10(9) == 1_000_000_000;
      var x := PadDigits(nano, 9);
      PadDigitsLength(nano, 9, 9);
      var f := StripTrailingZeros(x);
      assert |x| == 9;
      assert Scaled(DigitsValue(f), 9 - |f|) == nano;
      assert FormatFraction(nano) == "." + f;
      ParseFractionDigits(f);
      assert ParseFraction("." + f) == Some(nano);
    }
  }

  /** A dot and up to nine digits read as those digits scaled to nanoseconds. */
  lemma ParseFractionDigits(f: string)
    requires AllDigits(f) && |f| <= 9
    ensures ParseFraction("." + f) == Some(Scaled(DigitsValue(f), 9 - |f|))
  {
    var s := "." + f;
    assert s != [] && Literal('.', s) == Some(f);
  }

  lemma SecondsRoundTrip(second: int, nano: int)
    requires 0 <= second <= 59 && 0 <= nano < 1_000_000_000
    ensures ParseSeconds(FormatSeconds(second, nano)) == Some((second, nano))
  {
    var f := FormatFraction(nano);
    var digits := PadDigits(second, 2) + f;
    var s := FormatSeconds(second, nano);
    assert s == [':'] + digits;
    assert Literal(':', s) == Some(digits);
    TwoDigitsRoundTrip(second, f);
    FractionRoundTrip(nano);
  }

  lemma TimeRoundTrip(t: LocalDateTime)
    requires ValidDateTime(t)
    ensures ParseTimeFields(FormatTime(t)) == Some((t.hour, t.minute, t.second, t.nano))
  {
    var secs := FormatSeconds(t.second, t.nano);
    var afterHour := ":" + PadDigits(t.minute, 2) + secs;
    assert FormatTime(t) == PadDigits(t.hour, 2) + afterHour;
    TwoDigitsRoundTrip(t.hour, afterHour);
    assert afterHour[1..] == PadDigits(t.minute, 2) + secs;
    TwoDigitsRoundTrip(t.minute, secs);
    SecondsRoundTrip(t.second, t.nano);
  }

  /** ISO_LOCAL_DATE_TIME reads back every date-time it prints. */
  lemma DateTimeRoundTrip(t: LocalDateTime)
    requires ValidDateTime(t)
    ensures ParseIsoLocalDateTime(FormatIsoLocalDateTime(t)) == Some(t)
  {
    var rest := "T" + FormatTime(t);
    assert FormatIsoLocalDateTime(t) == FormatIsoLocalDate(t.date) + rest;
    DateFieldsRoundTrip(t.date, rest);
    TimeRoundTrip(t);
    assert rest[1..] == FormatTime(t);
  }
}
