/**
 * The text grammars the loader relies on: 32-bit integer text (`int.TryParse`),
 * decimal text (`decimal.TryParse`), the `dd.MM.yyyy` date text
 * (`DateTime.TryParseExact`) and the replacement of `,` by `.` that is applied
 * to decimal fields before they are parsed. The library parsers are replaced by
 * simplified grammars over ASCII digits with `.` as the only decimal separator.
 */
module Parsing {
  import opened Wrappers

  const Int32Min: int := -0x8000_0000
  const Int32Max: int := 0x7FFF_FFFF

  predicate IsDigit(c: char) { '0' <= c <= '9' }

  predicate AllDigits(s: string) { forall i :: 0 <= i < |s| ==> IsDigit(s[i]) }

  function DigitValue(c: char): (d: nat)
    requires IsDigit(c)
    ensures d < 10
  {
    c as int - '0' as int
  }

  function DigitChar(d: nat): (c: char)
    requires d < 10
    ensures IsDigit(c) && DigitValue(c) == d
  {
    ('0' as int + d) as char
  }

  function Pow10(n: nat): (p: nat)
    ensures p >= 1
  {
    if n == 0 then 1 else 10 * Pow10(n - 1)
  }

  /** The number written by a string of decimal digits, most significant digit first. */
  function DigitsValue(s: string): (v: nat)
    requires AllDigits(s)
    ensures v < Pow10(|s|)
  {
    if s == [] then 0
    else
      var init := DigitsValue(s[..|s| - 1]);
      assert init <= Pow10(|s| - 1) - 1;
      init * 10 + DigitValue(s[|s| - 1])
  }

  /** The shortest decimal rendering of a natural number. */
  function NatToString(n: nat): (s: string)
    ensures |s| >= 1 && AllDigits(s)
  {
    if n < 10 then [DigitChar(n)] else NatToString(n / 10) + [DigitChar(n % 10)]
  }

  lemma {:induction false} DigitsValueOfNatToString(n: nat)
    ensures DigitsValue(NatToString(n)) == n
  {
    if n >= 10 {
      var s := NatToString(n);
      assert s[..|s| - 1] == NatToString(n / 10);
      DigitsValueOfNatToString(n / 10);
    }
  }

  /** Splits a leading `-` or `+` off the text; the flag says whether the number is negative. */
  function SplitSign(s: string): (pair: (bool, string))
    ensures pair.1 == s || (|s| >= 1 && pair.1 == s[1..] && s[0] in "+-")
    ensures pair.0 <==> |s| >= 1 && s[0] == '-'
  {
    if |s| >= 1 && s[0] == '-' then (true, s[1..])
    else if |s| >= 1 && s[0] == '+' then (false, s[1..])
    else (false, s)
  }

  /**
   * Integer text as accepted here in place of `int.TryParse`: an optional sign
   * followed by one or more digits, whose value lies in the 32-bit range.
   */
  function ParseInt32(s: string): (r: Option<int>)
    ensures r.Some? ==> Int32Min <= r.value <= Int32Max
    ensures r.Some? ==> |s| >= 1 && (s[0] in "+-" || IsDigit(s[0])) && forall i :: 1 <= i < |s| ==> IsDigit(s[i])
    ensures r.Some? && IsDigit(s[0]) ==> AllDigits(s) && r.value == DigitsValue(s)
    ensures r.Some? && s[0] == '+' ==> AllDigits(s[1..]) && r.value == DigitsValue(s[1..])
    ensures r.Some? && s[0] == '-' ==> AllDigits(s[1..]) && r.value == -(DigitsValue(s[1..]) as int)
  {
    var (negative, digits) := SplitSign(s);
    if digits == [] || !AllDigits(digits) then None
    else
      var magnitude: int := DigitsValue(digits);
      var v := if negative then -magnitude else magnitude;
      if Int32Min <= v <= Int32Max then Some(v) else None
  }

  /**
   * Every optional sign followed by digits is accepted exactly when its value
   * is in the 32-bit range, and denotes that value; leading zeros and a `+`
   * are allowed. With the shape the contract of `ParseInt32` gives to every
   * accepted text, this characterises the parser completely.
   */
  lemma ParseInt32OfSignedDigits(sign: string, digits: string)
    requires sign == "" || sign == "+" || sign == "-"
    requires digits != [] && AllDigits(digits)
    ensures var v := if sign == "-" then -(DigitsValue(digits) as int) else DigitsValue(digits) as int;
      ParseInt32(sign + digits) == if Int32Min <= v <= Int32Max then Some(v) else None
  {
    var s := sign + digits;
    if sign == "" {
      assert s == digits;
      assert SplitSign(s) == (false, digits) by { assert IsDigit(s[0]); }
    } else {
      assert s[1..] == digits;
      assert SplitSign(s) == (sign == "-", digits);
    }
  }

  lemma ParseInt32OfNatToString(n: nat)
    requires n <= Int32Max
    ensures ParseInt32(NatToString(n)) == Some(n)
  {
    DigitsValueOfNatToString(n);
  }

  lemma ParseInt32OfNegated(n: nat)
    requires n <= -Int32Min
    ensures ParseInt32("-" + NatToString(n)) == Some(-(n as int))
  {
    assert ("-" + NatToString(n))[1..] == NatToString(n);
    DigitsValueOfNatToString(n);
  }

  /** The position of the first `c` in `s`, or `|s|` when there is none. */
  function IndexOf(s: string, c: char): (k: nat)
    ensures k <= |s|
    ensures k < |s| ==> s[k] == c
    ensures forall i :: 0 <= i < k ==> s[i] != c
  {
    if s == [] then 0
    else if s[0] == c then 0
    else 1 + IndexOf(s[1..], c)
  }

  lemma {:induction false} IndexOfIsFirst(s: string, c: char, k: nat)
    requires k <= |s| && (k < |s| ==> s[k] == c)
    requires forall i :: 0 <= i < k ==> s[i] != c
    ensures IndexOf(s, c) == k
  {
    if s != [] && k > 0 {
      IndexOfIsFirst(s[1..], c, k - 1);
    }
  }

  lemma DigitsValueSnoc(s: string, c: char)
    requires AllDigits(s) && IsDigit(c)
    ensures AllDigits(s + [c]) && DigitsValue(s + [c]) == DigitsValue(s) * 10 + DigitValue(c)
  {
    assert (s + [c])[..|s|] == s;
  }

  /** The value of the digits `whole.fraction`. */
  function DecimalValue(whole: string, fraction: string): (v: real)
    requires AllDigits(whole) && AllDigits(fraction)
    ensures v >= 0.0
  {
    DigitsValue(whole) as real + DigitsValue(fraction) as real / Pow10(|fraction|) as real
  }

  /**
   * Decimal text as accepted here in place of `decimal.TryParse`: an optional
   * sign, then digits with at most one `.` among them, and at least one digit.
   */
  function ParseDecimal(s: string): (r: Option<real>)
    ensures r.Some? ==> forall i :: 0 <= i < |s| ==> s[i] != ','
  {
    var (negative, body) := SplitSign(s);
    var k := IndexOf(body, '.');
    var whole := body[..k];
    var fraction := if k < |body| then body[k + 1..] else [];
    if !AllDigits(whole) || !AllDigits(fraction) || (whole == [] && fraction == []) then None
    else
      assert forall i :: 0 <= i < |body| ==> body[i] != ',' by {
        forall i | 0 <= i < |body| ensures body[i] != ',' {
          if i < k { assert body[i] == whole[i]; }
          else if i > k { assert body[i] == fraction[i - k - 1]; }
        }
      }
      var magnitude := DecimalValue(whole, fraction);
      Some(if negative then -magnitude else magnitude)
  }

  /** What a point-separated decimal `whole.fraction` denotes. */
  lemma ParseDecimalOfPointText(whole: string, fraction: string)
    requires AllDigits(whole) && AllDigits(fraction) && whole != []
    ensures ParseDecimal(whole + "." + fraction) == Some(DecimalValue(whole, fraction))
  {
    var s := whole + "." + fraction;
    assert SplitSign(s) == (false, s) by { assert IsDigit(s[0]); }
    assert forall i :: 0 <= i < |whole| ==> s[i] != '.' by {
      forall i | 0 <= i < |whole| ensures s[i] != '.' { assert s[i] == whole[i]; }
    }
    IndexOfIsFirst(s, '.', |whole|);
    assert s[..|whole|] == whole;
    assert s[|whole| + 1..] == fraction;
    var k := IndexOf(s, '.');
    assert k == |whole|;
    assert k < |s|;
    var fr := if k < |s| then s[k + 1..] else [];
    assert fr == fraction;
  }

  lemma ParseDecimalOfNatToString(n: nat)
    ensures ParseDecimal(NatToString(n)) == Some(n as real)
  {
    var s := NatToString(n);
    assert SplitSign(s) == (false, s) by { assert IsDigit(s[0]); }
    IndexOfIsFirst(s, '.', |s|);
    assert s[..|s|] == s;
    DigitsValueOfNatToString(n);
  }

  /** The text with every `,` replaced by `.` (`string.Replace(',', '.')`). */
  function NormalizeSeparator(s: string): (r: string)
    ensures |r| == |s|
    ensures forall i :: 0 <= i < |s| ==> r[i] == if s[i] == ',' then '.' else s[i]
  {
    if s == [] then [] else [if s[0] == ',' then '.' else s[0]] + NormalizeSeparator(s[1..])
  }

  /** A comma-separated decimal is rejected as written and parses as its point-separated twin once normalised. */
  lemma CommaDecimalNeedsNormalizing(whole: string, fraction: string)
    requires AllDigits(whole) && AllDigits(fraction) && whole != []
    ensures ParseDecimal(whole + "," + fraction).None?
    ensures NormalizeSeparator(whole + "," + fraction) == whole + "." + fraction
    ensures ParseDecimal(NormalizeSeparator(whole + "," + fraction)) == ParseDecimal(whole + "." + fraction)
  {
    var s := whole + "," + fraction;
    assert s[|whole|] == ',';
    assert NormalizeSeparator(s) == whole + "." + fraction;
  }

  datatype Date = Date(day: int, month: int, year: int)

  predicate IsLeapYear(year: int) { year % 4 == 0 && (year % 100 != 0 || year % 400 == 0) }

  function DaysInMonth(month: int, year: int): (n: int)
    requires 1 <= month <= 12
    ensures 28 <= n <= 31
  {
    if month == 2 then (if IsLeapYear(year) then 29 else 28)
    else if month in {4, 6, 9, 11} then 30
    else 31
  }

  /** A calendar date in the Gregorian proleptic range the date type covers (years 1 to 9999). */
  predicate ValidDate(d: Date)
  {
    1 <= d.year <= 9999 && 1 <= d.month <= 12 && 1 <= d.day <= DaysInMonth(d.month, d.year)
  }

  /**
   * Date text in the fixed-width format `dd.MM.yyyy` (two-digit day, two-digit
   * month, four-digit year, `.` separators), denoting an existing date.
   */
  function ParseDate(s: string): (r: Option<Date>)
    ensures r.Some? ==> ValidDate(r.value) && |s| == 10
  {
    if |s| == 10 && s[2] == '.' && s[5] == '.'
       && AllDigits(s[0..2]) && AllDigits(s[3..5]) && AllDigits(s[6..10])
    then
      var d := Date(DigitsValue(s[0..2]), DigitsValue(s[3..5]), DigitsValue(s[6..10]));
      if ValidDate(d) then Some(d) else None
    else None
  }

  function Pad2(n: nat): (s: string)
    requires n < 100
    ensures |s| == 2 && AllDigits(s)
  {
    [DigitChar(n / 10), DigitChar(n % 10)]
  }

  function Pad4(n: nat): (s: string)
    requires n < 10000
    ensures |s| == 4 && AllDigits(s)
  {
    Pad2(n / 100) + Pad2(n % 100)
  }

  /** The date written in the format `dd.MM.yyyy`. */
  function FormatDate(d: Date): (s: string)
    requires ValidDate(d)
    ensures |s| == 10
  {
    Pad2(d.day) + "." + Pad2(d.month) + "." + Pad4(d.year)
  }

  lemma DigitsValue2(a: char, b: char)
    requires IsDigit(a) && IsDigit(b)
    ensures DigitsValue([a, b]) == DigitValue(a) * 10 + DigitValue(b)
  {
    DigitsValueSnoc([], a);
    assert [a] == [] + [a];
    DigitsValueSnoc([a], b);
    assert [a, b] == [a] + [b];
  }

  lemma {:induction false} DigitsValueAppend(x: string, y: string)
    requires AllDigits(x) && AllDigits(y)
    ensures AllDigits(x + y) && DigitsValue(x + y) == DigitsValue(x) * Pow10(|y|) + DigitsValue(y)
  {
    if y == [] {
      assert x + y == x;
    } else {
      var y', c := y[..|y| - 1], y[|y| - 1];
      assert x + y == (x + y') + [c];
      assert y == y' + [c];
      DigitsValueAppend(x, y');
      DigitsValueSnoc(x + y', c);
      DigitsValueSnoc(y', c);
      ShiftDigit(DigitsValue(x), Pow10(|y'|), DigitsValue(y'), DigitValue(c));
    }
  }

  lemma ShiftDigit(a: int, p: int, b: int, d: int)
    ensures (a * p + b) * 10 + d == a * (10 * p) + (b * 10 + d)
  {
  }

  lemma Pad2RoundTrip(n: nat)
    requires n < 100
    ensures DigitsValue(Pad2(n)) == n
  {
    DigitsValue2(DigitChar(n / 10), DigitChar(n % 10));
  }

  lemma Pad4RoundTrip(n: nat)
    requires n < 10000
    ensures DigitsValue(Pad4(n)) == n
  {
    DigitsValueAppend(Pad2(n / 100), Pad2(n % 100));
    Pad2RoundTrip(n / 100);
    Pad2RoundTrip(n % 100);
    assert Pow10(2) == 100;
  }

  /** Every valid date is read back from its own `dd.MM.yyyy` text. */
  lemma ParseFormatDate(d: Date)
    requires ValidDate(d)
    ensures ParseDate(FormatDate(d)) == Some(d)
  {
    var s := FormatDate(d);
    assert s[0..2] == Pad2(d.day);
    assert s[3..5] == Pad2(d.month);
    assert s[6..10] == Pad4(d.year);
    Pad2RoundTrip(d.day);
    Pad2RoundTrip(d.month);
    Pad4RoundTrip(d.year);
  }

  lemma Pad2OfDigits(t: string)
    requires |t| == 2 && AllDigits(t)
    ensures DigitsValue(t) < 100 && Pad2(DigitsValue(t)) == t
  {
    assert t == [t[0], t[1]];
    DigitsValue2(t[0], t[1]);
  }

  lemma Pad4OfDigits(t: string)
    requires |t| == 4 && AllDigits(t)
    ensures DigitsValue(t) < 10000 && Pad4(DigitsValue(t)) == t
  {
    var hi, lo := t[..2], t[2..];
    assert t == hi + lo;
    DigitsValueAppend(hi, lo);
    Pad2OfDigits(hi);
    Pad2OfDigits(lo);
    assert Pow10(2) == 100;
    var v := DigitsValue(t);
    assert v == DigitsValue(hi) * 100 + DigitsValue(lo);
    assert v / 100 == DigitsValue(hi) && v % 100 == DigitsValue(lo);
  }

  /** Every accepted date text is the `dd.MM.yyyy` rendering of the date it denotes. */
  lemma FormatParseDate(s: string)
    requires ParseDate(s).Some?
    ensures FormatDate(ParseDate(s).value) == s
  {
    Pad2OfDigits(s[0..2]);
    Pad2OfDigits(s[3..5]);
    Pad4OfDigits(s[6..10]);
    assert s == s[0..2] + "." + s[3..5] + "." + s[6..10];
  }
}
