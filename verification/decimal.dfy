/** Decimal text: `str(n)` of an integer, `int(text)`, the subset of `float(text)` the
    hotel data uses, and the fixed-point renderings the generator writes. */
module Decimal {
  import opened Results
  import opened Text

  predicate IsDigit(c: char) {
    '0' <= c <= '9'
  }

  predicate AllDigits(s: string) {
    forall i :: 0 <= i < |s| ==> IsDigit(s[i])
  }

  function DigitChar(d: nat): (c: char)
    requires d < 10
    ensures IsDigit(c)
  {
    (('0' as int) + d) as char
  }

  function DigitValue(c: char): (d: nat)
    requires IsDigit(c)
    ensures d < 10
  {
    (c as int) - ('0' as int)
  }

  lemma DigitRoundTrip(d: nat)
    requires d < 10
    ensures DigitValue(DigitChar(d)) == d
  {
  }

  /** The number a string of decimal digits denotes (leading zeros allowed). */
  function DigitsValue(s: string): (r: nat)
    requires AllDigits(s)
  {
    if |s| == 0 then 0 else DigitsValue(s[..|s| - 1]) * 10 + DigitValue(s[|s| - 1])
  }

  /** `str(n)` for a non-negative integer: digits only, no leading zero. */
  function NatToString(n: nat): (s: string)
    ensures |s| >= 1 && AllDigits(s)
    ensures s[0] == '0' ==> n == 0
  {
    if n < 10 then [DigitChar(n)] else NatToString(n / 10) + [DigitChar(n % 10)]
  }

  /** `str(i)` for any integer. */
  function IntToString(i: int): (s: string)
    ensures |s| >= 1
    ensures i >= 0 ==> s == NatToString(i)
    ensures i < 0 ==> s == "-" + NatToString(-i)
  {
    if i < 0 then "-" + NatToString(-i) else NatToString(i)
  }

  lemma {:induction false} DigitsValueOfNatToString(n: nat)
    ensures DigitsValue(NatToString(n)) == n
  {
    if n >= 10 {
      var s := NatToString(n);
      assert s[..|s| - 1] == NatToString(n / 10);
      DigitsValueOfNatToString(n / 10);
    }
  }

  /** `int(text)` in base 10: surrounding whitespace, an optional sign, then one or more digits. */
  function ParseInt(text: string): (r: Option<int>) {
    var s := Strip(text);
    if |s| > 0 && (s[0] == '+' || s[0] == '-') then
      var body := s[1..];
      if |body| > 0 && AllDigits(body) then
        var v: int := DigitsValue(body);
        Some(if s[0] == '-' then -v else v)
      else None
    else if |s| > 0 && AllDigits(s) then Some(DigitsValue(s))
    else None
  }

  /** The texts `int` accepts: after stripping, digits with at most one leading sign; only a
      minus sign gives a negative value. */
  lemma ParseIntSpec(text: string)
    ensures var r := ParseInt(text); var s := Strip(text);
      && (r.Some? <==> (|s| > 0 && AllDigits(s)) || (|s| > 1 && (s[0] == '+' || s[0] == '-') && AllDigits(s[1..])))
      && (r.Some? && r.value < 0 ==> s[0] == '-')
  {
  }

  /** A non-empty run of digits reads as the number it denotes. */
  lemma DigitsParse(s: string)
    requires |s| > 0 && AllDigits(s)
    ensures ParseInt(s).Some? && ParseInt(s).value == DigitsValue(s)
  {
    assert IsDigit(s[0]) && IsDigit(s[|s| - 1]);
    StripClean(s);
  }

  /** `int(str(n)) == n` for a natural number. */
  lemma NatRoundTrip(n: nat)
    ensures ParseInt(NatToString(n)).Some? && ParseInt(NatToString(n)).value == n
  {
    DigitsParse(NatToString(n));
    DigitsValueOfNatToString(n);
  }

  /** `int(str(i)) == i` for a negative number: the minus sign and the digits of `-i`. */
  lemma NegRoundTrip(i: int)
    requires i < 0
    ensures ParseInt("-" + NatToString(-i)).Some? && ParseInt("-" + NatToString(-i)).value == i
  {
    var d := NatToString(-i);
    var s := "-" + d;
    assert s[1..] == d;
    assert s[|s| - 1] == d[|d| - 1];
    StripClean(s);
    DigitsValueOfNatToString(-i);
  }

  /** `int(str(i)) == i`. */
  lemma IntRoundTrip(i: int)
    ensures ParseInt(IntToString(i)).Some? && ParseInt(IntToString(i)).value == i
  {
    if i < 0 {
      NegRoundTrip(i);
    } else {
      NatRoundTrip(i);
    }
  }

  /** `int(s)` of the empty string (the piece after a trailing comma) raises. */
  lemma EmptyIsNotInt()
    ensures ParseInt("") == None
  {
    assert Strip("") == "";
  }

  /** A decimal numeral without sign: digits, optionally a point and more digits,
      at least one digit in all. Its value is exact (not rounded to a binary double). */
  function ParseUnsignedDecimal(s: string): (r: Option<real>)
  {
    match IndexOf(s, '.')
    case None =>
      if |s| > 0 && AllDigits(s) then Some(DigitsValue(s) as real) else None
    case Some(i) =>
      var whole := s[..i];
      var frac := s[i + 1..];
      if |whole| + |frac| > 0 && AllDigits(whole) && AllDigits(frac) then
        Some(NumeralValue(whole, frac))
      else None
  }

  /** The value of the digits after a decimal point: `0.d1 d2 ...`. */
  function FracValue(frac: string): (v: real)
    requires AllDigits(frac)
    ensures 0.0 <= v < 1.0
  {
    if |frac| == 0 then 0.0 else (DigitValue(frac[0]) as real + FracValue(frac[1..])) / 10.0
  }

  /** The value of the numeral `whole.frac`. */
  function NumeralValue(whole: string, frac: string): (v: real)
    requires AllDigits(whole) && AllDigits(frac)
    ensures v >= 0.0
  {
    DigitsValue(whole) as real + FracValue(frac)
  }

  /** `float(text)` restricted to optionally signed decimal numerals with surrounding whitespace. */
  function ParseFloat(text: string): (r: Option<real>) {
    var s := Strip(text);
    var signed := |s| > 0 && (s[0] == '+' || s[0] == '-');
    var body := if signed then s[1..] else s;
    match ParseUnsignedDecimal(body)
    case None => None
    case Some(v) => Some(if signed && s[0] == '-' then -v else v)
  }

  /** `float` rejects blank text, and only a minus sign gives a negative value. */
  lemma ParseFloatSpec(text: string)
    ensures var r := ParseFloat(text);
      && (r.Some? ==> |Strip(text)| > 0)
      && (r.Some? && r.value < 0.0 ==> Strip(text)[0] == '-')
  {
    var s := Strip(text);
    var signed := |s| > 0 && (s[0] == '+' || s[0] == '-');
    var body := if signed then s[1..] else s;
    match ParseUnsignedDecimal(body)
    case None =>
    case Some(v) =>
      UnsignedDecimalShape(body);
  }

  /** An unsigned numeral is non-empty and denotes a non-negative value. */
  lemma UnsignedDecimalShape(s: string)
    ensures var r := ParseUnsignedDecimal(s);
      r.Some? ==> |s| > 0 && r.value >= 0.0
  {
  }

  /** `f"{v:.2f}"` of a non-negative value already rounded to `cents` hundredths. */
  function FormatCents(cents: nat): (s: string)
    ensures |s| >= 4 && IsDigit(s[0]) && IsDigit(s[|s| - 1])
    ensures ',' !in s && '\n' !in s
  {
    var whole := NatToString(cents / 100);
    var r := cents % 100;
    var s := whole + "." + [DigitChar(r / 10), DigitChar(r % 10)];
    assert forall i :: 0 <= i < |whole| ==> s[i] == whole[i];
    s
  }

  /** `str(v)` of a non-negative float already rounded to `tenths` tenths, written
      positionally. Python's `str` agrees below `1e16` (the generator's ratings are 30 to 50
      tenths); from `1e16` on it switches to exponent notation, which is not modelled. */
  function FormatTenths(tenths: nat): (s: string)
    ensures |s| >= 3 && IsDigit(s[0]) && IsDigit(s[|s| - 1])
    ensures ',' !in s && '\n' !in s
  {
    var whole := NatToString(tenths / 10);
    var s := whole + "." + [DigitChar(tenths % 10)];
    assert forall i :: 0 <= i < |whole| ==> s[i] == whole[i];
    s
  }

  /** A digit string has no point in it. */
  lemma NoPointInDigits(s: string)
    requires AllDigits(s)
    ensures '.' !in s
  {
  }

  /** A numeral `whole.frac` denotes `whole + frac / 10^|frac|`. */
  lemma PointNumeral(whole: string, frac: string)
    requires AllDigits(whole) && AllDigits(frac) && |whole| + |frac| > 0
    ensures var r := ParseUnsignedDecimal(whole + "." + frac); r.Some? && r.value == NumeralValue(whole, frac)
  {
    var s := whole + "." + frac;
    NoPointInDigits(whole);
    IndexOfAfter(whole, '.', frac);
    assert IndexOf(s, '.') == Some(|whole|);
    assert s[..|whole|] == whole;
    assert s[|whole| + 1..] == frac;
  }

  /** `float(whole + "." + frac)` for digit strings on both sides of the point. */
  lemma PointFloat(whole: string, frac: string)
    requires AllDigits(whole) && AllDigits(frac) && |whole| > 0 && |frac| > 0
    ensures var r := ParseFloat(whole + "." + frac); r.Some? && r.value == NumeralValue(whole, frac)
  {
    var s := whole + "." + frac;
    assert s[0] == whole[0] && s[|s| - 1] == frac[|frac| - 1];
    StripClean(s);
    PointNumeral(whole, frac);
  }

  lemma PointFloatValue(whole: string, frac: string, s: string, v: real)
    requires AllDigits(whole) && AllDigits(frac) && |whole| > 0 && |frac| > 0
    requires s == whole + "." + frac && NumeralValue(whole, frac) == v
    ensures ParseFloat(s).Some? && ParseFloat(s).value == v
  {
    PointFloat(whole, frac);
  }

  /** The two digits after the point in `x.d1d2` stand for `(10 * d1 + d2) / 100`. */
  lemma {:induction false} TwoFracDigits(r: nat)
    requires r < 100
    ensures FracValue([DigitChar(r / 10), DigitChar(r % 10)]) == r as real / 100.0
  {
    var frac := [DigitChar(r / 10), DigitChar(r % 10)];
    DigitRoundTrip(r / 10);
    DigitRoundTrip(r % 10);
    assert frac[1..] == [DigitChar(r % 10)];
    assert frac[1..][1..] == [];
    assert FracValue(frac[1..]) == (r % 10) as real / 10.0;
    assert r == (r / 10) * 10 + r % 10;
  }

  /** Reading back a two-decimal rendering gives the value in hundredths exactly. */
  lemma {:induction false} CentsRoundTrip(cents: nat)
    ensures ParseFloat(FormatCents(cents)).Some? && ParseFloat(FormatCents(cents)).value == cents as real / 100.0
  {
    var whole := NatToString(cents / 100);
    var r := cents % 100;
    var frac := [DigitChar(r / 10), DigitChar(r % 10)];
    assert FormatCents(cents) == whole + "." + frac;
    DigitsValueOfNatToString(cents / 100);
    TwoFracDigits(r);
    assert cents == (cents / 100) * 100 + r;
    assert NumeralValue(whole, frac) == cents as real / 100.0;
    PointFloatValue(whole, frac, FormatCents(cents), cents as real / 100.0);
  }

  /** Reading back a one-decimal rendering gives the value in tenths exactly. */
  lemma {:induction false} TenthsRoundTrip(tenths: nat)
    ensures ParseFloat(FormatTenths(tenths)).Some? && ParseFloat(FormatTenths(tenths)).value == tenths as real / 10.0
  {
    var whole := NatToString(tenths / 10);
    var frac := [DigitChar(tenths % 10)];
    assert FormatTenths(tenths) == whole + "." + frac;
    DigitsValueOfNatToString(tenths / 10);
    DigitRoundTrip(tenths % 10);
    assert frac[1..] == [];
    assert FracValue(frac) == (tenths % 10) as real / 10.0;
    assert tenths == (tenths / 10) * 10 + tenths % 10;
    assert NumeralValue(whole, frac) == tenths as real / 10.0;
    PointFloatValue(whole, frac, FormatTenths(tenths), tenths as real / 10.0);
  }
}
