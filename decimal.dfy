/** Decimal number text in ASCII digits: the literals below, which both
    Python's `float(str)` and JavaScript's `Number(str)` accept,

        [sign] (digits ['.' [digits]] | '.' digits) [('e' | 'E') [sign] digits]

    its value as a `real`, and the decimal rendering of integers (Python's
    `str(int)`). */
module Decimal {
  import opened Wrappers

  predicate IsDigit(c: char) { '0' <= c <= '9' }

  predicate AllDigits(s: string) {
    forall i :: 0 <= i < |s| ==> IsDigit(s[i])
  }

  function DigitValue(c: char): nat
    requires IsDigit(c)
  {
    c as int - '0' as int
  }

  function DigitChar(d: nat): (c: char)
    requires d < 10
    ensures IsDigit(c) && DigitValue(c) == d
  {
    ('0' as int + d) as char
  }

  /** The value of a run of digits, most significant first. */
  function DigitsValue(ds: string): nat
    requires AllDigits(ds)
  {
    if ds == [] then 0 else DigitsValue(ds[..|ds| - 1]) * 10 + DigitValue(ds[|ds| - 1])
  }

  function Pow10(n: nat): (r: nat)
    ensures r >= 1
  {
    if n == 0 then 1 else 10 * Pow10(n - 1)
  }

  /** 10 raised to a possibly negative exponent. */
  function Scale(e: int): (r: real)
    ensures r > 0.0
  {
    if e >= 0 then Pow10(e) as real else 1.0 / Pow10(-e) as real
  }

  /** Length of the run of digits at the start of `s`. */
  function DigitRun(s: string): (n: nat)
    ensures n <= |s| && AllDigits(s[..n])
    ensures n < |s| ==> !IsDigit(s[n])
  {
    if s != [] && IsDigit(s[0]) then
      var n := 1 + DigitRun(s[1..]);
      assert s[..n] == [s[0]] + s[1..][..n - 1];
      n
    else 0
  }

  /** Position of the exponent mark ('e' or 'E'), or |s| when there is none. */
  function ExponentMark(s: string): (k: nat)
    ensures k <= |s|
    ensures forall i :: 0 <= i < k ==> s[i] != 'e' && s[i] != 'E'
    ensures k < |s| ==> s[k] == 'e' || s[k] == 'E'
  {
    if s == [] || s[0] == 'e' || s[0] == 'E' then 0 else 1 + ExponentMark(s[1..])
  }

  /** An optional leading sign: (is it '-', the rest). */
  function SplitSign(s: string): (bool, string) {
    if s != [] && (s[0] == '+' || s[0] == '-') then (s[0] == '-', s[1..]) else (false, s)
  }

  /** `digits ['.' [digits]] | '.' digits` */
  function ParseMantissa(s: string): Option<real> {
    var w := DigitRun(s);
    var whole := DigitsValue(s[..w]) as real;
    if w == |s| then
      if w > 0 then Some(whole) else None
    else if s[w] != '.' then None
    else
      var frac := s[w + 1..];
      if AllDigits(frac) && w + |frac| > 0
      then Some(UnsignedValue(s[..w], frac))
      else None
  }

  /** `[sign] digits` after the exponent mark. */
  function ParseExponent(s: string): Option<int> {
    var (negative, ds) := SplitSign(s);
    if ds != [] && AllDigits(ds)
    then Some(if negative then -(DigitsValue(ds) as int) else DigitsValue(ds))
    else None
  }

  /** The value of a decimal number text, or None when `s` is not one. No
      whitespace is allowed: callers strip it first. */
  function ParseDecimal(s: string): Option<real> {
    var (negative, body) := SplitSign(s);
    var k := ExponentMark(body);
    var mantissa := ParseMantissa(body[..k]);
    var exponent := if k == |body| then Some(0) else ParseExponent(body[k + 1..]);
    if mantissa.None? || exponent.None? then None
    else
      var v := mantissa.value * Scale(exponent.value);
      Some(if negative then -v else v)
  }

  /** A decimal literal without exponent: optional '-', whole digits and, when
      `frac` is not empty, a point and the fraction digits. */
  function Render(negative: bool, whole: string, frac: string): string {
    (if negative then "-" else "") + whole + Fraction(frac)
  }

  /** The value of `whole.frac`. */
  function UnsignedValue(whole: string, frac: string): real
    requires AllDigits(whole) && AllDigits(frac)
  {
    DigitsValue(whole) as real + DigitsValue(frac) as real / Pow10(|frac|) as real
  }

  function LiteralValue(negative: bool, whole: string, frac: string): real
    requires AllDigits(whole) && AllDigits(frac)
  {
    if negative then -UnsignedValue(whole, frac) else UnsignedValue(whole, frac)
  }

  lemma {:induction false} DigitRunOfDigits(ds: string, rest: string)
    requires AllDigits(ds)
    requires rest == [] || !IsDigit(rest[0])
    ensures DigitRun(ds + rest) == |ds|
  {
    if ds != [] {
      assert (ds + rest)[1..] == ds[1..] + rest;
      DigitRunOfDigits(ds[1..], rest);
    }
  }

  predicate NoExponentMark(s: string) {
    forall i :: 0 <= i < |s| ==> s[i] != 'e' && s[i] != 'E'
  }

  lemma {:induction false} ExponentMarkAbsent(s: string)
    requires NoExponentMark(s)
    ensures ExponentMark(s) == |s|
  {
    if s != [] {
      ExponentMarkAbsent(s[1..]);
    }
  }

  function Fraction(frac: string): string {
    if frac == [] then "" else "." + frac
  }

  lemma {:induction false} MantissaOfLiteral(whole: string, frac: string)
    requires whole != [] && AllDigits(whole) && AllDigits(frac)
    ensures ParseMantissa(whole + Fraction(frac)) == Some(UnsignedValue(whole, frac))
  {
    var body := whole + Fraction(frac);
    DigitRunOfDigits(whole, Fraction(frac));
    assert body[..|whole|] == whole;
    if frac != [] {
      assert body[|whole|] == '.';
      assert body[|whole| + 1..] == frac;
    } else {
      assert body == whole;
    }
  }

  /** Without an exponent mark the text is its sign and its mantissa. */
  lemma {:induction false} ParseWithoutExponent(negative: bool, body: string, m: real)
    requires body != [] && body[0] != '+' && body[0] != '-'
    requires NoExponentMark(body)
    requires ParseMantissa(body) == Some(m)
    ensures ParseDecimal((if negative then "-" else "") + body) == Some(if negative then -m else m)
  {
    var text := (if negative then "-" else "") + body;
    if negative {
      assert text[1..] == body;
    } else {
      assert text == body;
    }
    assert SplitSign(text) == (negative, body);
    ExponentMarkAbsent(body);
    assert body[..|body|] == body;
    assert Scale(0) == 1.0;
  }

  lemma LiteralHasNoExponentMark(whole: string, frac: string)
    requires AllDigits(whole) && AllDigits(frac)
    ensures NoExponentMark(whole + Fraction(frac))
  {
    var body := whole + Fraction(frac);
    forall i | 0 <= i < |body| ensures body[i] != 'e' && body[i] != 'E' {
      if i < |whole| {
        assert body[i] == whole[i];
      } else if i > |whole| {
        assert body[i] == frac[i - |whole| - 1];
      }
    }
  }

  /** The parser reads back every rendered literal with the literal's value. */
  lemma {:induction false} ParseRender(negative: bool, whole: string, frac: string)
    requires whole != [] && AllDigits(whole) && AllDigits(frac)
    ensures ParseDecimal(Render(negative, whole, frac)) == Some(LiteralValue(negative, whole, frac))
  {
    var body := whole + Fraction(frac);
    assert body[0] == whole[0] && IsDigit(body[0]);
    LiteralHasNoExponentMark(whole, frac);
    assert Render(negative, whole, frac) == (if negative then "-" else "") + body;
    var m := UnsignedValue(whole, frac);
    MantissaOfLiteral(whole, frac);
    assert ParseMantissa(body) == Some(m);
    ParseWithoutExponent(negative, body, m);
    assert LiteralValue(negative, whole, frac) == if negative then -m else m;
  }

  /** The digits of a natural number, most significant first, without leading
      zeros. */
  function NatDigits(n: nat): (ds: string)
    ensures ds != [] && AllDigits(ds)
    ensures DigitsValue(ds) == n
  {
    if n < 10 then [DigitChar(n)]
    else
      var ds := NatDigits(n / 10) + [DigitChar(n % 10)];
      assert ds[..|ds| - 1] == NatDigits(n / 10);
      ds
  }

  /** Python's `str(n)` for an integer. */
  function IntToString(n: int): string {
    Render(n < 0, NatDigits(if n < 0 then -n else n), "")
  }

  /** Reading back an integer's decimal text gives the integer. */
  lemma ParseIntToString(n: int)
    ensures ParseDecimal(IntToString(n)) == Some(n as real)
  {
    var m := if n < 0 then -n else n;
    ParseRender(n < 0, NatDigits(m), "");
  }
}
