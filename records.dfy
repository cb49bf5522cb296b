/** Planet records as the server holds them (app.py): JSON values, the
    lenient number reader `to_float_safe`, and `compute_norm_fields`, which
    adds the normalised fields every API answer carries. */
module Records {
  import opened Wrappers
  import opened Text
  import opened Decimal

  /** A JSON value as Python holds it after `json.load`. A float keeps the text
      `str()` prints for it; a list or object keeps its number of elements and
      its `str()` text. */
  datatype Value =
    | VNone
    | VBool(b: bool)
    | VInt(i: int)
    | VFloat(x: real, text: string)
    | VStr(s: string)
    | VCompound(size: nat, text: string)

  /** One entry of planets.json. */
  type Record = map<string, Value>

  /** `p.get(key)`: a missing key reads as None. */
  function Get(p: Record, key: string): Value {
    if key in p then p[key] else VNone
  }

  /** Python's truth value of a JSON value. */
  predicate Truthy(v: Value) {
    match v
    case VNone => false
    case VBool(b) => b
    case VInt(i) => i != 0
    case VFloat(x, _) => x != 0.0
    case VStr(s) => s != []
    case VCompound(n, _) => n > 0
  }

  /** Python's `a or b`. */
  function Or(a: Value, b: Value): Value {
    if Truthy(a) then a else b
  }

  /** Python's `str(v)`. */
  function Str(v: Value): string {
    match v
    case VNone => "None"
    case VBool(b) => if b then "True" else "False"
    case VInt(i) => IntToString(i)
    case VFloat(_, t) => t
    case VStr(s) => s
    case VCompound(_, t) => t
  }

  /** Python's `float(s)` on a string, for decimal literals in ASCII
      digits; it ignores surrounding whitespace. */
  function PyFloat(s: string): Option<real> {
    ParseDecimal(PyStrip(s))
  }

  /** `s.replace(",", "")` */
  function RemoveCommas(s: string): (r: string)
    ensures forall i :: 0 <= i < |r| ==> r[i] != ','
  {
    if s == [] then []
    else (if s[0] == ',' then [] else [s[0]]) + RemoveCommas(s[1..])
  }

  lemma {:induction false} RemoveCommasAppend(a: string, b: string)
    ensures RemoveCommas(a + b) == RemoveCommas(a) + RemoveCommas(b)
  {
    if a == [] {
      assert a + b == b;
    } else {
      assert (a + b)[0] == a[0] && (a + b)[1..] == a[1..] + b;
      RemoveCommasAppend(a[1..], b);
    }
  }

  /** The string path of `to_float_safe`: strip, then read what is left. */
  function LenientParse(text: string): Option<real> {
    ReadStripped(PyStrip(text))
  }

  /** A stripped string: drop every comma and one trailing '%' (with the
      whitespace before it), then `float()`; empty reads as None. */
  function ReadStripped(s: string): Option<real> {
    if s == [] then None
    else
      var s2 := DropPercent(RemoveCommas(s));
      if s2 == [] then None else PyFloat(s2)
  }

  /** `if s.endswith("%"): s = s[:-1].strip()` */
  function DropPercent(s: string): string {
    if s != [] && s[|s| - 1] == '%' then PyStrip(s[..|s| - 1]) else s
  }

  /** `to_float_safe(v)`: never fails; None when the value is None or cannot
      be read as a number. Python's bool is an int, so it passes through. */
  function ToFloatSafe(v: Value): (r: Option<real>)
    ensures v.VNone? ==> r.None?
    ensures v.VBool? ==> r == Some(if v.b then 1.0 else 0.0)
    ensures v.VInt? ==> r == Some(v.i as real)
    ensures v.VFloat? ==> r == Some(v.x)
    ensures v.VStr? || v.VCompound? ==> r == LenientParse(Str(v))
  {
    match v
    case VNone => None
    case VBool(b) => Some(if b then 1.0 else 0.0)
    case VInt(i) => Some(i as real)
    case VFloat(x, _) => Some(x)
    case _ => LenientParse(Str(v))
  }

  /** An empty or whitespace-only string reads as None. */
  lemma BlankIsNone(s: string)
    requires AllIn(s, IsPySpace)
    ensures ToFloatSafe(VStr(s)) == None
  {
    StripAll(s, IsPySpace);
  }

  /** A lone '%' (with any whitespace around it) reads as None. */
  lemma PercentAloneIsNone(lead: string, trail: string)
    requires AllIn(lead, IsPySpace) && AllIn(trail, IsPySpace)
    ensures ToFloatSafe(VStr(lead + "%" + trail)) == None
  {
    StripPadded(lead, "%", trail, IsPySpace);
    assert RemoveCommas("%") == "%";
    var t := TrimStart([], IsPySpace);
  }

  lemma {:induction false} RenderCharacters(negative: bool, whole: string, frac: string)
    requires whole != [] && AllDigits(whole) && AllDigits(frac)
    ensures var r := Render(negative, whole, frac);
      r != [] && IsDigit(r[|r| - 1]) &&
      forall i :: 0 <= i < |r| ==> IsDigit(r[i]) || r[i] == '-' || r[i] == '.'
  {
    var r := Render(negative, whole, frac);
    var sign := if negative then "-" else "";
    assert r == sign + whole + Fraction(frac);
    forall i | 0 <= i < |r| ensures IsDigit(r[i]) || r[i] == '-' || r[i] == '.' {
      if i < |sign| {
      } else if i < |sign| + |whole| {
        assert r[i] == whole[i - |sign|];
      } else if i > |sign| + |whole| {
        assert r[i] == frac[i - |sign| - |whole| - 1];
      }
    }
    if frac == [] {
      assert r[|r| - 1] == whole[|whole| - 1];
    } else {
      assert r[|r| - 1] == frac[|frac| - 1];
    }
  }

  /** A string whose characters are all kept by RemoveCommas starts and ends
      with a character of the result, or with a comma. */
  lemma {:induction false} CommaFreeEnds(written: string)
    requires written != []
    ensures written[0] == ',' || (RemoveCommas(written) != [] && RemoveCommas(written)[0] == written[0])
    ensures written[|written| - 1] == ',' ||
            (RemoveCommas(written) != [] &&
             RemoveCommas(written)[|RemoveCommas(written)| - 1] == written[|written| - 1])
  {
    var n := |written|;
    assert written == written[..n - 1] + [written[n - 1]];
    RemoveCommasAppend(written[..n - 1], [written[n - 1]]);
    assert RemoveCommas([written[n - 1]]) == if written[n - 1] == ',' then [] else [written[n - 1]];
  }

  lemma StripOfLiteral(negative: bool, whole: string, frac: string)
    requires whole != [] && AllDigits(whole) && AllDigits(frac)
    ensures PyStrip(Render(negative, whole, frac)) == Render(negative, whole, frac)
  {
    var lit := Render(negative, whole, frac);
    RenderCharacters(negative, whole, frac);
    StripPadded([], lit, [], IsPySpace);
    assert [] + lit + [] == lit;
  }

  /** What `to_float_safe` does with a literal once commas are gone: the
      trailing '%' is dropped and `float()` reads the literal's value. */
  lemma ReadLiteral(negative: bool, whole: string, frac: string)
    requires whole != [] && AllDigits(whole) && AllDigits(frac)
    ensures var lit := Render(negative, whole, frac);
      DropPercent(lit + "%") == lit && DropPercent(lit) == lit &&
      PyFloat(lit) == Some(LiteralValue(negative, whole, frac))
  {
    var lit := Render(negative, whole, frac);
    LiteralEnd(negative, whole, frac);
    StripOfLiteral(negative, whole, frac);
    assert (lit + "%")[..|lit|] == lit;
    ParseRender(negative, whole, frac);
  }

  /** Once stripped, a literal with grouping commas and an optional '%' reads
      as the literal's value. */
  lemma {:induction false} ReadGroupedLiteral(written: string, percent: bool,
                                               negative: bool, whole: string, frac: string)
    requires whole != [] && AllDigits(whole) && AllDigits(frac)
    requires RemoveCommas(written) == Render(negative, whole, frac)
    ensures ReadStripped(written + (if percent then "%" else "")) == Some(LiteralValue(negative, whole, frac))
  {
    var lit := Render(negative, whole, frac);
    var suffix := if percent then "%" else "";
    RemoveCommasAppend(written, suffix);
    ReadLiteral(negative, whole, frac);
    LiteralEnd(negative, whole, frac);
    if percent {
      assert RemoveCommas(written + suffix) == lit + "%";
    } else {
      assert RemoveCommas(suffix) == [];
      assert RemoveCommas(written + suffix) == lit;
    }
    assert written + suffix != [];
  }

  lemma LiteralEnd(negative: bool, whole: string, frac: string)
    requires whole != [] && AllDigits(whole) && AllDigits(frac)
    ensures var r := Render(negative, whole, frac); r != [] && r[|r| - 1] != '%'
  {
    RenderCharacters(negative, whole, frac);
  }

  /** The number texts to_float_safe is written for: a decimal literal, with
      grouping commas anywhere, surrounded by whitespace and optionally
      followed by a percent sign, reads as the literal's value. */
  lemma {:induction false} DecimalTextIsRead(lead: string, written: string, percent: bool, trail: string,
                                              negative: bool, whole: string, frac: string)
    requires AllIn(lead, IsPySpace) && AllIn(trail, IsPySpace)
    requires whole != [] && AllDigits(whole) && AllDigits(frac)
    requires RemoveCommas(written) == Render(negative, whole, frac)
    ensures ToFloatSafe(VStr(lead + written + (if percent then "%" else "") + trail))
         == Some(LiteralValue(negative, whole, frac))
  {
    var lit := Render(negative, whole, frac);
    var suffix := if percent then "%" else "";
    var core := written + suffix;
    RenderCharacters(negative, whole, frac);
    assert written != [];
    CommaFreeEnds(written);
    assert !IsPySpace(core[0]);
    assert !IsPySpace(core[|core| - 1]);
    assert lead + written + suffix + trail == lead + core + trail;
    StripPadded(lead, core, trail, IsPySpace);
    ReadGroupedLiteral(written, percent, negative, whole, frac);
  }

  const KelvinToCelsius: real := 273.15

  /** The temperature `compute_norm_fields` reports in Celsius. */
  function NormTemperature(p: Record): (t: Option<real>)
    // a present avg_temp_C decides, whether or not it parses
    ensures Get(p, "avg_temp_C") != VNone ==> t == ToFloatSafe(Get(p, "avg_temp_C"))
    // otherwise eq_temp_K, converted from Kelvin
    ensures Get(p, "avg_temp_C") == VNone ==>
      (t.Some? <==> ToFloatSafe(Get(p, "eq_temp_K")).Some?) &&
      (t.Some? ==> t.value + KelvinToCelsius == ToFloatSafe(Get(p, "eq_temp_K")).value)
  {
    if Get(p, "avg_temp_C") != VNone then ToFloatSafe(Get(p, "avg_temp_C"))
    else if Get(p, "eq_temp_K") != VNone then
      match ToFloatSafe(Get(p, "eq_temp_K"))
      case Some(k) => Some(k - KelvinToCelsius)
      case None => None
    else None
  }

  /** Changing eq_temp_K never changes the temperature of a planet that has
      avg_temp_C. */
  lemma CelsiusWins(p: Record, kelvin: Value)
    requires Get(p, "avg_temp_C") != VNone
    ensures NormTemperature(p["eq_temp_K" := kelvin]) == NormTemperature(p)
  {
    assert Get(p["eq_temp_K" := kelvin], "avg_temp_C") == Get(p, "avg_temp_C");
  }

  /** The result of `compute_norm_fields`: the original record, unchanged, and
      the four keys it sets. The four keys shadow original keys of the same
      name. */
  datatype NormPlanet = NormPlanet(
    fields: Record,
    habNorm: Option<real>,       // habitability_percent_norm
    habRaw: Option<string>,      // habitability_percent_raw
    compositeNorm: Option<real>, // composite_habitability_norm
    tempNorm: Option<real>       // avg_temp_C_norm
  )

  function ComputeNormFields(p: Record): (np: NormPlanet)
    ensures np.fields == p
    ensures Get(p, "habitability_percent") == VNone <==> np.habRaw == None
    ensures np.habRaw == None ==> np.habNorm == None
    ensures np.habRaw != None ==>
      np.habRaw.value == Str(Get(p, "habitability_percent")) &&
      np.habNorm == ToFloatSafe(Get(p, "habitability_percent"))
    ensures np.compositeNorm == ToFloatSafe(Get(p, "composite_habitability"))
    ensures np.tempNorm == NormTemperature(p)
  {
    var rawHp := Get(p, "habitability_percent");
    NormPlanet(
      p,
      if rawHp != VNone then ToFloatSafe(rawHp) else None,
      if rawHp != VNone then Some(Str(rawHp)) else None,
      ToFloatSafe(Get(p, "composite_habitability")),
      NormTemperature(p))
  }

  /** The raw text and the normalised number agree: reading the raw text back
      gives the norm, for every habitability value except a bool (whose text
      is "True"/"False") and a float (whose text is not modelled). */
  lemma RawTextAgreesWithNorm(p: Record)
    requires ComputeNormFields(p).habRaw != None
    requires !Get(p, "habitability_percent").VBool? && !Get(p, "habitability_percent").VFloat?
    ensures ToFloatSafe(VStr(ComputeNormFields(p).habRaw.value)) == ComputeNormFields(p).habNorm
  {
    var v := Get(p, "habitability_percent");
    if v.VInt? {
      IntTextIsRead(v.i);
    }
  }

  /** `to_float_safe(str(n))` gives back the integer n. */
  lemma IntTextIsRead(n: int)
    ensures ToFloatSafe(VStr(IntToString(n))) == Some(n as real)
  {
    var ds := NatDigits(if n < 0 then -n else n);
    var text := IntToString(n);
    LiteralHasNoComma(n < 0, ds, "");
    StripOfLiteral(n < 0, ds, "");
    ReadGroupedLiteral(text, false, n < 0, ds, "");
    assert text + "" == text;
    assert UnsignedValue(ds, "") == DigitsValue(ds) as real by {
      assert DigitsValue("") == 0 && Pow10(0) == 1;
    }
    assert LiteralValue(n < 0, ds, "") == n as real;
  }

  lemma LiteralHasNoComma(negative: bool, whole: string, frac: string)
    requires whole != [] && AllDigits(whole) && AllDigits(frac)
    ensures RemoveCommas(Render(negative, whole, frac)) == Render(negative, whole, frac)
  {
    RenderCharacters(negative, whole, frac);
    RemoveCommasNoComma(Render(negative, whole, frac));
  }

  lemma {:induction false} RemoveCommasNoComma(s: string)
    requires forall i :: 0 <= i < |s| ==> s[i] != ','
    ensures RemoveCommas(s) == s
  {
    if s != [] {
      RemoveCommasNoComma(s[1..]);
    }
  }
}
