/** The typeahead logic of the client (static/script.js): the habitability
    a suggestion shows (`getHab`), the canonical form names are compared in
    (`normalizeString`), the three tiers the input handler picks suggestions
    from, and the order, cap and colour class `renderSuggestions` gives
    them. */
module Suggest {
  import opened Wrappers
  import opened Text
  import opened Decimal
  import opened Records
  import opened Sorting
  import Uri

  /** A planet as the client holds it after fetching /api/all. `name` is ""
      when the record has no name, a null one or an empty one (the client
      treats those alike). `habNorm` is the server's
      `habitability_percent_norm`; `habPercent` and `composite` are the raw
      JSON values, VNone standing for a missing key or null. */
  datatype Planet = Planet(name: string, habNorm: Option<real>, habPercent: Value, composite: Value)

  /** JavaScript's `Number(v)` on a JSON value, None standing for NaN. A
      string is trimmed; an empty one is 0, otherwise it must be a decimal
      number text. A list or object is NaN. */
  function JsNumber(v: Value): (r: Option<real>)
    ensures v.VInt? ==> r == Some(v.i as real)
    ensures v.VFloat? ==> r == Some(v.x)
    ensures v.VCompound? ==> r.None?
  {
    match v
    case VNone => Some(0.0)
    case VBool(b) => Some(if b then 1.0 else 0.0)
    case VInt(i) => Some(i as real)
    case VFloat(x, _) => Some(x)
    case VStr(s) =>
      var t := JsTrim(s);
      if t == [] then Some(0.0) else ParseDecimal(t)
    case VCompound(_, _) => None
  }

  /** `getHab`: the habitability percentage a planet shows, None for null. */
  function GetHab(p: Option<Planet>): (r: Option<real>)
    ensures r.Some? ==>
      p.Some? && (p.value.habNorm.Some? || p.value.habPercent != VNone || p.value.composite != VNone)
    ensures p.Some? && p.value.habNorm.Some? ==> r == p.value.habNorm
  {
    if p.None? then None
    else if p.value.habNorm.Some? then p.value.habNorm
    else if p.value.habPercent != VNone then JsNumber(p.value.habPercent)
    else if p.value.composite != VNone then
      match JsNumber(p.value.composite)
      case None => None
      case Some(x) => Some(x * 100.0)
    else None
  }

  /** The server's normalised value wins over everything else. */
  lemma HabNormFirst(p: Planet)
    requires p.habNorm.Some?
    ensures GetHab(Some(p)) == p.habNorm
  {
  }

  /** A present `habitability_percent` decides the answer, even when it is not
      a number and a composite score is there: the composite is consulted
      only when the percentage is missing or null. */
  lemma PercentBeforeComposite(p: Planet, composite: Value)
    requires p.habNorm.None? && p.habPercent != VNone
    ensures GetHab(Some(p)) == GetHab(Some(p.(composite := composite)))
    ensures p.habPercent.VCompound? ==> GetHab(Some(p)).None?
  {
  }

  /** A decimal literal does not start or end with JavaScript whitespace. */
  lemma LiteralUnpadded(negative: bool, whole: string, frac: string)
    requires whole != [] && AllDigits(whole) && AllDigits(frac)
    ensures var lit := Render(negative, whole, frac);
      lit != [] && !IsJsSpace(lit[0]) && !IsJsSpace(lit[|lit| - 1])
  {
    RenderCharacters(negative, whole, frac);
  }

  /** JavaScript reads a decimal literal padded with whitespace as the
      literal's value. */
  lemma PaddedLiteralIsRead(lead: string, negative: bool, whole: string, frac: string, trail: string)
    requires whole != [] && AllDigits(whole) && AllDigits(frac)
    requires AllIn(lead, IsJsSpace) && AllIn(trail, IsJsSpace)
    ensures JsNumber(VStr(lead + Render(negative, whole, frac) + trail)) == Some(LiteralValue(negative, whole, frac))
  {
    var lit := Render(negative, whole, frac);
    LiteralUnpadded(negative, whole, frac);
    StripPadded(lead, lit, trail, IsJsSpace);
    ParseRender(negative, whole, frac);
  }

  /** A percentage written as a decimal literal, padded with whitespace, is
      read with the literal's value. */
  lemma PercentTextIsRead(p: Planet, lead: string, negative: bool, whole: string, frac: string, trail: string)
    requires whole != [] && AllDigits(whole) && AllDigits(frac)
    requires AllIn(lead, IsJsSpace) && AllIn(trail, IsJsSpace)
    requires p.habNorm.None? && p.habPercent == VStr(lead + Render(negative, whole, frac) + trail)
    ensures GetHab(Some(p)) == Some(LiteralValue(negative, whole, frac))
  {
    PaddedLiteralIsRead(lead, negative, whole, frac, trail);
  }

  /** With no percentage, a composite score written as a decimal literal is
      read and scaled to a percentage. */
  lemma CompositeTextIsScaled(p: Planet, lead: string, negative: bool, whole: string, frac: string, trail: string)
    requires whole != [] && AllDigits(whole) && AllDigits(frac)
    requires AllIn(lead, IsJsSpace) && AllIn(trail, IsJsSpace)
    requires p.habNorm.None? && p.habPercent == VNone
    requires p.composite == VStr(lead + Render(negative, whole, frac) + trail)
    ensures GetHab(Some(p)) == Some(LiteralValue(negative, whole, frac) * 100.0)
  {
    PaddedLiteralIsRead(lead, negative, whole, frac, trail);
    CompositeScaled(p, LiteralValue(negative, whole, frac));
  }

  /** The composite score is scaled from a fraction to a percentage. */
  lemma CompositeScaled(p: Planet, v: real)
    requires p.habNorm.None? && p.habPercent == VNone && p.composite != VNone
    requires JsNumber(p.composite) == Some(v)
    ensures GetHab(Some(p)) == Some(v * 100.0)
  {
  }

  /** Nothing to read gives null. */
  lemma NoHabitability(p: Option<Planet>)
    requires p.Some? ==> p.value.habNorm.None? && p.value.habPercent == VNone && p.value.composite == VNone
    ensures GetHab(p).None?
  {
  }

  /** The characters `normalizeString` deletes: `\s` and '-'. */
  predicate Deleted(c: char) {
    IsJsSpace(c) || c == '-'
  }

  /** `normalizeString`: lower-cases and deletes whitespace and hyphens. */
  function NormalizeString(s: string): (r: string)
    ensures forall i :: 0 <= i < |r| ==> !Deleted(r[i]) && !IsUpper(r[i])
  {
    RejectMembers(Lower(s), Deleted);
    Reject(Lower(s), Deleted)
  }

  /** The canonical form has no deleted character and no upper-case letter,
      and keeps every other character of the text, lower-cased. */
  lemma NormalizedForm(s: string)
    ensures var r := NormalizeString(s);
      (forall i :: 0 <= i < |r| ==> !Deleted(r[i]) && !IsUpper(r[i])) &&
      (forall i :: 0 <= i < |s| && !Deleted(LowerChar(s[i])) ==> LowerChar(s[i]) in r)
  {
    var r := NormalizeString(s);
    RejectMembers(Lower(s), Deleted);
    forall i | 0 <= i < |r| ensures !IsUpper(r[i]) {
      assert r[i] in Lower(s);
    }
    forall i | 0 <= i < |s| && !Deleted(LowerChar(s[i])) ensures LowerChar(s[i]) in r {
      assert Lower(s)[i] == LowerChar(s[i]);
    }
  }

  /** Text with no upper-case letter is its own lower case. */
  lemma LowerOfLower(s: string)
    requires forall i :: 0 <= i < |s| ==> !IsUpper(s[i])
    ensures Lower(s) == s
  {
  }

  /** Normalising twice is normalising once. */
  lemma NormalizeIdempotent(s: string)
    ensures NormalizeString(NormalizeString(s)) == NormalizeString(s)
  {
    var r := NormalizeString(s);
    NormalizedForm(s);
    LowerOfLower(r);
    RejectNone(r, Deleted);
  }

  /** Normalising a concatenation normalises each part. */
  lemma NormalizeAppend(a: string, b: string)
    ensures NormalizeString(a + b) == NormalizeString(a) + NormalizeString(b)
  {
    LowerAppend(a, b);
    RejectAppend(Lower(a), Lower(b), Deleted);
  }

  /** A deleted character anywhere in a name does not change its canonical
      form. */
  lemma NormalizeIgnoresDeleted(a: string, c: char, b: string)
    requires Deleted(c)
    ensures NormalizeString(a + [c] + b) == NormalizeString(a + b)
  {
    NormalizeAppend(a + [c], b);
    NormalizeAppend(a, [c]);
    NormalizeAppend(a, b);
    assert Lower([c]) == [c];
    assert Reject([c], Deleted) == [];
  }

  /** The first element f holds of (`Array.prototype.find`, as an index). */
  function FindFirst<T>(s: seq<T>, f: T -> bool): (r: Option<nat>)
    ensures r.Some? ==> r.value < |s| && f(s[r.value]) &&
                        forall j :: 0 <= j < r.value ==> !f(s[j])
    ensures r.None? ==> forall j :: 0 <= j < |s| ==> !f(s[j])
  {
    if s == [] then None
    else if f(s[0]) then Some(0)
    else match FindFirst(s[1..], f)
      case None => None
      case Some(k) => Some(k + 1)
  }

  /** The three tests of the input handler, on the normalised query. Planets
      without a name never match. */
  function IsExact(qNorm: string): Planet -> bool {
    (p: Planet) => p.name != [] && NormalizeString(p.name) == qNorm
  }

  function IsPrefix(qNorm: string): Planet -> bool {
    (p: Planet) => p.name != [] && qNorm <= NormalizeString(p.name)
  }

  function IsInfix(qNorm: string): Planet -> bool {
    (p: Planet) => p.name != [] && Contains(NormalizeString(p.name), qNorm)
  }

  /** The list the input handler renders for the trimmed, non-empty input q:
      the first exact match alone, else every prefix match, else every
      substring match. */
  function Suggestions(planets: seq<Planet>, q: string): (r: seq<Planet>)
    ensures forall i :: 0 <= i < |r| ==> IsInfix(NormalizeString(q))(r[i])
  {
    var qNorm := NormalizeString(q);
    match FindFirst(planets, IsExact(qNorm))
    case Some(k) => [planets[k]]
    case None =>
      var prefix := Select(planets, IsPrefix(qNorm));
      if prefix != [] then prefix else Select(planets, IsInfix(qNorm))
  }

  /** When some planet's name normalises to the query, the one suggestion is
      the first such planet. */
  lemma ExactTier(planets: seq<Planet>, q: string, k: nat)
    requires k < |planets| && IsExact(NormalizeString(q))(planets[k])
    ensures exists m ::
              0 <= m <= k && Suggestions(planets, q) == [planets[m]] &&
              IsExact(NormalizeString(q))(planets[m]) &&
              forall j :: 0 <= j < m ==> !IsExact(NormalizeString(q))(planets[j])
  {
    var m := FindFirst(planets, IsExact(NormalizeString(q))).value;
    assert Suggestions(planets, q) == [planets[m]];
  }

  /** With no exact match but some prefix match, the suggestions are exactly
      the prefix matches. */
  lemma PrefixTier(planets: seq<Planet>, q: string)
    requires forall j :: 0 <= j < |planets| ==> !IsExact(NormalizeString(q))(planets[j])
    requires exists j :: 0 <= j < |planets| && IsPrefix(NormalizeString(q))(planets[j])
    ensures forall p :: p in Suggestions(planets, q) <==>
      p in planets && p.name != [] && NormalizeString(q) <= NormalizeString(p.name)
  {
    var qNorm := NormalizeString(q);
    var prefix := Select(planets, IsPrefix(qNorm));
    SelectMembers(planets, IsPrefix(qNorm));
    var j :| 0 <= j < |planets| && IsPrefix(qNorm)(planets[j]);
    assert planets[j] in prefix;
    assert FindFirst(planets, IsExact(qNorm)).None?;
    assert Suggestions(planets, q) == prefix;
  }

  /** With neither an exact nor a prefix match, the suggestions are exactly
      the substring matches. */
  lemma InfixTier(planets: seq<Planet>, q: string)
    requires forall j :: 0 <= j < |planets| ==> !IsExact(NormalizeString(q))(planets[j])
    requires forall j :: 0 <= j < |planets| ==> !IsPrefix(NormalizeString(q))(planets[j])
    ensures forall p :: p in Suggestions(planets, q) <==>
      p in planets && p.name != [] && Contains(NormalizeString(p.name), NormalizeString(q))
  {
    var qNorm := NormalizeString(q);
    SelectNone(planets, IsPrefix(qNorm));
    SelectMembers(planets, IsInfix(qNorm));
  }

  /** Every suggestion is a named planet whose canonical name contains the
      canonical query; and there are none exactly when no planet's does. */
  lemma SuggestionsMatch(planets: seq<Planet>, q: string)
    ensures forall p :: p in Suggestions(planets, q) ==>
      p in planets && IsInfix(NormalizeString(q))(p)
    ensures Suggestions(planets, q) == [] <==>
      forall j :: 0 <= j < |planets| ==> !IsInfix(NormalizeString(q))(planets[j])
  {
    var qNorm := NormalizeString(q);
    var r := Suggestions(planets, q);
    SelectMembers(planets, IsPrefix(qNorm));
    SelectMembers(planets, IsInfix(qNorm));
    var found := FindFirst(planets, IsExact(qNorm));
    if found.Some? {
      var p := planets[found.value];
      assert Contains(NormalizeString(p.name), qNorm);
      assert IsInfix(qNorm)(planets[found.value]);
      assert r == [p];
    } else if Select(planets, IsPrefix(qNorm)) != [] {
      forall p | p in r ensures IsInfix(qNorm)(p) {
        assert IsPrefix(qNorm)(p);
      }
      var j :| 0 <= j < |planets| && planets[j] == r[0];
      assert IsInfix(qNorm)(planets[j]);
    } else {
      forall j | 0 <= j < |planets| && IsInfix(qNorm)(planets[j]) ensures r != [] {
        assert planets[j] in r;
      }
    }
  }

  /** `MAX_SUG`: the most suggestions the dropdown shows. */
  const MaxSuggestions: nat := 20

  /** A suggestion with the habitability `getHab` gives it (`__hab`). */
  datatype Scored = Scored(planet: Planet, hab: Option<real>)

  function WithHab(planets: seq<Planet>): (r: seq<Scored>)
    ensures |r| == |planets|
    ensures forall i :: 0 <= i < |r| ==> r[i] == Scored(planets[i], GetHab(Some(planets[i])))
  {
    seq(|planets|, i requires 0 <= i < |planets| => Scored(planets[i], GetHab(Some(planets[i]))))
  }

  /** a is strictly more habitable than b; null counts as -Infinity. */
  predicate HabAbove(a: Option<real>, b: Option<real>) {
    a.Some? && (b.None? || a.value > b.value)
  }

  /** The comparator of `renderSuggestions`: habitability descending, then
      name ascending. */
  function SuggestionOrder(): (Scored, Scored) -> bool {
    (a: Scored, b: Scored) =>
      HabAbove(a.hab, b.hab) || (a.hab == b.hab && LexLess(a.planet.name, b.planet.name))
  }

  lemma SuggestionOrderIsKeyOrder()
    ensures IsKeyOrder(SuggestionOrder())
  {
    var lt := SuggestionOrder();
    forall a: Scored, b: Scored | lt(a, b) ensures !lt(b, a) {
      if a.hab == b.hab {
        if LexLess(b.planet.name, a.planet.name) {
          LexLessTransitive(a.planet.name, b.planet.name, a.planet.name);
          LexLessIrreflexive(a.planet.name);
        }
      }
    }
    forall a: Scored, b: Scored, c: Scored | !lt(a, b) && !lt(b, c) ensures !lt(a, c) {
      if a.hab == c.hab && LexLess(a.planet.name, c.planet.name) {
        assert b.hab == a.hab;
        if a.planet.name != b.planet.name {
          LexLessTotal(a.planet.name, b.planet.name);
          LexLessTransitive(b.planet.name, a.planet.name, c.planet.name);
        }
      }
    }
  }

  /** The suggestions `renderSuggestions` shows, in the order it shows them. */
  function Ranked(list: seq<Planet>): (r: seq<Scored>)
    ensures |r| <= MaxSuggestions && |r| <= |list|
  {
    SliceTo(Sort(WithHab(list), SuggestionOrder()), MaxSuggestions)
  }

  /** Shown suggestions come from the list with their own habitability, in
      order of habitability descending (null last) and then of name; there
      are as many as the list holds, up to MAX_SUG. */
  lemma RankedOrder(list: seq<Planet>)
    ensures var r := Ranked(list);
      |r| == (if |list| < MaxSuggestions then |list| else MaxSuggestions) &&
      (forall i :: 0 <= i < |r| ==> r[i].planet in list && r[i].hab == GetHab(Some(r[i].planet))) &&
      (forall i, j :: 0 <= i < j < |r| ==>
        !HabAbove(r[j].hab, r[i].hab) &&
        (r[i].hab == r[j].hab ==> !LexLess(r[j].planet.name, r[i].planet.name)))
  {
    var scored := WithHab(list);
    var sorted := Sort(scored, SuggestionOrder());
    var r := Ranked(list);
    SuggestionOrderIsKeyOrder();
    SortSorted(scored, SuggestionOrder());
    forall i | 0 <= i < |r| ensures r[i].planet in list && r[i].hab == GetHab(Some(r[i].planet)) {
      assert r[i] == sorted[i];
      assert sorted[i] in multiset(scored);
      var k :| 0 <= k < |scored| && scored[k] == sorted[i];
    }
    forall i, j | 0 <= i < j < |r|
      ensures !HabAbove(r[j].hab, r[i].hab) &&
              (r[i].hab == r[j].hab ==> !LexLess(r[j].planet.name, r[i].planet.name))
    {
      assert r[i] == sorted[i] && r[j] == sorted[j];
      assert !SuggestionOrder()(sorted[j], sorted[i]);
    }
  }

  /** A suggestion left out by the cap is not more habitable than any shown
      one, nor equally habitable with an earlier name. */
  lemma RankedIsBest(list: seq<Planet>, p: Planet)
    requires p in list && Scored(p, GetHab(Some(p))) !in Ranked(list)
    ensures forall s :: s in Ranked(list) ==>
      !HabAbove(GetHab(Some(p)), s.hab) &&
      (GetHab(Some(p)) == s.hab ==> !LexLess(p.name, s.planet.name))
  {
    var scored := WithHab(list);
    var x := Scored(p, GetHab(Some(p)));
    var k :| 0 <= k < |list| && list[k] == p;
    assert scored[k] == x;
    SuggestionOrderIsKeyOrder();
    TakeIsBest(scored, SuggestionOrder(), MaxSuggestions, x);
    forall s | s in Ranked(list)
      ensures !HabAbove(GetHab(Some(p)), s.hab) &&
              (GetHab(Some(p)) == s.hab ==> !LexLess(p.name, s.planet.name))
    {
      assert !SuggestionOrder()(x, s);
    }
  }

  /** A list no longer than the cap is shown whole. */
  lemma RankedKeepsShortList(list: seq<Planet>)
    requires |list| <= MaxSuggestions
    ensures multiset(Ranked(list)) == multiset(WithHab(list))
  {
    var sorted := Sort(WithHab(list), SuggestionOrder());
    assert Ranked(list) == sorted;
  }

  /** Suggestions tied on habitability and name keep their order in the
      list: the shown ones tied with y are the first of those in the list,
      and all of them when the list is not cut. */
  lemma RankedTiesKeepOrder(list: seq<Planet>, y: Scored)
    ensures TiedWith(Ranked(list), y, SuggestionOrder()) <= TiedWith(WithHab(list), y, SuggestionOrder())
    ensures |list| <= MaxSuggestions ==>
      TiedWith(Ranked(list), y, SuggestionOrder()) == TiedWith(WithHab(list), y, SuggestionOrder())
  {
    var sorted := Sort(WithHab(list), SuggestionOrder());
    SuggestionOrderIsKeyOrder();
    SortStable(WithHab(list), y, SuggestionOrder());
    assert Ranked(list) == sorted[..|Ranked(list)|];
    TiedWithPrefix(sorted, |Ranked(list)|, y, SuggestionOrder());
    if |list| <= MaxSuggestions {
      assert Ranked(list) == sorted;
    }
  }

  /** The colour class of a suggestion's percentage. */
  function PctClass(hab: Option<real>): (r: string)
    ensures r in {"", "pct-green", "pct-yellow", "pct-red"}
    ensures r == "" <==> hab.None?
  {
    if hab.None? then ""
    else if hab.value > 50.0 then "pct-green"
    else if hab.value > 20.0 then "pct-yellow"
    else "pct-red"
  }

  lemma PctClassBands(hab: Option<real>)
    ensures PctClass(hab) == "pct-green" <==> hab.Some? && hab.value > 50.0
    ensures PctClass(hab) == "pct-yellow" <==> hab.Some? && 20.0 < hab.value <= 50.0
    ensures PctClass(hab) == "pct-red" <==> hab.Some? && hab.value <= 20.0
    ensures PctClass(hab) == "" <==> hab.None?
  {
    assert "pct-green" != "pct-yellow" && "pct-green" != "pct-red" && "pct-yellow" != "pct-red";
    assert "pct-green"[0] != "pct-red"[4];
  }

  /** `Math.round(hab * 100) / 100`: the percentage shown, to two decimals
      (`Math.round` rounds halves up). */
  function ShownPercent(hab: real): real {
    ((hab * 100.0 + 0.5).Floor as real) / 100.0
  }

  lemma ShownPercentIsClose(hab: real)
    ensures hab - 0.005 < ShownPercent(hab) <= hab + 0.005
  {
    var f := (hab * 100.0 + 0.5).Floor;
    assert hab * 100.0 + 0.5 - 1.0 < f as real <= hab * 100.0 + 0.5;
  }

  /** The name a suggestion shows (`p.name || 'Unknown'`). */
  function Label(p: Planet): (l: string)
    ensures l != []
    ensures p.name != [] ==> l == p.name
  {
    if p.name != [] then p.name else "Unknown"
  }

  const PlanetPath: string := "/planet?name="

  /** The link of a suggestion. */
  function Href(p: Planet): string {
    PlanetPath + Uri.EncodeURIComponent(Label(p))
  }

  /** A suggestion's link is never empty and names the planet's page: its
      query decodes back to the shown name. */
  lemma HrefNamesPlanet(p: Planet)
    ensures Href(p) != [] && Href(p)[..|PlanetPath|] == PlanetPath
    ensures Uri.DecodeURIComponent(Href(p)[|PlanetPath|..]) == Some(Label(p))
  {
    Uri.DecodeEncode(Label(p));
    assert Href(p)[|PlanetPath|..] == Uri.EncodeURIComponent(Label(p));
  }
}
