/** The selection and ordering logic of the server's routes (app.py):
    `/planet` (planet_page), `/api/search`, `/api/top` and `/api/random`.
    PLANETS, the request arguments and the random choice are parameters;
    rendering templates and JSON is left to the caller. */
module Api {
  import opened Wrappers
  import opened Text
  import opened Records
  import opened Sorting

  /** Why a route answers with an error: Python raised (HTTP 500), or there
      is no planet to choose from (HTTP 404). */
  datatype Fault = ServerError | NoPlanets

  /** The `limit` request argument: absent (the route's default applies), a
      text `int()` accepts, or one it rejects (ValueError). */
  datatype LimitArg = Missing | Given(n: int) | Invalid

  function LimitOr(arg: LimitArg, default: int): Result<int, Fault> {
    match arg
    case Missing => Ok(default)
    case Given(n) => Ok(n)
    case Invalid => Err(ServerError)
  }

  /** How the routes see `p.get("name")`: a falsy value is skipped, a
      non-empty string is used, and any other truthy value raises
      AttributeError at `.lower()`. */
  datatype Name = Falsy | Named(text: string) | NotText

  function NameOf(p: Record): Name {
    var v := Get(p, "name");
    if !Truthy(v) then Falsy else if v.VStr? then Named(v.s) else NotText
  }

  /** The lower-cased name equals n. */
  predicate Exact(p: Record, n: string) {
    NameOf(p).Named? && Lower(NameOf(p).text) == n
  }

  /** n occurs in the lower-cased name. */
  predicate Infix(p: Record, n: string) {
    NameOf(p).Named? && Contains(Lower(NameOf(p).text), n)
  }

  predicate HasBadName(ps: seq<Record>) {
    exists j :: 0 <= j < |ps| && NameOf(ps[j]).NotText?
  }

  /** `[compute_norm_fields(p) for p in PLANETS]` */
  function NormAll(ps: seq<Record>): (r: seq<NormPlanet>)
    ensures |r| == |ps|
    ensures forall i :: 0 <= i < |ps| ==> r[i] == ComputeNormFields(ps[i])
  {
    seq(|ps|, i requires 0 <= i < |ps| => ComputeNormFields(ps[i]))
  }

  // ---------------------------------------------------------------- /planet

  /** What `/planet` answers. */
  datatype Page = RedirectToExplorer | Found(planet: NormPlanet) | NotFound(name: string) | PageError

  /** The first loop of planet_page from index i on: the index of the first
      planet whose lower-cased name equals n, unless a planet with a truthy
      non-string name comes first. */
  function ExactFrom(ps: seq<Record>, n: string, i: nat): (r: Result<Option<nat>, Fault>)
    requires i <= |ps|
    ensures r.Ok? && r.value.Some? ==>
      var k := r.value.value;
      i <= k < |ps| && Exact(ps[k], n) &&
      forall j :: i <= j < k ==> !NameOf(ps[j]).NotText? && !Exact(ps[j], n)
    ensures r == Ok(None) ==>
      forall j :: i <= j < |ps| ==> !NameOf(ps[j]).NotText? && !Exact(ps[j], n)
    ensures r.Err? ==>
      exists j :: i <= j < |ps| && NameOf(ps[j]).NotText? &&
        forall m :: i <= m < j ==> !Exact(ps[m], n)
    decreases |ps| - i
  {
    if i == |ps| then Ok(None)
    else if NameOf(ps[i]).NotText? then Err(ServerError)
    else if Exact(ps[i], n) then Ok(Some(i))
    else ExactFrom(ps, n, i + 1)
  }

  /** The second loop of planet_page: the first planet whose lower-cased
      name contains n. */
  function InfixFrom(ps: seq<Record>, n: string, i: nat): (r: Result<Option<nat>, Fault>)
    requires i <= |ps|
    ensures r.Ok? && r.value.Some? ==>
      var k := r.value.value;
      i <= k < |ps| && Infix(ps[k], n) &&
      forall j :: i <= j < k ==> !NameOf(ps[j]).NotText? && !Infix(ps[j], n)
    ensures r == Ok(None) ==>
      forall j :: i <= j < |ps| ==> !NameOf(ps[j]).NotText? && !Infix(ps[j], n)
    ensures r.Err? ==> exists j :: i <= j < |ps| && NameOf(ps[j]).NotText?
    decreases |ps| - i
  {
    if i == |ps| then Ok(None)
    else if NameOf(ps[i]).NotText? then Err(ServerError)
    else if Infix(ps[i], n) then Ok(Some(i))
    else InfixFrom(ps, n, i + 1)
  }

  /** planet_page's answer for the `name` argument `arg`. */
  function PageAnswer(ps: seq<Record>, arg: string): Page {
    var name := PyStrip(arg);
    if name == [] then RedirectToExplorer
    else
      match ExactFrom(ps, Lower(name), 0)
      case Err(_) => PageError
      case Ok(Some(k)) => Found(ComputeNormFields(ps[k]))
      case Ok(None) =>
        match InfixFrom(ps, Lower(name), 0)
        case Err(_) => PageError
        case Ok(Some(k)) => Found(ComputeNormFields(ps[k]))
        case Ok(None) => NotFound(name)
  }

  method PlanetPage(planets: seq<Record>, arg: string) returns (page: Page)
    ensures page == PageAnswer(planets, arg)
  {
    var name := PyStrip(arg);
    if name == [] {
      return RedirectToExplorer;
    }
    var n := Lower(name);
    for i := 0 to |planets|
      invariant ExactFrom(planets, n, 0) == ExactFrom(planets, n, i)
    {
      match NameOf(planets[i])
      case Falsy =>
      case NotText =>
        return PageError;
      case Named(s) =>
        if Lower(s) == n {
          return Found(ComputeNormFields(planets[i]));
        }
    }
    for i := 0 to |planets|
      invariant InfixFrom(planets, n, 0) == InfixFrom(planets, n, i)
    {
      match NameOf(planets[i])
      case Falsy =>
      case NotText =>
        return PageError;
      case Named(s) =>
        if Contains(Lower(s), n) {
          return Found(ComputeNormFields(planets[i]));
        }
    }
    return NotFound(name);
  }

  /** The first exact match wins, wherever a partial match stands. */
  lemma PageFindsFirstExact(ps: seq<Record>, arg: string, k: nat)
    requires k < |ps| && Exact(ps[k], Lower(PyStrip(arg)))
    requires forall j :: 0 <= j < k ==>
      !NameOf(ps[j]).NotText? && !Exact(ps[j], Lower(PyStrip(arg)))
    ensures PageAnswer(ps, arg) == Found(ComputeNormFields(ps[k]))
  {
    var n := Lower(PyStrip(arg));
    assert |n| == |PyStrip(arg)|;
    ExactFromFinds(ps, n, 0, k);
  }

  lemma {:induction false} ExactFromFinds(ps: seq<Record>, n: string, i: nat, k: nat)
    requires i <= k < |ps| && Exact(ps[k], n)
    requires forall j :: i <= j < k ==> !NameOf(ps[j]).NotText? && !Exact(ps[j], n)
    ensures ExactFrom(ps, n, i) == Ok(Some(k))
    decreases k - i
  {
    if i < k {
      ExactFromFinds(ps, n, i + 1, k);
    }
  }

  /** A found planet's lower-cased name contains the stripped, lower-cased
      argument. */
  lemma PageFoundMatches(ps: seq<Record>, arg: string)
    requires PageAnswer(ps, arg).Found?
    ensures exists k :: 0 <= k < |ps| && Infix(ps[k], Lower(PyStrip(arg))) &&
                        PageAnswer(ps, arg).planet == ComputeNormFields(ps[k])
  {
    var n := Lower(PyStrip(arg));
    match ExactFrom(ps, n, 0)
    case Ok(Some(k)) =>
      var s := Lower(NameOf(ps[k]).text);
      assert s <= s;
      assert Infix(ps[k], n);
    case Ok(None) =>
      var k := InfixFrom(ps, n, 0).value.value;
      assert Infix(ps[k], n);
  }

  /** "Not found" means no planet's name contains the stripped argument, and
      the page echoes that argument. An error needs a truthy non-string
      name. */
  lemma PageMisses(ps: seq<Record>, arg: string)
    ensures PageAnswer(ps, arg).NotFound? ==>
      PageAnswer(ps, arg).name == PyStrip(arg) != [] &&
      forall j :: 0 <= j < |ps| ==> !Infix(ps[j], Lower(PyStrip(arg)))
    ensures PageAnswer(ps, arg).PageError? ==> HasBadName(ps)
    ensures PageAnswer(ps, arg) == RedirectToExplorer <==> PyStrip(arg) == []
  {
    var n := Lower(PyStrip(arg));
    if PyStrip(arg) != [] {
      match ExactFrom(ps, n, 0)
      case Err(_) =>
      case Ok(Some(_)) =>
      case Ok(None) =>
    }
  }

  // ------------------------------------------------------------ /api/search

  /** The query as api_search reads it: lower-cased, then stripped. */
  function SearchQuery(arg: string): string {
    PyStrip(Lower(arg))
  }

  /** The `matches` list after the loop has seen ps. */
  function Matches(ps: seq<Record>, q: string): seq<NormPlanet> {
    if ps == [] then []
    else
      var last := ps[|ps| - 1];
      Matches(ps[..|ps| - 1], q) + (if Infix(last, q) then [ComputeNormFields(last)] else [])
  }

  /** Every match is the normalisation of a planet whose lower-cased name
      contains the query. */
  lemma {:induction false} MatchesSound(ps: seq<Record>, q: string)
    ensures forall np :: np in Matches(ps, q) ==>
      exists j :: 0 <= j < |ps| && Infix(ps[j], q) && np == ComputeNormFields(ps[j])
  {
    if ps != [] {
      var init := ps[..|ps| - 1];
      MatchesSound(init, q);
      forall np | np in Matches(ps, q)
        ensures exists j :: 0 <= j < |ps| && Infix(ps[j], q) && np == ComputeNormFields(ps[j])
      {
        if np in Matches(init, q) {
          var j :| 0 <= j < |init| && Infix(init[j], q) && np == ComputeNormFields(init[j]);
          assert init[j] == ps[j];
        } else {
          assert Infix(ps[|ps| - 1], q) && np == ComputeNormFields(ps[|ps| - 1]);
        }
      }
    }
  }

  /** Every planet whose lower-cased name contains the query is matched. */
  lemma {:induction false} MatchesComplete(ps: seq<Record>, q: string)
    ensures forall j :: 0 <= j < |ps| && Infix(ps[j], q) ==> ComputeNormFields(ps[j]) in Matches(ps, q)
  {
    if ps != [] {
      var init := ps[..|ps| - 1];
      MatchesComplete(init, q);
      forall j | 0 <= j < |ps| && Infix(ps[j], q)
        ensures ComputeNormFields(ps[j]) in Matches(ps, q)
      {
        if j < |init| {
          assert init[j] == ps[j];
          assert ComputeNormFields(ps[j]) in Matches(init, q);
        } else {
          assert ps[j] == ps[|ps| - 1];
        }
      }
    }
  }

  /** The name of a normalised planet, as a string ("" when it is not one). */
  function NameText(np: NormPlanet): string {
    var v := Get(np.fields, "name");
    if v.VStr? then v.s else ""
  }

  predicate StartsWith(np: NormPlanet, q: string) {
    q <= Lower(NameText(np))
  }

  /** `m["name"].lower().startswith(q)`, the test the two comprehensions
      of api_search split `matches` by. */
  function Prefixed(q: string): NormPlanet -> bool {
    np => StartsWith(np, q)
  }

  /** api_search's answer. */
  function SearchAnswer(ps: seq<Record>, arg: string, limitArg: LimitArg): Result<seq<NormPlanet>, Fault> {
    match LimitOr(limitArg, 10)
    case Err(e) => Err(e)
    case Ok(limit) =>
      var q := SearchQuery(arg);
      if q == [] then Ok([])
      else if HasBadName(ps) then Err(ServerError)
      else
        var ms := Matches(ps, q);
        Ok(SliceTo(Select(ms, Prefixed(q)) + Reject(ms, Prefixed(q)), limit))
  }

  method ApiSearch(planets: seq<Record>, arg: string, limitArg: LimitArg)
    returns (r: Result<seq<NormPlanet>, Fault>)
    ensures r == SearchAnswer(planets, arg, limitArg)
  {
    var limit;
    match LimitOr(limitArg, 10)
    case Err(e) =>
      return Err(e);
    case Ok(n) =>
      limit := n;
    var q := PyStrip(Lower(arg));
    if q == [] {
      return Ok([]);
    }
    var matches := [];
    for i := 0 to |planets|
      invariant matches == Matches(planets[..i], q)
      invariant !HasBadName(planets[..i])
    {
      assert planets[..i + 1][..i] == planets[..i];
      match NameOf(planets[i])
      case Falsy =>
      case NotText =>
        assert HasBadName(planets) by {
          assert NameOf(planets[i]).NotText?;
        }
        return Err(ServerError);
      case Named(name) =>
        if Contains(Lower(name), q) {
          matches := matches + [ComputeNormFields(planets[i])];
        }
    }
    assert planets[..|planets|] == planets;
    var ordered := Select(matches, Prefixed(q)) + Reject(matches, Prefixed(q));
    return Ok(SliceTo(ordered, limit));
  }

  /** Every result is the normalisation of a planet whose lower-cased name
      contains the query; prefix matches come first; `limit` of the matches
      come back (10 by default), or all of them when there are fewer, and a
      negative limit drops that many from the end. */
  lemma SearchSound(ps: seq<Record>, arg: string, limitArg: LimitArg)
    requires SearchAnswer(ps, arg, limitArg).Ok?
    ensures var r := SearchAnswer(ps, arg, limitArg).value;
      var q := SearchQuery(arg);
      (forall np :: np in r ==>
        exists j :: 0 <= j < |ps| && Infix(ps[j], q) && np == ComputeNormFields(ps[j])) &&
      (forall i, j :: 0 <= i < j < |r| && StartsWith(r[j], q) ==> StartsWith(r[i], q)) &&
      (limitArg.Given? && limitArg.n >= 0 ==> |r| <= limitArg.n) &&
      (limitArg.Missing? ==> |r| <= 10)
    ensures var r := SearchAnswer(ps, arg, limitArg).value;
      var q := SearchQuery(arg);
      var found := |Matches(ps, q)|;
      q != [] ==>
        (limitArg.Missing? ==> |r| == if found < 10 then found else 10) &&
        (limitArg.Given? && limitArg.n >= 0 ==> |r| == if found < limitArg.n then found else limitArg.n) &&
        (limitArg.Given? && limitArg.n < 0 ==> |r| == if found + limitArg.n > 0 then found + limitArg.n else 0)
  {
    var q := SearchQuery(arg);
    var r := SearchAnswer(ps, arg, limitArg).value;
    if q != [] {
      var ms := Matches(ps, q);
      SearchSlice(ps, arg, limitArg);
      MatchesSound(ps, q);
      SplitPrefix(ms, Prefixed(q), r);
      forall i, j | 0 <= i < j < |r| && StartsWith(r[j], q)
        ensures StartsWith(r[i], q)
      {
        assert Prefixed(q)(r[j]);
      }
    }
  }

  /** The answer to a non-empty query is the slice of the split matches,
      which are as many as the matches. */
  lemma SearchSlice(ps: seq<Record>, arg: string, limitArg: LimitArg)
    requires SearchAnswer(ps, arg, limitArg).Ok? && SearchQuery(arg) != []
    ensures var q := SearchQuery(arg);
      var ms := Matches(ps, q);
      var ordered := Select(ms, Prefixed(q)) + Reject(ms, Prefixed(q));
      |ordered| == |ms| &&
      SearchAnswer(ps, arg, limitArg).value == SliceTo(ordered, LimitOr(limitArg, 10).value)
  {
    var q := SearchQuery(arg);
    var ms := Matches(ps, q);
    var ordered := Select(ms, Prefixed(q)) + Reject(ms, Prefixed(q));
    SplitPermutes(ms, Prefixed(q));
    assert |multiset(ordered)| == |multiset(ms)|;
  }

  /** Within each group, prefix matches and the rest, results come in the
      order of their planets in the list: `at` gives each result's planet. */
  lemma SearchKeepsOrder(ps: seq<Record>, arg: string, limitArg: LimitArg) returns (at: seq<nat>)
    requires SearchAnswer(ps, arg, limitArg).Ok?
    ensures var r := SearchAnswer(ps, arg, limitArg).value;
      var q := SearchQuery(arg);
      |at| == |r| &&
      (forall k :: 0 <= k < |r| ==>
        at[k] < |ps| && Infix(ps[at[k]], q) && r[k] == ComputeNormFields(ps[at[k]])) &&
      (forall i, j :: 0 <= i < j < |r| && (StartsWith(r[i], q) <==> StartsWith(r[j], q)) ==>
        at[i] < at[j])
  {
    var q := SearchQuery(arg);
    var r := SearchAnswer(ps, arg, limitArg).value;
    if q == [] {
      at := [];
    } else {
      var ms := Matches(ps, q);
      var found := MatchesInOrder(ps, q);
      SearchSlice(ps, arg, limitArg);
      var pos := SplitPositions(ms, Prefixed(q), r);
      at := seq(|r|, k requires 0 <= k < |r| => found[pos[k]]);
      forall i, j | 0 <= i < j < |r| && (StartsWith(r[i], q) <==> StartsWith(r[j], q))
        ensures at[i] < at[j]
      {
        assert Prefixed(q)(r[i]) == StartsWith(r[i], q) && Prefixed(q)(r[j]) == StartsWith(r[j], q);
        assert pos[i] < pos[j];
      }
    }
  }

  /** The slice keeps the best matches: a matching planet left out is a
      prefix match only when every result is one, and the results of its
      own group (prefix matches, or the rest) are the first matches of that
      group, all before it. `Matches` lists planets in PLANETS order. */
  lemma SearchIsBest(ps: seq<Record>, arg: string, limitArg: LimitArg, j: nat)
    requires SearchAnswer(ps, arg, limitArg).Ok?
    requires j < |ps| && Infix(ps[j], SearchQuery(arg))
    requires ComputeNormFields(ps[j]) !in SearchAnswer(ps, arg, limitArg).value
    ensures var r := SearchAnswer(ps, arg, limitArg).value;
      var q := SearchQuery(arg);
      var x := ComputeNormFields(ps[j]);
      StartsWith(x, q) ==> forall i :: 0 <= i < |r| ==> StartsWith(r[i], q)
    ensures var r := SearchAnswer(ps, arg, limitArg).value;
      var q := SearchQuery(arg);
      var ms := Matches(ps, q);
      var x := ComputeNormFields(ps[j]);
      var group := if StartsWith(x, q) then Select(ms, Prefixed(q)) else Reject(ms, Prefixed(q));
      var kept := if StartsWith(x, q) then Select(r, Prefixed(q)) else Reject(r, Prefixed(q));
      kept <= group && forall m :: 0 <= m < |group| && group[m] == x ==> |kept| <= m
  {
    var q := SearchQuery(arg);
    var ms := Matches(ps, q);
    var r := SearchAnswer(ps, arg, limitArg).value;
    var x := ComputeNormFields(ps[j]);
    if q != [] {
      MatchesComplete(ps, q);
      assert x in ms;
      SearchSlice(ps, arg, limitArg);
      var ordered := Select(ms, Prefixed(q)) + Reject(ms, Prefixed(q));
      assert |r| <= |ordered| && r == ordered[..|r|];
      SplitLeavesOut(ms, Prefixed(q), r, x);
      assert Prefixed(q)(x) == StartsWith(x, q);
      assert forall i :: 0 <= i < |r| ==> Prefixed(q)(r[i]) == StartsWith(r[i], q);
    }
  }

  /** With matches and a positive limit the answer is not empty, and its
      first result is the first prefix match in PLANETS order, or the first
      match when no match is a prefix match: what `limit=1` answers. */
  lemma SearchFirst(ps: seq<Record>, arg: string, limitArg: LimitArg)
    requires SearchAnswer(ps, arg, limitArg).Ok?
    requires limitArg.Missing? || (limitArg.Given? && limitArg.n >= 1)
    requires SearchQuery(arg) != [] && Matches(ps, SearchQuery(arg)) != []
    ensures var r := SearchAnswer(ps, arg, limitArg).value;
      var q := SearchQuery(arg);
      var ms := Matches(ps, q);
      var prefix := Select(ms, Prefixed(q));
      r != [] && r[0] == if prefix != [] then prefix[0] else ms[0]
  {
    var q := SearchQuery(arg);
    var ms := Matches(ps, q);
    var r := SearchAnswer(ps, arg, limitArg).value;
    var prefix := Select(ms, Prefixed(q));
    SearchSlice(ps, arg, limitArg);
    assert r == (prefix + Reject(ms, Prefixed(q)))[..|r|];
    if prefix == [] {
      SelectMembers(ms, Prefixed(q));
      assert forall i :: 0 <= i < |ms| ==> !Prefixed(q)(ms[i]) by {
        forall i | 0 <= i < |ms| ensures !Prefixed(q)(ms[i]) {
          assert ms[i] in ms;
        }
      }
      RejectNone(ms, Prefixed(q));
    }
  }

  /** The planets `Matches` keeps, by their index in ps: in increasing
      order, each with a name that contains q. */
  lemma {:induction false} MatchesInOrder(ps: seq<Record>, q: string) returns (at: seq<nat>)
    ensures |at| == |Matches(ps, q)|
    ensures forall k :: 0 <= k < |at| ==>
      at[k] < |ps| && Infix(ps[at[k]], q) && Matches(ps, q)[k] == ComputeNormFields(ps[at[k]])
    ensures forall k, l :: 0 <= k < l < |at| ==> at[k] < at[l]
  {
    if ps == [] {
      at := [];
    } else {
      var init := ps[..|ps| - 1];
      var before := MatchesInOrder(init, q);
      at := before + (if Infix(ps[|ps| - 1], q) then [|ps| - 1] else []);
      forall k | 0 <= k < |before| ensures init[before[k]] == ps[before[k]] {
      }
    }
  }

  /** With a large enough limit every planet whose name contains the query
      comes back, and the answer fails only for a truthy non-string name. */
  lemma SearchComplete(ps: seq<Record>, arg: string, limit: int)
    requires SearchQuery(arg) != [] && !HasBadName(ps)
    requires limit >= |ps|
    ensures SearchAnswer(ps, arg, Given(limit)).Ok?
    ensures forall j :: 0 <= j < |ps| && Infix(ps[j], SearchQuery(arg)) ==>
      ComputeNormFields(ps[j]) in SearchAnswer(ps, arg, Given(limit)).value
  {
    var q := SearchQuery(arg);
    var ms := Matches(ps, q);
    SplitPermutes(ms, Prefixed(q));
    MatchesLength(ps, q);
    MatchesComplete(ps, q);
    var ordered := Select(ms, Prefixed(q)) + Reject(ms, Prefixed(q));
    assert SliceTo(ordered, limit) == ordered;
    forall j | 0 <= j < |ps| && Infix(ps[j], q)
      ensures ComputeNormFields(ps[j]) in ordered
    {
      assert ComputeNormFields(ps[j]) in multiset(ms);
    }
  }

  lemma {:induction false} MatchesLength(ps: seq<Record>, q: string)
    ensures |Matches(ps, q)| <= |ps|
  {
    if ps != [] {
      MatchesLength(ps[..|ps| - 1], q);
    }
  }

  /** An empty query answers `[]` and a truthy non-string name with the
      query set fails; a rejected limit fails first. */
  lemma SearchFailures(ps: seq<Record>, arg: string, limitArg: LimitArg)
    ensures limitArg.Invalid? ==> SearchAnswer(ps, arg, limitArg) == Err(ServerError)
    ensures !limitArg.Invalid? && SearchQuery(arg) == [] ==> SearchAnswer(ps, arg, limitArg) == Ok([])
    ensures !limitArg.Invalid? && SearchQuery(arg) != [] ==>
      (SearchAnswer(ps, arg, limitArg).Err? <==> HasBadName(ps))
  {
  }

  // --------------------------------------------------------------- /api/top

  /** The ranked categories of api_top; "most_hot" and "most_temperature"
      name the same one. */
  datatype Category =
    | MostHabitable | MostHot | MostMass | LargestRadius | Coldest | MostDense
    | HighestGravity | LowestGravity | LongestOrbit | ShortestOrbit

  function ParseCategory(cat: string): Option<Category> {
    if cat == "most_habitable" then Some(MostHabitable)
    else if cat == "most_hot" || cat == "most_temperature" then Some(MostHot)
    else if cat == "most_mass" then Some(MostMass)
    else if cat == "largest_radius" then Some(LargestRadius)
    else if cat == "coldest" then Some(Coldest)
    else if cat == "most_dense" then Some(MostDense)
    else if cat == "highest_gravity" then Some(HighestGravity)
    else if cat == "lowest_gravity" then Some(LowestGravity)
    else if cat == "longest_orbital_period" then Some(LongestOrbit)
    else if cat == "shortest_orbital_period" then Some(ShortestOrbit)
    else None
  }

  /** The categories sorted with `reverse=True`. */
  predicate Descending(c: Category) {
    !(c.Coldest? || c.LowestGravity? || c.ShortestOrbit?)
  }

  /** What the loop of a category does with one planet: leave it out, rank
      it by a number, or raise. */
  datatype Key = Skip | Keep(k: real) | Raise

  function KeyOf(v: Option<real>): Key {
    if v.Some? then Keep(v.value) else Skip
  }

  /** The sort key api_top gives planet p in category c. Python's `a or b`
      picks the first truthy field, so a zero mass falls back to pl_bmasse. */
  function SortKey(c: Category, p: Record): (r: Key)
    ensures r.Raise? ==> c == MostHabitable && "name" in p && !p["name"].VStr?
    ensures c == MostHabitable && r.Keep? && "name" in p ==>
      p["name"].VStr? && Lower(p["name"].s) != "earth"
  {
    match c
    case MostHabitable =>
      var hn := ComputeNormFields(p).habNorm;
      if hn.None? then Skip
      else if "name" !in p then Keep(hn.value)
      else if !p["name"].VStr? then Raise
      else if Lower(p["name"].s) == "earth" then Skip
      else Keep(hn.value)
    case MostHot => KeyOf(ComputeNormFields(p).tempNorm)
    case Coldest => KeyOf(ComputeNormFields(p).tempNorm)
    case MostMass =>
      KeyOf(ToFloatSafe(Or(Or(Get(p, "mass"), Get(p, "pl_bmasse")), Get(p, "bmasse"))))
    case LargestRadius =>
      KeyOf(ToFloatSafe(Or(Or(Get(p, "radius"), Get(p, "pl_rade")), Get(p, "pl_rade"))))
    case MostDense => KeyOf(ToFloatSafe(Or(Get(p, "density_rel"), Get(p, "density"))))
    case HighestGravity => KeyOf(ToFloatSafe(Get(p, "surface_gravity")))
    case LowestGravity => KeyOf(ToFloatSafe(Get(p, "surface_gravity")))
    case LongestOrbit => KeyOf(ToFloatSafe(Get(p, "orbital_period_days")))
    case ShortestOrbit => KeyOf(ToFloatSafe(Get(p, "orbital_period_days")))
  }

  /** One `(key, planet)` pair of `arr`. */
  datatype Entry = Entry(key: real, planet: NormPlanet)

  /** The key function of category c. */
  function KeyFor(c: Category): Record -> Key {
    p => SortKey(c, p)
  }

  /** The entry holds its planet's norm fields and its key. */
  predicate KeyedRight(key: Record -> Key, e: Entry) {
    e.planet == ComputeNormFields(e.planet.fields) && key(e.planet.fields) == Keep(e.key)
  }

  /** `arr` after the loop has seen ps, or the error one of them raised. */
  function Keyed(key: Record -> Key, ps: seq<Record>): Result<seq<Entry>, Fault> {
    if ps == [] then Ok([])
    else
      match Keyed(key, ps[..|ps| - 1])
      case Err(e) => Err(e)
      case Ok(arr) =>
        var last := ps[|ps| - 1];
        match key(last)
        case Skip => Ok(arr)
        case Raise => Err(ServerError)
        case Keep(k) => Ok(arr + [Entry(k, ComputeNormFields(last))])
  }

  /** Every entry carries its planet's key and comes from the list. */
  lemma {:induction false} KeyedSound(key: Record -> Key, ps: seq<Record>)
    requires Keyed(key, ps).Ok?
    ensures forall e :: e in Keyed(key, ps).value ==> KeyedRight(key, e) && e.planet.fields in ps
  {
    if ps != [] {
      var init := ps[..|ps| - 1];
      KeyedSound(key, init);
      assert forall p :: p in init ==> p in ps;
    }
  }

  /** Every planet with a key has its entry. */
  lemma {:induction false} KeyedComplete(key: Record -> Key, ps: seq<Record>, j: nat)
    requires Keyed(key, ps).Ok?
    requires j < |ps| && key(ps[j]).Keep?
    ensures Entry(key(ps[j]).k, ComputeNormFields(ps[j])) in Keyed(key, ps).value
  {
    var init := ps[..|ps| - 1];
    KeyedStep(key, ps);
    var arr := Keyed(key, init).value;
    if j < |init| {
      KeyedComplete(key, init, j);
      assert init[j] == ps[j];
      assert Entry(key(ps[j]).k, ComputeNormFields(ps[j])) in arr;
    } else {
      assert ps[j] == ps[|ps| - 1];
    }
  }

  /** One step of the loop: the entries of all but the last planet, then the
      last planet's entry when it has a key. */
  lemma {:induction false} KeyedStep(key: Record -> Key, ps: seq<Record>)
    requires ps != [] && Keyed(key, ps).Ok?
    ensures Keyed(key, ps[..|ps| - 1]).Ok?
    ensures var last := ps[|ps| - 1];
      Keyed(key, ps).value == Keyed(key, ps[..|ps| - 1]).value +
        (if key(last).Keep? then [Entry(key(last).k, ComputeNormFields(last))] else [])
  {
  }

  /** The loop raises exactly when some planet's key raises. */
  lemma {:induction false} KeyedFails(key: Record -> Key, ps: seq<Record>)
    ensures Keyed(key, ps).Err? <==> exists j :: 0 <= j < |ps| && key(ps[j]).Raise?
    ensures Keyed(key, ps).Err? ==> Keyed(key, ps).error == ServerError
  {
    if ps != [] {
      var init := ps[..|ps| - 1];
      var last := ps[|ps| - 1];
      KeyedFails(key, init);
      if Keyed(key, init).Err? {
        var j :| 0 <= j < |init| && key(init[j]).Raise?;
        assert init[j] == ps[j];
      } else if !key(last).Raise? {
        forall j | 0 <= j < |ps| ensures !key(ps[j]).Raise? {
          if j < |init| {
            assert init[j] == ps[j];
          }
        }
      }
    }
  }

  /** The order `arr.sort(key=lambda x: x[0], reverse=...)` sorts by. */
  function Before(descending: bool): (Entry, Entry) -> bool {
    (a: Entry, b: Entry) => if descending then a.key > b.key else a.key < b.key
  }

  lemma BeforeIsKeyOrder(descending: bool)
    ensures IsKeyOrder(Before(descending))
  {
  }

  /** `[p for _, p in arr]` */
  function PlanetsOf(arr: seq<Entry>): (r: seq<NormPlanet>)
    ensures |r| == |arr|
    ensures forall i :: 0 <= i < |arr| ==> r[i] == arr[i].planet
  {
    seq(|arr|, i requires 0 <= i < |arr| => arr[i].planet)
  }

  /** The ranked planets of category c, best first. */
  function Ranked(c: Category, arr: seq<Entry>): seq<NormPlanet> {
    PlanetsOf(Sort(arr, Before(Descending(c))))
  }

  /** api_top's answer. */
  function TopAnswer(ps: seq<Record>, cat: string, limitArg: LimitArg): Result<seq<NormPlanet>, Fault> {
    match LimitOr(limitArg, 5)
    case Err(e) => Err(e)
    case Ok(limit) =>
      match ParseCategory(cat)
      case None => Ok(SliceTo(NormAll(ps), limit))
      case Some(c) =>
        match Keyed(KeyFor(c), ps)
        case Err(e) => Err(e)
        case Ok(arr) => Ok(SliceTo(Ranked(c, arr), limit))
  }

  method ApiTop(planets: seq<Record>, cat: string, limitArg: LimitArg)
    returns (r: Result<seq<NormPlanet>, Fault>)
    ensures r == TopAnswer(planets, cat, limitArg)
  {
    var limit;
    match LimitOr(limitArg, 5)
    case Err(e) =>
      return Err(e);
    case Ok(n) =>
      limit := n;
    var category := ParseCategory(cat);
    if category.None? {
      return Ok(SliceTo(NormAll(planets), limit));
    }
    var c := category.value;
    var key := KeyFor(c);
    var arr := [];
    for i := 0 to |planets|
      invariant Keyed(key, planets[..i]) == Ok(arr)
    {
      assert planets[..i + 1][..i] == planets[..i];
      match key(planets[i])
      case Skip =>
      case Raise =>
        assert key(planets[i]).Raise?;
        KeyedFails(key, planets);
        return Err(ServerError);
      case Keep(k) =>
        arr := arr + [Entry(k, ComputeNormFields(planets[i]))];
    }
    assert planets[..|planets|] == planets;
    var sorted := Sort(arr, Before(Descending(c)));
    return Ok(SliceTo(PlanetsOf(sorted), limit));
  }

  /** The sorted entries are the entries, best key first. */
  lemma SortedEntries(key: Record -> Key, descending: bool, arr: seq<Entry>)
    requires forall e :: e in arr ==> KeyedRight(key, e)
    ensures var sorted := Sort(arr, Before(descending));
      (forall e :: e in sorted ==> KeyedRight(key, e) && e in arr) &&
      (forall i, j :: 0 <= i < j < |sorted| ==>
        if descending then sorted[i].key >= sorted[j].key else sorted[i].key <= sorted[j].key)
  {
    var sorted := Sort(arr, Before(descending));
    BeforeIsKeyOrder(descending);
    SortSorted(arr, Before(descending));
    forall e | e in sorted ensures e in arr {
      assert e in multiset(arr);
    }
    forall i, j | 0 <= i < j < |sorted|
      ensures if descending then sorted[i].key >= sorted[j].key else sorted[i].key <= sorted[j].key
    {
      assert !Before(descending)(sorted[j], sorted[i]);
    }
  }

  /** A ranked category's answer is the slice of its ranking, which holds
      one planet per entry. */
  lemma TopSlice(ps: seq<Record>, cat: string, limitArg: LimitArg)
    requires ParseCategory(cat).Some?
    requires TopAnswer(ps, cat, limitArg).Ok?
    ensures var c := ParseCategory(cat).value;
      var arr := Keyed(KeyFor(c), ps).value;
      Keyed(KeyFor(c), ps).Ok? && |Ranked(c, arr)| == |arr| &&
      TopAnswer(ps, cat, limitArg).value == SliceTo(Ranked(c, arr), LimitOr(limitArg, 5).value)
  {
  }

  /** Ranked answers are ordered by their key, every one of them has a key,
      and `limit` of the ranked planets come back (5 by default), or all of
      them when there are fewer, a negative limit dropping that many from
      the end. */
  lemma TopOrdered(ps: seq<Record>, cat: string, limitArg: LimitArg)
    requires ParseCategory(cat).Some?
    requires TopAnswer(ps, cat, limitArg).Ok?
    ensures var r := TopAnswer(ps, cat, limitArg).value;
      var c := ParseCategory(cat).value;
      (forall i :: 0 <= i < |r| ==>
        SortKey(c, r[i].fields).Keep? && r[i].fields in ps && r[i] == ComputeNormFields(r[i].fields)) &&
      (forall i, j :: 0 <= i < j < |r| ==>
        if Descending(c) then SortKey(c, r[i].fields).k >= SortKey(c, r[j].fields).k
        else SortKey(c, r[i].fields).k <= SortKey(c, r[j].fields).k) &&
      (limitArg.Given? && limitArg.n >= 0 ==> |r| <= limitArg.n) &&
      (limitArg.Missing? ==> |r| <= 5)
    ensures var r := TopAnswer(ps, cat, limitArg).value;
      var ranked := |Keyed(KeyFor(ParseCategory(cat).value), ps).value|;
      (limitArg.Missing? ==> |r| == if ranked < 5 then ranked else 5) &&
      (limitArg.Given? && limitArg.n >= 0 ==> |r| == if ranked < limitArg.n then ranked else limitArg.n) &&
      (limitArg.Given? && limitArg.n < 0 ==> |r| == if ranked + limitArg.n > 0 then ranked + limitArg.n else 0)
  {
    var c := ParseCategory(cat).value;
    var key := KeyFor(c);
    var arr := Keyed(key, ps).value;
    var sorted := Sort(arr, Before(Descending(c)));
    var r := TopAnswer(ps, cat, limitArg).value;
    TopSlice(ps, cat, limitArg);
    TopKeys(ps, cat, limitArg);
    KeyedSound(key, ps);
    SortedEntries(key, Descending(c), arr);
  }

  /** Each ranked answer is the planet of the entry at its place in the
      sorted entries, and carries that entry's key. */
  lemma TopKeys(ps: seq<Record>, cat: string, limitArg: LimitArg)
    requires ParseCategory(cat).Some?
    requires TopAnswer(ps, cat, limitArg).Ok?
    ensures var r := TopAnswer(ps, cat, limitArg).value;
      var c := ParseCategory(cat).value;
      var sorted := Sort(Keyed(KeyFor(c), ps).value, Before(Descending(c)));
      |r| <= |sorted| &&
      forall i :: 0 <= i < |r| ==>
        r[i] == sorted[i].planet && SortKey(c, r[i].fields) == Keep(sorted[i].key) &&
        r[i].fields in ps && r[i] == ComputeNormFields(r[i].fields)
  {
    var c := ParseCategory(cat).value;
    var key := KeyFor(c);
    var arr := Keyed(key, ps).value;
    var sorted := Sort(arr, Before(Descending(c)));
    var r := TopAnswer(ps, cat, limitArg).value;
    TopSlice(ps, cat, limitArg);
    KeyedSound(key, ps);
    assert r == PlanetsOf(sorted)[..|r|];
    forall i | 0 <= i < |r|
      ensures r[i] == sorted[i].planet && SortKey(c, r[i].fields) == Keep(sorted[i].key)
      ensures r[i].fields in ps && r[i] == ComputeNormFields(r[i].fields)
    {
      assert r[i] == sorted[i].planet;
      assert sorted[i] in arr by {
        assert sorted[i] in multiset(sorted);
      }
      assert key(r[i].fields) == Keep(sorted[i].key);
    }
  }

  /** Top-k: a planet ranked in its category but left out of the answer has
      a key no better than any planet in it. */
  lemma TopIsBest(ps: seq<Record>, cat: string, limitArg: LimitArg, j: nat)
    requires ParseCategory(cat).Some?
    requires TopAnswer(ps, cat, limitArg).Ok?
    requires j < |ps| && SortKey(ParseCategory(cat).value, ps[j]).Keep?
    requires ComputeNormFields(ps[j]) !in TopAnswer(ps, cat, limitArg).value
    ensures var r := TopAnswer(ps, cat, limitArg).value;
      var c := ParseCategory(cat).value;
      var k := SortKey(c, ps[j]).k;
      forall i :: 0 <= i < |r| ==>
        SortKey(c, r[i].fields).Keep? &&
        if Descending(c) then SortKey(c, r[i].fields).k >= k else SortKey(c, r[i].fields).k <= k
  {
    var c := ParseCategory(cat).value;
    var key := KeyFor(c);
    var arr := Keyed(key, ps).value;
    var r := TopAnswer(ps, cat, limitArg).value;
    assert key(ps[j]) == SortKey(c, ps[j]);
    KeyedSound(key, ps);
    KeyedComplete(key, ps, j);
    BestFirst(key, Descending(c), arr, r, Entry(SortKey(c, ps[j]).k, ComputeNormFields(ps[j])));
    forall i | 0 <= i < |r| ensures key(r[i].fields) == SortKey(c, r[i].fields) {
    }
  }

  /** Every planet in a prefix of the ranking is at least as good as any
      entry left out of it. */
  lemma BestFirst(key: Record -> Key, descending: bool, arr: seq<Entry>, r: seq<NormPlanet>, e: Entry)
    requires forall x :: x in arr ==> KeyedRight(key, x)
    requires e in arr
    requires |r| <= |arr|
    requires r == PlanetsOf(Sort(arr, Before(descending)))[..|r|]
    requires e.planet !in r
    ensures forall i :: 0 <= i < |r| ==>
      key(r[i].fields).Keep? &&
      if descending then key(r[i].fields).k >= e.key else key(r[i].fields).k <= e.key
  {
    var lt := Before(descending);
    var sorted := Sort(arr, lt);
    var kept := SliceTo(sorted, |r|);
    PrefixOfPlanets(sorted, r);
    assert e !in kept by {
      forall i | 0 <= i < |kept| ensures kept[i] != e {
        assert kept[i].planet == r[i];
      }
    }
    BeforeIsKeyOrder(descending);
    TakeIsBest(arr, lt, |r|, e);
    forall i | 0 <= i < |r|
      ensures key(r[i].fields) == Keep(sorted[i].key) && !lt(e, sorted[i])
    {
      var x := sorted[i];
      assert x == kept[i] && kept[i] in kept;
      assert x in arr by {
        assert x in multiset(sorted);
      }
      assert KeyedRight(key, x);
      assert r[i] == x.planet;
    }
  }

  lemma {:induction false} PrefixOfPlanets(sorted: seq<Entry>, r: seq<NormPlanet>)
    requires |r| <= |sorted| && r == PlanetsOf(sorted)[..|r|]
    ensures forall i :: 0 <= i < |r| ==> r[i] == sorted[i].planet
  {
  }

  /** "most_habitable" never lists a planet named Earth (in any case) and
      lists only planets with a habitability percentage. */
  lemma TopLeavesOutEarth(ps: seq<Record>, limitArg: LimitArg)
    requires TopAnswer(ps, "most_habitable", limitArg).Ok?
    ensures forall np :: np in TopAnswer(ps, "most_habitable", limitArg).value ==>
      np.habNorm.Some? && !(Get(np.fields, "name").VStr? && Lower(Get(np.fields, "name").s) == "earth")
  {
    TopOrdered(ps, "most_habitable", limitArg);
  }

  /** The planets `Keyed` keeps, by their index in ps: in increasing order,
      each with its key and its norm fields. */
  lemma {:induction false} KeyedInOrder(key: Record -> Key, ps: seq<Record>) returns (at: seq<nat>)
    requires Keyed(key, ps).Ok?
    ensures var arr := Keyed(key, ps).value;
      |at| == |arr| &&
      (forall k :: 0 <= k < |at| ==>
        at[k] < |ps| && key(ps[at[k]]) == Keep(arr[k].key) && arr[k].planet == ComputeNormFields(ps[at[k]])) &&
      (forall k, l :: 0 <= k < l < |at| ==> at[k] < at[l])
  {
    if ps == [] {
      at := [];
    } else {
      var init := ps[..|ps| - 1];
      KeyedStep(key, ps);
      var before := KeyedInOrder(key, init);
      at := before + (if key(ps[|ps| - 1]).Keep? then [|ps| - 1] else []);
      forall k | 0 <= k < |before| ensures init[before[k]] == ps[before[k]] {
      }
    }
  }

  /** Ties keep the order of PLANETS: Python's sort is stable, with or without
      `reverse`. `at` gives each answer's planet; answers with equal keys
      come in the order of their planets. */
  lemma TopTiesKeepOrder(ps: seq<Record>, cat: string, limitArg: LimitArg) returns (at: seq<nat>)
    requires ParseCategory(cat).Some?
    requires TopAnswer(ps, cat, limitArg).Ok?
    ensures var r := TopAnswer(ps, cat, limitArg).value;
      var c := ParseCategory(cat).value;
      |at| == |r| &&
      (forall k :: 0 <= k < |r| ==>
        at[k] < |ps| && SortKey(c, ps[at[k]]).Keep? && r[k] == ComputeNormFields(ps[at[k]])) &&
      (forall i, j :: 0 <= i < j < |r| && SortKey(c, ps[at[i]]).k == SortKey(c, ps[at[j]]).k ==>
        at[i] < at[j])
  {
    var c := ParseCategory(cat).value;
    var key := KeyFor(c);
    var arr := Keyed(key, ps).value;
    var lt := Before(Descending(c));
    var sorted := Sort(arr, lt);
    var r := TopAnswer(ps, cat, limitArg).value;
    var found := KeyedInOrder(key, ps);
    var pos := SortPositions(arr, lt);
    assert |r| <= |sorted| && r == PlanetsOf(sorted)[..|r|];
    PrefixOfPlanets(sorted, r);
    at := seq(|r|, k requires 0 <= k < |r| => found[pos[k]]);
    forall k | 0 <= k < |r|
      ensures at[k] < |ps| && SortKey(c, ps[at[k]]) == Keep(sorted[k].key) && r[k] == ComputeNormFields(ps[at[k]])
    {
      assert sorted[k] == arr[pos[k]];
      assert key(ps[at[k]]) == Keep(arr[pos[k]].key);
    }
    forall i, j | 0 <= i < j < |r| && SortKey(c, ps[at[i]]).k == SortKey(c, ps[at[j]]).k
      ensures at[i] < at[j]
    {
      assert sorted[i].key == sorted[j].key;
      assert Tied(sorted[i], sorted[j], lt);
      assert pos[i] < pos[j];
    }
  }

  /** api_top fails only on a rejected limit or, for "most_habitable", on a
      ranked planet whose "name" is present but not a string; an unknown
      category lists every planet in order. */
  lemma TopFailures(ps: seq<Record>, cat: string, limit: int)
    ensures TopAnswer(ps, cat, Given(limit)).Err? <==>
      cat == "most_habitable" &&
      exists j :: 0 <= j < |ps| && ComputeNormFields(ps[j]).habNorm.Some? &&
        "name" in ps[j] && !ps[j]["name"].VStr?
    ensures ParseCategory(cat).None? ==> TopAnswer(ps, cat, Given(limit)) == Ok(SliceTo(NormAll(ps), limit))
  {
    match ParseCategory(cat)
    case None =>
    case Some(c) =>
      var key := KeyFor(c);
      assert TopAnswer(ps, cat, Given(limit)).Err? <==> Keyed(key, ps).Err?;
      KeyedFails(key, ps);
      assert c == MostHabitable <==> cat == "most_habitable";
      forall j | 0 <= j < |ps|
        ensures key(ps[j]).Raise? <==>
          c == MostHabitable && ComputeNormFields(ps[j]).habNorm.Some? && "name" in ps[j] && !ps[j]["name"].VStr?
      {
        RaisesOnlyOnBadName(c, ps[j]);
      }
  }

  /** Only the "most_habitable" key raises, on a ranked record whose name is
      not a string. */
  lemma RaisesOnlyOnBadName(c: Category, p: Record)
    ensures SortKey(c, p).Raise? <==>
      c == MostHabitable && ComputeNormFields(p).habNorm.Some? && "name" in p && !p["name"].VStr?
  {
  }

  // ------------------------------------------------------------ /api/random

  /** `eligible_planets` after the loop has seen ps: the normalised planets
      whose habitability percentage is above 1.0. */
  function Eligible(ps: seq<Record>): seq<NormPlanet> {
    Select(NormAll(ps), AboveOnePercent)
  }

  /** `p["habitability_percent_norm"] is not None and ... > 1.0` */
  predicate AboveOnePercent(np: NormPlanet) {
    np.habNorm.Some? && np.habNorm.value > 1.0
  }

  /** One more planet seen by the loop. */
  lemma EligibleStep(ps: seq<Record>, i: nat)
    requires i < |ps|
    ensures var np := ComputeNormFields(ps[i]);
      Eligible(ps[..i + 1]) == Eligible(ps[..i]) + if AboveOnePercent(np) then [np] else []
  {
    var np := ComputeNormFields(ps[i]);
    NormAllSnoc(ps, i);
    SelectAppend(NormAll(ps[..i]), [np], AboveOnePercent);
    assert Select([np], AboveOnePercent) == if AboveOnePercent(np) then [np] else [];
  }

  /** The loop's normalised planets grow by one at each step. */
  lemma NormAllSnoc(ps: seq<Record>, i: nat)
    requires i < |ps|
    ensures NormAll(ps[..i + 1]) == NormAll(ps[..i]) + [ComputeNormFields(ps[i])]
  {
    var init, next := ps[..i], ps[..i + 1];
    assert next == init + [ps[i]];
    var a, b := NormAll(init), NormAll(next);
    var c := a + [ComputeNormFields(ps[i])];
    assert |b| == |c|;
    forall k | 0 <= k < |b| ensures b[k] == c[k] {
      assert next[k] == if k < i then init[k] else ps[i];
    }
  }

  /** Every eligible planet is a normalised planet of the list above 1%. */
  lemma EligibleSound(ps: seq<Record>)
    ensures forall np :: np in Eligible(ps) ==>
      AboveOnePercent(np) && np.fields in ps && np == ComputeNormFields(np.fields)
  {
    var all := NormAll(ps);
    SelectMembers(all, AboveOnePercent);
    forall np | np in Eligible(ps)
      ensures AboveOnePercent(np) && np.fields in ps && np == ComputeNormFields(np.fields)
    {
      var j :| 0 <= j < |all| && all[j] == np;
      assert np == ComputeNormFields(ps[j]);
    }
  }

  /** No planet is eligible exactly when no planet is above 1%. */
  lemma EligibleEmpty(ps: seq<Record>)
    ensures Eligible(ps) == [] <==> forall j :: 0 <= j < |ps| ==> !AboveOnePercent(ComputeNormFields(ps[j]))
  {
    var all := NormAll(ps);
    SelectMembers(all, AboveOnePercent);
    if Eligible(ps) == [] {
      forall j | 0 <= j < |ps| ensures !AboveOnePercent(ComputeNormFields(ps[j])) {
        assert all[j] in all;
      }
    } else {
      var np := Eligible(ps)[0];
      var j :| 0 <= j < |all| && all[j] == np;
      assert AboveOnePercent(ComputeNormFields(ps[j]));
    }
  }

  /** The planets `random.choice` picks from: the eligible ones, or every
      planet when none is. */
  function RandomPool(ps: seq<Record>): (r: Result<seq<NormPlanet>, Fault>)
    ensures r.Ok? ==> r.value != []
  {
    if ps == [] then Err(NoPlanets)
    else if Eligible(ps) != [] then Ok(Eligible(ps))
    else Ok(NormAll(ps))
  }

  /** api_random's answer when the random choice picks index `roll` modulo
      the size of the pool. */
  function RandomAnswer(ps: seq<Record>, roll: nat): Result<NormPlanet, Fault> {
    match RandomPool(ps)
    case Err(e) => Err(e)
    case Ok(pool) => Ok(pool[roll % |pool|])
  }

  method ApiRandom(planets: seq<Record>, roll: nat) returns (r: Result<NormPlanet, Fault>)
    ensures r == RandomAnswer(planets, roll)
  {
    if |planets| == 0 {
      return Err(NoPlanets);
    }
    var eligible := [];
    for i := 0 to |planets|
      invariant eligible == Eligible(planets[..i])
    {
      var pnorm := ComputeNormFields(planets[i]);
      EligibleStep(planets, i);
      if pnorm.habNorm.Some? && pnorm.habNorm.value > 1.0 {
        eligible := eligible + [pnorm];
      }
    }
    assert planets[..|planets|] == planets;
    if |eligible| == 0 {
      return Ok(ComputeNormFields(planets[roll % |planets|]));
    }
    return Ok(eligible[roll % |eligible|]);
  }

  /** Whatever the roll, the answer is a planet of the list with its norm
      fields, and it is one above 1% habitability whenever such a planet
      exists; only an empty list fails. */
  lemma RandomPicksHabitable(ps: seq<Record>, roll: nat)
    ensures RandomAnswer(ps, roll).Err? <==> ps == []
    ensures RandomAnswer(ps, roll).Ok? ==>
      var np := RandomAnswer(ps, roll).value;
      np.fields in ps && np == ComputeNormFields(np.fields)
    ensures (exists j :: 0 <= j < |ps| && AboveOnePercent(ComputeNormFields(ps[j]))) ==>
      RandomAnswer(ps, roll).Ok? && AboveOnePercent(RandomAnswer(ps, roll).value)
  {
    EligibleSound(ps);
    EligibleEmpty(ps);
    if Eligible(ps) != [] {
      assert RandomAnswer(ps, roll).value in Eligible(ps);
    } else if ps != [] {
      var all := NormAll(ps);
      assert all[roll % |ps|] == ComputeNormFields(ps[roll % |ps|]);
    }
  }
}
