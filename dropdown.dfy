/** The suggestion dropdown of static/script.js: the rendered suggestion
    links (`suggestionNodes`), the keyboard selection (`selectedIndex`),
    whether the dropdown is shown, and the event handlers that change them.
    `Menu` is the state as a value and the functions below are the handlers'
    specification; `SearchBox` is the page's mutable state, whose methods
    update it step by step as the handlers do. `renderSuggestions` comes in
    two versions: the page's, which keeps `selectedIndex` when it replaces
    the nodes, and a corrected one that resets it. */
module Dropdown {
  import opened Wrappers
  import opened Text
  import opened Records
  import opened Sorting
  import opened Suggest
  import Uri

  /** A rendered suggestion: its link, shown name, percentage colour class,
      and whether it carries `active-suggestion`. */
  datatype Node = Node(href: string, caption: string, pctClass: string, active: bool)

  function NodeFor(s: Scored): Node {
    Node(Href(s.planet), Label(s.planet), PctClass(s.hab), false)
  }

  function Nodes(shown: seq<Scored>): (r: seq<Node>)
    ensures |r| == |shown|
    ensures forall i :: 0 <= i < |r| ==> r[i] == NodeFor(shown[i])
  {
    seq(|shown|, i requires 0 <= i < |shown| => NodeFor(shown[i]))
  }

  /** Rendering one more suggestion appends its node. */
  lemma NodesSnoc(shown: seq<Scored>, idx: nat)
    requires idx < |shown|
    ensures Nodes(shown[..idx + 1]) == Nodes(shown[..idx]) + [NodeFor(shown[idx])]
  {
    assert shown[..idx + 1] == shown[..idx] + [shown[idx]];
  }

  /** The dropdown: its suggestion nodes, `selectedIndex`, whether it is
      displayed, and whether it shows the "No results found" line instead of
      suggestions. */
  datatype Menu = Menu(nodes: seq<Node>, selected: int, open: bool, noResults: bool)

  /** The page as loaded: nothing rendered, nothing selected, hidden. */
  const Initial: Menu := Menu([], -1, false, false)

  /** What the page keeps true: the selection is -1 or more, only the
      selected node can be highlighted, the "No results found" line comes
      with no nodes, and a hidden dropdown has nothing selected. The
      selection may still name a node that is not highlighted, or lie past
      the last node. */
  predicate Coherent(m: Menu) {
    -1 <= m.selected &&
    (forall i :: 0 <= i < |m.nodes| && m.nodes[i].active ==> i == m.selected) &&
    (m.noResults ==> m.nodes == []) &&
    (!m.open ==> m.selected == -1)
  }

  /** Moreover the selection is -1 or the index of a node, and that node is
      highlighted. */
  predicate Consistent(m: Menu) {
    Coherent(m) && m.selected < |m.nodes| && (0 <= m.selected ==> m.nodes[m.selected].active)
  }

  /** The same links in the same order, whatever their highlighting. */
  predicate SameLinks(a: seq<Node>, b: seq<Node>) {
    |a| == |b| && forall i :: 0 <= i < |a| ==> a[i].(active := false) == b[i].(active := false)
  }

  function Deactivate(nodes: seq<Node>): (r: seq<Node>)
    ensures |r| == |nodes|
    ensures forall i :: 0 <= i < |r| ==> r[i] == nodes[i].(active := false)
  {
    seq(|nodes|, i requires 0 <= i < |nodes| => nodes[i].(active := false))
  }

  /** `clearSelection` */
  function ClearSel(m: Menu): Menu {
    m.(nodes := Deactivate(m.nodes), selected := -1)
  }

  /** `highlightSuggestion(index)` */
  function Highlight(m: Menu, index: int): Menu {
    var c := ClearSel(m);
    if 0 <= index < |c.nodes| then
      c.(nodes := c.nodes[index := c.nodes[index].(active := true)], selected := index)
    else c
  }

  /** `showDropdown` */
  function Show(m: Menu): Menu {
    m.(open := true)
  }

  /** `hideDropdown` */
  function Hide(m: Menu): Menu {
    ClearSel(m.(open := false))
  }

  /** Which `renderSuggestions`: the page's, or the corrected one. */
  datatype Version = AsWritten | Corrected

  /** `renderSuggestions(list)`: the nodes are replaced and the dropdown
      shown. As written `selectedIndex` keeps its old value; corrected, it is
      reset to -1 along with the nodes it indexes. */
  function Render(v: Version, m: Menu, list: seq<Planet>): (r: Menu)
    ensures r.open && (r.noResults <==> list == []) && |r.nodes| <= MaxSuggestions
    ensures forall i :: 0 <= i < |r.nodes| ==> !r.nodes[i].active
  {
    var selected := if v == AsWritten then m.selected else -1;
    if list == [] then Show(Menu([], selected, m.open, true))
    else Show(Menu(Nodes(Ranked(list)), selected, m.open, false))
  }

  /** The `input` handler, given the input's text. */
  function OnInput(v: Version, m: Menu, planets: seq<Planet>, value: string): Menu {
    var q := JsTrim(value);
    if q == [] then Hide(m) else Render(v, m, Suggestions(planets, q))
  }

  datatype Key = ArrowDown | ArrowUp | Enter | Escape | OtherKey

  /** What a handler does beyond the dropdown: follow a link, or ask the
      server's /api/search for the best match of a query (whose answer the
      page then opens). */
  datatype Effect = NoEffect | Navigate(href: string) | RemoteSearch(query: string)

  /** The `keydown` handler, given the input's text. No key changes the
      links; only Enter has an effect, and it follows only a rendered
      link. */
  function KeyDown(m: Menu, key: Key, value: string): (r: (Menu, Effect))
    ensures SameLinks(r.0.nodes, m.nodes) && r.0.noResults == m.noResults
    ensures key != Enter ==> r.1 == NoEffect
    ensures r.1.Navigate? ==> exists i :: 0 <= i < |m.nodes| && m.nodes[i].href == r.1.href
  {
    if !m.open || |m.nodes| == 0 then
      (m, if key == Enter then RemoteSearch(JsTrim(value)) else NoEffect)
    else
      match key
      case ArrowDown =>
        (if m.selected + 1 < |m.nodes| then Highlight(m, m.selected + 1) else m, NoEffect)
      case ArrowUp =>
        (if m.selected - 1 >= 0 then Highlight(m, m.selected - 1) else ClearSel(m), NoEffect)
      case Enter =>
        if 0 <= m.selected < |m.nodes| then
          (m, if m.nodes[m.selected].href != [] then Navigate(m.nodes[m.selected].href) else NoEffect)
        else (m, RemoteSearch(JsTrim(value)))
      case Escape => (Hide(m), NoEffect)
      case OtherKey => (m, NoEffect)
  }

  /** The toggle button: hides an open dropdown, otherwise shows the first
      MAX_SUG planets. */
  function Toggle(v: Version, m: Menu, planets: seq<Planet>): Menu {
    if m.open then Hide(m) else Render(v, m, SliceTo(planets, MaxSuggestions))
  }

  /** Everything that reaches the dropdown. A mouse event names the node it
      happened on; a click outside the input, the dropdown and the toggle is
      `ClickOutside`. */
  datatype Event =
    | Load(planets: seq<Planet>)
    | Input(value: string)
    | KeyPress(key: Key, value: string)
    | ToggleClick
    | MouseEnter(index: int)
    | MouseLeave
    | ClickItem(index: int)
    | ClickOutside

  /** One event: the planet list, the dropdown after it, and its effect.
      The mouse reaches only the nodes of a shown dropdown: hidden nodes,
      and nodes a later render removed, receive no mouse event. */
  function Step(v: Version, planets: seq<Planet>, m: Menu, e: Event): (seq<Planet>, Menu, Effect) {
    match e
    case Load(ps) => (ps, m, NoEffect)
    case Input(value) => (planets, OnInput(v, m, planets, value), NoEffect)
    case KeyPress(key, value) =>
      var (m', effect) := KeyDown(m, key, value);
      (planets, m', effect)
    case ToggleClick => (planets, Toggle(v, m, planets), NoEffect)
    case MouseEnter(index) =>
      (planets, if m.open && 0 <= index < |m.nodes| then Highlight(m, index) else m, NoEffect)
    case MouseLeave => (planets, ClearSel(m), NoEffect)
    case ClickItem(index) =>
      if m.open && 0 <= index < |m.nodes| then (planets, Hide(m), Navigate(m.nodes[index].href))
      else (planets, m, NoEffect)
    case ClickOutside => (planets, Hide(m), NoEffect)
  }

  /** The dropdown after a sequence of events. */
  function Run(v: Version, planets: seq<Planet>, m: Menu, events: seq<Event>): Menu
    decreases |events|
  {
    if events == [] then m
    else
      var (ps, m', _) := Step(v, planets, m, events[0]);
      Run(v, ps, m', events[1..])
  }

  /** `clearSelection` unhighlights every node and keeps the links. */
  lemma ClearSelClears(m: Menu)
    requires Coherent(m)
    ensures var c := ClearSel(m);
      Consistent(c) && c.selected == -1 && SameLinks(c.nodes, m.nodes) &&
      (forall i :: 0 <= i < |c.nodes| ==> !c.nodes[i].active) &&
      c.open == m.open && c.noResults == m.noResults
  {
  }

  /** `highlightSuggestion` selects and highlights the node at an index in
      range, and otherwise leaves the selection cleared at -1; either way at
      most the selected node is highlighted. */
  lemma HighlightSelects(m: Menu, index: int)
    requires Coherent(m)
    ensures var h := Highlight(m, index);
      h.selected == (if 0 <= index < |m.nodes| then index else -1) &&
      (forall i :: 0 <= i < |h.nodes| ==> (h.nodes[i].active <==> i == h.selected)) &&
      SameLinks(h.nodes, m.nodes) && h.open == m.open && h.noResults == m.noResults &&
      (m.open ==> Consistent(h))
  {
    var h := Highlight(m, index);
    forall i | 0 <= i < |h.nodes| ensures h.nodes[i].(active := false) == m.nodes[i].(active := false) {
    }
  }

  /** `hideDropdown` closes the dropdown and clears the selection. */
  lemma HideCloses(m: Menu)
    requires Coherent(m)
    ensures var h := Hide(m);
      Consistent(h) && !h.open && h.selected == -1 && SameLinks(h.nodes, m.nodes)
  {
  }

  /** Rendering shows the dropdown with no node highlighted: the "No results
      found" line alone for an empty list, otherwise one node per ranked
      suggestion, with its name, colour class and a link that decodes to the
      name. As written the old selection stays; corrected, it is -1. */
  lemma RenderShows(v: Version, m: Menu, list: seq<Planet>)
    ensures var r := Render(v, m, list);
      r.open && r.selected == (if v == AsWritten then m.selected else -1) &&
      (r.noResults <==> list == []) &&
      |r.nodes| == (if |list| < MaxSuggestions then |list| else MaxSuggestions) &&
      (forall i :: 0 <= i < |r.nodes| ==> !r.nodes[i].active)
    ensures Coherent(m) ==> Coherent(Render(v, m, list))
    ensures v == Corrected ==> Consistent(Render(v, m, list))
    ensures var r := Render(v, m, list);
      forall i :: 0 <= i < |r.nodes| ==>
        var s := Ranked(list)[i];
        r.nodes[i].caption == Label(s.planet) && r.nodes[i].pctClass == PctClass(s.hab) &&
        r.nodes[i].href[..|PlanetPath|] == PlanetPath &&
        Uri.DecodeURIComponent(r.nodes[i].href[|PlanetPath|..]) == Some(r.nodes[i].caption)
  {
    RankedOrder(list);
    var r := Render(v, m, list);
    if list != [] {
      forall i | 0 <= i < |r.nodes|
        ensures r.nodes[i].href[..|PlanetPath|] == PlanetPath &&
                Uri.DecodeURIComponent(r.nodes[i].href[|PlanetPath|..]) == Some(r.nodes[i].caption)
      {
        HrefNamesPlanet(Ranked(list)[i].planet);
      }
    }
  }

  /** An input that trims to nothing hides the dropdown and clears the
      selection. */
  lemma BlankInputHides(v: Version, m: Menu, planets: seq<Planet>, value: string)
    requires Coherent(m)
    requires AllIn(value, IsJsSpace)
    ensures var r := OnInput(v, m, planets, value);
      Consistent(r) && !r.open && r.selected == -1
  {
    StripAll(value, IsJsSpace);
  }

  /** Any other input shows the ranked suggestions, or "No results found"
      exactly when no planet's canonical name contains the canonical query.
      As written the selection is left as it was. */
  lemma InputShowsSuggestions(v: Version, m: Menu, planets: seq<Planet>, value: string)
    requires JsTrim(value) != []
    ensures var r := OnInput(v, m, planets, value);
      var qNorm := NormalizeString(JsTrim(value));
      r.open && r.selected == (if v == AsWritten then m.selected else -1) &&
      (Coherent(m) ==> Coherent(r)) && (v == Corrected ==> Consistent(r)) &&
      (r.noResults <==> forall j :: 0 <= j < |planets| ==> !IsInfix(qNorm)(planets[j])) &&
      (forall i :: 0 <= i < |r.nodes| ==>
        exists p :: p in planets && IsInfix(qNorm)(p) && r.nodes[i].caption == p.name)
  {
    var q := JsTrim(value);
    var list := Suggestions(planets, q);
    SuggestionsMatch(planets, q);
    RenderShows(v, m, list);
    RankedOrder(list);
    var r := OnInput(v, m, planets, value);
    forall i | 0 <= i < |r.nodes|
      ensures exists p :: p in planets && IsInfix(NormalizeString(q))(p) && r.nodes[i].caption == p.name
    {
      var p := Ranked(list)[i].planet;
      assert p in list;
      assert r.nodes[i].caption == Label(p) == p.name;
    }
  }

  /** With the dropdown open on some suggestions, ArrowDown moves the
      selection one down when there is a node there and otherwise keeps it. */
  lemma ArrowDownMoves(m: Menu, value: string)
    requires Coherent(m) && m.open && m.nodes != []
    ensures var (r, effect) := KeyDown(m, ArrowDown, value);
      Coherent(r) && effect == NoEffect && SameLinks(r.nodes, m.nodes) && r.open &&
      r.selected == (if m.selected + 1 < |m.nodes| then m.selected + 1 else m.selected) &&
      (m.selected + 1 < |m.nodes| || Consistent(m) ==> Consistent(r))
  {
    if m.selected + 1 < |m.nodes| {
      HighlightSelects(m, m.selected + 1);
    }
  }

  /** ArrowUp moves the selection one up onto a node, and otherwise clears
      it, which also drops a selection past the last node. */
  lemma ArrowUpMoves(m: Menu, value: string)
    requires Coherent(m) && m.open && m.nodes != []
    ensures var (r, effect) := KeyDown(m, ArrowUp, value);
      Consistent(r) && effect == NoEffect && SameLinks(r.nodes, m.nodes) && r.open &&
      r.selected == (if 1 <= m.selected <= |m.nodes| then m.selected - 1 else -1)
  {
    if m.selected - 1 >= 0 {
      HighlightSelects(m, m.selected - 1);
    } else {
      ClearSelClears(m);
    }
  }

  /** Escape hides the dropdown and clears the selection. */
  lemma EscapeHides(m: Menu, value: string)
    requires Coherent(m) && m.open && m.nodes != []
    ensures var (r, effect) := KeyDown(m, Escape, value);
      Consistent(r) && effect == NoEffect && !r.open && r.selected == -1
  {
    HideCloses(m);
  }

  /** Enter on a selection that names a shown node follows its link (if it
      has one); otherwise, or with the dropdown closed or empty, it asks the
      server for the trimmed input. The dropdown does not change. */
  lemma EnterFollowsSelection(m: Menu, value: string)
    ensures var (r, effect) := KeyDown(m, Enter, value);
      r == m &&
      (m.open && 0 <= m.selected < |m.nodes| ==>
        effect == (if m.nodes[m.selected].href != [] then Navigate(m.nodes[m.selected].href) else NoEffect)) &&
      (!(m.open && 0 <= m.selected < |m.nodes|) ==> effect == RemoteSearch(JsTrim(value)))
  {
  }

  /** Enter on a highlighted rendered suggestion opens the page of that
      suggestion's planet. */
  lemma EnterOpensSuggestion(v: Version, m: Menu, list: seq<Planet>, index: int, value: string)
    requires list != []
    requires 0 <= index < |Ranked(list)|
    ensures var shown := Highlight(Render(v, m, list), index);
      var (_, effect) := KeyDown(shown, Enter, value);
      effect.Navigate? && effect.href[..|PlanetPath|] == PlanetPath &&
      Uri.DecodeURIComponent(effect.href[|PlanetPath|..]) == Some(Label(Ranked(list)[index].planet))
  {
    var planet := Ranked(list)[index].planet;
    var rendered := Render(v, m, list);
    assert rendered.nodes == Nodes(Ranked(list));
    var shown := Highlight(rendered, index);
    assert shown.selected == index && shown.open;
    assert shown.nodes[index].href == Href(planet);
    HrefNamesPlanet(planet);
    assert KeyDown(shown, Enter, value).1 == Navigate(Href(planet));
  }

  /** Every key keeps what the page keeps, and keeps a consistent dropdown
      consistent. */
  lemma KeyDownKeepsInvariants(m: Menu, key: Key, value: string)
    requires Coherent(m)
    ensures Coherent(KeyDown(m, key, value).0)
    ensures Consistent(m) ==> Consistent(KeyDown(m, key, value).0)
  {
    if m.open && m.nodes != [] {
      match key
      case ArrowDown => ArrowDownMoves(m, value);
      case ArrowUp => ArrowUpMoves(m, value);
      case Escape => EscapeHides(m, value);
      case Enter =>
      case OtherKey =>
    }
  }

  /** The toggle closes an open dropdown and opens a closed one on the first
      MAX_SUG planets, with nothing selected: a hidden dropdown has no
      selection to keep. */
  lemma ToggleFlips(v: Version, m: Menu, planets: seq<Planet>)
    requires Coherent(m)
    ensures var r := Toggle(v, m, planets);
      Consistent(r) && r.open == !m.open && r.selected == -1 &&
      (!m.open ==> r.noResults == (planets == []))
  {
    if m.open {
      HideCloses(m);
    } else {
      RenderShows(v, m, SliceTo(planets, MaxSuggestions));
    }
  }

  /** Every event keeps what the page keeps, in either version. */
  lemma StepKeepsCoherent(v: Version, planets: seq<Planet>, m: Menu, e: Event)
    requires Coherent(m)
    ensures Coherent(Step(v, planets, m, e).1)
  {
    match e
    case Load(_) =>
    case Input(value) =>
      if JsTrim(value) == [] {
        HideCloses(m);
      } else {
        InputShowsSuggestions(v, m, planets, value);
      }
    case KeyPress(key, value) => KeyDownKeepsInvariants(m, key, value);
    case ToggleClick => ToggleFlips(v, m, planets);
    case MouseEnter(index) =>
      if m.open && 0 <= index < |m.nodes| {
        HighlightSelects(m, index);
      }
    case MouseLeave => ClearSelClears(m);
    case ClickItem(index) =>
      if m.open && 0 <= index < |m.nodes| {
        HideCloses(m);
      }
    case ClickOutside => HideCloses(m);
  }

  /** Whatever happens on the page, the selection is -1 or more, at most the
      selected node is highlighted, and a hidden dropdown has nothing
      selected. */
  lemma {:induction false} RunKeepsCoherent(v: Version, planets: seq<Planet>, m: Menu, events: seq<Event>)
    requires Coherent(m)
    ensures Coherent(Run(v, planets, m, events))
    decreases |events|
  {
    if events != [] {
      StepKeepsCoherent(v, planets, m, events[0]);
      var (ps, m', _) := Step(v, planets, m, events[0]);
      RunKeepsCoherent(v, ps, m', events[1..]);
    }
  }

  /** With the corrected render, every event keeps the dropdown consistent. */
  lemma StepKeepsConsistent(planets: seq<Planet>, m: Menu, e: Event)
    requires Consistent(m)
    ensures Consistent(Step(Corrected, planets, m, e).1)
  {
    match e
    case Load(_) =>
    case Input(value) =>
      if JsTrim(value) == [] {
        HideCloses(m);
      } else {
        InputShowsSuggestions(Corrected, m, planets, value);
      }
    case KeyPress(key, value) => KeyDownKeepsInvariants(m, key, value);
    case ToggleClick => ToggleFlips(Corrected, m, planets);
    case MouseEnter(index) =>
      if m.open && 0 <= index < |m.nodes| {
        HighlightSelects(m, index);
      }
    case MouseLeave => ClearSelClears(m);
    case ClickItem(index) =>
      if m.open && 0 <= index < |m.nodes| {
        HideCloses(m);
      }
    case ClickOutside => HideCloses(m);
  }

  /** With the corrected render, whatever happens the selection is -1 or the
      index of the one highlighted node. */
  lemma {:induction false} RunKeepsConsistent(planets: seq<Planet>, m: Menu, events: seq<Event>)
    requires Consistent(m)
    ensures Consistent(Run(Corrected, planets, m, events))
    decreases |events|
  {
    if events != [] {
      StepKeepsConsistent(planets, m, events[0]);
      var (ps, m', _) := Step(Corrected, planets, m, events[0]);
      RunKeepsConsistent(ps, m', events[1..]);
    }
  }

  /** Two planets, the first more habitable, are ranked in that order; one
      planet is ranked alone. */
  lemma RankedPair(w: Planet, c: Planet)
    requires HabAbove(GetHab(Some(w)), GetHab(Some(c)))
    ensures Ranked([w, c]) == [Scored(w, GetHab(Some(w))), Scored(c, GetHab(Some(c)))]
    ensures Ranked([w]) == [Scored(w, GetHab(Some(w)))]
  {
    var a, b := Scored(w, GetHab(Some(w))), Scored(c, GetHab(Some(c)));
    assert WithHab([w, c]) == [a, b];
    assert WithHab([w]) == [a];
    assert !SuggestionOrder()(b, a);
    assert Sort([b], SuggestionOrder()) == [b];
    assert Sort([a, b], SuggestionOrder()) == Insert(a, [b], SuggestionOrder());
  }

  /** As written, rendering two planets keeps the selection it finds. */
  lemma RenderPairAsWritten(m: Menu, w: Planet, c: Planet)
    requires HabAbove(GetHab(Some(w)), GetHab(Some(c)))
    ensures Render(AsWritten, m, [w, c]) ==
      Menu([NodeFor(Scored(w, GetHab(Some(w)))), NodeFor(Scored(c, GetHab(Some(c))))], m.selected, true, false)
  {
    RankedPair(w, c);
  }

  /** As written, rendering keeps a stale `selectedIndex`. Highlight the top
      suggestion with ArrowDown, then type so that the same two suggestions
      are rendered again: nothing is highlighted, yet Enter opens the top
      suggestion, and ArrowDown skips it and highlights the second. */
  lemma StaleSelectionAfterRender(w: Planet, c: Planet, value: string)
    requires HabAbove(GetHab(Some(w)), GetHab(Some(c)))
    ensures var before := Highlight(Render(AsWritten, Initial, [w, c]), 0);
      var after := Render(AsWritten, before, [w, c]);
      Consistent(before) && !Consistent(after) && after.selected == 0 &&
      (forall i :: 0 <= i < |after.nodes| ==> !after.nodes[i].active) &&
      KeyDown(after, Enter, value).1 == Navigate(Href(w)) &&
      KeyDown(after, ArrowDown, value).0.selected == 1
  {
    var n0, n1 := NodeFor(Scored(w, GetHab(Some(w)))), NodeFor(Scored(c, GetHab(Some(c))));
    RenderPairAsWritten(Initial, w, c);
    var before := Highlight(Render(AsWritten, Initial, [w, c]), 0);
    assert before == Menu([n0.(active := true), n1], 0, true, false);
    RenderPairAsWritten(before, w, c);
    var after := Render(AsWritten, before, [w, c]);
    assert after == Menu([n0, n1], 0, true, false);
    HrefNamesPlanet(w);
  }

  /** The page reaches that state from its first load: load two planets, open
      the dropdown with the toggle, press ArrowDown, then type a query both
      names match. */
  lemma PageReachesStaleSelection(w: Planet, c: Planet, value: string)
    requires HabAbove(GetHab(Some(w)), GetHab(Some(c)))
    requires JsTrim(value) != [] && Suggestions([w, c], JsTrim(value)) == [w, c]
    ensures var m := Run(AsWritten, [], Initial,
                         [Load([w, c]), ToggleClick, KeyPress(ArrowDown, value), Input(value)]);
      Coherent(m) && !Consistent(m) && m.selected == 0 &&
      KeyDown(m, Enter, value).1 == Navigate(Href(w))
  {
    var ps := [w, c];
    assert SliceTo(ps, MaxSuggestions) == ps;
    var shown := Render(AsWritten, Initial, ps);
    var before := Highlight(shown, 0);
    var after := Render(AsWritten, before, ps);
    StaleSelectionAfterRender(w, c, value);
    RunKeepsCoherent(AsWritten, [], Initial,
                     [Load([w, c]), ToggleClick, KeyPress(ArrowDown, value), Input(value)]);
    var events := [Load(ps), ToggleClick, KeyPress(ArrowDown, value), Input(value)];
    assert Run(AsWritten, [], Initial, events) == Run(AsWritten, ps, Initial, events[1..]);
    assert Step(AsWritten, ps, Initial, ToggleClick).1 == shown;
    assert Run(AsWritten, ps, Initial, events[1..]) == Run(AsWritten, ps, shown, events[2..]);
    assert KeyDown(shown, ArrowDown, value).0 == before;
    assert Run(AsWritten, ps, shown, events[2..]) == Run(AsWritten, ps, before, events[3..]);
    assert Step(AsWritten, ps, before, Input(value)).1 == after;
    assert Run(AsWritten, ps, before, events[3..]) == Run(AsWritten, ps, after, []);
  }

  /** As written, a stale `selectedIndex` can also point past the new nodes:
      select the second of two suggestions, then narrow the list to the
      first. */
  lemma SelectionPastTheNodes(w: Planet, c: Planet)
    requires HabAbove(GetHab(Some(w)), GetHab(Some(c)))
    ensures var before := Highlight(Render(AsWritten, Initial, [w, c]), 1);
      var after := Render(AsWritten, before, [w]);
      Consistent(before) && after.selected == 1 && |after.nodes| == 1 && !Consistent(after)
  {
    RankedPair(w, c);
    var n0, n1 := NodeFor(Scored(w, GetHab(Some(w)))), NodeFor(Scored(c, GetHab(Some(c))));
    RenderPairAsWritten(Initial, w, c);
    var before := Highlight(Render(AsWritten, Initial, [w, c]), 1);
    assert before == Menu([n0, n1.(active := true)], 1, true, false);
  }

  /** With the selection reset on render, a new list is never shown with a
      stale selection: Enter asks the server, ArrowDown highlights the top
      suggestion. */
  lemma RenderResetsSelection(m: Menu, list: seq<Planet>, value: string)
    requires list != []
    ensures var r := Render(Corrected, m, list);
      KeyDown(r, Enter, value).1 == RemoteSearch(JsTrim(value)) &&
      KeyDown(r, ArrowDown, value).0.selected == 0
  {
    RenderShows(Corrected, m, list);
  }

  /** The page's state: the loaded planets and the dropdown. */
  class SearchBox {
    var planets: seq<Planet>
    var suggestionNodes: seq<Node>
    var selectedIndex: int
    var open: bool
    var noResults: bool

    function Snapshot(): Menu
      reads this
    {
      Menu(suggestionNodes, selectedIndex, open, noResults)
    }

    predicate Valid()
      reads this
    {
      Coherent(Snapshot())
    }

    constructor()
      ensures planets == [] && Snapshot() == Initial && Valid()
    {
      planets := [];
      suggestionNodes := [];
      selectedIndex := -1;
      open := false;
      noResults := false;
    }

    /** `loadPlanets`, given what /api/all answered ([] when it failed). */
    method LoadPlanets(fetched: seq<Planet>)
      modifies this
      ensures planets == fetched && Snapshot() == old(Snapshot())
    {
      planets := fetched;
    }

    /** `clearSelection`; `hideDropdown` calls it once the dropdown is
        hidden, so it leaves the page valid whenever the "No results found"
        line has no nodes, not only from a valid page. */
    method ClearSelection()
      modifies this
      ensures Snapshot() == ClearSel(old(Snapshot())) && planets == old(planets)
      ensures Valid() <==> (noResults ==> suggestionNodes == [])
    {
      for i := 0 to |suggestionNodes|
        invariant |suggestionNodes| == |old(suggestionNodes)|
        invariant forall k :: 0 <= k < i ==> suggestionNodes[k] == old(suggestionNodes)[k].(active := false)
        invariant forall k :: i <= k < |suggestionNodes| ==> suggestionNodes[k] == old(suggestionNodes)[k]
        invariant planets == old(planets) && open == old(open) && noResults == old(noResults)
        invariant selectedIndex == old(selectedIndex)
      {
        suggestionNodes := suggestionNodes[i := suggestionNodes[i].(active := false)];
      }
      selectedIndex := -1;
    }

    method HighlightSuggestion(index: int)
      requires Valid()
      modifies this
      ensures Snapshot() == Highlight(old(Snapshot()), index) && planets == old(planets)
      ensures open ==> Valid()
    {
      HighlightSelects(Snapshot(), index);
      ClearSelection();
      if 0 <= index < |suggestionNodes| {
        suggestionNodes := suggestionNodes[index := suggestionNodes[index].(active := true)];
        selectedIndex := index;
      }
    }

    method ShowDropdown()
      requires Valid()
      modifies this
      ensures Snapshot() == Show(old(Snapshot())) && planets == old(planets)
      ensures Valid()
    {
      open := true;
    }

    method HideDropdown()
      requires Valid()
      modifies this
      ensures Snapshot() == Hide(old(Snapshot())) && planets == old(planets)
      ensures Valid()
    {
      open := false;
      ClearSelection();
    }

    /** Builds one node per ranked suggestion, pushing them in order;
        `selectedIndex` is left as it is. */
    method RenderSuggestions(list: seq<Planet>)
      requires Valid()
      modifies this
      ensures Snapshot() == Render(AsWritten, old(Snapshot()), list) && planets == old(planets)
      ensures Valid()
    {
      suggestionNodes := [];
      if list == [] {
        noResults := true;
        ShowDropdown();
        return;
      }
      noResults := false;
      var shown := Ranked(list);
      for idx := 0 to |shown|
        invariant suggestionNodes == Nodes(shown[..idx])
        invariant selectedIndex == old(selectedIndex) && !noResults
        invariant planets == old(planets) && open == old(open)
      {
        NodesSnoc(shown, idx);
        suggestionNodes := suggestionNodes + [NodeFor(shown[idx])];
      }
      assert shown[..|shown|] == shown;
      ShowDropdown();
    }

    /** The `input` handler. */
    method OnInputEvent(value: string)
      requires Valid()
      modifies this
      ensures Snapshot() == OnInput(AsWritten, old(Snapshot()), old(planets), value) && planets == old(planets)
      ensures Valid()
    {
      var q := JsTrim(value);
      if q == [] {
        HideDropdown();
        return;
      }
      var qNorm := NormalizeString(q);
      var exact := FindFirst(planets, IsExact(qNorm));
      if exact.Some? {
        RenderSuggestions([planets[exact.value]]);
        return;
      }
      var prefix := Select(planets, IsPrefix(qNorm));
      if |prefix| > 0 {
        RenderSuggestions(prefix);
        return;
      }
      RenderSuggestions(Select(planets, IsInfix(qNorm)));
    }

    /** The `keydown` handler. */
    method OnKeyDown(key: Key, value: string) returns (effect: Effect)
      requires Valid()
      modifies this
      ensures (Snapshot(), effect) == KeyDown(old(Snapshot()), key, value) && planets == old(planets)
      ensures Valid()
    {
      if !open || |suggestionNodes| == 0 {
        effect := if key == Enter then RemoteSearch(JsTrim(value)) else NoEffect;
        return;
      }
      effect := NoEffect;
      match key {
        case ArrowDown =>
          var next := selectedIndex + 1;
          if next < |suggestionNodes| {
            HighlightSuggestion(next);
          }
        case ArrowUp =>
          var prev := selectedIndex - 1;
          if prev >= 0 {
            HighlightSuggestion(prev);
          } else {
            ClearSelection();
          }
        case Enter =>
          if 0 <= selectedIndex < |suggestionNodes| {
            var href := suggestionNodes[selectedIndex].href;
            if href != [] {
              effect := Navigate(href);
            }
          } else {
            effect := RemoteSearch(JsTrim(value));
          }
        case Escape =>
          HideDropdown();
        case OtherKey =>
      }
    }

    /** The toggle button's `click` handler. */
    method OnToggle()
      requires Valid()
      modifies this
      ensures Snapshot() == Toggle(AsWritten, old(Snapshot()), old(planets)) && planets == old(planets)
      ensures Valid()
    {
      if open {
        HideDropdown();
      } else {
        RenderSuggestions(SliceTo(planets, MaxSuggestions));
      }
    }

    /** Any event, as `Step` describes the page; the dropdown stays
        coherent. */
    method Handle(e: Event) returns (effect: Effect)
      requires Valid()
      modifies this
      ensures (planets, Snapshot(), effect) == Step(AsWritten, old(planets), old(Snapshot()), e)
      ensures Valid()
    {
      StepKeepsCoherent(AsWritten, planets, Snapshot(), e);
      effect := NoEffect;
      match e {
        case Load(ps) => LoadPlanets(ps);
        case Input(value) => OnInputEvent(value);
        case KeyPress(key, value) => effect := OnKeyDown(key, value);
        case ToggleClick => OnToggle();
        case MouseEnter(index) =>
          if open && 0 <= index < |suggestionNodes| {
            HighlightSuggestion(index);
          }
        case MouseLeave => ClearSelection();
        case ClickItem(index) =>
          if open && 0 <= index < |suggestionNodes| {
            effect := Navigate(suggestionNodes[index].href);
            HideDropdown();
          }
        case ClickOutside => HideDropdown();
      }
    }
  }
}
