# Exovision search and ranking, modelled in Dafny

Exovision is a small exoplanet explorer: a Flask server (`app.py`) that holds
a list of planet records and answers page and JSON requests, and a browser
script (`static/script.js`) that offers typeahead suggestions for planet
names. This project models the deterministic core of both and proves what
they promise:

- **Records** (`records.dfy`): JSON values as Python holds them,
  `to_float_safe` (the lenient number reader that strips whitespace, drops
  grouping commas and one trailing `%`, and never raises) and
  `compute_norm_fields` (the four normalised fields every answer carries,
  with the Celsius-over-Kelvin rule).
- **Server routes** (`api.dfy`): the selection and ordering logic of
  `/planet` (first exact case-insensitive match, else first substring match),
  `/api/search` (substring matches, prefix matches first, truncated),
  `/api/top` (ten categories with their keys, skip rules and sort
  directions, a stable sort, truncation) and `/api/random` (the eligibility
  filter, with the random choice as a parameter). Each route is an
  imperative method with loops proved equal to a specification function, and
  the properties are lemmas about that function.
- **Suggestions** (`suggest.dfy`): `getHab`, `normalizeString`, the three
  suggestion tiers of the input handler, and the order, cap (`MAX_SUG`,
  20), colour class, label and link `renderSuggestions` gives suggestions.
- **Dropdown** (`dropdown.dfy`): the selection state machine
  (`clearSelection`, `highlightSuggestion`, `showDropdown`, `hideDropdown`,
  `renderSuggestions`, the `input`, `keydown`, toggle, mouse and
  click-outside handlers) as functions on a `Menu` value, and the page's
  mutable state as the class `SearchBox`, whose methods update its fields
  step by step and are proved to match those functions. The functions take
  a `Version`: `AsWritten` is the page as it is, which the class follows;
  `Corrected` resets the selection on every render (see Findings).
  A page is valid (`SearchBox.Valid`) when its state is `Coherent`: the
  selection is -1 or more, only the selected node is highlighted, "No
  results found" comes with no nodes, and a hidden dropdown has nothing
  selected.
- Shared pieces: `text.dfy` (Python and JavaScript whitespace, ASCII case,
  stripping, substrings, code-point order), `decimal.dfy` (ASCII decimal
  literals, which `float()` and `Number()` both accept, with a render/parse
  round trip), `sorting.dfy` (a stable insertion sort, proved sorted, a
  permutation and stable; Python's comprehensions and slice), `uri.dfy`
  (`encodeURIComponent` and the percent-decoding that reverses it) and
  `wrappers.dfy` (`Option`, `Result`).

Request arguments, the planet list, the input's text and the random choice
are parameters. Python exceptions that escape a route (HTTP 500) are the
`ServerError` fault; "no planets" (HTTP 404) is `NoPlanets`.

## Model

| member | source | states |
|---|---|---|
| Records.ToFloatSafe | app.py:25-41 | None gives None; bools, ints and floats pass through as their number; strings go through the lenient reader; it never fails |
| Records.BlankIsNone | app.py:29-34 | an empty or whitespace-only string reads as None |
| Records.PercentAloneIsNone | app.py:33-38 | a string that is only `%` once stripped reads as None |
| Records.DecimalTextIsRead | app.py:29-39 | a decimal literal with grouping commas anywhere, surrounding whitespace and an optional trailing `%` reads as the literal's value |
| Records.ReadGroupedLiteral | app.py:33-39 | once stripped, commas are removed and one trailing `%` is dropped before `float()` reads the literal |
| Records.IntTextIsRead | app.py:29-39 | reading the decimal text of an integer gives the integer back |
| Records.NormTemperature | app.py:60-67 | a present `avg_temp_C` decides the temperature; otherwise it is `eq_temp_K` minus 273.15, and None when neither reads |
| Records.CelsiusWins | app.py:60-64 | with `avg_temp_C` present, `eq_temp_K` never changes the temperature |
| Records.ComputeNormFields | app.py:44-69 | the original record is kept; with `habitability_percent` absent, both its norm and raw fields are None; otherwise raw is its text and norm its number; composite and temperature norms follow their rules |
| Records.RawTextAgreesWithNorm | app.py:47-54 | reading the raw habitability text back gives the norm (except for bools and floats) |
| Api.PlanetPage | app.py:131-144 | the two loops return what `PageAnswer` specifies |
| Api.ExactFrom | app.py:136-139 | the first planet whose lower-cased name equals the query, none, or the error a non-string name raises first |
| Api.InfixFrom | app.py:140-143 | the first planet whose lower-cased name contains the query, none, or the error |
| Api.PageFindsFirstExact | app.py:133-139 | the first exact match is the page, even when a substring match comes before it |
| Api.PageFoundMatches | app.py:136-143 | a found planet's lower-cased name contains the stripped, lower-cased argument |
| Api.PageMisses | app.py:132-144 | a blank argument, and only a blank one, redirects; not found means no planet's name contains the argument, and echoes it; an error needs a truthy non-string name |
| Api.ApiSearch | app.py:156-170 | the loop and split return what `SearchAnswer` specifies |
| Api.MatchesSound | app.py:163-166 | every match is the normalisation of a planet whose lower-cased name contains the query |
| Api.MatchesComplete | app.py:163-166 | every planet whose lower-cased name contains the query is matched |
| Api.SearchSound | app.py:158-170 | every result's name contains the query; prefix matches come before the rest; for a non-empty query exactly `min(limit, matches)` results come back (limit 10 when none is given), and a negative limit drops that many matches from the end |
| Api.SearchIsBest | app.py:163-170 | a matching planet the limit leaves out is a prefix match only when every result is one, and the results of its group are the first matches of that group in PLANETS order, all before it |
| Api.SearchFirst | app.py:158-170 | with matches and a positive limit the answer is not empty, and its first result is the first prefix match in PLANETS order, or the first match when none is a prefix match |
| Api.SearchKeepsOrder | app.py:163-170 | each result is the normalisation of a matching planet at a position in PLANETS, and two results of the same group (both prefix matches or both not) keep their PLANETS order |
| Api.MatchesInOrder | app.py:163-166 | the matches are the normalisations of matching planets at strictly increasing positions in PLANETS |
| Api.SearchComplete | app.py:163-170 | with a limit at least the list's length, every matching planet is in the answer |
| Api.SearchFailures | app.py:158-166 | a rejected limit fails; an empty query answers `[]`; otherwise it fails exactly when a name is truthy and not a string |
| Api.ApiTop | app.py:173-268 | the category loop, the in-place sort and the slice return what `TopAnswer` specifies |
| Api.KeyedSound | app.py:178-262 | every entry of `arr` carries its planet's key and norm fields and comes from the list |
| Api.KeyedComplete | app.py:178-262 | every planet with a key has its entry in `arr` |
| Api.KeyedFails | app.py:178-186 | the loop raises exactly when some planet's key raises |
| Api.BeforeIsKeyOrder | app.py:186-262 | the key order, ascending or descending, is a strict weak order |
| Api.SortedEntries | app.py:186-262 | the sorted entries are the entries, best key first |
| Api.SortKey | app.py:178-262 | a key raises only for "most_habitable" with a non-string name; a kept "most_habitable" planet with a name has a string name other than Earth in any case |
| Api.TopOrdered | app.py:178-265 | every ranked answer has a key, comes from the list, is ordered by key in the category's direction; exactly `min(limit, ranked planets)` come back (limit 5 when none is given), and a negative limit drops that many from the end |
| Api.TopIsBest | app.py:178-265 | a ranked planet left out by the limit has a key no better than any planet in the answer |
| Api.BestFirst | app.py:186-265 | every planet in a prefix of the ranking is at least as good as an entry left out of it |
| Api.TopLeavesOutEarth | app.py:178-186 | "most_habitable" lists only planets with a habitability percentage and never one named Earth in any case |
| Api.KeyedInOrder | app.py:178-186 | the entries of `arr` are those of planets with a key, at strictly increasing positions in PLANETS, each with its key and norm fields |
| Api.TopTiesKeepOrder | app.py:178-265 | each answer is the normalisation of a ranked planet at a position in PLANETS, and answers with equal keys come in PLANETS order, ascending or descending |
| Api.TopFailures | app.py:173-268 | only "most_habitable" with a ranked non-string name fails; an unknown category lists PLANETS in order |
| Api.EligibleSound | app.py:278-283 | every eligible planet is a normalised planet of the list above 1% habitability |
| Api.EligibleEmpty | app.py:278-285 | no planet is eligible exactly when no planet is above 1% habitability |
| Api.RandomPool | app.py:275-290 | the pool is never empty: eligible planets, or every planet |
| Api.ApiRandom | app.py:271-293 | the loop and the choice return what `RandomAnswer` specifies |
| Api.RandomPicksHabitable | app.py:271-293 | only an empty list fails; the pick is a planet of the list with its norm fields, and above 1% whenever some planet is |
| Sorting.SortSorted | app.py:186 | the sort orders its result |
| Sorting.SortStable | app.py:186 | the sort keeps the input order of tied elements |
| Sorting.SplitIsStableSort | app.py:167-169 | the two comprehensions of api_search are the stable sort that puts prefix matches first |
| Sorting.SplitLeavesOut | app.py:167-170 | an element a prefix of the split leaves out is one the test holds of only when every kept element is, and the kept elements of its group are the first of that group, all before it |
| Sorting.SortPositions | app.py:186 | each element of the sorted sequence comes from a position of the input, and tied elements keep the order of their positions |
| Sorting.SplitPrefix | app.py:167-170 | in any prefix of the split, elements the test holds of come first, and every element comes from the input |
| Sorting.SliceTo | app.py:170 | Python's `s[:n]` is a prefix of length `min(n, len)`, counted from the end for negative n |
| Sorting.TakeIsBest | static/script.js:159-166 | an element the cap leaves out goes before none of those kept |
| Suggest.JsNumber | static/script.js:17-24 | integers and floats keep their value; a list or object is NaN |
| Suggest.GetHab | static/script.js:15-27 | a habitability comes only from a planet with one of the three fields, and a non-null `habitability_percent_norm` is it |
| Suggest.HabNormFirst | static/script.js:17 | a non-null `habitability_percent_norm` is the answer |
| Suggest.PercentBeforeComposite | static/script.js:18-21 | a present `habitability_percent` decides, whether or not it is a number; the composite is not consulted |
| Suggest.PercentTextIsRead | static/script.js:18-21 | a percentage written as a padded decimal literal reads as its value |
| Suggest.CompositeTextIsScaled | static/script.js:22-25 | without a percentage, a composite score written as a decimal literal reads as its value times 100 |
| Suggest.CompositeScaled | static/script.js:22-25 | a composite score is scaled from a fraction to a percentage |
| Suggest.NoHabitability | static/script.js:15-27 | a null record, or one with none of the three fields, gives null |
| Suggest.NormalizeString | static/script.js:194-196 | the canonical form holds no whitespace, no `-` and no upper-case letter |
| Suggest.NormalizedForm | static/script.js:194-196 | the canonical form has no whitespace, no `-` and no upper-case letter, and keeps every other character lower-cased |
| Suggest.NormalizeIdempotent | static/script.js:194-196 | normalising twice is normalising once |
| Suggest.NormalizeAppend | static/script.js:194-196 | normalising a concatenation normalises each part |
| Suggest.NormalizeIgnoresDeleted | static/script.js:194-196 | a space or hyphen anywhere in a name does not change its canonical form |
| Suggest.FindFirst | static/script.js:209 | `find` gives the first element the test holds of, or none when it holds of none |
| Suggest.ExactTier | static/script.js:209-213 | when some name normalises to the query, the one suggestion is the first such planet |
| Suggest.PrefixTier | static/script.js:215-219 | with no exact match but some prefix match, the suggestions are exactly the prefix matches |
| Suggest.InfixTier | static/script.js:221-222 | with neither, the suggestions are exactly the substring matches |
| Suggest.Suggestions | static/script.js:206-222 | every suggestion's canonical name contains the canonical query |
| Suggest.SuggestionsMatch | static/script.js:206-222 | every suggestion's canonical name contains the canonical query; there are none exactly when no planet's does |
| Suggest.SuggestionOrderIsKeyOrder | static/script.js:159-164 | the comparator (habitability descending, null lowest, then name) is a strict weak order |
| Suggest.Ranked | static/script.js:155-166 | at most 20 suggestions are shown, and never more than the list holds |
| Suggest.RankedOrder | static/script.js:155-166 | shown suggestions come from the list with their own habitability, ordered by habitability descending with null last, then by name; there are `min(20, len)` of them |
| Suggest.RankedIsBest | static/script.js:159-166 | a suggestion the cap leaves out is not more habitable than any shown one, nor tied with an earlier name |
| Suggest.RankedKeepsShortList | static/script.js:159-166 | a list of at most 20 is shown whole |
| Suggest.RankedTiesKeepOrder | static/script.js:159-166 | the shown suggestions tied on habitability and name are a prefix of those in the list, in list order, and all of them when the list holds at most 20 |
| Suggest.PctClass | static/script.js:171-173 | the class is one of none, green, yellow and red, and none exactly for null |
| Suggest.PctClassBands | static/script.js:171-173 | green exactly above 50, yellow exactly in (20, 50], red exactly at 20 or below, none exactly for null |
| Suggest.ShownPercentIsClose | static/script.js:169 | the shown percentage is within 0.005 of the habitability |
| Suggest.Label | static/script.js:167 | a suggestion's name is never empty, and is the planet's name when it has one |
| Suggest.HrefNamesPlanet | static/script.js:177 | a suggestion's link is never empty, goes to `/planet?name=`, and its query decodes to the shown name |
| Uri.DecodeEncode | static/script.js:177 | decoding `encodeURIComponent`'s output gives the text back |
| Uri.EncodedCharacters | static/script.js:177 | the encoded text has only unreserved characters, `%` and hex digits |
| Dropdown.Render | static/script.js:140-192 | a render shows the dropdown, "No results found" exactly for an empty list, at most 20 nodes, none highlighted |
| Dropdown.ClearSelClears | static/script.js:115-118 | no node stays highlighted, the selection is -1, the links and visibility are kept |
| Dropdown.HighlightSelects | static/script.js:120-127 | exactly the selected node is highlighted: an index in range is selected, any other leaves the selection at -1; on an open dropdown the selection then names a node |
| Dropdown.HideCloses | static/script.js:134-138 | hiding closes the dropdown and clears the selection |
| Dropdown.RenderShows | static/script.js:140-192 | rendering shows the dropdown with no node highlighted and, as written, the old selection kept (corrected: -1): "No results found" alone for an empty list, otherwise one node per ranked suggestion with its name, colour class and link; the page's invariant is kept |
| Dropdown.BlankInputHides | static/script.js:200-204 | an input that trims to nothing hides the dropdown and clears the selection |
| Dropdown.InputShowsSuggestions | static/script.js:199-222 | any other input shows nodes named after matching planets, or "No results found" exactly when no planet matches; as written the selection is left as it was |
| Dropdown.ArrowDownMoves | static/script.js:240-245 | ArrowDown moves the selection down one and highlights that node when there is one, else keeps it; the page's invariant is kept |
| Dropdown.ArrowUpMoves | static/script.js:246-253 | ArrowUp moves the selection up one onto a node, or clears it to -1 from the top, from no selection or from past the last node |
| Dropdown.EscapeHides | static/script.js:270-272 | Escape hides the dropdown and clears the selection |
| Dropdown.KeyDown | static/script.js:225-273 | no key changes the links or "No results found"; only Enter has an effect, and a followed link is one of the nodes' |
| Dropdown.EnterFollowsSelection | static/script.js:226-269 | Enter on a selection naming a node of an open dropdown follows its link; otherwise it asks the server for the trimmed input |
| Dropdown.EnterOpensSuggestion | static/script.js:254-261 | Enter on a highlighted rendered suggestion opens that planet's page |
| Dropdown.KeyDownKeepsInvariants | static/script.js:225-273 | every key keeps the page's invariant (the selection is at least -1, only the selected node is highlighted, "No results found" has no nodes, and a closed dropdown has nothing selected), and keeps the selection -1 or the index of the one highlighted node when it was |
| Dropdown.ToggleFlips | static/script.js:276-285 | the toggle closes an open dropdown and opens a closed one on the first 20 planets, with nothing selected |
| Dropdown.StepKeepsCoherent | static/script.js:115-292 | every event keeps the page's invariant (the selection is at least -1, only the selected node is highlighted, "No results found" has no nodes, and a closed dropdown has nothing selected) |
| Dropdown.RunKeepsCoherent | static/script.js:115-292 | after any sequence of events the page's invariant holds |
| Dropdown.StepKeepsConsistent | static/script.js:115-292 | with the selection reset on render, every event keeps the selection -1 or the index of the one highlighted node |
| Dropdown.RunKeepsConsistent | static/script.js:115-292 | with the selection reset on render, after any sequence of events the selection is -1 or the index of the one highlighted node |
| Dropdown.RankedPair | static/script.js:159-166 | two planets, the first more habitable, are shown in that order |
| Dropdown.StaleSelectionAfterRender | static/script.js:140-143 | as written, re-rendering the same suggestions leaves a selection with nothing highlighted; Enter then opens the top one and ArrowDown skips it |
| Dropdown.PageReachesStaleSelection | static/script.js:140-222 | as written, loading two planets, opening the dropdown, pressing ArrowDown and typing a query that keeps both leaves the selection at 0 with nothing highlighted, and Enter then opens the top planet |
| Dropdown.SelectionPastTheNodes | static/script.js:140-143 | as written, narrowing the list can leave the selection past the last node |
| Dropdown.RenderResetsSelection | static/script.js:140-143 | with the selection reset on render, Enter asks the server and ArrowDown highlights the top suggestion |
| Dropdown.SearchBox.constructor | static/script.js:2-4 | the page starts with no planets, no nodes, nothing selected and the dropdown closed |
| Dropdown.SearchBox.LoadPlanets | static/script.js:29-37 | the fetched list (empty on a failed fetch) becomes the planets; the dropdown state is untouched |
| Dropdown.SearchBox.ShowDropdown | static/script.js:129-132 | the new state is `Show` of the old: open, with nodes and selection kept; a valid page stays valid |
| Dropdown.SearchBox.ClearSelection | static/script.js:115-118 | the loop unhighlights every node and clears the selection; the page is then valid exactly when the "No results found" line has no nodes |
| Dropdown.SearchBox.HighlightSuggestion | static/script.js:120-127 | the new state is `Highlight` of the old; a valid open page stays valid |
| Dropdown.SearchBox.HideDropdown | static/script.js:134-138 | the new state is `Hide` of the old; a valid page stays valid |
| Dropdown.SearchBox.RenderSuggestions | static/script.js:140-192 | the loop pushes one node per ranked suggestion; the new state is `Render` of the old as written, with `selectedIndex` kept; a valid page stays valid |
| Dropdown.SearchBox.OnInputEvent | static/script.js:199-223 | the new state is `OnInput` of the old, as written; a valid page stays valid |
| Dropdown.SearchBox.OnKeyDown | static/script.js:225-273 | the new state and the effect are `KeyDown` of the old; a valid page stays valid |
| Dropdown.SearchBox.OnToggle | static/script.js:276-285 | the new state is `Toggle` of the old, as written; a valid page stays valid |
| Dropdown.SearchBox.Handle | static/script.js:115-292 | any event changes the state as `Step` of the page as written says, and keeps the page's invariant |

## Left out

- Flask plumbing: templates, redirects, JSON encoding, HTTP status codes
  other than the found / not found / error outcome, loading and saving
  planets.json, and the contact route: they are I/O.
- `random.choice`: the choice is the parameter `roll`, taken modulo the
  pool's size.
- `int()` of the `limit` argument: the argument is already an integer, or
  marked as one `int()` rejects.
- Floating point: numbers are exact reals. NaN, infinities and rounding are
  not modelled; `str()` of a float is the text stored with it.
- Records.ToFloatSafe: `float()`'s `inf`, `nan` and underscore forms, and
  text in non-ASCII decimal digits (Arabic-Indic, full-width and the other
  Unicode digits `float()` accepts), are read as None rather than as
  numbers. An int too large for a float, for which `float(v)` raises
  OverflowError and the answer is None, is read as its value here.
- Case mapping is ASCII only; Python's `lower()` and JavaScript's
  `toLowerCase()` also map non-ASCII letters.
- Suggest.SuggestionOrder: `localeCompare` is modelled as code-point
  order, not a locale's collation.
- Suggest.Planet: a client record's name is a string ("" for missing, null
  or empty); a record whose name is another JSON type is not modelled, nor a
  list entry that is not an object.
- Suggest.JsNumber: `Number()` of any list or object is NaN here; in
  JavaScript an empty list is 0 and a one-element list is the number of its
  element. The hex, binary, octal and `Infinity` forms are left out too.
- Api.ApiTop and Dropdown.SearchBox.RenderSuggestions: the in-place
  `arr.sort` / `list.sort` is the functional stable sort `Sort` on a
  sequence, not an update of the array.
- The fetches (`safeFetch`, `loadPlanets`, `loadLeaderboards`) and
  `renderLeaderboard`'s formatting: network I/O and float-to-text
  formatting. What /api/all answers is the parameter of `LoadPlanets`, and
  Enter's server search is the `RemoteSearch` effect, whose answer and the
  page it then opens are not modelled.
- DOM work: `innerHTML` text, `scrollIntoView`, `style.display` and
  `aria-expanded` (the `open` flag stands for both), and the containment
  test of the click-outside handler (its outcome is the `ClickOutside`
  event).
- Mouse events on the nodes of a hidden dropdown: `Step` ignores them, as
  the browser delivers none to nodes that are not displayed.
- static/hero.js: animation timers, video events and a random pick.

## Findings

| source | as written | input that shows it | evidently intended | confidence | as-written member | corrected member |
|---|---|---|---|---|---|---|
| static/script.js:140-143 | `renderSuggestions` replaces `suggestionNodes` but keeps `selectedIndex`, so after typing the selection points at a node that is not highlighted, or past the last node | type a query with two suggestions, press ArrowDown (top one highlighted), type one more letter that keeps both: nothing is highlighted, Enter opens the top planet instead of searching, and ArrowDown highlights the second | a new list starts with nothing selected, as after `hideDropdown` | medium, not executed | Dropdown.PageReachesStaleSelection | Dropdown.RenderResetsSelection |
