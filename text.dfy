/** Character classes and string operations shared by the server (Python) and
    the client (JavaScript): whitespace as each language defines it, ASCII
    lower-casing, stripping, prefixes and substrings. */
module Text {

  /** Python's `str.isspace()`: the characters `str.strip()` removes. */
  predicate IsPySpace(c: char) {
    var n := c as int;
    n == 0x20 || 0x09 <= n <= 0x0D || 0x1C <= n <= 0x1F || n == 0x85 || n == 0xA0 ||
    n == 0x1680 || 0x2000 <= n <= 0x200A || n == 0x2028 || n == 0x2029 ||
    n == 0x202F || n == 0x205F || n == 0x3000
  }

  /** JavaScript's WhiteSpace and LineTerminator: what `trim()` removes and what
      the regular-expression class `\s` matches. */
  predicate IsJsSpace(c: char) {
    var n := c as int;
    n == 0x20 || 0x09 <= n <= 0x0D || n == 0xA0 || n == 0x1680 ||
    0x2000 <= n <= 0x200A || n == 0x2028 || n == 0x2029 || n == 0x202F ||
    n == 0x205F || n == 0x3000 || n == 0xFEFF
  }

  predicate IsUpper(c: char) { 'A' <= c <= 'Z' }

  function LowerChar(c: char): (d: char)
    ensures !IsUpper(d)
  {
    if IsUpper(c) then (c as int + 32) as char else c
  }

  /** `lower()` / `toLowerCase()`, on the ASCII letters. */
  function Lower(s: string): (r: string)
    ensures |r| == |s|
    ensures forall i :: 0 <= i < |s| ==> r[i] == LowerChar(s[i])
  {
    if s == [] then [] else [LowerChar(s[0])] + Lower(s[1..])
  }

  lemma {:induction false} LowerAppend(a: string, b: string)
    ensures Lower(a + b) == Lower(a) + Lower(b)
  {
    if a != [] {
      assert (a + b)[1..] == a[1..] + b;
      LowerAppend(a[1..], b);
    }
  }

  predicate AllIn(s: string, sp: char -> bool) {
    forall i :: 0 <= i < |s| ==> sp(s[i])
  }

  function TrimStart(s: string, sp: char -> bool): (r: string)
    ensures r != [] ==> !sp(r[0])
  {
    if s != [] && sp(s[0]) then TrimStart(s[1..], sp) else s
  }

  function TrimEnd(s: string, sp: char -> bool): (r: string)
    ensures |r| <= |s| && r == s[..|r|]
    ensures r != [] ==> !sp(r[|r| - 1])
  {
    if s != [] && sp(s[|s| - 1]) then TrimEnd(s[..|s| - 1], sp) else s
  }

  /** Removes the characters `sp` holds of from both ends of `s`. */
  function Strip(s: string, sp: char -> bool): (r: string)
    ensures r != [] ==> !sp(r[0]) && !sp(r[|r| - 1])
  {
    TrimEnd(TrimStart(s, sp), sp)
  }

  /** A string made only of stripped characters strips to nothing. */
  lemma {:induction false} StripAll(s: string, sp: char -> bool)
    requires AllIn(s, sp)
    ensures Strip(s, sp) == []
  {
    if s != [] {
      StripAll(s[1..], sp);
    }
  }

  /** Stripping gives back exactly the core of a string padded with whitespace. */
  lemma {:induction false} StripPadded(lead: string, core: string, trail: string, sp: char -> bool)
    requires AllIn(lead, sp) && AllIn(trail, sp)
    requires core != [] && !sp(core[0]) && !sp(core[|core| - 1])
    ensures Strip(lead + core + trail, sp) == core
  {
    assert lead + core + trail == lead + (core + trail);
    TrimStartPadded(lead, core + trail, sp);
    TrimEndPadded(core, trail, sp);
  }

  lemma {:induction false} TrimStartPadded(lead: string, rest: string, sp: char -> bool)
    requires AllIn(lead, sp)
    requires rest != [] && !sp(rest[0])
    ensures TrimStart(lead + rest, sp) == rest
  {
    if lead != [] {
      assert (lead + rest)[1..] == lead[1..] + rest;
      TrimStartPadded(lead[1..], rest, sp);
    }
  }

  lemma {:induction false} TrimEndPadded(rest: string, trail: string, sp: char -> bool)
    requires AllIn(trail, sp)
    requires rest != [] && !sp(rest[|rest| - 1])
    ensures TrimEnd(rest + trail, sp) == rest
  {
    if trail != [] {
      assert (rest + trail)[..|rest + trail| - 1] == rest + trail[..|trail| - 1];
      TrimEndPadded(rest, trail[..|trail| - 1], sp);
    }
  }

  /** Python's `str.strip()` with no argument. */
  function PyStrip(s: string): string {
    Strip(s, IsPySpace)
  }

  /** JavaScript's `String.prototype.trim()`. */
  function JsTrim(s: string): string {
    Strip(s, IsJsSpace)
  }

  /** `t` occurs in `s` as a contiguous run (Python `t in s`, JavaScript
      `s.includes(t)`). */
  predicate Contains(s: string, t: string)
    decreases |s|
  {
    t <= s || (s != [] && Contains(s[1..], t))
  }

  lemma {:induction false} ContainsAt(s: string, t: string, k: nat)
    requires k + |t| <= |s| && s[k..k + |t|] == t
    ensures Contains(s, t)
    decreases k
  {
    if k > 0 {
      assert s[1..][k - 1..k - 1 + |t|] == t;
      ContainsAt(s[1..], t, k - 1);
    }
  }

  /** The index witness of `Contains`. */
  lemma {:induction false} ContainsWitness(s: string, t: string) returns (k: nat)
    requires Contains(s, t)
    ensures k + |t| <= |s| && s[k..k + |t|] == t
    decreases |s|
  {
    if t <= s {
      k := 0;
    } else {
      k := ContainsWitness(s[1..], t);
      assert s[1..][k..k + |t|] == s[k + 1..k + 1 + |t|];
      k := k + 1;
    }
  }

  /** Lexicographic order on strings by code point: a proper prefix goes
      first, otherwise the first differing character decides. */
  predicate LexLess(a: string, b: string) {
    if a == [] then b != []
    else if b == [] then false
    else a[0] < b[0] || (a[0] == b[0] && LexLess(a[1..], b[1..]))
  }

  lemma {:induction false} LexLessIrreflexive(a: string)
    ensures !LexLess(a, a)
  {
    if a != [] {
      LexLessIrreflexive(a[1..]);
    }
  }

  lemma {:induction false} LexLessTransitive(a: string, b: string, c: string)
    requires LexLess(a, b) && LexLess(b, c)
    ensures LexLess(a, c)
  {
    if a != [] && b != [] && c != [] && a[0] == b[0] == c[0] {
      LexLessTransitive(a[1..], b[1..], c[1..]);
    }
  }

  /** Any two different strings are ordered one way or the other. */
  lemma {:induction false} LexLessTotal(a: string, b: string)
    requires a != b
    ensures LexLess(a, b) || LexLess(b, a)
  {
    if a != [] && b != [] && a[0] == b[0] {
      assert a == [a[0]] + a[1..] && b == [b[0]] + b[1..];
      LexLessTotal(a[1..], b[1..]);
    }
  }
}
