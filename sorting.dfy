/** Stable sorting by a key order. Python's `list.sort(key=..., reverse=...)`
    and JavaScript's `Array.prototype.sort` with a comparator are both stable:
    elements the order does not separate keep their input order. The model
    sorts by insertion and proves the result sorted, a permutation, and
    stable. */
module Sorting {

  /** `lt(a, b)`: a goes strictly before b. A key order is asymmetric and its
      "does not go before" is transitive (a strict weak order). */
  ghost predicate IsKeyOrder<T(!new)>(lt: (T, T) -> bool) {
    (forall a, b :: lt(a, b) ==> !lt(b, a)) &&
    (forall a, b, c :: !lt(a, b) && !lt(b, c) ==> !lt(a, c))
  }

  /** No element goes strictly before an earlier one. */
  predicate Sorted<T>(s: seq<T>, lt: (T, T) -> bool) {
    forall i, j :: 0 <= i < j < |s| ==> !lt(s[j], s[i])
  }

  /** Inserts x before the first element that does not go strictly before x. */
  function Insert<T>(x: T, s: seq<T>, lt: (T, T) -> bool): (r: seq<T>)
    ensures multiset(r) == multiset(s) + multiset{x}
  {
    if s == [] || !lt(s[0], x) then [x] + s
    else
      assert s == [s[0]] + s[1..];
      [s[0]] + Insert(x, s[1..], lt)
  }

  function Sort<T>(s: seq<T>, lt: (T, T) -> bool): (r: seq<T>)
    ensures multiset(r) == multiset(s)
    ensures |r| == |s|
  {
    if s == [] then []
    else
      assert s == [s[0]] + s[1..];
      Insert(s[0], Sort(s[1..], lt), lt)
  }

  lemma {:induction false} InsertSorted<T(!new)>(x: T, s: seq<T>, lt: (T, T) -> bool)
    requires IsKeyOrder(lt)
    requires Sorted(s, lt)
    ensures Sorted(Insert(x, s, lt), lt)
  {
    var r := Insert(x, s, lt);
    if s == [] || !lt(s[0], x) {
      forall i, j | 0 <= i < j < |r| ensures !lt(r[j], r[i]) {
        if i == 0 && j > 1 {
          assert !lt(s[j - 1], s[0]);
        }
      }
    } else {
      var tail := Insert(x, s[1..], lt);
      InsertSorted(x, s[1..], lt);
      forall k | 0 <= k < |tail| ensures !lt(tail[k], s[0]) {
        assert tail[k] in multiset(tail);
        if tail[k] != x {
          assert tail[k] in multiset(s[1..]);
          var m :| 0 <= m < |s[1..]| && s[1..][m] == tail[k];
          assert s[m + 1] == tail[k];
        }
      }
      assert r == [s[0]] + tail;
    }
  }

  /** The result is ordered. */
  lemma {:induction false} SortSorted<T(!new)>(s: seq<T>, lt: (T, T) -> bool)
    requires IsKeyOrder(lt)
    ensures Sorted(Sort(s, lt), lt)
  {
    if s != [] {
      SortSorted(s[1..], lt);
      InsertSorted(s[0], Sort(s[1..], lt), lt);
    }
  }

  /** Inserting x into A + B, where everything in A goes before x and B does
      not start with an element that does, puts x between A and B. */
  lemma {:induction false} InsertBetween<T>(x: T, a: seq<T>, b: seq<T>, lt: (T, T) -> bool)
    requires forall i :: 0 <= i < |a| ==> lt(a[i], x)
    requires b == [] || !lt(b[0], x)
    ensures Insert(x, a + b, lt) == a + [x] + b
  {
    if a != [] {
      var tail := a[1..];
      assert Insert(x, a + b, lt) == [a[0]] + Insert(x, tail + b, lt) by {
        assert (a + b)[0] == a[0] && (a + b)[1..] == tail + b;
      }
      InsertBetween(x, tail, b, lt);
      assert [a[0]] + (tail + [x] + b) == a + [x] + b by {
        assert a == [a[0]] + tail;
      }
    } else {
      assert a + b == b;
    }
  }

  /** Neither goes before the other. */
  predicate Tied<T>(a: T, b: T, lt: (T, T) -> bool) {
    !lt(a, b) && !lt(b, a)
  }

  /** The elements of s tied with y, in the order of s. */
  function TiedWith<T>(s: seq<T>, y: T, lt: (T, T) -> bool): seq<T> {
    if s == [] then []
    else (if Tied(s[0], y, lt) then [s[0]] else []) + TiedWith(s[1..], y, lt)
  }

  /** The elements of a prefix tied with y are a prefix of those of the
      whole sequence. */
  lemma {:induction false} TiedWithPrefix<T>(s: seq<T>, n: nat, y: T, lt: (T, T) -> bool)
    requires n <= |s|
    ensures TiedWith(s[..n], y, lt) <= TiedWith(s, y, lt)
  {
    if n > 0 {
      TiedWithPrefix(s[1..], n - 1, y, lt);
      assert s[..n][1..] == s[1..][..n - 1];
      var head := if Tied(s[0], y, lt) then [s[0]] else [];
      assert TiedWith(s[..n], y, lt) == head + TiedWith(s[1..][..n - 1], y, lt);
    }
  }

  /** What goes before x goes before everything tied with x. */
  lemma BeforeTied<T(!new)>(a: T, x: T, y: T, lt: (T, T) -> bool)
    requires IsKeyOrder(lt)
    requires lt(a, x) && Tied(x, y, lt)
    ensures lt(a, y)
  {
  }

  lemma {:induction false} TiedWithCons<T>(h: T, t: seq<T>, y: T, lt: (T, T) -> bool)
    ensures TiedWith([h] + t, y, lt) == (if Tied(h, y, lt) then [h] else []) + TiedWith(t, y, lt)
  {
    assert ([h] + t)[1..] == t;
  }

  lemma {:induction false} InsertTiedWith<T>(x: T, s: seq<T>, y: T, lt: (T, T) -> bool)
    requires Tied(x, y, lt) ==> forall a :: lt(a, x) ==> lt(a, y)
    ensures TiedWith(Insert(x, s, lt), y, lt)
         == (if Tied(x, y, lt) then [x] else []) + TiedWith(s, y, lt)
  {
    if s == [] || !lt(s[0], x) {
      TiedWithCons(x, s, y, lt);
    } else {
      var own := if Tied(x, y, lt) then [x] else [];
      var head := if Tied(s[0], y, lt) then [s[0]] else [];
      var rest := Insert(x, s[1..], lt);
      var later := TiedWith(s[1..], y, lt);
      assert TiedWith(Insert(x, s, lt), y, lt) == head + (own + later) by {
        assert Insert(x, s, lt) == [s[0]] + rest;
        InsertTiedWith(x, s[1..], y, lt);
        TiedWithCons(s[0], rest, y, lt);
      }
      assert TiedWith(s, y, lt) == head + later by {
        assert s == [s[0]] + s[1..];
        TiedWithCons(s[0], s[1..], y, lt);
      }
      assert own == [] || head == [] by {
        if Tied(x, y, lt) {
          assert lt(s[0], y);
        }
      }
      EitherEmpty(own, head, later);
    }
  }

  lemma {:induction false} EitherEmpty<T>(a: seq<T>, b: seq<T>, c: seq<T>)
    requires a == [] || b == []
    ensures b + (a + c) == a + (b + c)
  {
    if a == [] {
      assert a + c == c && a + (b + c) == b + c;
    } else {
      assert b + (a + c) == a + c && b + c == c;
    }
  }

  /** Stability: the elements tied with any y come out in their input order. */
  lemma {:induction false} SortStable<T(!new)>(s: seq<T>, y: T, lt: (T, T) -> bool)
    requires IsKeyOrder(lt)
    ensures TiedWith(Sort(s, lt), y, lt) == TiedWith(s, y, lt)
  {
    if s != [] {
      SortStable(s[1..], y, lt);
      if Tied(s[0], y, lt) {
        forall a | lt(a, s[0]) ensures lt(a, y) {
          BeforeTied(a, s[0], y, lt);
        }
      }
      InsertTiedWith(s[0], Sort(s[1..], lt), y, lt);
    }
  }

  /** Insert puts x after the elements that go strictly before it. */
  lemma {:induction false} InsertAt<T>(x: T, t: seq<T>, lt: (T, T) -> bool) returns (p: nat)
    ensures p <= |t| && Insert(x, t, lt) == t[..p] + [x] + t[p..]
    ensures forall k :: 0 <= k < p ==> lt(t[k], x)
  {
    if t == [] || !lt(t[0], x) {
      p := 0;
    } else {
      var rest := InsertAt(x, t[1..], lt);
      p := rest + 1;
      assert t[..p] == [t[0]] + t[1..][..rest];
      assert t[p..] == t[1..][rest..];
    }
  }

  /** Where each element of the sorted sequence stood in s; elements tied
      with each other keep their order. */
  lemma {:induction false} SortPositions<T>(s: seq<T>, lt: (T, T) -> bool) returns (pos: seq<nat>)
    ensures |pos| == |s|
    ensures forall k :: 0 <= k < |s| ==> pos[k] < |s| && Sort(s, lt)[k] == s[pos[k]]
    ensures forall i, j :: 0 <= i < j < |s| && Tied(Sort(s, lt)[i], Sort(s, lt)[j], lt) ==> pos[i] < pos[j]
  {
    if s == [] {
      pos := [];
    } else {
      var t := Sort(s[1..], lt);
      var tpos := SortPositions(s[1..], lt);
      var p := InsertAt(s[0], t, lt);
      pos := InsertPositions(s, t, tpos, p, lt);
    }
  }

  /** One step of SortPositions: inserting the head at p, after the
      elements that go strictly before it, gives it position 0. */
  lemma InsertPositions<T>(s: seq<T>, t: seq<T>, tpos: seq<nat>, p: nat, lt: (T, T) -> bool)
    returns (pos: seq<nat>)
    requires s != [] && |t| == |s| - 1 && |tpos| == |t| && p <= |t|
    requires forall k :: 0 <= k < |t| ==> tpos[k] < |t| && t[k] == s[1..][tpos[k]]
    requires forall i, j :: 0 <= i < j < |t| && Tied(t[i], t[j], lt) ==> tpos[i] < tpos[j]
    requires forall k :: 0 <= k < p ==> lt(t[k], s[0])
    ensures var sorted := t[..p] + [s[0]] + t[p..];
      |pos| == |s| &&
      (forall k :: 0 <= k < |s| ==> pos[k] < |s| && sorted[k] == s[pos[k]]) &&
      (forall i, j :: 0 <= i < j < |s| && Tied(sorted[i], sorted[j], lt) ==> pos[i] < pos[j])
  {
    var sorted := t[..p] + [s[0]] + t[p..];
    SplicedAt(t, p, s[0]);
    pos := seq(|s|, k requires 0 <= k < |s| => if k < p then tpos[k] + 1 else if k == p then 0 else tpos[k - 1] + 1);
    forall k | 0 <= k < |s| ensures pos[k] < |s| && sorted[k] == s[pos[k]] {
      if k != p {
        var b := if k < p then k else k - 1;
        assert t[b] == s[1..][tpos[b]];
      }
    }
  }

  /** The elements of t around x inserted at p. */
  lemma SplicedAt<T>(t: seq<T>, p: nat, x: T)
    requires p <= |t|
    ensures var r := t[..p] + [x] + t[p..];
      |r| == |t| + 1 && r[p] == x &&
      (forall k :: 0 <= k < p ==> r[k] == t[k]) &&
      (forall k :: p < k <= |t| ==> r[k] == t[k - 1])
  {
  }

  /** `[x for x in s if f(x)]` */
  function Select<T>(s: seq<T>, f: T -> bool): (r: seq<T>)
    ensures forall i :: 0 <= i < |r| ==> f(r[i])
  {
    if s == [] then [] else (if f(s[0]) then [s[0]] else []) + Select(s[1..], f)
  }

  /** `[x for x in s if not f(x)]` */
  function Reject<T>(s: seq<T>, f: T -> bool): (r: seq<T>)
    ensures forall i :: 0 <= i < |r| ==> !f(r[i])
  {
    if s == [] then [] else (if f(s[0]) then [] else [s[0]]) + Reject(s[1..], f)
  }

  /** The comprehension keeps exactly the elements f holds of. */
  lemma {:induction false} SelectMembers<T>(s: seq<T>, f: T -> bool)
    ensures forall x :: x in Select(s, f) <==> x in s && f(x)
  {
    if s != [] {
      SelectMembers(s[1..], f);
      assert s == [s[0]] + s[1..];
    }
  }

  /** The comprehension keeps exactly the elements f does not hold of. */
  lemma {:induction false} RejectMembers<T>(s: seq<T>, f: T -> bool)
    ensures forall x :: x in Reject(s, f) <==> x in s && !f(x)
  {
    if s != [] {
      RejectMembers(s[1..], f);
      assert s == [s[0]] + s[1..];
    }
  }

  /** Filtering a concatenation filters each part. */
  lemma {:induction false} SelectAppend<T>(a: seq<T>, b: seq<T>, f: T -> bool)
    ensures Select(a + b, f) == Select(a, f) + Select(b, f)
  {
    if a != [] {
      assert (a + b)[1..] == a[1..] + b;
      SelectAppend(a[1..], b, f);
    } else {
      assert a + b == b;
    }
  }

  lemma {:induction false} RejectAppend<T>(a: seq<T>, b: seq<T>, f: T -> bool)
    ensures Reject(a + b, f) == Reject(a, f) + Reject(b, f)
  {
    if a != [] {
      assert (a + b)[1..] == a[1..] + b;
      RejectAppend(a[1..], b, f);
    } else {
      assert a + b == b;
    }
  }

  /** `sub` is made of elements of `s` in their order in `s`: `sub[k]` is
      `s[pos[k]]`, and the positions increase. */
  ghost predicate Embeds<T>(sub: seq<T>, s: seq<T>, pos: seq<nat>) {
    |pos| == |sub| &&
    (forall k :: 0 <= k < |pos| ==> pos[k] < |s| && sub[k] == s[pos[k]]) &&
    (forall k, l :: 0 <= k < l < |pos| ==> pos[k] < pos[l])
  }

  /** Positions moved past a new first element. */
  function Shift(pos: seq<nat>): (r: seq<nat>)
    ensures |r| == |pos| && forall k :: 0 <= k < |r| ==> r[k] == pos[k] + 1
  {
    seq(|pos|, k requires 0 <= k < |pos| => pos[k] + 1)
  }

  lemma EmbedsCons<T>(x: T, sub: seq<T>, s: seq<T>, pos: seq<nat>, keep: bool)
    requires Embeds(sub, s, pos)
    ensures Embeds((if keep then [x] else []) + sub, [x] + s, (if keep then [0] else []) + Shift(pos))
  {
    var sub', s', pos' := (if keep then [x] else []) + sub, [x] + s, (if keep then [0] else []) + Shift(pos);
    var d := if keep then 1 else 0;
    forall k | 0 <= k < |pos'| ensures pos'[k] < |s'| && sub'[k] == s'[pos'[k]] {
      if k >= d {
        assert pos'[k] == pos[k - d] + 1 && sub'[k] == sub[k - d];
      }
    }
  }

  /** The comprehension keeps its elements in the order of s. */
  lemma {:induction false} SelectInOrder<T>(s: seq<T>, f: T -> bool) returns (pos: seq<nat>)
    ensures Embeds(Select(s, f), s, pos)
  {
    if s == [] {
      pos := [];
    } else {
      var rest := SelectInOrder(s[1..], f);
      EmbedsCons(s[0], Select(s[1..], f), s[1..], rest, f(s[0]));
      assert [s[0]] + s[1..] == s;
      pos := (if f(s[0]) then [0] else []) + Shift(rest);
    }
  }

  lemma {:induction false} RejectInOrder<T>(s: seq<T>, f: T -> bool) returns (pos: seq<nat>)
    ensures Embeds(Reject(s, f), s, pos)
  {
    if s == [] {
      pos := [];
    } else {
      var rest := RejectInOrder(s[1..], f);
      EmbedsCons(s[0], Reject(s[1..], f), s[1..], rest, !f(s[0]));
      assert [s[0]] + s[1..] == s;
      pos := (if f(s[0]) then [] else [0]) + Shift(rest);
    }
  }

  /** Each element of a prefix of the split comes from a position of s, and
      within each of the two groups the positions increase. */
  lemma SplitPositions<T>(s: seq<T>, f: T -> bool, r: seq<T>) returns (pos: seq<nat>)
    requires |r| <= |Select(s, f) + Reject(s, f)|
    requires r == (Select(s, f) + Reject(s, f))[..|r|]
    ensures |pos| == |r| && forall k :: 0 <= k < |r| ==> pos[k] < |s| && r[k] == s[pos[k]]
    ensures forall i, j :: 0 <= i < j < |r| && (f(r[i]) <==> f(r[j])) ==> pos[i] < pos[j]
  {
    var a, b := Select(s, f), Reject(s, f);
    var pa := SelectInOrder(s, f);
    var pb := RejectInOrder(s, f);
    pos := (pa + pb)[..|r|];
    forall k | 0 <= k < |r|
      ensures (f(r[k]) <==> k < |a|) && pos[k] < |s| && r[k] == s[pos[k]]
    {
      if k < |a| {
        assert r[k] == a[k] && pos[k] == pa[k];
      } else {
        assert r[k] == b[k - |a|] && pos[k] == pb[k - |a|];
      }
    }
    forall i, j | 0 <= i < j < |r| && (f(r[i]) <==> f(r[j])) ensures pos[i] < pos[j] {
      if j < |a| {
        assert pos[i] == pa[i] && pos[j] == pa[j];
      } else {
        assert pos[i] == pb[i - |a|] && pos[j] == pb[j - |a|];
      }
    }
  }

  /** Nothing to keep gives nothing. */
  lemma {:induction false} SelectNone<T>(s: seq<T>, f: T -> bool)
    requires forall i :: 0 <= i < |s| ==> !f(s[i])
    ensures Select(s, f) == []
  {
    if s != [] {
      SelectNone(s[1..], f);
    }
  }

  /** Nothing to remove leaves the sequence as it is. */
  lemma {:induction false} RejectNone<T>(s: seq<T>, f: T -> bool)
    requires forall i :: 0 <= i < |s| ==> !f(s[i])
    ensures Reject(s, f) == s
  {
    if s != [] {
      RejectNone(s[1..], f);
      assert s == [s[0]] + s[1..];
    }
  }

  /** An element left out of the first n of a sorted sequence goes before none
      of those kept. */
  lemma TakeIsBest<T(!new)>(s: seq<T>, lt: (T, T) -> bool, n: int, x: T)
    requires IsKeyOrder(lt)
    requires x in s && x !in SliceTo(Sort(s, lt), n)
    ensures forall y :: y in SliceTo(Sort(s, lt), n) ==> !lt(x, y)
  {
    var sorted := Sort(s, lt);
    var kept := SliceTo(sorted, n);
    SortSorted(s, lt);
    assert x in multiset(sorted);
    var m :| 0 <= m < |sorted| && sorted[m] == x;
    assert forall k :: 0 <= k < |kept| ==> kept[k] != x;
    assert m >= |kept|;
    forall y | y in kept ensures !lt(x, y) {
      var i :| 0 <= i < |kept| && kept[i] == y;
      assert sorted[i] == y;
    }
  }

  /** In any prefix of the split, the elements f holds of come first, and
      every element comes from s. */
  lemma SplitPrefix<T>(s: seq<T>, f: T -> bool, r: seq<T>)
    requires |r| <= |Select(s, f) + Reject(s, f)|
    requires r == (Select(s, f) + Reject(s, f))[..|r|]
    ensures forall i, j :: 0 <= i < j < |r| && f(r[j]) ==> f(r[i])
    ensures forall x :: x in r ==> x in s
  {
    var a, b := Select(s, f), Reject(s, f);
    forall i, j | 0 <= i < j < |r| && f(r[j]) ensures f(r[i]) {
      assert r[i] == (a + b)[i] && r[j] == (a + b)[j];
      if j < |a| {
        assert r[i] == a[i];
      }
    }
    SplitPermutes(s, f);
    forall x | x in r ensures x in s {
      var i :| 0 <= i < |r| && r[i] == x;
      assert (a + b)[i] in multiset(s);
    }
  }

  /** Filtering keeps a sequence whose every element passes. */
  lemma {:induction false} SelectAll<T>(s: seq<T>, f: T -> bool)
    requires forall i :: 0 <= i < |s| ==> f(s[i])
    ensures Select(s, f) == s && Reject(s, f) == []
  {
    if s != [] {
      SelectAll(s[1..], f);
      assert s == [s[0]] + s[1..];
    }
  }

  /** An element left out of a prefix of the split: if f holds of it, every
      element kept is one f holds of; and the kept elements of its own group
      are the first ones of that group in the order of s, all of them before
      it. */
  lemma SplitLeavesOut<T>(s: seq<T>, f: T -> bool, r: seq<T>, x: T)
    requires |r| <= |Select(s, f) + Reject(s, f)|
    requires r == (Select(s, f) + Reject(s, f))[..|r|]
    requires x in s && x !in r
    ensures f(x) ==> forall i :: 0 <= i < |r| ==> f(r[i])
    ensures var group := if f(x) then Select(s, f) else Reject(s, f);
      var kept := if f(x) then Select(r, f) else Reject(r, f);
      kept <= group && forall m :: 0 <= m < |group| && group[m] == x ==> |kept| <= m
  {
    var a, b := Select(s, f), Reject(s, f);
    assert f(x) ==> x in a by {
      SelectMembers(s, f);
    }
    assert !f(x) ==> x in b by {
      RejectMembers(s, f);
    }
    if |r| <= |a| {
      LeftOutOfFirst(a, b, f, r, x);
    } else {
      LeftOutOfSecond(a, b, f, r, x);
    }
  }

  /** SplitLeavesOut for a prefix within the first part. */
  lemma LeftOutOfFirst<T>(a: seq<T>, b: seq<T>, f: T -> bool, r: seq<T>, x: T)
    requires forall i :: 0 <= i < |a| ==> f(a[i])
    requires |r| <= |a| && r == (a + b)[..|r|]
    requires (f(x) ==> x in a) && x !in r
    ensures f(x) ==> forall i :: 0 <= i < |r| ==> f(r[i])
    ensures var group := if f(x) then a else b;
      var kept := if f(x) then Select(r, f) else Reject(r, f);
      kept <= group && forall m :: 0 <= m < |group| && group[m] == x ==> |kept| <= m
  {
    assert r == a[..|r|];
    SelectAll(r, f);
    assert forall m :: 0 <= m < |r| ==> r[m] == a[m];
  }

  /** SplitLeavesOut for a prefix that reaches into the second part. */
  lemma LeftOutOfSecond<T>(a: seq<T>, b: seq<T>, f: T -> bool, r: seq<T>, x: T)
    requires forall i :: 0 <= i < |a| ==> f(a[i])
    requires forall i :: 0 <= i < |b| ==> !f(b[i])
    requires |a| < |r| <= |a + b| && r == (a + b)[..|r|]
    requires (f(x) ==> x in a) && (!f(x) ==> x in b) && x !in r
    ensures !f(x)
    ensures Reject(r, f) <= b && forall m :: 0 <= m < |b| && b[m] == x ==> |Reject(r, f)| <= m
  {
    var k := |r| - |a|;
    assert r == a + b[..k];
    assert Reject(r, f) == b[..k] by {
      SelectAll(a, f);
      RejectNone(b[..k], f);
      RejectAppend(a, b[..k], f);
    }
    assert forall m :: 0 <= m < |a| ==> r[m] == a[m];
    assert forall m :: 0 <= m < k ==> r[|a| + m] == b[m];
  }

  /** The elements f holds of go first; nothing else separates elements. */
  function FirstWhere<T>(f: T -> bool): (T, T) -> bool {
    (a: T, b: T) => f(a) && !f(b)
  }

  lemma FirstWhereIsKeyOrder<T(!new)>(f: T -> bool)
    ensures IsKeyOrder(FirstWhere(f))
  {
  }

  /** Splitting by f keeps the elements. */
  lemma SplitPermutes<T>(s: seq<T>, f: T -> bool)
    ensures multiset(Select(s, f) + Reject(s, f)) == multiset(s)
  {
    SplitIsStableSort(s, f);
  }

  /** The two comprehensions, concatenated, are the stable sort that puts the
      elements f holds of first. */
  lemma {:induction false} SplitIsStableSort<T>(s: seq<T>, f: T -> bool)
    ensures Select(s, f) + Reject(s, f) == Sort(s, FirstWhere(f))
  {
    if s != [] {
      SplitIsStableSort(s[1..], f);
      SplitInsert(s, f);
    }
  }

  /** Splitting s is inserting its head into the split of its tail. */
  lemma {:induction false} SplitInsert<T>(s: seq<T>, f: T -> bool)
    requires s != []
    ensures Select(s, f) + Reject(s, f)
         == Insert(s[0], Select(s[1..], f) + Reject(s[1..], f), FirstWhere(f))
  {
    var a, b := Select(s[1..], f), Reject(s[1..], f);
    if f(s[0]) {
      assert Select(s, f) == [s[0]] + a && Reject(s, f) == b;
      InsertKept(s[0], a, b, f);
    } else {
      assert Select(s, f) == a && Reject(s, f) == [s[0]] + b;
      InsertRejected(s[0], a, b, f);
    }
  }

  /** A kept head goes in front of both parts. */
  lemma {:induction false} InsertKept<T>(x: T, a: seq<T>, b: seq<T>, f: T -> bool)
    requires f(x)
    ensures [x] + a + b == Insert(x, a + b, FirstWhere(f))
  {
    InsertFirst(x, a + b, f);
    assert [x] + a + b == [x] + (a + b);
  }

  /** A rejected head goes between the kept and the rejected part. */
  lemma {:induction false} InsertRejected<T>(x: T, a: seq<T>, b: seq<T>, f: T -> bool)
    requires !f(x)
    requires forall i :: 0 <= i < |a| ==> f(a[i])
    requires forall i :: 0 <= i < |b| ==> !f(b[i])
    ensures a + ([x] + b) == Insert(x, a + b, FirstWhere(f))
  {
    var lt := FirstWhere(f);
    assert Insert(x, a + b, lt) == a + [x] + b by {
      forall i | 0 <= i < |a| ensures lt(a[i], x) {
        assert f(a[i]);
      }
      assert b == [] || !lt(b[0], x);
      InsertBetween(x, a, b, lt);
    }
    assert a + ([x] + b) == a + [x] + b;
  }

  /** Nothing goes before an element f holds of. */
  lemma {:induction false} InsertFirst<T>(x: T, s: seq<T>, f: T -> bool)
    requires f(x)
    ensures Insert(x, s, FirstWhere(f)) == [x] + s
  {
  }

  /** Python's `s[:n]` for an int n: a negative n counts from the end. */
  function SliceTo<T>(s: seq<T>, n: int): (r: seq<T>)
    ensures |r| <= |s| && r == s[..|r|]
    ensures n >= 0 ==> |r| == if n < |s| then n else |s|
    ensures n < 0 ==> |r| == if |s| + n > 0 then |s| + n else 0
  {
    if n >= 0 then (if n < |s| then s[..n] else s)
    else if |s| + n > 0 then s[..|s| + n] else []
  }
}
