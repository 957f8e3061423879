/**
 Stable sorting of positions by tuple keys, which is what `sorted`, `list.sort` and
 `sort_by` do wherever the source calls them, and the fact that the result is determined by
 being sorted: two routes to the same comparison give the same order.
 */
module Sorting {

  type Key = seq<real>

  /** Lexicographic order on tuples. */
  predicate LexLess(a: Key, b: Key) {
    b != [] && (a == [] || a[0] < b[0] || (a[0] == b[0] && LexLess(a[1..], b[1..])))
  }

  lemma LexAsymmetric(a: Key, b: Key)
    ensures !(LexLess(a, b) && LexLess(b, a))
  {
  }

  lemma LexPair(a: real, b: real, c: real, d: real)
    ensures LexLess([a, b], [c, d]) <==> a < c || (a == c && b < d)
  {
    LexHead([b], [d]);
    LexHead([a, b], [c, d]);
    assert [a, b][1..] == [b] && [c, d][1..] == [d];
    assert [b][1..] == [] && [d][1..] == [];
  }

  lemma LexThree(a: Key, b: Key)
    requires |a| == |b| == 3
    ensures LexLess(a, b) <==> a[0] < b[0] || (a[0] == b[0] && (a[1] < b[1] || (a[1] == b[1] && a[2] < b[2])))
  {
    LexHead(a, b);
    LexHead(a[1..], b[1..]);
    LexHead(a[2..], b[2..]);
    assert a[1..][1..] == a[2..] && b[1..][1..] == b[2..] && a[2..][1..] == [] && b[2..][1..] == [];
  }

  lemma LexFive(a: Key, b: Key)
    requires |a| == |b| == 5
    ensures var rest := a[2] < b[2] || (a[2] == b[2] && (a[3] < b[3] || (a[3] == b[3] && a[4] < b[4])));
      LexLess(a, b) <==> a[0] < b[0] || (a[0] == b[0] && (a[1] < b[1] || (a[1] == b[1] && rest)))
  {
    hide LexLess;
    LexHead(a, b);
    LexHead(a[1..], b[1..]);
    assert a[1..][1..] == a[2..] && b[1..][1..] == b[2..];
    LexThree(a[2..], b[2..]);
  }

  lemma LexHead(a: Key, b: Key)
    requires a != [] && b != []
    ensures LexLess(a, b) <==> a[0] < b[0] || (a[0] == b[0] && LexLess(a[1..], b[1..]))
  {
  }

  lemma LexIrreflexive(a: Key)
    ensures !LexLess(a, a)
  {
    LexAsymmetric(a, a);
  }

  lemma {:induction false} LexTransitive(a: Key, b: Key, c: Key)
    requires !LexLess(b, a) && !LexLess(c, b)
    ensures !LexLess(c, a)
    ensures LexLess(a, b) || LexLess(b, c) ==> LexLess(a, c)
  {
    if a != [] && b != [] && c != [] && a[0] == b[0] == c[0] {
      LexTransitive(a[1..], b[1..], c[1..]);
    }
  }

  ghost predicate InBounds(keys: seq<Key>, s: seq<nat>) {
    forall i :: 0 <= i < |s| ==> s[i] < |keys|
  }

  /** Position `x` comes before `y`: smaller key, or the same key and an earlier position. */
  ghost predicate Before(keys: seq<Key>, x: nat, y: nat)
    requires x < |keys| && y < |keys|
  {
    LexLess(keys[x], keys[y]) || (!LexLess(keys[y], keys[x]) && x < y)
  }

  ghost predicate Ordered(keys: seq<Key>, s: seq<nat>) {
    && InBounds(keys, s)
    && forall i, j {:trigger Before(keys, s[i], s[j])} :: 0 <= i < j < |s| ==> Before(keys, s[i], s[j])
  }

  ghost predicate NoDup<T>(s: seq<T>) {
    forall i, j :: 0 <= i < j < |s| ==> s[i] != s[j]
  }

  /** `s` lists each of the positions `0..n` once. */
  ghost predicate Permutes(s: seq<nat>, n: nat) {
    && |s| == n && NoDup(s)
    && (forall i :: 0 <= i < n ==> s[i] < n)
    && forall x: nat :: x < n ==> x in s
  }

  function InsertSorted(keys: seq<Key>, s: seq<nat>, x: nat): (r: seq<nat>)
    requires x < |keys| && forall i :: 0 <= i < |s| ==> s[i] < |keys|
    ensures |r| == |s| + 1
    ensures multiset(r) == multiset(s) + multiset{x}
    ensures forall i :: 0 <= i < |r| ==> r[i] < |keys|
  {
    if s == [] then [x]
    else if LexLess(keys[x], keys[s[0]]) then
      assert multiset([x] + s) == multiset(s) + multiset{x};
      [x] + s
    else
      var rest := InsertSorted(keys, s[1..], x);
      assert s == [s[0]] + s[1..];
      [s[0]] + rest
  }

  /** Stable sort of the listed positions. */
  function SortList(keys: seq<Key>, s: seq<nat>): (r: seq<nat>)
    requires forall i :: 0 <= i < |s| ==> s[i] < |keys|
    ensures |r| == |s|
    ensures multiset(r) == multiset(s)
    ensures forall i :: 0 <= i < |r| ==> r[i] < |keys|
  {
    if s == [] then []
    else
      assert s == s[..|s| - 1] + [s[|s| - 1]];
      InsertSorted(keys, SortList(keys, s[..|s| - 1]), s[|s| - 1])
  }

  function Positions(n: nat): (s: seq<nat>)
    ensures |s| == n && forall i :: 0 <= i < n ==> s[i] == i
  {
    seq(n, i => i)
  }

  function StableSort(keys: seq<Key>): (r: seq<nat>)
    ensures |r| == |keys| && multiset(r) == multiset(Positions(|keys|))
    ensures forall i :: 0 <= i < |r| ==> r[i] < |keys|
  {
    SortList(keys, Positions(|keys|))
  }

  /** Inserting a position later than all others keeps a stable order. */
  lemma {:induction false} InsertOrdered(keys: seq<Key>, s: seq<nat>, x: nat)
    requires x < |keys| && Ordered(keys, s) && forall i :: 0 <= i < |s| ==> s[i] < x
    ensures Ordered(keys, InsertSorted(keys, s, x))
  {
    if s != [] {
      if LexLess(keys[x], keys[s[0]]) {
        InsertAtFront(keys, s, x);
      } else {
        assert Ordered(keys, s[1..]) by {
          forall i, j | 0 <= i < j < |s[1..]|
            ensures Before(keys, s[1..][i], s[1..][j])
          {
            assert Before(keys, s[i + 1], s[j + 1]);
          }
        }
        InsertOrdered(keys, s[1..], x);
        InsertAfter(keys, s, x);
      }
    }
  }

  lemma InsertAtFront(keys: seq<Key>, s: seq<nat>, x: nat)
    requires x < |keys| && Ordered(keys, s) && s != [] && LexLess(keys[x], keys[s[0]])
    ensures Ordered(keys, [x] + s)
  {
    var r := [x] + s;
    forall i, j | 0 <= i < j < |r|
      ensures Before(keys, r[i], r[j])
    {
      if i > 0 {
        assert Before(keys, s[i - 1], s[j - 1]);
      } else if j > 1 {
        assert Before(keys, s[0], s[j - 1]);
        LexAsymmetric(keys[x], keys[s[0]]);
        LexAsymmetric(keys[s[0]], keys[s[j - 1]]);
        LexTransitive(keys[x], keys[s[0]], keys[s[j - 1]]);
      }
    }
  }

  lemma InsertAfter(keys: seq<Key>, s: seq<nat>, x: nat)
    requires x < |keys| && Ordered(keys, s) && s != [] && !LexLess(keys[x], keys[s[0]]) && s[0] < x
    requires Ordered(keys, InsertSorted(keys, s[1..], x))
    ensures Ordered(keys, [s[0]] + InsertSorted(keys, s[1..], x))
  {
    var rest := InsertSorted(keys, s[1..], x);
    var r := [s[0]] + rest;
    forall i, j | 0 <= i < j < |r|
      ensures Before(keys, r[i], r[j])
    {
      if i > 0 {
        assert Before(keys, rest[i - 1], rest[j - 1]);
      } else {
        assert rest[j - 1] in multiset(rest);
        if rest[j - 1] != x {
          var k :| 0 <= k < |s[1..]| && s[1..][k] == rest[j - 1];
          assert Before(keys, s[0], s[k + 1]);
        }
      }
    }
  }

  lemma {:induction false} SortListOrdered(keys: seq<Key>, s: seq<nat>)
    requires forall i :: 0 <= i < |s| ==> s[i] < |keys|
    requires forall i, j :: 0 <= i < j < |s| ==> s[i] < s[j]
    ensures Ordered(keys, SortList(keys, s))
    decreases |s|
  {
    if s != [] {
      var init := s[..|s| - 1];
      SortListOrdered(keys, init);
      forall i | 0 <= i < |init|
        ensures SortList(keys, init)[i] < s[|s| - 1]
      {
        assert SortList(keys, init)[i] in multiset(init);
      }
      InsertOrdered(keys, SortList(keys, init), s[|s| - 1]);
    }
  }

  /** The library sort: a permutation of the positions, in stable key order. */
  lemma StableSortOrdered(keys: seq<Key>)
    ensures Ordered(keys, StableSort(keys)) && Permutes(StableSort(keys), |keys|)
  {
    SortListOrdered(keys, Positions(|keys|));
    var s := StableSort(keys);
    OrderedNoDup(keys, s);
    forall x: nat | x < |keys|
      ensures x in s
    {
      assert Positions(|keys|)[x] == x;
      assert x in multiset(Positions(|keys|));
    }
  }

  /** `x` is listed somewhere ahead of `y`. */
  ghost predicate ListedAhead(s: seq<nat>, x: nat, y: nat) {
    exists i, j {:trigger s[i], s[j]} :: 0 <= i < j < |s| && s[i] == x && s[j] == y
  }

  /** The library sort lists one position ahead of another exactly when its key comes before. */
  lemma AheadIffBefore(keys: seq<Key>, x: nat, y: nat)
    requires x < |keys| && y < |keys| && x != y
    ensures ListedAhead(StableSort(keys), x, y) <==> Before(keys, x, y)
  {
    hide LexLess;
    var s := StableSort(keys);
    StableSortOrdered(keys);
    assert x in s && y in s;
    var i :| 0 <= i < |s| && s[i] == x;
    var j :| 0 <= j < |s| && s[j] == y;
    LexAsymmetric(keys[x], keys[y]);
    if i < j {
      assert Before(keys, s[i], s[j]);
    } else {
      assert Before(keys, s[j], s[i]);
    }
  }

  lemma OrderedNoDup(keys: seq<Key>, s: seq<nat>)
    requires Ordered(keys, s)
    ensures NoDup(s)
  {
    forall i, j | 0 <= i < j < |s|
      ensures s[i] != s[j]
    {
      assert Before(keys, s[i], s[j]);
      LexAsymmetric(keys[s[i]], keys[s[i]]);
    }
  }

  lemma OrderedUnique(keys: seq<Key>, s: seq<nat>, t: seq<nat>)
    requires Ordered(keys, s) && Ordered(keys, t) && |s| == |t|
    requires forall x :: x in s <==> x in t
    ensures s == t
  {
    if s != t {
      var k := FirstDifference(s, t);
      assert s[k] in t && t[k] in s;
      var i :| 0 <= i < |s| && s[i] == t[k];
      var j :| 0 <= j < |t| && t[j] == s[k];
      OrderedNoDup(keys, s);
      OrderedNoDup(keys, t);
      assert i > k && j > k;
      assert Before(keys, s[k], s[i]) && Before(keys, t[k], t[j]);
      LexAsymmetric(keys[s[k]], keys[t[k]]);
    }
  }

  lemma FirstDifference<T>(s: seq<T>, t: seq<T>) returns (k: nat)
    requires |s| == |t| && s != t
    ensures k < |s| && s[k] != t[k] && s[..k] == t[..k]
  {
    k := 0;
    while k < |s| && s[k] == t[k]
      invariant k <= |s| && s[..k] == t[..k]
    {
      assert s[..k + 1] == s[..k] + [s[k]] && t[..k + 1] == t[..k] + [t[k]];
      k := k + 1;
    }
    assert s[..|s|] == s && t[..|t|] == t;
  }

  /** Whatever lists the positions in stable key order is the library sort. */
  lemma AnyStableSort(keys: seq<Key>, s: seq<nat>)
    requires Ordered(keys, s) && Permutes(s, |keys|)
    ensures s == StableSort(keys)
  {
    StableSortOrdered(keys);
    OrderedUnique(keys, s, StableSort(keys));
  }
}
