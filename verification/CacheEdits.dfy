/**
 The changes radix_cache.py makes to the tree - splitting a node, hanging a new one, deleting
 a leaf - as functions on the cache value, each with the proof that the invariant is kept.
 */
module CacheEdits {
  import opened Prelude
  import opened Demands
  import opened Radix
  import opened RadixEdits
  import opened Sums
  import opened CacheStore

  // ----- split: the new node `x` takes the upper `k` tokens of the key of `n` -----

  ghost predicate SplitReady<N>(c: Cache<N>, n: N, k: nat, x: N) {
    && Built(c) && n in c.path && n != c.root && NodeFits(c, n)
    && 0 < k < |c.st[n].key| && |c.st[n].value| == |c.st[n].key| && x !in c.st
  }

  ghost function SplitStore<N>(c: Cache<N>, n: N, k: nat, x: N): map<N, Rec<N>>
    requires SplitReady(c, n, k, x)
  {
    var r := c.st[n];
    var q := r.parent.value;
    c.st[x := Rec(Some(q), map[r.key[k] := n], r.key[..k], r.value[..k], r.lock, r.refs, c.st[q].depth + k)]
        [n := r.(parent := Some(x), key := r.key[k..], value := r.value[k..])]
        [q := c.st[q].(kids := c.st[q].kids[r.key[0] := x])]
  }

  ghost function SplitNode<N>(c: Cache<N>, n: N, k: nat, x: N): Cache<N>
    requires SplitReady(c, n, k, x)
  {
    c.(st := SplitStore(c, n, k, x), path := c.path[x := c.path[c.st[n].parent.value] + c.st[n].key[..k]])
  }

  /** The point of the root path of `n` at which the split cuts. */
  ghost function CutDepth<N>(c: Cache<N>, n: N, k: nat): nat
    requires SplitReady2(c, n)
  {
    |c.path[c.st[n].parent.value]| + k
  }

  ghost predicate SplitReady2<N>(c: Cache<N>, n: N) {
    n in c.st && c.st[n].parent.Some? && c.st[n].parent.value in c.path
  }

  lemma SplitFacts<N>(c: Cache<N>, n: N, k: nat, x: N)
    requires SplitReady(c, n, k, x)
    ensures c.st[n].parent.value != n && c.st[n].parent.value in c.st && c.st[n].parent.value != x
    ensures SplitNode(c, n, k, x).path[x] == c.path[n][..CutDepth(c, n, k)]
    ensures CutDepth(c, n, k) < |c.path[n]|
    ensures c.path[n][CutDepth(c, n, k)] == c.st[n].key[k]
    ensures c.path[n][|c.path[c.st[n].parent.value]|] == c.st[n].key[0]
  {
  }

  lemma SplitSh<N>(c: Cache<N>, n: N, k: nat, x: N)
    requires SplitReady(c, n, k, x)
    ensures SplitPoint(Sh(c), c.root, n, CutDepth(c, n, k)) && ParentLink(Sh(c), n)
    ensures SplitNode(c, n, k, x).path.Keys <= SplitNode(c, n, k, x).st.Keys
    ensures Sh(SplitNode(c, n, k, x)) == SplitUpper(Sh(c), n, CutDepth(c, n, k), x)
  {
    Fits(c, n);
    SplitFacts(c, n, k, x);
    var a, b := Sh(SplitNode(c, n, k, x)), SplitUpper(Sh(c), n, CutDepth(c, n, k), x);
    assert a.Keys == b.Keys;
    forall m | m in a
      ensures a[m] == b[m]
    {
      SplitLinkAt(c, n, k, x, m);
    }
  }

  lemma SplitLinkAt<N>(c: Cache<N>, n: N, k: nat, x: N, m: N)
    requires SplitReady(c, n, k, x) && m in SplitNode(c, n, k, x).path
    requires SplitNode(c, n, k, x).path.Keys <= SplitNode(c, n, k, x).st.Keys
    requires SplitPoint(Sh(c), c.root, n, CutDepth(c, n, k)) && ParentLink(Sh(c), n)
    ensures Sh(SplitNode(c, n, k, x))[m] == SplitUpper(Sh(c), n, CutDepth(c, n, k), x)[m]
  {
    SplitFacts(c, n, k, x);
  }

  lemma SplitFitAt<N>(c: Cache<N>, n: N, k: nat, x: N, m: N)
    requires SplitReady(c, n, k, x) && m != c.root
    requires m == x || NodeFits(c, m)
    requires c.st[c.st[n].parent.value].depth == |c.path[c.st[n].parent.value]|
    ensures NodeFits(SplitNode(c, n, k, x), m)
  {
    SplitFacts(c, n, k, x);
    var r := c.st[n];
    if m == n {
      assert r.key == r.key[..k] + r.key[k..];
      assert c.path[n] == (c.path[r.parent.value] + r.key[..k]) + r.key[k..];
    }
  }

  lemma SplitBuilt<N>(c: Cache<N>, n: N, k: nat, x: N)
    requires SplitReady(c, n, k, x)
    ensures Built(SplitNode(c, n, k, x))
  {
    var c' := SplitNode(c, n, k, x);
    SplitSh(c, n, k, x);
    SplitUpperValid(Sh(c), c.root, n, CutDepth(c, n, k), x);
    ParentDepth(c, n);
    SplitFacts(c, n, k, x);
    forall m | m in c'.path && m != c'.root
      ensures NodeFits(c', m)
    {
      assert m != x ==> NodeFits(c, m);
      SplitFitAt(c, n, k, x, m);
    }
  }

  lemma ParentDepth<N>(c: Cache<N>, n: N)
    requires Built(c) && n in c.path && n != c.root && NodeFits(c, n)
    ensures c.st[n].parent.value in c.st
    ensures c.st[c.st[n].parent.value].depth == |c.path[c.st[n].parent.value]|
  {
    var q := c.st[n].parent.value;
    assert q != c.root ==> NodeFits(c, q);
  }

  lemma SplitChained<N>(c: Cache<N>, n: N, k: nat, x: N)
    requires SplitReady(c, n, k, x) && Chained(c)
    ensures Chained(SplitNode(c, n, k, x))
  {
    var c' := SplitNode(c, n, k, x);
    ParentDepth(c, n);
    SplitFacts(c, n, k, x);
    forall m | m in c'.st
      ensures Climbs(c', m)
    {
      assert m != x ==> Climbs(c, m);
    }
  }

  lemma SplitHeld<N>(c: Cache<N>, n: N, k: nat, x: N)
    requires SplitReady(c, n, k, x) && HoldersLive(c)
    ensures HeldPaths(SplitNode(c, n, k, x)) == HeldPaths(c) && HoldersLive(SplitNode(c, n, k, x))
  {
    var c' := SplitNode(c, n, k, x);
    forall h | h in c'.holders
      ensures c'.holders[h] in c'.path
    {
      assert c.holders[h] in c.path;
    }
  }

  /** The holders below the cut are the holders below the node. */
  lemma SplitLocked<N>(c: Cache<N>, n: N, k: nat, x: N)
    requires SplitReady(c, n, k, x) && Locked(c)
    requires SplitNode(c, n, k, x).path.Keys <= SplitNode(c, n, k, x).st.Keys
    ensures Locked(SplitNode(c, n, k, x))
  {
    var c' := SplitNode(c, n, k, x);
    SplitHeld(c, n, k, x);
    SplitFacts(c, n, k, x);
    Fits(c, n);
    forall h | h in HeldPaths(c) && c'.path[x] <= HeldPaths(c)[h]
      ensures c.path[n] <= HeldPaths(c)[h]
    {
      OnEdgeBelow(Sh(c), c.root, n, c'.path[x], c.holders[h]);
    }
    DemandSame(HeldPaths(c), c'.path[x], c.path[n]);
    forall m | m in c'.path && m != c'.root
      ensures LockFits(c', [], 0, 0, m)
    {
      assert LockFits(c, [], 0, 0, if m == x then n else m);
    }
  }

  lemma SplitWeights<N>(c: Cache<N>, n: N, k: nat, x: N)
    requires SplitReady(c, n, k, x)
    ensures var w, v := Weights(c), Weights(SplitNode(c, n, k, x));
      && v.Keys == w.Keys + {x} && x !in w
      && w[n] == v[n] + v[x]
      && forall m :: m in w && m != n ==> w[m] == v[m]
  {
    SplitFacts(c, n, k, x);
  }

  lemma SplitSets<N>(c: Cache<N>, n: N, k: nat, x: N)
    requires SplitReady(c, n, k, x)
    requires SplitNode(c, n, k, x).path.Keys <= SplitNode(c, n, k, x).st.Keys
    ensures Unlocked(SplitNode(c, n, k, x)) == Unlocked(c) + if c.st[n].lock == 0 then {x} else {}
    ensures Shielded(SplitNode(c, n, k, x)) == Shielded(c) + if c.st[n].lock > 0 then {x} else {}
  {
    SplitFacts(c, n, k, x);
  }

  lemma SplitSized<N>(c: Cache<N>, n: N, k: nat, x: N)
    requires SplitReady(c, n, k, x) && Sized(c)
    requires SplitNode(c, n, k, x).path.Keys <= SplitNode(c, n, k, x).st.Keys
    ensures Sized(SplitNode(c, n, k, x))
  {
    hide SplitNode, SplitStore, SplitReady, Weights;
    var c' := SplitNode(c, n, k, x);
    SplitKept(c, n, k, x);
    SplitSets(c, n, k, x);
    SplitWeights(c, n, k, x);
    var w, v := Weights(c), Weights(c');
    if c.st[n].lock == 0 {
      assert Shielded(c') == Shielded(c);
      SumSplit(w, v, Unlocked(c), n, x);
      SumSame(w, v, Shielded(c));
    } else {
      assert Unlocked(c') == Unlocked(c);
      SumSplit(w, v, Shielded(c), n, x);
      SumSame(w, v, Unlocked(c));
    }
  }

  lemma SplitKept<N>(c: Cache<N>, n: N, k: nat, x: N)
    requires SplitReady(c, n, k, x)
    ensures n in c.path && n != c.root && n in c.st && x !in c.st && x !in c.path
    ensures Weights(c).Keys == c.st.Keys && c.path.Keys <= c.st.Keys
    ensures SplitNode(c, n, k, x).evictable == c.evictable && SplitNode(c, n, k, x).shielded == c.shielded
  {
  }

  lemma SplitLeaved<N>(c: Cache<N>, n: N, k: nat, x: N)
    requires SplitReady(c, n, k, x) && Leaved(c)
    requires SplitNode(c, n, k, x).path.Keys <= SplitNode(c, n, k, x).st.Keys
    ensures Leaved(SplitNode(c, n, k, x))
  {
    var c' := SplitNode(c, n, k, x);
    SplitFacts(c, n, k, x);
    InParent(c, n);
    forall m
      ensures m in Unlocked(c') && c'.st[m].kids == map[] <==> m in Unlocked(c) && c.st[m].kids == map[]
    {
      if m == x {
        assert c.st[n].key[k] in c'.st[x].kids;
      }
      if m == c.st[n].parent.value {
        assert c.st[n].key[0] in c.st[m].kids && c.st[n].key[0] in c'.st[m].kids;
      }
    }
  }

  lemma SplitReferenced<N>(c: Cache<N>, n: N, k: nat, x: N)
    requires SplitReady(c, n, k, x) && Referenced(c)
    requires SplitNode(c, n, k, x).path.Keys <= SplitNode(c, n, k, x).st.Keys
    ensures Referenced(SplitNode(c, n, k, x))
  {
    var c' := SplitNode(c, n, k, x);
    SplitFacts(c, n, k, x);
    assert RefFits(c, n);
    forall m | m in c'.path && m != c'.root && NodeFits(c', m)
      ensures RefFits(c', m)
    {
      if m != x {
        Fits(c, m);
        assert RefFits(c, m);
      }
    }
  }

  /** The node that carries, before the split, what `m` carries after it. */
  ghost function Origin<N>(n: N, x: N, m: N): N {
    if m == x then n else m
  }

  lemma SplitEdgePoint<N>(c: Cache<N>, n: N, k: nat, x: N, m: N, p: seq<Token>)
    requires SplitReady(c, n, k, x)
    requires Built(SplitNode(c, n, k, x)) && m in SplitNode(c, n, k, x).path
    requires OnEdge(Sh(SplitNode(c, n, k, x)), c.root, m, p)
    ensures Origin(n, x, m) in c.path && OnEdge(Sh(c), c.root, Origin(n, x, m), p)
  {
    var c' := SplitNode(c, n, k, x);
    SplitFacts(c, n, k, x);
    Fits(c', m);
    Fits(c, Origin(n, x, m));
  }

  /** Splitting does not change what is cached: each point keeps its index, on whichever half. */
  lemma SplitMapsAt<N>(c: Cache<N>, n: N, k: nat, x: N, m: N, p: seq<Token>)
    requires SplitReady(c, n, k, x)
    requires m in SplitNode(c, n, k, x).path && m in SplitNode(c, n, k, x).st
    requires m == x || m in c.path
    requires NodeFits(c, Origin(n, x, m)) && Maps(c, Origin(n, x, m), p)
    requires c.path[c.st[Origin(n, x, m)].parent.value] < p
    requires |p| <= |SplitNode(c, n, k, x).path[m]|
    requires m == n ==> CutDepth(c, n, k) < |p|
    ensures Maps(SplitNode(c, n, k, x), m, p)
  {
    SplitFacts(c, n, k, x);
  }

  lemma SplitMapped<N>(c: Cache<N>, n: N, k: nat, x: N)
    requires SplitReady(c, n, k, x) && Mapped(c) && Built(SplitNode(c, n, k, x))
    ensures Mapped(SplitNode(c, n, k, x))
  {
    var c' := SplitNode(c, n, k, x);
    forall m, p | m in c'.path && OnEdge(Sh(c'), c'.root, m, p)
      ensures Maps(c', m, p)
    {
      SplitEdgePoint(c, n, k, x, m, p);
      var o := Origin(n, x, m);
      Fits(c, o);
      Fits(c', m);
      assert Maps(c, o, p);
      SplitMapsAt(c, n, k, x, m, p);
    }
    forall p | p in c'.content
      ensures Covered(c', p)
    {
      assert Covered(c, p);
      var m :| m in c.path && OnEdge(Sh(c), c.root, m, p);
      SplitCovers(c, n, k, x, m, p);
    }
  }

  lemma SplitCovers<N>(c: Cache<N>, n: N, k: nat, x: N, m: N, p: seq<Token>)
    requires SplitReady(c, n, k, x) && Built(SplitNode(c, n, k, x))
    requires m in c.path && OnEdge(Sh(c), c.root, m, p)
    ensures Covered(SplitNode(c, n, k, x), p)
  {
    var c' := SplitNode(c, n, k, x);
    SplitFacts(c, n, k, x);
    Fits(c, m);
    var o := if m == n && |p| <= CutDepth(c, n, k) then x else m;
    if o == x {
      PrefixStep(p, c'.path[x], c.path[n]);
    }
    Fits(c', o);
    assert OnEdge(Sh(c'), c'.root, o, p);
  }

  lemma SplitInv<N>(c: Cache<N>, n: N, k: nat, x: N)
    requires Inv(c) && SplitReady(c, n, k, x)
    ensures Inv(SplitNode(c, n, k, x))
  {
    SplitBuilt(c, n, k, x);
    SplitChained(c, n, k, x);
    SplitLocked(c, n, k, x);
    SplitSized(c, n, k, x);
    SplitLeaved(c, n, k, x);
    SplitReferenced(c, n, k, x);
    SplitMapped(c, n, k, x);
  }
}
