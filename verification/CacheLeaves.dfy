/** Hanging a new leaf and deleting an evictable one. */
module CacheLeaves {
  import opened Prelude
  import opened Demands
  import opened Radix
  import opened RadixEdits
  import opened Sums
  import opened CacheStore

  /** The cached prefixes that a key hung below `base` adds. */
  ghost function Prefixes(base: seq<Token>, key: seq<Token>): set<seq<Token>> {
    set i {:trigger key[..i]} | 0 < i <= |key| :: base + key[..i]
  }

  ghost function Extend(content: map<seq<Token>, int>, base: seq<Token>, key: seq<Token>,
                        value: seq<int>): map<seq<Token>, int>
    requires |value| == |key|
  {
    map p | p in content.Keys + Prefixes(base, key) ::
      if p in Prefixes(base, key) then value[|p| - |base| - 1] else content[p]
  }

  /** What `_update_leaf_status` leaves in the set for node `n`. */
  ghost function LeafStatus<N>(leaves: set<N>, n: N, r: Rec<N>): set<N> {
    if r.lock > 0 || r.kids != map[] then leaves - {n} else leaves + {n}
  }

  // ----- a new leaf -----

  ghost predicate AddReady<N>(c: Cache<N>, n: N, key: seq<Token>, value: seq<int>, x: N) {
    && Built(c) && n in c.path && n in c.st && x !in c.st
    && key != [] && |value| == |key| && key[0] !in c.st[n].kids
  }

  ghost function AddStore<N>(st: map<N, Rec<N>>, n: N, key: seq<Token>, value: seq<int>, x: N): map<N, Rec<N>>
    requires n in st && key != []
  {
    st[n := st[n].(kids := st[n].kids[key[0] := x])][x := Rec(Some(n), map[], key, value, 0, 0, st[n].depth + |key|)]
  }

  ghost function AddNode<N>(c: Cache<N>, n: N, key: seq<Token>, value: seq<int>, x: N): Cache<N>
    requires AddReady(c, n, key, value, x)
  {
    var st := AddStore(c.st, n, key, value, x);
    c.(st := st, path := c.path[x := c.path[n] + key],
       content := Extend(c.content, c.path[n], key, value),
       evictable := c.evictable + |key|,
       leaves := LeafStatus(LeafStatus(c.leaves, n, st[n]), x, st[x]))
  }

  lemma AddBuilt<N>(c: Cache<N>, n: N, key: seq<Token>, value: seq<int>, x: N)
    requires AddReady(c, n, key, value, x)
    ensures Built(AddNode(c, n, key, value, x))
    ensures Sh(AddNode(c, n, key, value, x)) == AddLeaf(Sh(c), n, c.path[n] + key, x)
  {
    var c', q := AddNode(c, n, key, value, x), c.path[n] + key;
    assert q[|c.path[n]|] == key[0];
    assert Sh(c') == AddLeaf(Sh(c), n, q, x);
    AddLeafValid(Sh(c), c.root, n, q, x);
    assert n != c.root ==> NodeFits(c, n);
    forall m | m in c'.path && m != c'.root
      ensures NodeFits(c', m)
    {
      assert m != x ==> NodeFits(c, m);
    }
  }

  lemma AddChained<N>(c: Cache<N>, n: N, key: seq<Token>, value: seq<int>, x: N)
    requires AddReady(c, n, key, value, x) && Chained(c)
    ensures Chained(AddNode(c, n, key, value, x))
  {
    var c' := AddNode(c, n, key, value, x);
    forall m | m in c'.st
      ensures Climbs(c', m)
    {
      assert m != x ==> Climbs(c, m);
    }
  }

  lemma AddLocked<N>(c: Cache<N>, n: N, key: seq<Token>, value: seq<int>, x: N)
    requires AddReady(c, n, key, value, x) && Locked(c)
    requires AddNode(c, n, key, value, x).path.Keys <= AddNode(c, n, key, value, x).st.Keys
    ensures Locked(AddNode(c, n, key, value, x))
  {
    var c' := AddNode(c, n, key, value, x);
    var q := c.path[n] + key;
    assert q[|c.path[n]|] == key[0];
    forall h | h in c'.holders
      ensures c'.holders[h] in c'.path
    {
      assert c.holders[h] in c.path;
    }
    assert HeldPaths(c') == HeldPaths(c) by {
      assert forall h :: h in c.holders ==> c.holders[h] in c.path;
    }
    forall h | h in HeldPaths(c)
      ensures !(q <= HeldPaths(c)[h])
    {
      LeavesAtNode(Sh(c), c.root, n, q, c.holders[h]);
    }
    DemandZero(HeldPaths(c), q);
    forall m | m in c'.path && m != c'.root
      ensures LockFits(c', [], 0, 0, m)
    {
      assert m != x ==> LockFits(c, [], 0, 0, m);
    }
  }

  lemma AddSets<N>(c: Cache<N>, n: N, key: seq<Token>, value: seq<int>, x: N)
    requires AddReady(c, n, key, value, x)
    requires AddNode(c, n, key, value, x).path.Keys <= AddNode(c, n, key, value, x).st.Keys
    ensures var c' := AddNode(c, n, key, value, x);
      && Unlocked(c') == Unlocked(c) + {x} && Shielded(c') == Shielded(c)
      && x !in Weights(c) && Weights(c').Keys == Weights(c).Keys + {x} && Weights(c')[x] == |key|
      && (forall m :: m in Weights(c) ==> Weights(c')[m] == Weights(c)[m])
      && c.path.Keys <= Weights(c).Keys
  {
  }

  lemma AddSized<N>(c: Cache<N>, n: N, key: seq<Token>, value: seq<int>, x: N)
    requires AddReady(c, n, key, value, x) && Sized(c)
    requires AddNode(c, n, key, value, x).path.Keys <= AddNode(c, n, key, value, x).st.Keys
    ensures Sized(AddNode(c, n, key, value, x))
  {
    hide Weights;
    var c' := AddNode(c, n, key, value, x);
    AddSets(c, n, key, value, x);
    SumSame(Weights(c), Weights(c'), Unlocked(c));
    SumAdd(Weights(c'), Unlocked(c), x);
    SumSame(Weights(c), Weights(c'), Shielded(c));
  }

  lemma AddLeaved<N>(c: Cache<N>, n: N, key: seq<Token>, value: seq<int>, x: N)
    requires AddReady(c, n, key, value, x) && Leaved(c)
    requires AddNode(c, n, key, value, x).path.Keys <= AddNode(c, n, key, value, x).st.Keys
    ensures Leaved(AddNode(c, n, key, value, x))
  {
    var c' := AddNode(c, n, key, value, x);
    assert key[0] in c'.st[n].kids;
  }

  lemma AddReferenced<N>(c: Cache<N>, n: N, key: seq<Token>, value: seq<int>, x: N)
    requires AddReady(c, n, key, value, x) && Referenced(c) && Built(AddNode(c, n, key, value, x))
    ensures Referenced(AddNode(c, n, key, value, x))
  {
    var c' := AddNode(c, n, key, value, x);
    forall m | m in c'.path && m != c'.root && NodeFits(c', m)
      ensures RefFits(c', m)
    {
      if m != x {
        Fits(c, m);
        assert RefFits(c, m);
      }
    }
  }

  /** None of the new prefixes was cached. */
  lemma AddIsNew<N>(c: Cache<N>, n: N, key: seq<Token>, value: seq<int>, x: N, p: seq<Token>)
    requires AddReady(c, n, key, value, x) && Mapped(c)
    requires c.path[n] < p && p <= c.path[n] + key
    ensures p !in c.content && p in Prefixes(c.path[n], key)
  {
    var base := c.path[n];
    assert p[|base|] == key[0];
    var i := |p| - |base|;
    assert p == base + key[..i];
    if p in c.content {
      assert Covered(c, p);
      var m :| m in c.path && OnEdge(Sh(c), c.root, m, p);
      LeavesAtNode(Sh(c), c.root, n, p, m);
    }
  }

  lemma AddMapped<N>(c: Cache<N>, n: N, key: seq<Token>, value: seq<int>, x: N)
    requires AddReady(c, n, key, value, x) && Mapped(c) && Built(AddNode(c, n, key, value, x))
    ensures Mapped(AddNode(c, n, key, value, x))
  {
    var c' := AddNode(c, n, key, value, x);
    forall m, p | m in c'.path && OnEdge(Sh(c'), c'.root, m, p)
      ensures Maps(c', m, p)
    {
      AddMapsAt(c, n, key, value, x, m, p);
    }
    forall p | p in c'.content
      ensures Covered(c', p)
    {
      AddCovers(c, n, key, value, x, p);
    }
  }

  lemma AddMapsAt<N>(c: Cache<N>, n: N, key: seq<Token>, value: seq<int>, x: N, m: N, p: seq<Token>)
    requires AddReady(c, n, key, value, x) && Mapped(c) && Built(AddNode(c, n, key, value, x))
    requires m in AddNode(c, n, key, value, x).path && OnEdge(Sh(AddNode(c, n, key, value, x)), c.root, m, p)
    ensures Maps(AddNode(c, n, key, value, x), m, p)
  {
    hide Valid, RootFits, Prefixes;
    if m == x {
      AddIsNew(c, n, key, value, x, p);
    } else {
      Fits(c, m);
      assert OnEdge(Sh(c), c.root, m, p);
      assert Maps(c, m, p);
      if p in Prefixes(c.path[n], key) {
        PrefixesAbove(c.path[n], key, p);
        AddIsNew(c, n, key, value, x, p);
      }
    }
  }

  lemma PrefixesAbove(base: seq<Token>, key: seq<Token>, p: seq<Token>)
    requires p in Prefixes(base, key)
    ensures base < p && p <= base + key
  {
    var i :| 0 < i <= |key| && p == base + key[..i];
  }

  lemma AddCovers<N>(c: Cache<N>, n: N, key: seq<Token>, value: seq<int>, x: N, p: seq<Token>)
    requires AddReady(c, n, key, value, x) && Mapped(c) && Built(AddNode(c, n, key, value, x))
    requires p in AddNode(c, n, key, value, x).content
    ensures Covered(AddNode(c, n, key, value, x), p)
  {
    var c' := AddNode(c, n, key, value, x);
    if p in Prefixes(c.path[n], key) {
      PrefixesAbove(c.path[n], key, p);
      assert OnEdge(Sh(c'), c'.root, x, p);
    } else {
      assert Covered(c, p);
      var m :| m in c.path && OnEdge(Sh(c), c.root, m, p);
      assert OnEdge(Sh(c'), c'.root, m, p);
    }
  }

  lemma AddInv<N>(c: Cache<N>, n: N, key: seq<Token>, value: seq<int>, x: N)
    requires Inv(c) && AddReady(c, n, key, value, x)
    ensures Inv(AddNode(c, n, key, value, x))
  {
    AddBuilt(c, n, key, value, x);
    AddChained(c, n, key, value, x);
    AddLocked(c, n, key, value, x);
    AddSized(c, n, key, value, x);
    AddLeaved(c, n, key, value, x);
    AddReferenced(c, n, key, value, x);
    AddMapped(c, n, key, value, x);
  }

  // ----- deleting an evictable leaf -----

  ghost predicate RemoveReady<N>(c: Cache<N>, x: N) {
    && Built(c) && Leaved(c) && x in c.leaves && x in c.path && x != c.root && NodeFits(c, x)
    && |c.st[x].key| > 0
  }

  ghost function OnKey<N>(c: Cache<N>, x: N): set<seq<Token>>
    requires x in c.st && c.st[x].parent.Some? && c.st[x].parent.value in c.path
  {
    Prefixes(c.path[c.st[x].parent.value], c.st[x].key)
  }

  ghost function RemoveNode<N>(c: Cache<N>, x: N): Cache<N>
    requires RemoveReady(c, x)
  {
    var q := c.st[x].parent.value;
    var st := c.st[q := c.st[q].(kids := c.st[q].kids - {c.st[x].key[0]})];
    c.(st := st, path := c.path - {x}, content := c.content - OnKey(c, x),
       evictable := c.evictable - |c.st[x].key|,
       leaves := LeafStatus(c.leaves - {x}, q, st[q]))
  }

  lemma RemoveBuilt<N>(c: Cache<N>, x: N)
    requires RemoveReady(c, x)
    ensures Built(RemoveNode(c, x))
    ensures Sh(RemoveNode(c, x)) == DropLeaf(Sh(c), x)
  {
    var c', q := RemoveNode(c, x), c.st[x].parent.value;
    Fits(c, x);
    assert c.path[x][|c.path[q]|] == c.st[x].key[0];
    assert Sh(c') == DropLeaf(Sh(c), x);
    DropLeafValid(Sh(c), c.root, x);
    forall m | m in c'.path && m != c'.root
      ensures NodeFits(c', m)
    {
      ParentStays(c, x, m);
    }
  }

  lemma ParentStays<N>(c: Cache<N>, x: N, m: N)
    requires RemoveReady(c, x) && m in c.path && m != c.root && m != x
    ensures NodeFits(c, m) && c.st[m].parent.value != x
  {
    InParent(c, m);
  }

  lemma RemoveChained<N>(c: Cache<N>, x: N)
    requires RemoveReady(c, x) && Chained(c)
    ensures Chained(RemoveNode(c, x))
  {
    var c' := RemoveNode(c, x);
    forall m | m in c'.st
      ensures Climbs(c', m)
    {
      assert Climbs(c, m);
    }
  }

  /** Nobody holds an evictable leaf, so nobody's node goes away. */
  lemma RemoveLocked<N>(c: Cache<N>, x: N)
    requires RemoveReady(c, x) && Locked(c)
    requires RemoveNode(c, x).path.Keys <= RemoveNode(c, x).st.Keys
    ensures Locked(RemoveNode(c, x)) && HeldPaths(RemoveNode(c, x)) == HeldPaths(c)
  {
    var c' := RemoveNode(c, x);
    assert LockFits(c, [], 0, 0, x);
    forall h | h in c.holders
      ensures c.holders[h] in c.path && c.holders[h] != x
    {
      if c.holders[h] == x {
        DemandWitness(HeldPaths(c), c.path[x], h);
      }
    }
    assert HeldPaths(c') == HeldPaths(c);
    forall m | m in c'.path && m != c'.root
      ensures LockFits(c', [], 0, 0, m)
    {
      assert LockFits(c, [], 0, 0, m);
    }
  }

  lemma RemoveSets<N>(c: Cache<N>, x: N)
    requires RemoveReady(c, x)
    requires RemoveNode(c, x).path.Keys <= RemoveNode(c, x).st.Keys
    ensures var c' := RemoveNode(c, x);
      && Unlocked(c') == Unlocked(c) - {x} && Shielded(c') == Shielded(c) && x in Unlocked(c)
      && Weights(c') == Weights(c) && Weights(c)[x] == |c.st[x].key|
      && c.path.Keys <= Weights(c).Keys
  {
    assert RemoveNode(c, x).st.Keys == c.st.Keys;
  }

  lemma RemoveSized<N>(c: Cache<N>, x: N)
    requires RemoveReady(c, x) && Sized(c)
    requires RemoveNode(c, x).path.Keys <= RemoveNode(c, x).st.Keys
    ensures Sized(RemoveNode(c, x))
  {
    RemoveSets(c, x);
    SumRemove(Weights(c), Unlocked(c), x);
  }

  lemma RemoveLeaved<N>(c: Cache<N>, x: N)
    requires RemoveReady(c, x)
    requires RemoveNode(c, x).path.Keys <= RemoveNode(c, x).st.Keys
    ensures Leaved(RemoveNode(c, x))
  {
    var c' := RemoveNode(c, x);
    var q := c.st[x].parent.value;
    InParent(c, x);
    forall m
      ensures m in c'.leaves <==> m in Unlocked(c') && c'.st[m].kids == map[]
    {
    }
  }

  lemma RemoveReferenced<N>(c: Cache<N>, x: N)
    requires RemoveReady(c, x) && Referenced(c) && Built(RemoveNode(c, x))
    ensures Referenced(RemoveNode(c, x))
  {
    var c' := RemoveNode(c, x);
    forall m | m in c'.path && m != c'.root && NodeFits(c', m)
      ensures RefFits(c', m)
    {
      Fits(c, m);
      assert RefFits(c, m);
    }
  }

  lemma RemoveMapped<N>(c: Cache<N>, x: N)
    requires RemoveReady(c, x) && Mapped(c) && Built(RemoveNode(c, x))
    ensures Mapped(RemoveNode(c, x))
  {
    var c' := RemoveNode(c, x);
    forall m, p | m in c'.path && OnEdge(Sh(c'), c'.root, m, p)
      ensures Maps(c', m, p)
    {
      RemoveMapsAt(c, x, m, p);
    }
    forall p | p in c'.content
      ensures Covered(c', p)
    {
      assert Covered(c, p);
      var m :| m in c.path && OnEdge(Sh(c), c.root, m, p);
      if m == x {
        OnKeyIff(c, x, p);
      }
      Fits(c, m);
      assert OnEdge(Sh(c'), c'.root, m, p);
    }
  }

  lemma OnKeyIff<N>(c: Cache<N>, x: N, p: seq<Token>)
    requires Built(c) && x in c.path && x != c.root && NodeFits(c, x)
    ensures p in OnKey(c, x) <==> OnEdge(Sh(c), c.root, x, p)
  {
    var base, key := c.path[c.st[x].parent.value], c.st[x].key;
    if p in OnKey(c, x) {
      PrefixesAbove(base, key, p);
    }
    if OnEdge(Sh(c), c.root, x, p) {
      var i := |p| - |base|;
      assert p == base + key[..i];
    }
  }

  lemma RemoveMapsAt<N>(c: Cache<N>, x: N, m: N, p: seq<Token>)
    requires RemoveReady(c, x) && Mapped(c) && Built(RemoveNode(c, x))
    requires m in RemoveNode(c, x).path && OnEdge(Sh(RemoveNode(c, x)), c.root, m, p)
    ensures Maps(RemoveNode(c, x), m, p)
  {
    Fits(c, m);
    assert OnEdge(Sh(c), c.root, m, p);
    assert Maps(c, m, p);
    OnKeyIff(c, x, p);
    if OnEdge(Sh(c), c.root, x, p) {
      OnEdgeUnique(Sh(c), c.root, x, m, p);
    }
  }

  lemma RemoveInv<N>(c: Cache<N>, x: N)
    requires Inv(c) && RemoveReady(c, x)
    ensures Inv(RemoveNode(c, x))
  {
    RemoveBuilt(c, x);
    RemoveChained(c, x);
    RemoveLocked(c, x);
    RemoveSized(c, x);
    RemoveLeaved(c, x);
    RemoveReferenced(c, x);
    RemoveMapped(c, x);
  }
}
