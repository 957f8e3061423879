/**
 Lock references and queue references: counters that walk from a node up to the root.
 Queue references also travel over deleted nodes, through their last parent pointers.
 */
module CacheRefs {
  import opened Prelude
  import opened Demands
  import opened Radix
  import opened Sums
  import opened CacheStore
  import opened CacheEdits
  import opened CacheLeaves

  // ----- one step of a lock walk -----

  ghost predicate LockReady<N>(c: Cache<N>, n: N) {
    Built(c) && n in c.path && n != c.root && n in c.st
  }

  /** Set the lock count of `n`, moving its weight between the two sizes as it crosses zero. */
  ghost function SetLock<N>(c: Cache<N>, n: N, lock: nat): Cache<N>
    requires LockReady(c, n)
  {
    var r := c.st[n];
    var gain := (if lock == 0 then |r.key| else 0) - (if r.lock == 0 then |r.key| else 0);
    c.(st := c.st[n := r.(lock := lock)],
       evictable := c.evictable + gain, shielded := c.shielded - gain,
       leaves := LeafStatus(c.leaves, n, r.(lock := lock)))
  }

  lemma SetLockBuilt<N>(c: Cache<N>, n: N, lock: nat)
    requires LockReady(c, n)
    ensures Built(SetLock(c, n, lock)) && Sh(SetLock(c, n, lock)) == Sh(c)
  {
    var c' := SetLock(c, n, lock);
    assert Sh(c') == Sh(c);
    forall m | m in c'.path && m != c'.root
      ensures NodeFits(c', m)
    {
      assert NodeFits(c, m);
    }
  }

  lemma SetLockRest<N>(c: Cache<N>, n: N, lock: nat)
    requires LockReady(c, n) && Chained(c) && Referenced(c) && Mapped(c)
    requires Built(SetLock(c, n, lock)) && Sh(SetLock(c, n, lock)) == Sh(c)
    ensures Chained(SetLock(c, n, lock)) && Referenced(SetLock(c, n, lock)) && Mapped(SetLock(c, n, lock))
  {
    var c' := SetLock(c, n, lock);
    forall m | m in c'.st
      ensures Climbs(c', m)
    {
      assert Climbs(c, m);
    }
    forall m | m in c'.path && m != c'.root && NodeFits(c', m)
      ensures RefFits(c', m)
    {
      Fits(c, m);
      assert RefFits(c, m);
    }
    forall m, p | m in c'.path && OnEdge(Sh(c'), c'.root, m, p)
      ensures Maps(c', m, p)
    {
      assert Maps(c, m, p);
    }
    forall p | p in c'.content
      ensures Covered(c', p)
    {
      assert Covered(c, p);
    }
  }

  lemma SetLockSets<N>(c: Cache<N>, n: N, lock: nat)
    requires LockReady(c, n) && SetLock(c, n, lock).path.Keys <= SetLock(c, n, lock).st.Keys
    ensures var c' := SetLock(c, n, lock);
      && Unlocked(c') == (if lock == 0 then Unlocked(c) + {n} else Unlocked(c) - {n})
      && Shielded(c') == (if lock > 0 then Shielded(c) + {n} else Shielded(c) - {n})
      && Weights(c') == Weights(c) && Weights(c)[n] == |c.st[n].key| && c.path.Keys <= Weights(c).Keys
      && (n in Unlocked(c) <==> c.st[n].lock == 0) && (n in Shielded(c) <==> c.st[n].lock > 0)
  {
    assert SetLock(c, n, lock).st.Keys == c.st.Keys;
  }

  lemma MoveSum<N>(w: map<N, nat>, s: set<N>, n: N, stays: bool)
    requires s <= w.Keys && n in w
    ensures Sum(w, if stays then s + {n} else s - {n})
      == Sum(w, s) + (if stays then w[n] else 0) - (if n in s then w[n] else 0)
  {
    if n in s {
      SumRemove(w, s, n);
      assert s + {n} == s;
    } else {
      SumAdd(w, s, n);
      assert s - {n} == s;
    }
  }

  lemma SetLockSized<N>(c: Cache<N>, n: N, lock: nat)
    requires LockReady(c, n) && Sized(c) && SetLock(c, n, lock).path.Keys <= SetLock(c, n, lock).st.Keys
    ensures Sized(SetLock(c, n, lock))
  {
    SetLockSets(c, n, lock);
    MoveSum(Weights(c), Unlocked(c), n, lock == 0);
    MoveSum(Weights(c), Shielded(c), n, lock > 0);
  }

  lemma SetLockLeaved<N>(c: Cache<N>, n: N, lock: nat)
    requires LockReady(c, n) && Leaved(c) && SetLock(c, n, lock).path.Keys <= SetLock(c, n, lock).st.Keys
    ensures Leaved(SetLock(c, n, lock))
  {
  }

  /** Everything the cache promises apart from the lock counts themselves. */
  ghost predicate AllButLocks<N>(c: Cache<N>) {
    Built(c) && Chained(c) && Sized(c) && Leaved(c) && Referenced(c) && Mapped(c)
  }

  lemma SetLockKeeps<N>(c: Cache<N>, n: N, lock: nat)
    requires AllButLocks(c) && LockReady(c, n)
    ensures AllButLocks(SetLock(c, n, lock))
  {
    SetLockBuilt(c, n, lock);
    SetLockRest(c, n, lock);
    SetLockSized(c, n, lock);
    SetLockLeaved(c, n, lock);
  }

  /** The walk has moved the count of the part of the path deeper than `n`; one more step moves
      the count of `n`. */
  lemma SetLockStep<N>(c: Cache<N>, n: N, tokens: seq<Token>, delta: int, lock: nat)
    requires LockReady(c, n) && c.path[n] <= tokens && LocksUpTo(c, tokens, |c.path[n]|, delta)
    requires NodeFits(c, n) && lock == c.st[n].lock + delta
    requires SetLock(c, n, lock).path.Keys <= SetLock(c, n, lock).st.Keys
    ensures LocksUpTo(SetLock(c, n, lock), tokens, |c.path[c.st[n].parent.value]|, delta)
  {
    var c' := SetLock(c, n, lock);
    var d, q := |c.path[n]|, c.st[n].parent.value;
    forall h | h in c'.holders
      ensures c'.holders[h] in c'.path
    {
      assert c.holders[h] in c.path;
    }
    assert HeldPaths(c') == HeldPaths(c);
    Fits(c, n);
    forall m | m in c'.path && m != c'.root
      ensures LockFits(c', tokens, |c.path[q]|, delta, m)
    {
      assert LockFits(c, tokens, d, delta, m);
      if c.path[m] <= tokens && |c.path[q]| < |c.path[m]| <= d {
        PrefixStep(c.path[m], c.path[n], tokens);
        assert OnEdge(Sh(c), c.root, n, c.path[m]);
        OnEdgeBelow(Sh(c), c.root, n, c.path[m], m);
        SamePath(Sh(c), c.root, m, n);
      }
    }
  }

  lemma HeldAfter<N>(c: Cache<N>, h: Rid, n: N)
    requires HoldersLive(c) && n in c.path
    ensures HeldPaths(c.(holders := c.holders[h := n])) == HeldPaths(c)[h := c.path[n]]
    ensures HeldPaths(c.(holders := c.holders - {h})) == HeldPaths(c) - {h}
  {
    assert forall g :: g in c.holders ==> c.holders[g] in c.path;
  }

  /** A finished upward walk from `n` is one more holder at `n`. */
  lemma LocksGained<N>(c: Cache<N>, n: N, h: Rid)
    requires Built(c) && n in c.path && LocksUpTo(c, c.path[n], 0, 1) && h !in c.holders
    ensures Locked(c.(holders := c.holders[h := n]))
  {
    var c' := c.(holders := c.holders[h := n]);
    HeldAfter(c, h, n);
    forall g | g in c'.holders
      ensures c'.holders[g] in c'.path
    {
      assert g != h ==> c.holders[g] in c.path;
    }
    forall m | m in c'.path && m != c'.root
      ensures LockFits(c', [], 0, 0, m)
    {
      assert LockFits(c, c.path[n], 0, 1, m);
      DemandAdd(HeldPaths(c), h, c.path[n], c.path[m]);
      Fits(c, m);
    }
  }

  /** A finished downward walk from `n` is one holder less at `n`. */
  lemma LocksLost<N>(c: Cache<N>, n: N, h: Rid)
    requires Built(c) && n in c.path && LocksUpTo(c, c.path[n], 0, -1)
    requires h in c.holders && c.holders[h] == n
    ensures Locked(c.(holders := c.holders - {h}))
  {
    var c' := c.(holders := c.holders - {h});
    HeldAfter(c, h, n);
    forall g | g in c'.holders
      ensures c'.holders[g] in c'.path
    {
      assert c.holders[g] in c.path;
    }
    assert HeldPaths(c)[h] == c.path[n];
    forall m | m in c'.path && m != c'.root
      ensures LockFits(c', [], 0, 0, m)
    {
      assert LockFits(c, c.path[n], 0, -1, m);
      DemandRemove(HeldPaths(c), h, c.path[m]);
      Fits(c, m);
    }
  }

  /** A node on the path of a holder that the walk has not reached yet is locked. */
  lemma StillLocked<N>(c: Cache<N>, n: N, h: Rid, tokens: seq<Token>)
    requires Built(c) && n in c.path && n != c.root && LocksUpTo(c, tokens, |c.path[n]|, -1)
    requires h in c.holders && c.holders[h] in c.path && c.path[c.holders[h]] == tokens && c.path[n] <= tokens
    ensures c.st[n].lock >= 1
  {
    assert LockFits(c, tokens, |c.path[n]|, -1, n);
    DemandWitness(HeldPaths(c), c.path[n], h);
  }

  // ----- queue references -----

  /** The nodes an upward walk from `n` visits before it reaches the root, whether they are
      still in the tree or not. */
  ghost function WalkUp<N>(c: Cache<N>, n: N): set<N>
    requires Chained(c) && n in c.st
    decreases c.st[n].depth
  {
    if n == c.root then {}
    else
      assert Climbs(c, n);
      {n} + WalkUp(c, c.st[n].parent.value)
  }

  lemma {:induction false} WalkUpFacts<N>(c: Cache<N>, n: N)
    requires Chained(c) && n in c.st
    ensures WalkUp(c, n) <= c.st.Keys && c.root !in WalkUp(c, n)
    ensures forall m :: m in WalkUp(c, n) ==> c.st[m].depth <= c.st[n].depth
    decreases c.st[n].depth
  {
    if n != c.root {
      assert Climbs(c, n);
      WalkUpFacts(c, c.st[n].parent.value);
    }
  }

  /** The walk goes on from every node it visits. */
  lemma {:induction false} WalkUpClosed<N>(c: Cache<N>, n: N, m: N)
    requires Chained(c) && n in c.st && m in WalkUp(c, n)
    ensures m in c.st && m != c.root && c.st[m].parent.Some? && c.st[m].parent.value in c.st
    ensures c.st[m].parent.value == c.root || c.st[m].parent.value in WalkUp(c, n)
    decreases c.st[n].depth
  {
    assert Climbs(c, n);
    var q := c.st[n].parent.value;
    if m == n {
      assert q != c.root ==> q in WalkUp(c, q) by { assert q != c.root ==> Climbs(c, q); }
    } else {
      WalkUpClosed(c, q, m);
    }
  }

  /** `c'` is `c` but for the queue reference counts. */
  ghost predicate RefsOnly<N>(c: Cache<N>, c': Cache<N>) {
    && c'.st.Keys == c.st.Keys
    && c' == c.(st := c'.st)
    && forall n {:trigger c'.st[n]} :: n in c.st ==> c'.st[n] == c.st[n].(refs := c'.st[n].refs)
  }

  lemma RefsOnlyKeeps<N>(c: Cache<N>, c': Cache<N>)
    requires Inv(c) && RefsOnly(c, c') && c'.st[c.root].refs == 0
    ensures Built(c') && Chained(c') && Locked(c') && Sized(c') && Leaved(c') && Mapped(c') && Sh(c') == Sh(c)
  {
    assert Sh(c') == Sh(c);
    forall m | m in c'.path && m != c'.root
      ensures NodeFits(c', m) && LockFits(c', [], 0, 0, m)
    {
      assert NodeFits(c, m) && LockFits(c, [], 0, 0, m);
      assert HeldPaths(c') == HeldPaths(c);
    }
    RefsOnlyRest(c, c');
  }

  lemma RefsOnlyRest<N>(c: Cache<N>, c': Cache<N>)
    requires Inv(c) && RefsOnly(c, c') && c'.path.Keys <= c'.st.Keys && Sh(c') == Sh(c)
    ensures Chained(c') && HoldersLive(c') && Sized(c') && Leaved(c') && Mapped(c')
  {
    forall m | m in c'.st
      ensures Climbs(c', m)
    {
      assert Climbs(c, m);
    }
    forall h | h in c'.holders
      ensures c'.holders[h] in c'.path
    {
      assert c.holders[h] in c.path;
    }
    RefsOnlySized(c, c');
    RefsOnlyMapped(c, c');
  }

  lemma RefsOnlySized<N>(c: Cache<N>, c': Cache<N>)
    requires RefsOnly(c, c') && c.path.Keys <= c.st.Keys && Sized(c) && Leaved(c)
    ensures c'.path.Keys <= c'.st.Keys && Sized(c') && Leaved(c')
  {
    assert Weights(c') == Weights(c);
    assert Unlocked(c') == Unlocked(c);
    assert Shielded(c') == Shielded(c);
  }

  lemma RefsOnlyMapped<N>(c: Cache<N>, c': Cache<N>)
    requires RefsOnly(c, c') && c.path.Keys <= c.st.Keys && Mapped(c) && Sh(c') == Sh(c)
    ensures Mapped(c')
  {
    forall m, p | m in c'.path && OnEdge(Sh(c'), c'.root, m, p)
      ensures Maps(c', m, p)
    {
      assert Maps(c, m, p);
    }
    forall p | p in c'.content
      ensures Covered(c', p)
    {
      assert Covered(c, p);
    }
  }

  /** Adding one to every node of a walk keeps the counts from growing downward. */
  lemma RaiseKeeps<N>(c: Cache<N>, c': Cache<N>, from: N)
    requires Inv(c) && RefsOnly(c, c') && from in c.st
    requires forall n {:trigger c'.st[n]} :: n in c.st ==>
      c'.st[n].refs == c.st[n].refs + if n in WalkUp(c, from) then 1 else 0
    ensures Inv(c')
  {
    WalkUpFacts(c, from);
    RefsOnlyKeeps(c, c');
    forall m | m in c'.path && m != c'.root && NodeFits(c', m)
      ensures RefFits(c', m)
    {
      Fits(c, m);
      assert RefFits(c, m);
      if m in WalkUp(c, from) {
        WalkUpClosed(c, from, m);
      }
    }
  }

  /** With every live count at zero the references are in order. */
  lemma ClearedKeeps<N>(c: Cache<N>, c': Cache<N>)
    requires Inv(c) && RefsOnly(c, c') && AllClear(c')
    ensures Inv(c')
  {
    RefsOnlyKeeps(c, c');
    forall m | m in c'.path && m != c'.root && NodeFits(c', m)
      ensures RefFits(c', m)
    {
      assert c'.st[m].refs == 0;
    }
  }

  ghost predicate AllClear<N>(c: Cache<N>) {
    c.path.Keys <= c.st.Keys && forall n {:trigger c.st[n]} :: n in c.path ==> c.st[n].refs == 0
  }

  /** `c'` is `c` with one more reference on every node of the walk up from `n`. */
  ghost predicate Raised<N>(c: Cache<N>, c': Cache<N>, n: N)
    requires Chained(c)
  {
    && n in c.st && RefsOnly(c, c')
    && forall m {:trigger c'.st[m]} :: m in c.st ==> c'.st[m].refs == c.st[m].refs + if m in WalkUp(c, n) then 1 else 0
  }

  /** `c'` is `was` with the references zero on the walk up from `n`. */
  ghost predicate Cleared<N>(c: Cache<N>, was: Cache<N>, c': Cache<N>, n: N)
    requires Chained(c)
  {
    && n in c.st && RefsOnly(c, was) && RefsOnly(c, c')
    && forall m {:trigger c'.st[m]} :: m in c.st ==> c'.st[m].refs == if m in WalkUp(c, n) then 0 else was.st[m].refs
  }

  // ----- what last cycle's protected nodes reach -----

  ghost predicate Reached<N>(c: Cache<N>, prev: seq<N>, n: N)
    requires Chained(c)
  {
    exists i :: 0 <= i < |prev| && prev[i] in c.st && n in WalkUp(c, prev[i])
  }

  /** Every live node with a queue reference lies above a node protected last cycle, along
      parent pointers as they are now. */
  ghost predicate Traced<N>(c: Cache<N>, prev: seq<N>)
    requires Chained(c) && c.path.Keys <= c.st.Keys
  {
    && (forall i {:trigger prev[i]} :: 0 <= i < |prev| ==> prev[i] in c.st)
    && forall n {:trigger Reached(c, prev, n)} :: n in c.path && c.st[n].refs > 0 ==> Reached(c, prev, n)
  }

  /** Walks depend on parent pointers and depths alone. */
  lemma {:induction false} WalkSame<N>(c: Cache<N>, c': Cache<N>, n: N)
    requires Chained(c) && Chained(c') && c.root == c'.root && n in c.st && c.st.Keys <= c'.st.Keys
    requires forall m {:trigger c'.st[m]} :: m in c.st ==> c'.st[m].parent == c.st[m].parent
    ensures WalkUp(c', n) == WalkUp(c, n)
    decreases c.st[n].depth
  {
    if n != c.root {
      assert Climbs(c, n);
      WalkSame(c, c', c.st[n].parent.value);
    }
  }

  lemma TracedSame<N>(c: Cache<N>, c': Cache<N>, prev: seq<N>)
    requires Chained(c) && Chained(c') && c.root == c'.root && c.st.Keys <= c'.st.Keys
    requires c.path.Keys <= c.st.Keys && c'.path.Keys <= c'.st.Keys && Traced(c, prev)
    requires forall m {:trigger c'.st[m]} :: m in c.st ==> c'.st[m].parent == c.st[m].parent
    requires forall m {:trigger m in c'.path} :: m in c'.path && c'.st[m].refs > 0 ==> m in c.path && c.st[m].refs > 0
    ensures Traced(c', prev)
  {
    forall n | n in c'.path && c'.st[n].refs > 0
      ensures Reached(c', prev, n)
    {
      assert Reached(c, prev, n);
      var i :| 0 <= i < |prev| && prev[i] in c.st && n in WalkUp(c, prev[i]);
      WalkSame(c, c', prev[i]);
    }
  }

  /** After a split, walks through the node also visit the new upper half. */
  lemma {:induction false} SplitWalk<N>(c: Cache<N>, n: N, k: nat, x: N, m: N)
    requires SplitReady(c, n, k, x) && Chained(c) && m in c.st
    ensures m in SplitNode(c, n, k, x).st && Chained(SplitNode(c, n, k, x))
    ensures WalkUp(c, m) <= WalkUp(SplitNode(c, n, k, x), m)
    ensures n in WalkUp(c, m) ==> x in WalkUp(SplitNode(c, n, k, x), m)
    decreases c.st[m].depth
  {
    var c' := SplitNode(c, n, k, x);
    SplitChained(c, n, k, x);
    SplitFacts(c, n, k, x);
    if m != c.root {
      assert Climbs(c, m) && Climbs(c', m);
      var q := c.st[m].parent.value;
      SplitWalk(c, n, k, x, q);
      if m == n {
        assert Climbs(c', x) && c'.st[n].parent == Some(x) && c'.st[x].parent == Some(q);
        assert WalkUp(c', x) == {x} + WalkUp(c', q);
      }
    }
  }

  lemma SplitTraced<N>(c: Cache<N>, n: N, k: nat, x: N, prev: seq<N>)
    requires SplitReady(c, n, k, x) && Chained(c) && Traced(c, prev)
    ensures Chained(SplitNode(c, n, k, x))
    ensures SplitNode(c, n, k, x).path.Keys <= SplitNode(c, n, k, x).st.Keys
    ensures Traced(SplitNode(c, n, k, x), prev)
  {
    var c' := SplitNode(c, n, k, x);
    SplitChained(c, n, k, x);
    SplitFacts(c, n, k, x);
    forall m | m in c'.path && c'.st[m].refs > 0
      ensures Reached(c', prev, m)
    {
      var o := if m == x then n else m;
      assert Reached(c, prev, o);
      var i :| 0 <= i < |prev| && prev[i] in c.st && o in WalkUp(c, prev[i]);
      SplitWalk(c, n, k, x, prev[i]);
    }
  }
}
