/**
 Whole-cycle changes of the queue references: the full reset, the reset along last cycle's
 walks, and the protection of this cycle's nodes.
 */
module CacheSweeps {
  import opened Prelude
  import opened Radix
  import opened Frontier
  import opened Sums
  import opened CacheStore
  import opened CacheRefs

  // ----- the full reset: every node of the tree, by an explicit stack -----

  /** Only what the stack still has to visit may hold references. */
  ghost predicate ClearedBut<N>(c: Cache<N>, c': Cache<N>, stack: seq<N>)
    requires c.path.Keys <= c.st.Keys
  {
    && RefsOnly(c, c') && Antichain(Sh(c), stack)
    && forall n {:trigger c'.st[n]} :: n in c.path && n !in Waiting(Sh(c), stack) ==> c'.st[n].refs == 0
  }

  lemma ResetStart<N>(c: Cache<N>)
    requires Inv(c)
    ensures c.path.Keys <= c.st.Keys && ClearedBut(c, c, [c.root])
  {
    WaitingOne(Sh(c), c.root);
  }

  lemma KidsOfDiffer<N>(c: Cache<N>, n: N)
    requires Inv(c) && n in c.path && n in c.st
    ensures KidsDiffer(c.st[n].kids)
  {
    forall t, u | t in c.st[n].kids && u in c.st[n].kids && t != u
      ensures c.st[n].kids[t] != c.st[n].kids[u]
    {
      KidFits(c, n, t);
      KidFits(c, n, u);
    }
  }

  lemma ResetTop<N>(c: Cache<N>, c': Cache<N>, stack: seq<N>)
    requires Inv(c) && c.path.Keys <= c.st.Keys && ClearedBut(c, c', stack) && stack != []
    ensures var n := stack[|stack| - 1];
      n in c.path && n in c.st && n in c'.st && c'.st[n] == c.st[n].(refs := c'.st[n].refs) && KidsDiffer(c.st[n].kids)
  {
    KidsOfDiffer(c, stack[|stack| - 1]);
  }

  lemma ResetStep<N>(c: Cache<N>, c': Cache<N>, stack: seq<N>, n: N, kids: seq<N>)
    requires Inv(c) && c.path.Keys <= c.st.Keys && ClearedBut(c, c', stack)
    requires stack != [] && n == stack[|stack| - 1] && n in c.path && n in c'.st && Lists(kids, c.st[n].kids)
    ensures var next := stack[..|stack| - 1] + kids;
      && ClearedBut(c, c'.(st := c'.st[n := c'.st[n].(refs := 0)]), next)
      && Waiting(Sh(c), next) < Waiting(Sh(c), stack)
  {
    hide Inv, Valid, Waiting, Antichain, Lists;
    InvShape(c);
    PopPush(Sh(c), c.root, stack, kids);
  }

  lemma InvShape<N>(c: Cache<N>)
    requires Inv(c)
    ensures c.path.Keys <= c.st.Keys && Valid(Sh(c), c.root)
  {
  }

  lemma ResetEnd<N>(c: Cache<N>, c': Cache<N>)
    requires Inv(c) && c.path.Keys <= c.st.Keys && ClearedBut(c, c', [])
    ensures Inv(c') && AllClear(c') && RefsOnly(c, c')
  {
    WaitingEmpty(Sh(c));
    ClearedKeeps(c, c');
  }

  // ----- the size of the tree, by the same traversal -----

  /** `total` is the size of what the stack has left behind. */
  ghost predicate Totalled<N>(c: Cache<N>, stack: seq<N>, total: nat) {
    && c.path.Keys <= c.st.Keys && Antichain(Sh(c), stack)
    && total + Sum(Weights(c), Waiting(Sh(c), stack)) == Sum(Weights(c), c.path.Keys)
  }

  lemma TotalStart<N>(c: Cache<N>)
    requires Inv(c)
    ensures Totalled(c, [c.root], 0)
  {
    WaitingOne(Sh(c), c.root);
    assert Waiting(Sh(c), [c.root]) == c.path.Keys;
  }

  lemma TotalStep<N>(c: Cache<N>, stack: seq<N>, total: nat, n: N, kids: seq<N>)
    requires Inv(c) && Totalled(c, stack, total)
    requires stack != [] && n == stack[|stack| - 1] && n in c.path && n in c.st && Lists(kids, c.st[n].kids)
    ensures var next := stack[..|stack| - 1] + kids;
      && Totalled(c, next, total + |c.st[n].value|)
      && Waiting(Sh(c), next) < Waiting(Sh(c), stack)
  {
    ValueFits(c, n);
    hide Inv, Valid, Waiting, Antichain, Lists;
    InvShape(c);
    PopPush(Sh(c), c.root, stack, kids);
    SumRemove(Weights(c), Waiting(Sh(c), stack), n);
  }

  lemma TotalTop<N>(c: Cache<N>, stack: seq<N>, total: nat)
    requires Inv(c) && Totalled(c, stack, total) && stack != []
    ensures var n := stack[|stack| - 1]; n in c.path && n in c.st && KidsDiffer(c.st[n].kids)
  {
    KidsOfDiffer(c, stack[|stack| - 1]);
  }

  lemma ValueFits<N>(c: Cache<N>, n: N)
    requires Inv(c) && n in c.path && n in c.st
    ensures |c.st[n].value| == |c.st[n].key|
  {
    if n != c.root {
      Fits(c, n);
    }
  }

  /** The tree holds the evictable tokens and the protected ones, and nothing else. */
  lemma TotalEnd<N>(c: Cache<N>, total: nat)
    requires Inv(c) && Totalled(c, [], total)
    ensures total == c.evictable + c.shielded
  {
    WaitingEmpty(Sh(c));
    var w := Weights(c);
    SumRemove(w, c.path.Keys, c.root);
    SumUnion(w, Unlocked(c), Shielded(c));
    assert Unlocked(c) + Shielded(c) == c.path.Keys - {c.root};
  }

  // ----- the targeted reset: the walks up from last cycle's protected nodes -----

  /** The walks up from the first `j` nodes are clear, the rest is as it was. */
  ghost predicate SweptTo<N>(c: Cache<N>, c': Cache<N>, prev: seq<N>, j: nat)
    requires Chained(c) && j <= |prev|
  {
    && RefsOnly(c, c')
    && forall m {:trigger c'.st[m]} ::
      m in c.st ==> c'.st[m].refs == if Reached(c, prev[..j], m) then 0 else c.st[m].refs
  }

  lemma SweepStart<N>(c: Cache<N>, prev: seq<N>)
    requires Chained(c)
    ensures SweptTo(c, c, prev, 0)
  {
  }

  lemma SweepStep<N>(c: Cache<N>, was: Cache<N>, c': Cache<N>, prev: seq<N>, j: nat)
    requires Chained(c) && j < |prev| && SweptTo(c, was, prev, j) && Cleared(c, was, c', prev[j])
    ensures SweptTo(c, c', prev, j + 1)
  {
    forall m | m in c.st
      ensures Reached(c, prev[..j + 1], m) <==> Reached(c, prev[..j], m) || m in WalkUp(c, prev[j])
    {
      var more, less := prev[..j + 1], prev[..j];
      if Reached(c, less, m) {
        var i :| 0 <= i < |less| && less[i] in c.st && m in WalkUp(c, less[i]);
        assert more[i] == less[i];
      }
      if m in WalkUp(c, prev[j]) {
        assert more[j] == prev[j];
      }
      if Reached(c, more, m) {
        var i :| 0 <= i < |more| && more[i] in c.st && m in WalkUp(c, more[i]);
        assert i < j ==> less[i] == more[i];
      }
    }
  }

  /** Because every reference lies on some walk from last cycle, the targeted reset is a full
      one: no node of the tree keeps a reference. */
  lemma SweepClears<N>(c: Cache<N>, c': Cache<N>, prev: seq<N>)
    requires Inv(c) && Traced(c, prev) && SweptTo(c, c', prev, |prev|)
    ensures Inv(c') && AllClear(c')
  {
    assert prev[..|prev|] == prev;
    forall n | n in c'.path
      ensures c'.st[n].refs == 0
    {
      if c.st[n].refs > 0 {
        assert Reached(c, prev, n);
      }
    }
    ClearedKeeps(c, c');
  }

  // ----- protection -----

  /** A walk up from a node of the tree visits its ancestors, itself included, below the root. */
  lemma {:induction false} WalkUpLive<N>(c: Cache<N>, m: N, n: N)
    requires Inv(c) && m in c.path && n in c.path
    ensures n in WalkUp(c, m) <==> n != c.root && c.path[n] <= c.path[m]
    decreases |c.path[m]|
  {
    if m == c.root {
      if c.path[n] == [] {
        SamePath(Sh(c), c.root, n, c.root);
      }
    } else {
      Fits(c, m);
      assert Climbs(c, m);
      var q := c.st[m].parent.value;
      WalkUpLive(c, q, n);
      if c.path[n] <= c.path[m] && n != m {
        if |c.path[n]| == |c.path[m]| {
          SamePath(Sh(c), c.root, n, m);
        } else if |c.path[n]| > |c.path[q]| {
          PrefixStep(Sh(c)[m].path[..|c.path[q]| + 1], c.path[n], c.path[m]);
          Covers(Sh(c), c.root, m, n);
        } else {
          PrefixStep(c.path[n], c.path[q], c.path[m]);
        }
      }
    }
  }

  /** The nodes, by position, whose walk up visits `n`.  They may have left the tree. */
  ghost function Walkers<N>(c: Cache<N>, nodes: seq<N>, n: N): set<nat>
    requires Chained(c)
  {
    set i | 0 <= i < |nodes| && nodes[i] in c.st && n in WalkUp(c, nodes[i])
  }

  /** From a clear tree, the first `j` nodes have been protected. */
  ghost predicate ProtectedTo<N>(c: Cache<N>, c': Cache<N>, nodes: seq<N>, j: nat)
    requires j <= |nodes| && Chained(c)
  {
    && RefsOnly(c, c') && c.path.Keys <= c.st.Keys
    && forall n {:trigger c'.st[n]} :: n in c.path && n != c.root ==> c'.st[n].refs == |Walkers(c, nodes[..j], n)|
  }

  ghost predicate AllKnown<N>(c: Cache<N>, nodes: seq<N>) {
    forall i {:trigger nodes[i]} :: 0 <= i < |nodes| ==> nodes[i] in c.st
  }

  lemma ProtectStart<N>(c: Cache<N>, nodes: seq<N>)
    requires Inv(c) && AllClear(c)
    ensures Chained(c) && ProtectedTo(c, c, nodes, 0)
  {
    forall n | n in c.path && n != c.root
      ensures c.st[n].refs == |Walkers(c, nodes[..0], n)|
    {
      assert Walkers(c, nodes[..0], n) == {};
    }
  }

  lemma ProtectStep<N>(c: Cache<N>, was: Cache<N>, c': Cache<N>, nodes: seq<N>, j: nat)
    requires Chained(c) && Chained(was) && j < |nodes| && AllKnown(c, nodes)
    requires ProtectedTo(c, was, nodes, j) && Raised(was, c', nodes[j])
    ensures ProtectedTo(c, c', nodes, j + 1)
  {
    hide WalkUp, Walkers;
    WalkSame(c, was, nodes[j]);
    forall n | n in c.path && n != c.root
      ensures c'.st[n].refs == |Walkers(c, nodes[..j + 1], n)|
    {
      WalkersStep(c, nodes, j, n);
    }
  }

  lemma WalkersStep<N>(c: Cache<N>, nodes: seq<N>, j: nat, n: N)
    requires Chained(c) && j < |nodes| && nodes[j] in c.st
    ensures |Walkers(c, nodes[..j + 1], n)| == |Walkers(c, nodes[..j], n)| + if n in WalkUp(c, nodes[j]) then 1 else 0
  {
    var s, s' := Walkers(c, nodes[..j], n), Walkers(c, nodes[..j + 1], n);
    assert forall i :: 0 <= i < j ==> nodes[..j + 1][i] == nodes[..j][i];
    assert nodes[..j + 1][j] == nodes[j];
    if n in WalkUp(c, nodes[j]) {
      assert s' == s + {j};
    } else {
      assert s' == s;
    }
  }

  /** A node of the tree is referenced exactly when the walk up from a protected node, deleted or
      not, visits it. */
  lemma ProtectedIff<N>(c: Cache<N>, c': Cache<N>, nodes: seq<N>, n: N)
    requires Inv(c) && Chained(c) && ProtectedTo(c, c', nodes, |nodes|) && n in c.path && n != c.root
    ensures n in c'.st && (c'.st[n].refs > 0 <==> Reached(c, nodes, n))
  {
    assert nodes[..|nodes|] == nodes;
    if Reached(c, nodes, n) {
      var i :| 0 <= i < |nodes| && nodes[i] in c.st && n in WalkUp(c, nodes[i]);
      assert i in Walkers(c, nodes, n);
    }
    if c'.st[n].refs > 0 {
      var i :| i in Walkers(c, nodes, n);
    }
  }

  /** After protection every reference is on a walk from a protected node. */
  lemma ProtectTraced<N>(c: Cache<N>, c': Cache<N>, nodes: seq<N>)
    requires Inv(c) && Inv(c') && Chained(c) && AllKnown(c, nodes) && ProtectedTo(c, c', nodes, |nodes|)
    ensures Traced(c', nodes)
  {
    forall n | n in c'.path && c'.st[n].refs > 0
      ensures Reached(c', nodes, n)
    {
      assert n != c'.root;
      ProtectedIff(c, c', nodes, n);
      var i :| 0 <= i < |nodes| && nodes[i] in c.st && n in WalkUp(c, nodes[i]);
      WalkSame(c, c', nodes[i]);
    }
  }

  /** The protected nodes at or below `n`, by position. */
  ghost function Protectors<N>(c: Cache<N>, nodes: seq<N>, n: N): set<nat>
    requires n in c.path
  {
    set i | 0 <= i < |nodes| && nodes[i] in c.path && c.path[n] <= c.path[nodes[i]]
  }

  ghost predicate AllLive<N>(c: Cache<N>, nodes: seq<N>) {
    forall i {:trigger nodes[i]} :: 0 <= i < |nodes| ==> nodes[i] in c.path && nodes[i] in c.st
  }

  /** For nodes of the tree the walks that visit `n` are those from the nodes at or below it. */
  lemma WalkersLive<N>(c: Cache<N>, nodes: seq<N>, n: N)
    requires Inv(c) && Chained(c) && AllLive(c, nodes) && n in c.path && n != c.root
    ensures Walkers(c, nodes, n) == Protectors(c, nodes, n)
  {
    hide Inv, WalkUp;
    forall i | 0 <= i < |nodes|
      ensures i in Walkers(c, nodes, n) <==> i in Protectors(c, nodes, n)
    {
      WalkUpLive(c, nodes[i], n);
    }
  }
}
