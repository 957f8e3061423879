/**
 What the remaining in-place updates of src/tree.rs write, and that each keeps the arena
 consistent with the pending map: hanging a new leaf, counting a request in or out along
 its path, dropping a dead leaf, fusing a node with its only child.
 */
module ArenaEdits {
  import opened Prelude
  import opened Demands
  import opened Radix
  import opened RadixEdits
  import opened Arena

  // ----- a new leaf -----

  ghost predicate LeafStep(a: seq<Node>, b: seq<Node>, path: Paths, n: NodeId, q: seq<Token>, x: NodeId)
    requires InRange(a, path) && n in path && |path[n]| < |q|
  {
    && |a| <= |b| && x < |b|
    && b[x] == NewNode(q[|path[n]|..], n)
    && b[n] == a[n].(children := a[n].children[q[|path[n]|] := x])
    && forall m :: m in path && m != n ==> b[m] == a[m]
  }

  lemma LeafLinked(a: seq<Node>, b: seq<Node>, path: Paths, n: NodeId, q: seq<Token>, x: NodeId)
    requires Linked(a, path) && n in path && x !in path
    requires path[n] <= q && |path[n]| < |q| && LeafStep(a, b, path, n, q, x)
    requires q[|path[n]|] !in a[n].children
    ensures Linked(b, path[x := q])
  {
    var path' := path[x := q];
    assert ShapeOf(b, path') == AddLeaf(ShapeOf(a, path), n, q, x);
    AddLeafValid(ShapeOf(a, path), ROOT, n, q, x);
    forall m | m in path' && m != ROOT
      ensures EdgeFits(b, path', m)
    {
      assert m in path ==> EdgeFits(a, path, m);
    }
  }

  lemma LeafTallied(a: seq<Node>, b: seq<Node>, path: Paths, held: Pending, n: NodeId, q: seq<Token>, x: NodeId)
    requires InRange(a, path) && n in path && x !in path && x != ROOT && |path[n]| < |q|
    requires LeafStep(a, b, path, n, q, x) && InRange(b, path[x := q])
    requires Tallied(a, path, held) && Demand(held, q) == 0 && EndingAt(held, q) == {}
    ensures Tallied(b, path[x := q], held)
  {
    var path' := path[x := q];
    forall m | m in path'
      ensures TalliedAt(b, path', held, m)
    {
      assert m in path ==> TalliedAt(a, path, held, m);
    }
  }

  lemma LeafCompressed(a: seq<Node>, b: seq<Node>, path: Paths, n: NodeId, q: seq<Token>, x: NodeId)
    requires InRange(a, path) && n in path && x !in path && |path[n]| < |q|
    requires LeafStep(a, b, path, n, q, x) && InRange(b, path[x := q])
    requires q[|path[n]|] !in a[n].children
    requires Compressed(a, path, n) && (n == ROOT || Needed(a[n]) || |a[n].children| > 0)
    ensures Compressed(b, path[x := q], x)
  {
    forall m | m in path && m != ROOT
      ensures Needed(b[m])
    {
      if m == n {
        assert b[n].children - {q[|path[n]|]} == a[n].children;
        assert |b[n].children| == |a[n].children| + 1;
      }
      assert m != n ==> Needed(a[m]);
    }
  }

  /** A new leaf hangs where the tree does not reach: nobody pending starts with its path. */
  lemma LeafFresh(nodes: seq<Node>, path: Paths, held: Pending, n: NodeId, q: seq<Token>)
    requires Linked(nodes, path) && Seated(path, held) && n in path
    requires path[n] <= q && |path[n]| < |q| && q[|path[n]|] !in nodes[n].children
    ensures Demand(held, q) == 0 && EndingAt(held, q) == {}
  {
    var sh := ShapeOf(nodes, path);
    forall h | h in path
      ensures !(q <= path[h])
    {
      assert sh[n].kids == nodes[n].children;
      LeavesAtNode(sh, ROOT, n, q, h);
    }
    DemandOffTree(nodes, path, held, q);
  }

  lemma LeafConsistent(a: seq<Node>, b: seq<Node>, free: seq<NodeId>, free': seq<NodeId>,
                       path: Paths, held: Pending, n: NodeId, q: seq<Token>, x: NodeId)
    requires Sound(a, free, path, held, n) && n in path && x !in path
    requires path[n] <= q && |path[n]| < |q| && LeafStep(a, b, path, n, q, x)
    requires q[|path[n]|] !in a[n].children
    requires n == ROOT || Needed(a[n]) || |a[n].children| > 0
    requires Slots(|b|, free', path.Keys + {x})
    ensures Sound(b, free', path[x := q], held, x)
  {
    LeafFresh(a, path, held, n, q);
    LeafLinked(a, b, path, n, q, x);
    LeafTallied(a, b, path, held, n, q, x);
    LeafCompressed(a, b, path, n, q, x);
    SeatedMore(path, held, x, q);
    assert path[x := q].Keys == path.Keys + {x};
  }

  lemma SeatedMore(path: Paths, held: Pending, x: NodeId, q: seq<Token>)
    requires Seated(path, held) && x !in path
    ensures Seated(path[x := q], held)
  {
    forall r | r in held
      ensures SeatedAt(path[x := q], held[r])
    {
      assert SeatedAt(path, held[r]);
      var n :| n in path && path[n] == held[r];
      assert path[x := q][n] == held[r];
    }
  }

  // ----- counting a request in or out -----

  /** At most one node of a root path lies at any depth. */
  lemma ChainUnique(nodes: seq<Node>, path: Paths, tokens: seq<Token>, cur: NodeId, n: NodeId)
    requires Linked(nodes, path) && cur in path && cur != ROOT && n in path
    requires path[cur] <= tokens && path[n] <= tokens
    requires EdgeFits(nodes, path, cur)
    requires |path[nodes[cur].parent]| < |path[n]| <= |path[cur]|
    ensures n == cur
  {
    var sh := ShapeOf(nodes, path);
    PrefixStep(path[n], path[cur], tokens);
    assert OnEdge(sh, ROOT, cur, path[n]);
    OnEdgeBelow(sh, ROOT, cur, path[n], n);
    SamePath(sh, ROOT, n, cur);
  }

  /** Node `n` lies on the root path of `tokens`, strictly below depth `d`. */
  ghost predicate OnChain(path: Paths, tokens: seq<Token>, d: nat, n: NodeId)
    requires n in path
  {
    n != ROOT && path[n] <= tokens && d < |path[n]|
  }

  lemma ChainStep(nodes: seq<Node>, path: Paths, tokens: seq<Token>, cur: NodeId)
    requires Linked(nodes, path) && cur in path && cur != ROOT && path[cur] <= tokens
    ensures nodes[cur].parent in path && path[nodes[cur].parent] <= tokens
    ensures |path[nodes[cur].parent]| < |path[cur]|
    ensures forall n :: n in path ==>
      (OnChain(path, tokens, |path[nodes[cur].parent]|, n) <==> OnChain(path, tokens, |path[cur]|, n) || n == cur)
  {
    LinkedParent(nodes, path, cur);
    forall n | n in path && OnChain(path, tokens, |path[nodes[cur].parent]|, n)
      ensures OnChain(path, tokens, |path[cur]|, n) || n == cur
    {
      if |path[n]| <= |path[cur]| {
        ChainUnique(nodes, path, tokens, cur, n);
      }
    }
  }

  /** One node, with the count of the chain nodes below depth `d` moved by `delta`. */
  ghost predicate Counted(a: Node, b: Node, path: Paths, tokens: seq<Token>, d: nat, delta: int, n: NodeId)
    requires n in path
  {
    && b.edge == a.edge && b.parent == a.parent && b.children == a.children
    && b.terminators == a.terminators
    && b.pendingCount == a.pendingCount + if OnChain(path, tokens, d, n) then delta else 0
  }

  /** A request is entered at (or taken from) the node its sequence ends at. */
  ghost predicate EnterStep(a: seq<Node>, b: seq<Node>, path: Paths, rid: Rid, tokens: seq<Token>)
    requires InRange(a, path)
  {
    && |a| <= |b|
    && forall n {:trigger n in path} :: n in path ==>
      b[n] == a[n].(pendingCount := a[n].pendingCount + (if n != ROOT && path[n] <= tokens then 1 else 0),
                    terminators := a[n].terminators + (if path[n] == tokens then {rid} else {}))
  }

  lemma SameShape(a: seq<Node>, b: seq<Node>, path: Paths)
    requires Linked(a, path) && |a| <= |b|
    requires forall n {:trigger n in path} :: n in path ==>
      b[n].edge == a[n].edge && b[n].parent == a[n].parent && b[n].children == a[n].children
    ensures Linked(b, path) && ShapeOf(b, path) == ShapeOf(a, path)
  {
    assert ShapeOf(b, path) == ShapeOf(a, path);
    forall n | n in path && n != ROOT
      ensures EdgeFits(b, path, n)
    {
      assert EdgeFits(a, path, n);
    }
  }

  lemma EnterTallied(a: seq<Node>, b: seq<Node>, path: Paths, held: Pending, rid: Rid, tokens: seq<Token>)
    requires InRange(a, path) && Tallied(a, path, held) && EnterStep(a, b, path, rid, tokens)
    requires ROOT in path && rid !in held
    ensures Tallied(b, path, held[rid := tokens])
  {
    forall n | n in path
      ensures TalliedAt(b, path, held[rid := tokens], n)
    {
      assert TalliedAt(a, path, held, n);
      DemandAdd(held, rid, tokens, path[n]);
    }
  }

  lemma EnterSeated(path: Paths, held: Pending, rid: Rid, tokens: seq<Token>)
    requires Seated(path, held) && SeatedAt(path, tokens)
    ensures Seated(path, held[rid := tokens])
  {
    var held' := held[rid := tokens];
    forall r | r in held'
      ensures SeatedAt(path, held'[r])
    {
      assert r in held ==> SeatedAt(path, held[r]);
    }
  }

  /** Seating the request at `t` and then counting it along the chain is an `EnterStep`. */
  lemma EnterStepHolds(a: seq<Node>, b: seq<Node>, path: Paths, rid: Rid, tokens: seq<Token>, t: NodeId)
    requires Linked(a, path) && t in path && path[t] == tokens && |a| == |b|
    requires var mid := a[t := a[t].(terminators := a[t].terminators + {rid})];
      forall n {:trigger n in path} :: n in path ==> Counted(mid[n], b[n], path, tokens, 0, 1, n)
    ensures EnterStep(a, b, path, rid, tokens)
  {
    forall n {:trigger n in path} | n in path
      ensures n != ROOT ==> |path[n]| > 0
      ensures path[n] == tokens ==> n == t
    {
      if n != ROOT {
        LinkedParent(a, path, n);
      }
      if path[n] == tokens {
        SamePath(ShapeOf(a, path), ROOT, n, t);
      }
    }
  }

  lemma EnterConsistent(a: seq<Node>, b: seq<Node>, free: seq<NodeId>, path: Paths, held: Pending,
                        rid: Rid, tokens: seq<Token>, t: NodeId)
    requires Sound(a, free, path, held, t)
    requires rid !in held && t in path && path[t] == tokens
    requires |a| == |b| && EnterStep(a, b, path, rid, tokens)
    ensures Sound(b, free, path, held[rid := tokens], ROOT)
  {
    SameShape(a, b, path);
    EnterTallied(a, b, path, held, rid, tokens);
    EnterSeated(path, held, rid, tokens);
    forall n | n in path && n != ROOT
      ensures Needed(b[n])
    {
      assert n != t ==> Needed(a[n]);
    }
  }

  /** The reverse of entering. */
  lemma LeaveTallied(a: seq<Node>, b: seq<Node>, path: Paths, held: Pending, rid: Rid)
    requires InRange(a, path) && InRange(b, path) && Tallied(a, path, held)
    requires rid in held && ROOT in path
    requires forall n {:trigger n in path} :: n in path ==>
      && b[n].pendingCount == a[n].pendingCount - (if n != ROOT && path[n] <= held[rid] then 1 else 0)
      && b[n].terminators == a[n].terminators - (if path[n] == held[rid] then {rid} else {})
    ensures Tallied(b, path, held - {rid})
  {
    forall n | n in path
      ensures TalliedAt(b, path, held - {rid}, n)
    {
      assert TalliedAt(a, path, held, n);
      DemandRemove(held, rid, path[n]);
      assert path[n] != held[rid] ==> rid !in a[n].terminators;
    }
  }

  lemma LeaveSeated(path: Paths, held: Pending, rid: Rid)
    requires Seated(path, held)
    ensures Seated(path, held - {rid})
  {
    forall r | r in held - {rid}
      ensures SeatedAt(path, (held - {rid})[r])
    {
      assert SeatedAt(path, held[r]);
    }
  }

  ghost predicate LeaveStep(a: seq<Node>, b: seq<Node>, path: Paths, rid: Rid, tokens: seq<Token>)
    requires InRange(a, path)
  {
    && |a| == |b|
    && forall n {:trigger n in path} :: n in path ==>
      && b[n].edge == a[n].edge && b[n].parent == a[n].parent && b[n].children == a[n].children
      && b[n].pendingCount == a[n].pendingCount - (if n != ROOT && path[n] <= tokens then 1 else 0)
      && b[n].terminators == a[n].terminators - (if path[n] == tokens then {rid} else {})
  }

  lemma LeaveStepHolds(a: seq<Node>, b: seq<Node>, path: Paths, rid: Rid, tokens: seq<Token>, t: NodeId)
    requires Linked(a, path) && t in path && path[t] == tokens && |a| == |b|
    requires var mid := a[t := a[t].(terminators := a[t].terminators - {rid})];
      forall n {:trigger n in path} :: n in path ==> Counted(mid[n], b[n], path, tokens, 0, -1, n)
    ensures LeaveStep(a, b, path, rid, tokens)
  {
    forall n {:trigger n in path} | n in path
      ensures n != ROOT ==> |path[n]| > 0
      ensures path[n] == tokens ==> n == t
    {
      if n != ROOT {
        LinkedParent(a, path, n);
      }
      if path[n] == tokens {
        SamePath(ShapeOf(a, path), ROOT, n, t);
      }
    }
  }

  /** No count on the chain of a pending request is zero. */
  lemma ChainCounted(a: seq<Node>, path: Paths, held: Pending, rid: Rid)
    requires InRange(a, path) && Tallied(a, path, held) && rid in held
    ensures forall n {:trigger n in path} :: n in path && OnChain(path, held[rid], 0, n) ==> a[n].pendingCount >= 1
  {
    forall n {:trigger n in path} | n in path && OnChain(path, held[rid], 0, n)
      ensures a[n].pendingCount >= 1
    {
      assert TalliedAt(a, path, held, n);
      DemandWitness(held, path[n], rid);
    }
  }

  lemma SoundSkip(a: seq<Node>, free: seq<NodeId>, path: Paths, held: Pending, t: NodeId)
    requires Sound(a, free, path, held, ROOT)
    ensures Sound(a, free, path, held, t)
  {
  }

  lemma SoundAll(a: seq<Node>, free: seq<NodeId>, path: Paths, held: Pending, t: NodeId)
    requires Sound(a, free, path, held, t) && t in path
    requires t == ROOT || a[t].terminators != {} || (a[t].children != map[] && |a[t].children| != 1)
    ensures Sound(a, free, path, held, ROOT)
  {
    forall n | n in path && n != ROOT
      ensures Needed(a[n])
    {
    }
  }

  lemma LeaveConsistent(a: seq<Node>, b: seq<Node>, free: seq<NodeId>, path: Paths, held: Pending, rid: Rid, t: NodeId)
    requires Sound(a, free, path, held, t)
    requires rid in held && t in path && path[t] == held[rid]
    requires LeaveStep(a, b, path, rid, held[rid])
    ensures Sound(b, free, path, held - {rid}, t)
  {
    SameShape(a, b, path);
    LeaveTallied(a, b, path, held, rid);
    LeaveSeated(path, held, rid);
    forall n | n in path && n != ROOT && n != t
      ensures Needed(b[n])
    {
      assert Needed(a[n]);
      if path[n] == held[rid] {
        SamePath(ShapeOf(a, path), ROOT, n, t);
      }
    }
  }

  // ----- dropping a dead leaf -----

  ghost predicate DropStep(a: seq<Node>, b: seq<Node>, path: Paths, c: NodeId)
    requires InRange(a, path) && c in path && a[c].parent in path && |a[c].edge| > 0
  {
    var q := a[c].parent;
    && |a| <= |b|
    && b[q] == a[q].(children := a[q].children - {a[c].edge[0]})
    && forall m :: m in path && m != q && m != c ==> b[m] == a[m]
  }

  lemma DropLinked(a: seq<Node>, b: seq<Node>, path: Paths, c: NodeId)
    requires Linked(a, path) && c in path && c != ROOT && a[c].children == map[]
    requires a[c].parent in path && |a[c].edge| > 0 && DropStep(a, b, path, c)
    ensures Linked(b, path - {c})
  {
    var sh := ShapeOf(a, path);
    LinkedParent(a, path, c);
    assert ShapeOf(b, path - {c}) == DropLeaf(sh, c);
    DropLeafValid(sh, ROOT, c);
    DropEdges(a, b, path, c);
  }

  lemma DropEdges(a: seq<Node>, b: seq<Node>, path: Paths, c: NodeId)
    requires Linked(a, path) && c in path && c != ROOT && a[c].children == map[]
    requires a[c].parent in path && |a[c].edge| > 0 && DropStep(a, b, path, c)
    ensures forall m :: m in path && m != c && m != ROOT ==> EdgeFits(b, path - {c}, m)
  {
    forall m | m in path && m != c && m != ROOT
      ensures EdgeFits(b, path - {c}, m)
    {
      LinkedParent(a, path, m);
      assert ShapeOf(a, path)[a[m].parent].kids == a[a[m].parent].children;
    }
  }

  lemma DropKeeps(a: seq<Node>, b: seq<Node>, path: Paths, held: Pending, c: NodeId)
    requires InRange(a, path) && c in path && c != ROOT && a[c].terminators == {}
    requires a[c].parent in path && |a[c].edge| > 0 && a[c].parent != c && DropStep(a, b, path, c)
    requires Tallied(a, path, held) && Seated(path, held) && Compressed(a, path, c)
    ensures Tallied(b, path - {c}, held) && Seated(path - {c}, held)
    ensures Compressed(b, path - {c}, a[c].parent)
  {
    assert TalliedAt(a, path, held, c);
    forall m | m in path - {c}
      ensures TalliedAt(b, path - {c}, held, m)
    {
      assert TalliedAt(a, path, held, m);
    }
    forall r | r in held
      ensures SeatedAt(path - {c}, held[r])
    {
      assert SeatedAt(path, held[r]);
      var n :| n in path && path[n] == held[r];
      assert r !in EndingAt(held, path[c]);
      assert (path - {c})[n] == held[r];
    }
  }

  lemma DropConsistent(a: seq<Node>, b: seq<Node>, free: seq<NodeId>, free': seq<NodeId>,
                       path: Paths, held: Pending, c: NodeId)
    requires Sound(a, free, path, held, c) && c in path
    requires c != ROOT && a[c].terminators == {} && a[c].children == map[]
    requires a[c].parent in path && |a[c].edge| > 0 && a[c].parent != c && DropStep(a, b, path, c)
    requires Slots(|b|, free', (path - {c}).Keys)
    ensures Sound(b, free', path - {c}, held, a[c].parent)
  {
    DropLinked(a, b, path, c);
    DropKeeps(a, b, path, held, c);
  }

  // ----- fusing a node with its only child -----

  ghost predicate FuseStep(a: seq<Node>, b: seq<Node>, path: Paths, n: NodeId, c: NodeId)
    requires InRange(a, path) && n in path && c in path
  {
    && |a| <= |b|
    && b[n] == Node(a[n].edge + a[c].edge, a[n].parent, a[c].children, a[n].pendingCount, a[c].terminators)
    && forall m :: m in path && m != n && m != c ==>
      b[m] == if a[m].parent == c then a[m].(parent := n) else a[m]
  }

  lemma FuseStepFreed(a: seq<Node>, b: seq<Node>, path: Paths, n: NodeId, c: NodeId)
    requires InRange(a, path) && n in path && c in path && n != c && |a| <= |b| && FuseStep(a, b, path, n, c)
    ensures FuseStep(a, b[c := NewNode([], ROOT)], path, n, c)
  {
  }

  lemma FuseLinked(a: seq<Node>, b: seq<Node>, path: Paths, n: NodeId, t: Token, c: NodeId)
    requires Linked(a, path) && n in path && n != ROOT && c in path
    requires a[n].children == map[t := c] && FuseStep(a, b, path, n, c)
    ensures Linked(b, (path - {c})[n := path[c]])
  {
    var path' := (path - {c})[n := path[c]];
    var sh := ShapeOf(a, path);
    LinkedKid(a, path, n, t);
    LinkedParent(a, path, n);
    assert ShapeOf(b, path') == Fuse(sh, n, c);
    FuseValid(sh, ROOT, n, t, c);
    forall m | m in path' && m != ROOT
      ensures EdgeFits(b, path', m)
    {
      FuseEdge(a, b, path, n, t, c, m);
    }
  }

  lemma FuseEdge(a: seq<Node>, b: seq<Node>, path: Paths, n: NodeId, t: Token, c: NodeId, m: NodeId)
    requires Linked(a, path) && n in path && n != ROOT && c in path
    requires a[n].children == map[t := c] && FuseStep(a, b, path, n, c)
    requires m in path && m != c && m != ROOT
    ensures EdgeFits(b, (path - {c})[n := path[c]], m)
  {
    LinkedKid(a, path, n, t);
    LinkedParent(a, path, n);
    LinkedParent(a, path, m);
    assert ShapeOf(a, path)[a[m].parent].kids == a[a[m].parent].children;
  }

  /** Whoever passes through a node that ends nobody and has one child passes through the child. */
  lemma FuseDemand(a: seq<Node>, path: Paths, held: Pending, n: NodeId, t: Token, c: NodeId)
    requires Linked(a, path) && n in path && c in path && a[n].children == map[t := c]
    requires Tallied(a, path, held) && Seated(path, held) && a[n].terminators == {}
    ensures Demand(held, path[n]) == Demand(held, path[c])
  {
    var sh := ShapeOf(a, path);
    LinkedKid(a, path, n, t);
    assert TalliedAt(a, path, held, n);
    forall r | r in held && path[n] <= held[r]
      ensures path[c] <= held[r]
    {
      assert SeatedAt(path, held[r]);
      var h :| h in path && path[h] == held[r];
      assert r !in EndingAt(held, path[n]);
      assert sh[n].kids == a[n].children;
      KidToward(sh, ROOT, n, h);
    }
    DemandSame(held, path[n], path[c]);
  }

  lemma FuseKeeps(a: seq<Node>, b: seq<Node>, path: Paths, held: Pending, n: NodeId, c: NodeId)
    requires InRange(a, path) && n in path && n != ROOT && c in path && c != ROOT && n != c
    requires FuseStep(a, b, path, n, c) && a[n].terminators == {}
    requires Demand(held, path[n]) == Demand(held, path[c])
    requires Tallied(a, path, held) && Seated(path, held)
    ensures InRange(b, (path - {c})[n := path[c]])
    ensures Tallied(b, (path - {c})[n := path[c]], held)
    ensures Seated((path - {c})[n := path[c]], held)
  {
    var path' := (path - {c})[n := path[c]];
    assert TalliedAt(a, path, held, n) && TalliedAt(a, path, held, c);
    forall m | m in path'
      ensures TalliedAt(b, path', held, m)
    {
      assert TalliedAt(a, path, held, m);
    }
    forall r | r in held
      ensures SeatedAt(path', held[r])
    {
      assert SeatedAt(path, held[r]);
      var h :| h in path && path[h] == held[r];
      assert r !in EndingAt(held, path[n]);
      assert path'[if h == c then n else h] == held[r];
    }
  }

  lemma FuseCompressed(a: seq<Node>, b: seq<Node>, path: Paths, n: NodeId, c: NodeId)
    requires InRange(a, path) && n in path && c in path && c != ROOT && n != c
    requires FuseStep(a, b, path, n, c) && InRange(b, (path - {c})[n := path[c]])
    requires Compressed(a, path, n)
    ensures Compressed(b, (path - {c})[n := path[c]], ROOT)
  {
    var path' := (path - {c})[n := path[c]];
    forall m | m in path' && m != ROOT
      ensures Needed(b[m])
    {
      assert Needed(a[if m == n then c else m]);
    }
  }

  lemma FuseConsistent(a: seq<Node>, b: seq<Node>, free: seq<NodeId>, free': seq<NodeId>,
                       path: Paths, held: Pending, n: NodeId, t: Token, c: NodeId)
    requires Sound(a, free, path, held, n) && n in path && c in path
    requires n != ROOT && a[n].terminators == {} && a[n].children == map[t := c]
    requires c != ROOT && n != c && FuseStep(a, b, path, n, c)
    requires Slots(|b|, free', (path - {c}).Keys)
    ensures Sound(b, free', (path - {c})[n := path[c]], held, ROOT)
  {
    FuseDemand(a, path, held, n, t, c);
    FuseLinked(a, b, path, n, t, c);
    FuseKeeps(a, b, path, held, n, c);
    FuseCompressed(a, b, path, n, c);
    assert (path - {c})[n := path[c]].Keys == (path - {c}).Keys;
  }
}
