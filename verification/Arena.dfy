/**
 The arena of src/tree.rs as a value: slots, the ghost root path of every live slot, and
 what a consistent arena says about the pending map it stands for.
 */
module Arena {
  import opened Prelude
  import opened Demands
  import opened Radix
  import opened RadixEdits

  type NodeId = nat
  const ROOT: NodeId := 0

  datatype Node = Node(
    edge: seq<Token>, parent: NodeId, children: map<Token, NodeId>,
    pendingCount: nat, terminators: set<Rid>)

  function NewNode(edge: seq<Token>, parent: NodeId): Node {
    Node(edge, parent, map[], 0, {})
  }

  type Paths = map<NodeId, seq<Token>>

  ghost predicate InRange(nodes: seq<Node>, path: Paths) {
    forall n :: n in path ==> n < |nodes|
  }

  ghost function ShapeOf(nodes: seq<Node>, path: Paths): Shape<NodeId>
    requires InRange(nodes, path)
  {
    map n | n in path :: Link(path[n], nodes[n].parent, nodes[n].children)
  }

  /** Links agree with the root paths, and each edge is the last segment of its path. */
  ghost predicate Linked(nodes: seq<Node>, path: Paths) {
    && InRange(nodes, path)
    && Valid(ShapeOf(nodes, path), ROOT)
    && ROOT in path && nodes[ROOT].edge == []
    && forall n {:trigger EdgeFits(nodes, path, n)} :: n in path && n != ROOT ==> EdgeFits(nodes, path, n)
  }

  ghost predicate EdgeFits(nodes: seq<Node>, path: Paths, n: NodeId)
    requires n in path && n < |nodes|
  {
    nodes[n].parent in path && path[n] == path[nodes[n].parent] + nodes[n].edge
  }

  /** Every slot is live or on the freelist, never both, and on the freelist at most once. */
  ghost predicate Slots(size: nat, free: seq<NodeId>, live: set<NodeId>) {
    && (forall i: nat {:trigger SlotUse(size, free, live, i)} :: SlotUse(size, free, live, i))
    && Distinct(free)
  }

  ghost predicate SlotUse(size: nat, free: seq<NodeId>, live: set<NodeId>, i: nat) {
    && (i < size <==> i in live || i in free)
    && !(i in live && i in free)
  }

  ghost predicate Distinct(s: seq<NodeId>) {
    forall i, j :: 0 <= i < j < |s| ==> s[i] != s[j]
  }

  lemma SlotsPop(size: nat, free: seq<NodeId>, live: set<NodeId>)
    requires Slots(size, free, live) && |free| > 0
    ensures var id := free[|free| - 1];
      id < size && id !in live && Slots(size, free[..|free| - 1], live + {id})
  {
    var id, rest := free[|free| - 1], free[..|free| - 1];
    assert id in free;
    assert SlotUse(size, free, live, id);
    assert free == rest + [id];
    forall i: nat
      ensures SlotUse(size, rest, live + {id}, i)
    {
      assert SlotUse(size, free, live, i);
    }
  }

  lemma SlotsGrow(size: nat, free: seq<NodeId>, live: set<NodeId>)
    requires Slots(size, free, live)
    ensures size !in live && Slots(size + 1, free, live + {size})
  {
    assert SlotUse(size, free, live, size);
    var size', live' := size + 1, live + {size};
    forall i: nat
      ensures SlotUse(size', free, live', i)
    {
      assert SlotUse(size, free, live, i);
    }
  }

  lemma SlotsFree(size: nat, free: seq<NodeId>, live: set<NodeId>, id: NodeId)
    requires Slots(size, free, live + {id}) && id !in live
    ensures id < size && Slots(size, free + [id], live)
  {
    assert SlotUse(size, free, live + {id}, id);
    forall i: nat
      ensures SlotUse(size, free + [id], live, i)
    {
      assert SlotUse(size, free, live + {id}, i);
    }
  }

  /** Counters and terminators are exactly what the pending map says; ROOT is not counted. */
  ghost predicate Tallied(nodes: seq<Node>, path: Paths, held: Pending)
    requires InRange(nodes, path)
  {
    forall n {:trigger TalliedAt(nodes, path, held, n)} :: n in path ==> TalliedAt(nodes, path, held, n)
  }

  ghost predicate TalliedAt(nodes: seq<Node>, path: Paths, held: Pending, n: NodeId)
    requires n in path && n < |nodes|
  {
    && nodes[n].pendingCount == (if n == ROOT then 0 else Demand(held, path[n]))
    && nodes[n].terminators == EndingAt(held, path[n])
  }

  /** Every pending sequence ends at a node. */
  ghost predicate Seated(path: Paths, held: Pending) {
    forall r {:trigger SeatedAt(path, held[r])} :: r in held ==> SeatedAt(path, held[r])
  }

  ghost predicate SeatedAt(path: Paths, p: seq<Token>) {
    exists n :: n in path && path[n] == p
  }

  /** A node other than ROOT ends a request or branches; `skip` may be exempt. */
  ghost predicate Compressed(nodes: seq<Node>, path: Paths, skip: NodeId)
    requires InRange(nodes, path)
  {
    forall n {:trigger Needed(nodes[n])} :: n in path && n != ROOT && n != skip ==> Needed(nodes[n])
  }

  /** The node ends a request or branches. */
  ghost predicate Needed(n: Node) {
    n.terminators != {} || |n.children| >= 2
  }

  ghost predicate Consistent(nodes: seq<Node>, free: seq<NodeId>, path: Paths, held: Pending) {
    && Linked(nodes, path)
    && Slots(|nodes|, free, path.Keys)
    && Tallied(nodes, path, held)
    && Seated(path, held)
  }

  /** Consistent, and compressed everywhere but perhaps at `skip`. */
  ghost predicate Sound(nodes: seq<Node>, free: seq<NodeId>, path: Paths, held: Pending, skip: NodeId) {
    Consistent(nodes, free, path, held) && Compressed(nodes, path, skip)
  }

  lemma Parts(nodes: seq<Node>, free: seq<NodeId>, path: Paths, held: Pending, skip: NodeId)
    requires Sound(nodes, free, path, held, skip)
    ensures Consistent(nodes, free, path, held)
    ensures Linked(nodes, path) && Slots(|nodes|, free, path.Keys)
    ensures InRange(nodes, path) && Tallied(nodes, path, held) && Seated(path, held)
    ensures Compressed(nodes, path, skip)
  {
  }

  lemma LinkedParent(nodes: seq<Node>, path: Paths, n: NodeId)
    requires Linked(nodes, path) && n in path && n != ROOT
    ensures ParentLink(ShapeOf(nodes, path), n)
    ensures EdgeFits(nodes, path, n) && |nodes[n].edge| > 0
    ensures nodes[n].edge[0] == path[n][|path[nodes[n].parent]|]
  {
    assert ParentLink(ShapeOf(nodes, path), n);
    assert EdgeFits(nodes, path, n);
  }

  lemma LinkedKid(nodes: seq<Node>, path: Paths, n: NodeId, t: Token)
    requires Linked(nodes, path) && n in path && t in nodes[n].children
    ensures var c := nodes[n].children[t];
      && c in path && c != ROOT && nodes[c].parent == n
      && path[c] == path[n] + nodes[c].edge
      && |nodes[c].edge| > 0 && nodes[c].edge[0] == t
  {
    var sh := ShapeOf(nodes, path);
    assert sh[n].kids == nodes[n].children;
    assert KidLink(sh, ROOT, n, t, sh[n].kids[t]);
    LinkedParent(nodes, path, nodes[n].children[t]);
  }

  /** One step of every descent: where matching along the edge into a child leaves it. */
  lemma EdgeStep(nodes: seq<Node>, path: Paths, tokens: seq<Token>, node: NodeId, at: nat)
    requires Linked(nodes, path) && node in path
    requires at < |tokens| && path[node] == tokens[..at]
    requires tokens[at] in nodes[node].children
    ensures var c := nodes[node].children[tokens[at]];
      && c in path && c != ROOT && nodes[c].parent == node
      && var k := CommonPrefix(nodes[c].edge, tokens[at..]);
      && 0 < k <= |nodes[c].edge| && at + k <= |tokens|
      && |path[c]| == at + |nodes[c].edge|
      && tokens[..at + k] <= path[c]
      && OnEdge(ShapeOf(nodes, path), ROOT, c, tokens[..at + k])
      && (k < |nodes[c].edge| && at + k < |tokens| ==> path[c][at + k] != tokens[at + k])
  {
    LinkedKid(nodes, path, node, tokens[at]);
    var c := nodes[node].children[tokens[at]];
    var k := CommonPrefix(nodes[c].edge, tokens[at..]);
    assert tokens[at..][0] == tokens[at];
    if k == 0 {
      assert false;
    }
    assert tokens[..at + k] == tokens[..at] + tokens[at..][..k];
    assert path[c][..at + k] == path[node] + nodes[c].edge[..k];
  }

  /** The count of a node is the demand of every point of the edge into it, and no request
      ends strictly inside an edge. */
  lemma DemandOnEdge(nodes: seq<Node>, path: Paths, held: Pending, c: NodeId, p: seq<Token>)
    requires Linked(nodes, path) && Seated(path, held)
    requires OnEdge(ShapeOf(nodes, path), ROOT, c, p)
    ensures Demand(held, p) == Demand(held, path[c])
    ensures |p| < |path[c]| ==> EndingAt(held, p) == {}
  {
    forall r | r in held && p <= held[r]
      ensures path[c] <= held[r]
    {
      assert SeatedAt(path, held[r]);
      var n :| n in path && path[n] == held[r];
      OnEdgeBelow(ShapeOf(nodes, path), ROOT, c, p, n);
    }
    DemandSame(held, p, path[c]);
    assert forall r :: r in EndingAt(held, p) ==> p <= held[r];
  }

  /** A sequence the tree does not spell starts no pending request. */
  lemma DemandOffTree(nodes: seq<Node>, path: Paths, held: Pending, p: seq<Token>)
    requires Linked(nodes, path) && Seated(path, held)
    requires forall n :: n in path ==> !(p <= path[n])
    ensures Demand(held, p) == 0 && EndingAt(held, p) == {}
  {
    forall r | r in held
      ensures !(p <= held[r])
    {
      assert SeatedAt(path, held[r]);
    }
    DemandZero(held, p);
    assert EndingAt(held, p) <= Sharers(held, p);
  }

  /** What splitting the edge into `c` at `offset` writes; slot `x` receives the lower half. */
  ghost predicate SplitStep(a: seq<Node>, b: seq<Node>, path: Paths, c: NodeId, offset: nat, x: NodeId)
    requires InRange(a, path) && c in path && offset < |a[c].edge|
  {
    && |a| <= |b| && x < |b|
    && b[x] == Node(a[c].edge[offset..], c, a[c].children, a[c].pendingCount, a[c].terminators)
    && b[c] == Node(a[c].edge[..offset], a[c].parent, map[a[c].edge[offset] := x], a[c].pendingCount, {})
    && forall n :: n in path && n != c ==> b[n] == if a[n].parent == c then a[n].(parent := x) else a[n]
  }

  ghost function SplitPaths(path: Paths, c: NodeId, k: nat, x: NodeId): Paths
    requires c in path && k <= |path[c]|
  {
    path[c := path[c][..k]][x := path[c]]
  }

  lemma SplitEdgeAt(a: seq<Node>, b: seq<Node>, path: Paths, c: NodeId, offset: nat, x: NodeId, n: NodeId)
    requires InRange(a, path) && c in path && x !in path
    requires 0 < offset < |a[c].edge| && SplitStep(a, b, path, c, offset, x)
    requires EdgeFits(a, path, c)
    requires n in path ==> EdgeFits(a, path, n)
    requires n in path || n == x
    ensures n < |b|
    ensures EdgeFits(b, SplitPaths(path, c, |path[a[c].parent]| + offset, x), n)
  {
    var k := |path[a[c].parent]| + offset;
    if n == x {
      assert path[c] == path[c][..k] + a[c].edge[offset..];
    } else if n == c {
      assert path[c][..k] == path[a[c].parent] + a[c].edge[..offset];
    }
  }

  lemma SplitShape(a: seq<Node>, b: seq<Node>, path: Paths, c: NodeId, offset: nat, x: NodeId)
    requires InRange(a, path) && c in path && x !in path
    requires 0 < offset < |a[c].edge| && SplitStep(a, b, path, c, offset, x)
    requires EdgeFits(a, path, c)
    ensures var path' := SplitPaths(path, c, |path[a[c].parent]| + offset, x);
      && InRange(b, path')
      && ShapeOf(b, path') == SplitLower(ShapeOf(a, path), c, |path[a[c].parent]| + offset, x)
  {
    assert path[c][|path[a[c].parent]| + offset] == a[c].edge[offset];
  }

  lemma SplitValid(a: seq<Node>, b: seq<Node>, path: Paths, c: NodeId, offset: nat, x: NodeId)
    requires Linked(a, path) && c in path && c != ROOT && x !in path
    requires 0 < offset < |a[c].edge| && SplitStep(a, b, path, c, offset, x)
    requires EdgeFits(a, path, c)
    ensures InRange(b, SplitPaths(path, c, |path[a[c].parent]| + offset, x))
    ensures Valid(ShapeOf(b, SplitPaths(path, c, |path[a[c].parent]| + offset, x)), ROOT)
  {
    SplitShape(a, b, path, c, offset, x);
    SplitLowerValid(ShapeOf(a, path), ROOT, c, |path[a[c].parent]| + offset, x);
  }

  lemma SplitLinked(a: seq<Node>, b: seq<Node>, path: Paths, c: NodeId, offset: nat, x: NodeId)
    requires Linked(a, path) && c in path && c != ROOT && x !in path
    requires 0 < offset < |a[c].edge| && SplitStep(a, b, path, c, offset, x)
    requires EdgeFits(a, path, c)
    ensures Linked(b, SplitPaths(path, c, |path[a[c].parent]| + offset, x))
  {
    hide Valid, ShapeOf, SplitStep;
    var path' := SplitPaths(path, c, |path[a[c].parent]| + offset, x);
    SplitValid(a, b, path, c, offset, x);
    SplitRoot(a, b, path, c, offset, x);
    SplitEdges(a, b, path, c, offset, x);
  }

  lemma SplitRoot(a: seq<Node>, b: seq<Node>, path: Paths, c: NodeId, offset: nat, x: NodeId)
    requires Linked(a, path) && c in path && c != ROOT && x !in path
    requires offset < |a[c].edge| && SplitStep(a, b, path, c, offset, x)
    ensures ROOT < |b| && b[ROOT].edge == []
  {
    hide Valid, EdgeFits;
  }

  lemma SplitEdges(a: seq<Node>, b: seq<Node>, path: Paths, c: NodeId, offset: nat, x: NodeId)
    requires Linked(a, path) && c in path && c != ROOT && x !in path
    requires 0 < offset < |a[c].edge| && SplitStep(a, b, path, c, offset, x)
    requires EdgeFits(a, path, c)
    ensures var path' := SplitPaths(path, c, |path[a[c].parent]| + offset, x);
      forall n {:trigger EdgeFits(b, path', n)} :: n in path' && n != ROOT ==> n < |b| && EdgeFits(b, path', n)
  {
    hide Valid, ShapeOf, SplitStep;
    var path' := SplitPaths(path, c, |path[a[c].parent]| + offset, x);
    hide EdgeFits;
    forall n | n in path' && n != ROOT
      ensures n < |b| && EdgeFits(b, path', n)
    {
      assert n in path ==> EdgeFits(a, path, n);
      SplitEdgeAt(a, b, path, c, offset, x, n);
    }
  }

  lemma SplitTallyAt(a: seq<Node>, b: seq<Node>, path: Paths, held: Pending,
                     c: NodeId, offset: nat, k: nat, x: NodeId, n: NodeId)
    requires InRange(a, path) && c in path && c != ROOT && x !in path && x != ROOT
    requires offset < |a[c].edge| && k < |path[c]| && SplitStep(a, b, path, c, offset, x)
    requires Demand(held, path[c][..k]) == Demand(held, path[c])
    requires EndingAt(held, path[c][..k]) == {}
    requires n in path || n == x
    requires TalliedAt(a, path, held, if n == x then c else n)
    ensures n < |b| && TalliedAt(b, SplitPaths(path, c, k, x), held, n)
  {
  }

  lemma SplitTallied(a: seq<Node>, b: seq<Node>, path: Paths, held: Pending, c: NodeId, offset: nat, x: NodeId)
    requires Linked(a, path) && c in path && c != ROOT && x !in path
    requires 0 < offset < |a[c].edge| && SplitStep(a, b, path, c, offset, x)
    requires EdgeFits(a, path, c) && InRange(b, SplitPaths(path, c, |path[a[c].parent]| + offset, x))
    requires Tallied(a, path, held) && Seated(path, held)
    ensures Tallied(b, SplitPaths(path, c, |path[a[c].parent]| + offset, x), held)
  {
    var k := |path[a[c].parent]| + offset;
    var path' := SplitPaths(path, c, k, x);
    DemandOnEdge(a, path, held, c, path[c][..k]);
    forall n | n in path'
      ensures TalliedAt(b, path', held, n)
    {
      assert TalliedAt(a, path, held, if n == x then c else n);
      SplitTallyAt(a, b, path, held, c, offset, k, x, n);
    }
  }

  lemma SplitSeated(path: Paths, held: Pending, c: NodeId, k: nat, x: NodeId)
    requires c in path && x !in path && k <= |path[c]| && Seated(path, held)
    ensures Seated(SplitPaths(path, c, k, x), held)
  {
    forall r | r in held
      ensures SeatedAt(SplitPaths(path, c, k, x), held[r])
    {
      assert SeatedAt(path, held[r]);
      var n :| n in path && path[n] == held[r];
      assert SplitPaths(path, c, k, x)[if n == c then x else n] == held[r];
    }
  }

  lemma SplitCompressed(a: seq<Node>, b: seq<Node>, path: Paths, c: NodeId, offset: nat, k: nat, x: NodeId)
    requires InRange(a, path) && c in path && c != ROOT && x !in path
    requires offset < |a[c].edge| && SplitStep(a, b, path, c, offset, x)
    requires k <= |path[c]| && InRange(b, SplitPaths(path, c, k, x))
    requires Compressed(a, path, ROOT)
    ensures Compressed(b, SplitPaths(path, c, k, x), c)
  {
    forall n | n in SplitPaths(path, c, k, x) && n != ROOT && n != c
      ensures Needed(b[n])
    {
      assert Needed(a[if n == x then c else n]);
    }
  }

  lemma SplitConsistent(a: seq<Node>, b: seq<Node>, free: seq<NodeId>, free': seq<NodeId>,
                        path: Paths, held: Pending, c: NodeId, offset: nat, x: NodeId)
    requires Sound(a, free, path, held, ROOT)
    requires c in path && c != ROOT && x !in path
    requires 0 < offset < |a[c].edge| && SplitStep(a, b, path, c, offset, x)
    requires Slots(|b|, free', path.Keys + {x})
    requires EdgeFits(a, path, c)
    ensures var path' := SplitPaths(path, c, |path[a[c].parent]| + offset, x);
      Sound(b, free', path', held, c)
  {
    var k := |path[a[c].parent]| + offset;
    SplitLinked(a, b, path, c, offset, x);
    SplitTallied(a, b, path, held, c, offset, x);
    SplitSeated(path, held, c, k, x);
    SplitCompressed(a, b, path, c, offset, k, x);
    var path' := SplitPaths(path, c, k, x);
    assert path'.Keys == path.Keys + {x};
    assert Slots(|b|, free', path'.Keys);
  }
}
