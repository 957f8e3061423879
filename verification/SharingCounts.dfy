/**
 The sharing counters of src/tree.rs: who shares at least a first token with somebody else,
 read off the children of ROOT.
 */
module SharingCounts {
  import opened Prelude
  import opened Demands
  import opened Radix
  import opened Frontier
  import opened Arena
  import opened ArenaFacts
  import opened PendingRadix

  /** The requests whose first token another request has as well. */
  ghost function SharedRids(m: Pending): set<Rid> {
    set r | r in m && m[r] != [] && Demand(m, m[r][..1]) >= 2
  }

  ghost function WithTokens(m: Pending): set<Rid> {
    set r | r in m && m[r] != []
  }

  /** Two different requests have their first token in common. */
  ghost predicate TwoShare(m: Pending) {
    exists r, o :: r in m && o in m && r != o && CommonPrefix(m[r], m[o]) > 0
  }

  lemma SharedMeansShared(m: Pending, r: Rid)
    requires r in m
    ensures r in SharedRids(m) <==> exists o :: o in m && o != r && CommonPrefix(m[r], m[o]) > 0
  {
    if r in SharedRids(m) {
      var s := Sharers(m, m[r][..1]);
      assert r in s && |s - {r}| >= 1;
      var o :| o in s - {r};
      PrefixIffCommon(m[r], m[o], 1);
    }
    if o :| o in m && o != r && CommonPrefix(m[r], m[o]) > 0 {
      PrefixIffCommon(m[r], m[o], 1);
      SubsetCard({r, o}, Sharers(m, m[r][..1]));
    }
  }

  /** The requests below the first `i` of the listed nodes. */
  ghost function UnderFirst(held: Pending, path: Paths, kids: seq<NodeId>, i: nat): set<Rid>
    requires i <= |kids| && forall j :: 0 <= j < |kids| ==> kids[j] in path
  {
    if i == 0 then {} else UnderFirst(held, path, kids, i - 1) + Sharers(held, path[kids[i - 1]])
  }

  lemma {:induction false} InUnderFirst(held: Pending, path: Paths, kids: seq<NodeId>, i: nat, r: Rid)
    requires i <= |kids| && forall j :: 0 <= j < |kids| ==> kids[j] in path
    ensures r in UnderFirst(held, path, kids, i) <==> exists j :: 0 <= j < i && r in Sharers(held, path[kids[j]])
  {
    if i > 0 {
      InUnderFirst(held, path, kids, i - 1, r);
      if r in Sharers(held, path[kids[i - 1]]) {
        assert 0 <= i - 1 < i;
      }
    }
  }

  ghost predicate RootKids(nodes: seq<Node>, path: Paths, kids: seq<NodeId>) {
    && ROOT in path && ROOT < |nodes| && Lists(kids, nodes[ROOT].children)
    && (forall j {:trigger kids[j]} :: 0 <= j < |kids| ==> kids[j] in path && kids[j] < |nodes| && kids[j] != ROOT)
  }

  lemma RootKidsHold(nodes: seq<Node>, path: Paths, kids: seq<NodeId>)
    requires Linked(nodes, path) && ROOT < |nodes| && Lists(kids, nodes[ROOT].children)
    ensures RootKids(nodes, path, kids)
  {
    forall j | 0 <= j < |kids|
      ensures kids[j] in path && kids[j] < |nodes| && kids[j] != ROOT
    {
      assert IsKid(nodes[ROOT].children, kids[j]);
      var t :| t in nodes[ROOT].children && nodes[ROOT].children[t] == kids[j];
      LinkedKid(nodes, path, ROOT, t);
    }
  }

  /** One more child of ROOT: its requests are new, they all share or none does, and its count says
      which. */
  lemma KidCounts(nodes: seq<Node>, free: seq<NodeId>, path: Paths, held: Pending, kids: seq<NodeId>, i: nat)
    requires Sound(nodes, free, path, held, ROOT) && RootKids(nodes, path, kids) && i < |kids|
    ensures var c := kids[i];
      && nodes[c].pendingCount == |Sharers(held, path[c])|
      && forall r :: r in Sharers(held, path[c]) ==>
        r !in UnderFirst(held, path, kids, i) && (r in SharedRids(held) <==> nodes[c].pendingCount >= 2)
  {
    var c := kids[i];
    Parts(nodes, free, path, held, ROOT);
    RootPath(nodes, path);
    NodeCount(nodes, free, path, held, c);
    LinkedShape(nodes, path);
    assert IsKid(nodes[ROOT].children, c);
    var t :| t in nodes[ROOT].children && nodes[ROOT].children[t] == c;
    LinkedKid(nodes, path, ROOT, t);
    LinkedParent(nodes, path, c);
    forall r | r in Sharers(held, path[c])
      ensures held[r] != [] && Demand(held, held[r][..1]) == nodes[c].pendingCount
    {
      EdgeDemand(nodes, path, held, c, held[r], 0, |path[c]|);
    }
    KidsAntichain(ShapeOf(nodes, path), ROOT, ROOT, kids);
    forall r | r in UnderFirst(held, path, kids, i)
      ensures r !in Sharers(held, path[c])
    {
      InUnderFirst(held, path, kids, i, r);
      var j :| 0 <= j < i && r in Sharers(held, path[kids[j]]);
      assert Apart(ShapeOf(nodes, path), kids[j], kids[i]);
      if path[c] <= held[r] {
        ComparablePrefixes(path[c], path[kids[j]], held[r]);
      }
    }
  }

  lemma ComparablePrefixes(p: seq<Token>, q: seq<Token>, t: seq<Token>)
    requires p <= t && q <= t
    ensures p <= q || q <= p
  {
    if |p| <= |q| {
      PrefixStep(p, q, t);
    } else {
      PrefixStep(q, p, t);
    }
  }

  /** Every request with a first token is below some child of ROOT. */
  lemma AllUnderKids(nodes: seq<Node>, free: seq<NodeId>, path: Paths, held: Pending, kids: seq<NodeId>)
    requires Sound(nodes, free, path, held, ROOT) && RootKids(nodes, path, kids)
    ensures UnderFirst(held, path, kids, |kids|) == WithTokens(held)
  {
    Parts(nodes, free, path, held, ROOT);
    RootPath(nodes, path);
    LinkedShape(nodes, path);
    forall r
      ensures r in UnderFirst(held, path, kids, |kids|) <==> r in held && held[r] != []
    {
      InUnderFirst(held, path, kids, |kids|, r);
      if r in held && held[r] != [] {
        assert SeatedAt(path, held[r]);
        var n :| n in path && path[n] == held[r];
        KidToward(ShapeOf(nodes, path), ROOT, ROOT, n);
        var c := nodes[ROOT].children[path[n][0]];
        assert c in kids;
        var j :| 0 <= j < |kids| && kids[j] == c;
        assert r in Sharers(held, path[kids[j]]);
      }
      if j :| 0 <= j < |kids| && r in Sharers(held, path[kids[j]]) {
        assert kids[j] in path;
        NonEmptyPath(nodes, path, kids[j]);
      }
    }
  }

  lemma NonEmptyPath(nodes: seq<Node>, path: Paths, n: NodeId)
    requires Linked(nodes, path) && n in path && n != ROOT
    ensures path[n] != []
  {
    LinkedParent(nodes, path, n);
  }

  /** Of the requests below the first `i` children, those that share. */
  ghost function SharedSoFar(held: Pending, path: Paths, kids: seq<NodeId>, i: nat): nat
    requires i <= |kids| && forall j {:trigger kids[j]} :: 0 <= j < |kids| ==> kids[j] in path
  {
    |UnderFirst(held, path, kids, i) * SharedRids(held)|
  }

  /** Of the requests without tokens and below the first `i` children, those that do not. */
  ghost function SinglesSoFar(held: Pending, path: Paths, kids: seq<NodeId>, i: nat): nat
    requires i <= |kids| && forall j {:trigger kids[j]} :: 0 <= j < |kids| ==> kids[j] in path
  {
    |EndingAt(held, [])| + |UnderFirst(held, path, kids, i) - SharedRids(held)|
  }

  lemma CountStarts(nodes: seq<Node>, free: seq<NodeId>, path: Paths, held: Pending, kids: seq<NodeId>)
    requires Sound(nodes, free, path, held, ROOT) && ROOT < |nodes| && Lists(kids, nodes[ROOT].children)
    ensures RootKids(nodes, path, kids)
    ensures forall j {:trigger kids[j]} :: 0 <= j < |kids| ==> kids[j] in path && kids[j] < |nodes|
    ensures SharedSoFar(held, path, kids, 0) == 0
    ensures SinglesSoFar(held, path, kids, 0) == |nodes[ROOT].terminators|
  {
    hide Sound, Linked, Lists, SharedRids, Tallied, Seated;
    Parts(nodes, free, path, held, ROOT);
    RootPath(nodes, path);
    NodeTally(nodes, path, held, ROOT);
    RootKidsHold(nodes, path, kids);
    RootKidsRange(nodes, path, held, kids);
    assert {} * SharedRids(held) == {} && {} - SharedRids(held) == {};
  }

  /** One more child adds its count to one of the two. */
  lemma CountStep(nodes: seq<Node>, free: seq<NodeId>, path: Paths, held: Pending, kids: seq<NodeId>, i: nat)
    requires Sound(nodes, free, path, held, ROOT) && RootKids(nodes, path, kids) && i < |kids|
    ensures var n := nodes[kids[i]].pendingCount;
      && SharedSoFar(held, path, kids, i + 1) == SharedSoFar(held, path, kids, i) + (if n >= 2 then n else 0)
      && SinglesSoFar(held, path, kids, i + 1) == SinglesSoFar(held, path, kids, i) + (if n >= 2 then 0 else n)
  {
    hide Sound, Lists, UnderFirst, SharedRids, Sharers;
    KidCounts(nodes, free, path, held, kids, i);
    UnderNext(held, path, kids, i);
    CountShared(UnderFirst(held, path, kids, i), SharedRids(held), Sharers(held, path[kids[i]]),
      nodes[kids[i]].pendingCount >= 2);
  }

  lemma CountEnds(nodes: seq<Node>, free: seq<NodeId>, path: Paths, held: Pending, kids: seq<NodeId>)
    requires Sound(nodes, free, path, held, ROOT) && RootKids(nodes, path, kids)
    ensures SharedSoFar(held, path, kids, |kids|) == |SharedRids(held)|
    ensures SinglesSoFar(held, path, kids, |kids|) == |held.Keys - SharedRids(held)|
  {
    hide Sound, Lists, UnderFirst, SharedRids;
    AllUnderKids(nodes, free, path, held, kids);
    SinglesAreTheRest(held);
  }

  /** Number of requests that share their first token: the counts of the shared children. */
  method SharedRidCount(tree: Tree) returns (shared: nat)
    requires tree.Valid()
    ensures shared == |SharedRids(tree.held)|
  {
    hide Sound, Lists, RootKids, SharedSoFar, SinglesSoFar, SharedRids;
    tree.RootHas();
    var kids := tree.ChildList(ROOT);
    CountStarts(tree.nodes, tree.free, tree.path, tree.held, kids);
    shared := 0;
    var i := 0;
    while i < |kids|
      invariant i <= |kids| && shared == SharedSoFar(tree.held, tree.path, kids, i)
    {
      CountStep(tree.nodes, tree.free, tree.path, tree.held, kids, i);
      if tree.nodes[kids[i]].pendingCount >= 2 {
        shared := shared + tree.nodes[kids[i]].pendingCount;
      }
      i := i + 1;
    }
    CountEnds(tree.nodes, tree.free, tree.path, tree.held, kids);
  }

  /** Number of requests that share nothing, those without tokens included. */
  method SingletonRidCount(tree: Tree) returns (single: nat)
    requires tree.Valid()
    ensures single == |tree.held.Keys - SharedRids(tree.held)|
  {
    hide Sound, Lists, RootKids, SharedSoFar, SinglesSoFar, SharedRids;
    tree.RootHas();
    var kids := tree.ChildList(ROOT);
    CountStarts(tree.nodes, tree.free, tree.path, tree.held, kids);
    single := |tree.nodes[ROOT].terminators|;
    var i := 0;
    while i < |kids|
      invariant i <= |kids| && single == SinglesSoFar(tree.held, tree.path, kids, i)
    {
      CountStep(tree.nodes, tree.free, tree.path, tree.held, kids, i);
      if tree.nodes[kids[i]].pendingCount < 2 {
        single := single + tree.nodes[kids[i]].pendingCount;
      }
      i := i + 1;
    }
    CountEnds(tree.nodes, tree.free, tree.path, tree.held, kids);
  }

  /** Does anybody share a first token? */
  method HasSharing(tree: Tree) returns (sharing: bool)
    requires tree.Valid()
    ensures sharing <==> TwoShare(tree.held)
  {
    hide Sound, Lists, RootKids, SharedSoFar, SinglesSoFar, SharedRids, TwoShare;
    tree.RootHas();
    var kids := tree.ChildList(ROOT);
    CountStarts(tree.nodes, tree.free, tree.path, tree.held, kids);
    SomebodyShares(tree.held);
    var i := 0;
    while i < |kids|
      invariant i <= |kids| && SharedSoFar(tree.held, tree.path, kids, i) == 0
    {
      CountStep(tree.nodes, tree.free, tree.path, tree.held, kids, i);
      if tree.nodes[kids[i]].pendingCount >= 2 {
        SomeSoFar(tree.held, tree.path, kids, i + 1);
        return true;
      }
      i := i + 1;
    }
    CountEnds(tree.nodes, tree.free, tree.path, tree.held, kids);
    return false;
  }

  lemma SomeSoFar(held: Pending, path: Paths, kids: seq<NodeId>, i: nat)
    requires i <= |kids| && forall j {:trigger kids[j]} :: 0 <= j < |kids| ==> kids[j] in path
    ensures SharedSoFar(held, path, kids, i) > 0 ==> SharedRids(held) != {}
  {
    hide SharedRids, UnderFirst;
    if SharedRids(held) == {} {
      assert UnderFirst(held, path, kids, i) * SharedRids(held) == {};
    }
  }

  /** The requests of one more child either all count as sharing or all as singletons. */
  lemma CountShared(under: set<Rid>, shared: set<Rid>, kid: set<Rid>, big: bool)
    requires forall r :: r in kid ==> r !in under && (r in shared <==> big)
    ensures |(under + kid) * shared| == |under * shared| + if big then |kid| else 0
    ensures |(under + kid) - shared| == |under - shared| + if big then 0 else |kid|
    ensures !big ==> (under + kid) * shared == under * shared
  {
    if big {
      assert (under + kid) * shared == under * shared + kid;
      assert (under * shared) * kid == {};
      assert (under + kid) - shared == under - shared;
    } else {
      assert (under + kid) * shared == under * shared;
      assert (under + kid) - shared == under - shared + kid;
      assert (under - shared) * kid == {};
    }
  }

  lemma SinglesAreTheRest(m: Pending)
    ensures var some := WithTokens(m);
      && some * SharedRids(m) == SharedRids(m)
      && |EndingAt(m, [])| + |some - SharedRids(m)| == |m.Keys - SharedRids(m)|
  {
    var some := WithTokens(m);
    assert EndingAt(m, []) + (some - SharedRids(m)) == m.Keys - SharedRids(m);
    assert EndingAt(m, []) * (some - SharedRids(m)) == {};
  }

  lemma SomebodyShares(m: Pending)
    ensures SharedRids(m) != {} <==> TwoShare(m)
  {
    if r :| r in SharedRids(m) {
      SharedMeansShared(m, r);
    }
    if r, o :| r in m && o in m && r != o && CommonPrefix(m[r], m[o]) > 0 {
      SharedMeansShared(m, r);
    }
  }

  lemma RootKidsRange(nodes: seq<Node>, path: Paths, held: Pending, kids: seq<NodeId>)
    requires RootKids(nodes, path, kids)
    ensures forall j {:trigger kids[j]} :: 0 <= j < |kids| ==> kids[j] in path && kids[j] < |nodes| && kids[j] != ROOT
    ensures UnderFirst(held, path, kids, 0) == {}
  {
  }

  lemma UnderNext(held: Pending, path: Paths, kids: seq<NodeId>, i: nat)
    requires i < |kids| && forall j :: 0 <= j < |kids| ==> kids[j] in path
    ensures UnderFirst(held, path, kids, i + 1) == UnderFirst(held, path, kids, i) + Sharers(held, path[kids[i]])
  {
  }
}
