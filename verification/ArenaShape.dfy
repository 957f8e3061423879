/**
 The tree is a function of the pending map: equal maps give the same tree up to the naming
 of slots, the empty map gives ROOT alone, and the size is linear in the number of
 distinct sequences.
 */
module ArenaShape {
  import opened Prelude
  import opened Demands
  import opened Radix
  import opened Arena
  import opened ArenaFacts

  /** The nodes carry the same path, edge, count, terminators and child tokens. */
  ghost predicate Twins(a: seq<Node>, pathA: Paths, n: NodeId, b: seq<Node>, pathB: Paths, m: NodeId)
    requires n in pathA && n < |a| && m in pathB && m < |b|
  {
    && pathA[n] == pathB[m]
    && a[n].edge == b[m].edge
    && a[n].pendingCount == b[m].pendingCount
    && a[n].terminators == b[m].terminators
    && a[n].children.Keys == b[m].children.Keys
  }

  ghost predicate HasTwin(a: seq<Node>, pathA: Paths, n: NodeId, b: seq<Node>, pathB: Paths) {
    n in pathA && n < |a| && exists m :: m in pathB && m < |b| && Twins(a, pathA, n, b, pathB, m)
  }

  /** The same tree up to slot names: every node of one has a twin in the other. */
  ghost predicate SameTree(a: seq<Node>, pathA: Paths, b: seq<Node>, pathB: Paths) {
    && (forall n {:trigger n in pathA} :: n in pathA ==> HasTwin(a, pathA, n, b, pathB))
    && (forall m {:trigger m in pathB} :: m in pathB ==> HasTwin(b, pathB, m, a, pathA))
  }

  /** Of two nodes at the same path, in trees of the same map, neither parent is deeper. */
  lemma ParentNoDeeper(a: seq<Node>, freeA: seq<NodeId>, pathA: Paths, n: NodeId,
                       b: seq<Node>, freeB: seq<NodeId>, pathB: Paths, m: NodeId, held: Pending)
    requires Sound(a, freeA, pathA, held, ROOT) && Sound(b, freeB, pathB, held, ROOT)
    requires n in pathA && n != ROOT && m in pathB && m != ROOT && pathA[n] == pathB[m]
    requires EdgeFits(a, pathA, n) && EdgeFits(b, pathB, m)
    ensures |pathB[b[m].parent]| <= |pathA[a[n].parent]|
  {
    var q := b[m].parent;
    if q != ROOT && |pathB[q]| > |pathA[a[n].parent]| {
      LinkedParent(b, pathB, q);
      CanonicalNodes(b, freeB, pathB, held, pathB[q]);
      CanonicalNodes(a, freeA, pathA, held, pathB[q]);
      assert SeatedAt(pathB, pathB[q]);
      var x :| x in pathA && pathA[x] == pathB[q];
      OnEdgeBelow(ShapeOf(a, pathA), ROOT, n, pathA[x], x);
      LinkedParent(b, pathB, m);
    }
  }

  lemma SameParentPath(a: seq<Node>, freeA: seq<NodeId>, pathA: Paths, n: NodeId,
                       b: seq<Node>, freeB: seq<NodeId>, pathB: Paths, m: NodeId, held: Pending)
    requires Sound(a, freeA, pathA, held, ROOT) && Sound(b, freeB, pathB, held, ROOT)
    requires n in pathA && n != ROOT && m in pathB && m != ROOT && pathA[n] == pathB[m]
    ensures EdgeFits(a, pathA, n) && EdgeFits(b, pathB, m)
    ensures pathA[a[n].parent] == pathB[b[m].parent] && a[n].edge == b[m].edge
  {
    LinkedParent(a, pathA, n);
    LinkedParent(b, pathB, m);
    ParentNoDeeper(a, freeA, pathA, n, b, freeB, pathB, m, held);
    ParentNoDeeper(b, freeB, pathB, m, a, freeA, pathA, n, held);
    PrefixStep(pathA[a[n].parent], pathB[b[m].parent], pathA[n]);
    assert a[n].edge == pathA[n][|pathA[a[n].parent]|..];
    assert b[m].edge == pathB[m][|pathB[b[m].parent]|..];
  }

  lemma TwinAt(a: seq<Node>, freeA: seq<NodeId>, pathA: Paths, n: NodeId,
               b: seq<Node>, freeB: seq<NodeId>, pathB: Paths, held: Pending) returns (m: NodeId)
    requires Sound(a, freeA, pathA, held, ROOT) && Sound(b, freeB, pathB, held, ROOT)
    requires n in pathA
    ensures m in pathB && pathB[m] == pathA[n] && (m == ROOT <==> n == ROOT)
  {
    m := ROOT;
    if n != ROOT {
      LinkedParent(a, pathA, n);
      assert SeatedAt(pathA, pathA[n]);
      CanonicalNodes(a, freeA, pathA, held, pathA[n]);
      CanonicalNodes(b, freeB, pathB, held, pathA[n]);
      m :| m in pathB && pathB[m] == pathA[n];
    }
  }

  lemma SameKidToken(a: seq<Node>, freeA: seq<NodeId>, pathA: Paths, n: NodeId, t: Token,
                     b: seq<Node>, freeB: seq<NodeId>, pathB: Paths, m: NodeId, held: Pending)
    requires Sound(a, freeA, pathA, held, ROOT) && Sound(b, freeB, pathB, held, ROOT)
    requires n in pathA && m in pathB && pathA[n] == pathB[m] && t in a[n].children
    ensures t in b[m].children
  {
    LinkedKid(a, pathA, n, t);
    var c := a[n].children[t];
    var d := TwinAt(a, freeA, pathA, c, b, freeB, pathB, held);
    SameParentPath(a, freeA, pathA, c, b, freeB, pathB, d, held);
    SamePath(ShapeOf(b, pathB), ROOT, b[d].parent, m);
    LinkedParent(b, pathB, d);
    assert ShapeOf(b, pathB)[m].kids == b[m].children;
  }

  /** Two trees with the same pending map are the same up to slot names, whatever sequence of
      inserts and removes led to each. */
  lemma SameMapSameTree(a: seq<Node>, freeA: seq<NodeId>, pathA: Paths, n: NodeId,
                        b: seq<Node>, freeB: seq<NodeId>, pathB: Paths, held: Pending) returns (m: NodeId)
    requires Sound(a, freeA, pathA, held, ROOT) && Sound(b, freeB, pathB, held, ROOT)
    requires n in pathA
    ensures n < |a| && m in pathB && m < |b| && Twins(a, pathA, n, b, pathB, m)
  {
    m := TwinAt(a, freeA, pathA, n, b, freeB, pathB, held);
    assert TalliedAt(a, pathA, held, n) && TalliedAt(b, pathB, held, m);
    if n != ROOT {
      SameParentPath(a, freeA, pathA, n, b, freeB, pathB, m, held);
    }
    forall t
      ensures t in a[n].children <==> t in b[m].children
    {
      if t in a[n].children {
        SameKidToken(a, freeA, pathA, n, t, b, freeB, pathB, m, held);
      }
      if t in b[m].children {
        SameKidToken(b, freeB, pathB, m, t, a, freeA, pathA, n, held);
      }
    }
  }

  lemma SameMapAllTwins(a: seq<Node>, freeA: seq<NodeId>, pathA: Paths,
                        b: seq<Node>, freeB: seq<NodeId>, pathB: Paths, held: Pending)
    requires Sound(a, freeA, pathA, held, ROOT) && Sound(b, freeB, pathB, held, ROOT)
    ensures SameTree(a, pathA, b, pathB)
  {
    hide Sound, Twins;
    forall n | n in pathA
      ensures HasTwin(a, pathA, n, b, pathB)
    {
      var m := SameMapSameTree(a, freeA, pathA, n, b, freeB, pathB, held);
    }
    forall m | m in pathB
      ensures HasTwin(b, pathB, m, a, pathA)
    {
      var n := SameMapSameTree(b, freeB, pathB, m, a, freeA, pathA, held);
    }
  }

  /** Once nobody is pending only ROOT is left. */
  lemma Drained(nodes: seq<Node>, free: seq<NodeId>, path: Paths)
    requires Sound(nodes, free, path, map[], ROOT)
    ensures path == map[ROOT := []]
  {
    forall n | n in path
      ensures n == ROOT
    {
      if n != ROOT {
        Populated(nodes, free, path, map[], n);
        DemandZero(map[], path[n]);
      }
    }
    assert path.Keys == {ROOT};
  }

  // ----- size -----

  ghost function KidsOf(nodes: seq<Node>, path: Paths, x: set<NodeId>): set<NodeId>
    requires InRange(nodes, path)
  {
    set c | c in path && c != ROOT && nodes[c].parent in x
  }

  /** Branching nodes have at least twice as many children as there are of them. */
  lemma {:induction false} ManyKids(nodes: seq<Node>, path: Paths, x: set<NodeId>)
    requires Linked(nodes, path) && x <= path.Keys
    requires forall n :: n in x ==> |nodes[n].children| >= 2
    ensures |KidsOf(nodes, path, x)| >= 2 * |x|
    decreases x
  {
    if x != {} {
      var n :| n in x;
      ManyKids(nodes, path, x - {n});
      var c, d := TwoKids(nodes, path, n);
      TwoMore(KidsOf(nodes, path, x - {n}), c, d, KidsOf(nodes, path, x));
    }
  }

  lemma TwoKids(nodes: seq<Node>, path: Paths, n: NodeId) returns (c: NodeId, d: NodeId)
    requires Linked(nodes, path) && n in path && |nodes[n].children| >= 2
    ensures c in path && c != ROOT && nodes[c].parent == n
    ensures d in path && d != ROOT && nodes[d].parent == n && c != d
  {
    var keys := nodes[n].children.Keys;
    var t :| t in keys;
    assert |keys - {t}| >= 1;
    var u :| u in keys - {t};
    LinkedKid(nodes, path, n, t);
    LinkedKid(nodes, path, n, u);
    c, d := nodes[n].children[t], nodes[n].children[u];
  }

  lemma TwoMore<T>(s: set<T>, c: T, d: T, big: set<T>)
    requires c != d && c !in s && d !in s && s <= big && c in big && d in big
    ensures |big| >= |s| + 2
  {
    assert |s + {c} + {d}| == |s| + 2;
    SubsetCard(s + {c} + {d}, big);
  }

  /** At least two per fork plus one, among the forks and ends, bounds the whole by the ends. */
  lemma ForkArithmetic<T>(ends: set<T>, forks: set<T>, kids: set<T>, c: T)
    requires ends !! forks && kids <= ends + forks && c in ends + forks && c !in kids
    requires |kids| >= 2 * |forks|
    ensures |ends| + |forks| + 1 <= 2 * |ends|
  {
    assert |kids + {c}| == |kids| + 1;
    SubsetCard(kids + {c}, ends + forks);
    assert |ends + forks| == |ends| + |forks|;
  }

  /** A set of nodes is as large as the set of their paths. */
  lemma {:induction false} PathsInjective(nodes: seq<Node>, path: Paths, x: set<NodeId>)
    requires Linked(nodes, path) && x <= path.Keys
    ensures |set n | n in x :: path[n]| == |x|
    decreases x
  {
    if x != {} {
      var n :| n in x;
      PathsInjective(nodes, path, x - {n});
      var rest := set m | m in x - {n} :: path[m];
      forall m | m in x - {n}
        ensures path[m] != path[n]
      {
        if path[m] == path[n] {
          SamePath(ShapeOf(nodes, path), ROOT, m, n);
        }
      }
      assert (set m | m in x :: path[m]) == rest + {path[n]};
    }
  }

  /** With at least one non-empty sequence pending, at most two nodes per distinct sequence. */
  lemma SizeBound(nodes: seq<Node>, free: seq<NodeId>, path: Paths, held: Pending, distinct: set<seq<Token>>)
    requires Sound(nodes, free, path, held, ROOT)
    requires distinct == (set r | r in held && held[r] != [] :: held[r]) && distinct != {}
    ensures |path| <= 2 * |distinct|
  {
    var ends := set n | n in path && n != ROOT && nodes[n].terminators != {};
    var forks := set n | n in path && n != ROOT && nodes[n].terminators == {};
    assert path.Keys == (ends + forks) + {ROOT};
    forall n | n in forks
      ensures |nodes[n].children| >= 2
    {
      assert Needed(nodes[n]);
    }
    ManyKids(nodes, path, forks);
    var p :| p in distinct;
    var c := RootKid(nodes, path, held, p);
    ForkArithmetic(ends, forks, KidsOf(nodes, path, forks), c);
    PathsInjective(nodes, path, ends);
    EndsDistinct(nodes, path, held, ends);
    SubsetCard(set n | n in ends :: path[n], distinct);
  }

  lemma RootKid(nodes: seq<Node>, path: Paths, held: Pending, p: seq<Token>) returns (c: NodeId)
    requires Linked(nodes, path) && Seated(path, held)
    requires p != [] && exists r :: r in held && held[r] == p
    ensures c in path && c != ROOT && nodes[c].parent == ROOT
  {
    var r :| r in held && held[r] == p;
    assert SeatedAt(path, held[r]);
    var h :| h in path && path[h] == p;
    var sh := ShapeOf(nodes, path);
    KidToward(sh, ROOT, ROOT, h);
    c := sh[ROOT].kids[p[0]];
  }

  lemma EndsDistinct(nodes: seq<Node>, path: Paths, held: Pending, ends: set<NodeId>)
    requires Linked(nodes, path) && Tallied(nodes, path, held)
    requires forall n :: n in ends ==> n in path && n != ROOT && nodes[n].terminators != {}
    ensures forall n :: n in ends ==> path[n] != [] && exists r :: r in held && held[r] == path[n]
  {
    forall n | n in ends
      ensures path[n] != [] && exists r :: r in held && held[r] == path[n]
    {
      LinkedParent(nodes, path, n);
      assert TalliedAt(nodes, path, held, n);
      var r :| r in nodes[n].terminators;
    }
  }
}
