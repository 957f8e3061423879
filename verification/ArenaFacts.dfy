/**
 What a sound arena tells about the pending map: demand along edges and past the end of the
 tree, and the canonical shape.
 */
module ArenaFacts {
  import opened Prelude
  import opened Demands
  import opened Sharing
  import opened Radix
  import opened Arena

  /** All the points of one edge are in the same demand: the count below it. */
  lemma EdgeDemand(nodes: seq<Node>, path: Paths, held: Pending, c: NodeId, tokens: seq<Token>, at: nat, to: nat)
    requires Linked(nodes, path) && Tallied(nodes, path, held) && Seated(path, held)
    requires c in path && c != ROOT && EdgeFits(nodes, path, c)
    requires at == |path[nodes[c].parent]| && at < to <= |tokens| && tokens[..to] <= path[c]
    ensures forall j :: at < j <= to ==> Demand(held, tokens[..j]) == nodes[c].pendingCount
  {
    assert TalliedAt(nodes, path, held, c);
    forall j | at < j <= to
      ensures Demand(held, tokens[..j]) == nodes[c].pendingCount
    {
      assert tokens[..to][..j] == tokens[..j];
      assert OnEdge(ShapeOf(nodes, path), ROOT, c, tokens[..j]);
      DemandOnEdge(nodes, path, held, c, tokens[..j]);
    }
  }

  /** Past a node with no matching child nobody is pending. */
  lemma PastNode(nodes: seq<Node>, path: Paths, held: Pending, n: NodeId, tokens: seq<Token>, at: nat)
    requires Linked(nodes, path) && Seated(path, held) && n in path
    requires at < |tokens| && path[n] == tokens[..at] && tokens[at] !in nodes[n].children
    ensures forall j :: at < j <= |tokens| ==> Demand(held, tokens[..j]) == 0
  {
    var sh := ShapeOf(nodes, path);
    assert sh[n].kids == nodes[n].children;
    forall j | at < j <= |tokens|
      ensures Demand(held, tokens[..j]) == 0
    {
      assert path[n] == tokens[..j][..at];
      forall h | h in path
        ensures !(tokens[..j] <= path[h])
      {
        LeavesAtNode(sh, ROOT, n, tokens[..j], h);
      }
      DemandOffTree(nodes, path, held, tokens[..j]);
    }
  }

  /** Past a mismatch inside an edge nobody is pending. */
  lemma PastEdge(nodes: seq<Node>, path: Paths, held: Pending, c: NodeId, tokens: seq<Token>, at: nat)
    requires Linked(nodes, path) && Seated(path, held)
    requires at < |tokens| && OnEdge(ShapeOf(nodes, path), ROOT, c, tokens[..at])
    requires at < |path[c]| && path[c][at] != tokens[at]
    ensures forall j :: at < j <= |tokens| ==> Demand(held, tokens[..j]) == 0
  {
    var sh := ShapeOf(nodes, path);
    forall j | at < j <= |tokens|
      ensures Demand(held, tokens[..j]) == 0
    {
      assert tokens[..at] == tokens[..j][..at];
      forall h | h in path
        ensures !(tokens[..j] <= path[h])
      {
        LeavesOnEdge(sh, ROOT, c, at, tokens[..j], h);
      }
      DemandOffTree(nodes, path, held, tokens[..j]);
    }
  }

  /** Somebody is pending below every node but a bare ROOT. */
  lemma {:induction false} Populated(nodes: seq<Node>, free: seq<NodeId>, path: Paths, held: Pending, n: NodeId)
    requires Sound(nodes, free, path, held, ROOT) && n in path && n != ROOT
    ensures Demand(held, path[n]) >= 1
    decreases Deeper(ShapeOf(nodes, path), n)
  {
    assert TalliedAt(nodes, path, held, n);
    if nodes[n].terminators != {} {
      var r :| r in nodes[n].terminators;
      DemandWitness(held, path[n], r);
    } else {
      assert Needed(nodes[n]);
      var t :| t in nodes[n].children;
      LinkedKid(nodes, path, n, t);
      var c := nodes[n].children[t];
      DeeperShrinks(ShapeOf(nodes, path), n, c);
      Populated(nodes, free, path, held, c);
      DemandAntitone(held, path[n], path[c]);
    }
  }

  /** A sequence is somebody's, or two pending sequences continue it differently. */
  ghost predicate Canonical(held: Pending, p: seq<Token>) {
    (exists r :: r in held && held[r] == p) || Branches(held, p)
  }

  ghost predicate Continues(held: Pending, p: seq<Token>, r: Rid, t: Token) {
    r in held && |p| < |held[r]| && p <= held[r] && held[r][|p|] == t
  }

  ghost predicate Branches(held: Pending, p: seq<Token>) {
    exists r, s, t, u {:trigger Continues(held, p, r, t), Continues(held, p, s, u)} ::
      Continues(held, p, r, t) && Continues(held, p, s, u) && t != u
  }

  lemma KidContinued(nodes: seq<Node>, free: seq<NodeId>, path: Paths, held: Pending, n: NodeId, t: Token)
    returns (r: Rid)
    requires Sound(nodes, free, path, held, ROOT) && n in path && t in nodes[n].children
    ensures Continues(held, path[n], r, t)
  {
    LinkedKid(nodes, path, n, t);
    var c := nodes[n].children[t];
    Populated(nodes, free, path, held, c);
    r := DemandHasSharer(held, path[c]);
    assert path[c][|path[n]|] == t;
  }

  /** There is a node at a non-empty path exactly when the pending map calls for one. */
  lemma CanonicalNodes(nodes: seq<Node>, free: seq<NodeId>, path: Paths, held: Pending, p: seq<Token>)
    requires Sound(nodes, free, path, held, ROOT) && p != []
    ensures SeatedAt(path, p) <==> Canonical(held, p)
  {
    if SeatedAt(path, p) {
      var n :| n in path && path[n] == p;
      NodeIsCanonical(nodes, free, path, held, n);
    }
    if Canonical(held, p) {
      CanonicalHasNode(nodes, path, held, p);
    }
  }

  lemma NodeIsCanonical(nodes: seq<Node>, free: seq<NodeId>, path: Paths, held: Pending, n: NodeId)
    requires Sound(nodes, free, path, held, ROOT) && n in path && n != ROOT
    ensures Canonical(held, path[n])
  {
    assert TalliedAt(nodes, path, held, n);
    if nodes[n].terminators != {} {
      var r :| r in nodes[n].terminators;
    } else {
      assert Needed(nodes[n]);
      var keys := nodes[n].children.Keys;
      var t :| t in keys;
      assert |keys - {t}| >= 1;
      var u :| u in keys - {t};
      var r := KidContinued(nodes, free, path, held, n, t);
      var s := KidContinued(nodes, free, path, held, n, u);
    }
  }

  lemma CanonicalHasNode(nodes: seq<Node>, path: Paths, held: Pending, p: seq<Token>)
    requires Linked(nodes, path) && Seated(path, held) && p != [] && Canonical(held, p)
    ensures SeatedAt(path, p)
  {
    if r :| r in held && held[r] == p {
      assert SeatedAt(path, held[r]);
    } else {
      var sh := ShapeOf(nodes, path);
      var r, s, t, u :| Continues(held, p, r, t) && Continues(held, p, s, u) && t != u;
      assert SeatedAt(path, held[r]) && SeatedAt(path, held[s]);
      var a :| a in path && path[a] == held[r];
      var b :| b in path && path[b] == held[s];
      var c := FindEdge(sh, ROOT, a, p);
      OnEdgeBelow(sh, ROOT, c, p, b);
      assert path[c] == p;
    }
  }
}
