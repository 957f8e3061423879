/**
 src/pending.rs: the tree together with its map from request id to tokens, the bulk
 operations, and the LPM order that uses tree positions as dedup claims.
 */
module PendingRequests {
  import opened Prelude
  import opened Demands
  import opened Sharing
  import opened Sorting
  import opened Arena
  import opened ArenaShape
  import opened PendingRadix
  import opened InBatch

  datatype BatchError = AlreadyPresent(rid: Rid) | TwiceInBatch(rid: Rid)

  /** The map after inserting the items in order. */
  ghost function Extended(m: Pending, items: seq<(Rid, seq<Token>)>): Pending {
    if items == [] then m
    else Extended(m, items[..|items| - 1])[items[|items| - 1].0 := items[|items| - 1].1]
  }

  class PendingTree {
    const tree: Tree
    var paths: Pending

    ghost predicate Valid()
      reads this, tree
    {
      tree.Valid() && tree.held == paths
    }

    constructor ()
      ensures Valid() && fresh(tree) && paths == map[]
    {
      tree := new Tree();
      paths := map[];
    }

    method Insert(rid: Rid, tokens: seq<Token>) returns (added: bool)
      requires Valid()
      modifies this, tree
      ensures Valid() && (added <==> rid !in old(paths))
      ensures paths == if added then old(paths)[rid := tokens] else old(paths)
    {
      if rid in paths {
        return false;
      }
      tree.Insert(rid, tokens);
      paths := paths[rid := tokens];
      return true;
    }

    method Remove(rid: Rid) returns (present: bool)
      requires Valid()
      modifies this, tree
      ensures Valid() && (present <==> rid in old(paths)) && paths == old(paths) - {rid}
    {
      if rid !in paths {
        assert paths - {rid} == paths;
        return false;
      }
      var tokens := paths[rid];
      paths := paths - {rid};
      present := tree.Remove(rid, tokens);
    }

    /** All or nothing. */
    method InsertMany(items: seq<(Rid, seq<Token>)>) returns (error: Option<BatchError>)
      requires Valid()
      modifies this, tree
      ensures Valid()
      ensures error.None? <==>
        && (forall i {:trigger items[i]} :: 0 <= i < |items| ==> items[i].0 !in old(paths))
        && (forall i, j :: 0 <= i < j < |items| ==> items[i].0 != items[j].0)
      ensures paths == if error.None? then Extended(old(paths), items) else old(paths)
      ensures error.Some? && error.value.AlreadyPresent? ==> error.value.rid in paths
      ensures error.Some? && error.value.TwiceInBatch? ==>
        exists i, j :: 0 <= i < j < |items| && items[i].0 == items[j].0 == error.value.rid
    {
      var i := 0;
      while i < |items|
        invariant i <= |items| && forall j {:trigger items[j]} :: 0 <= j < i ==> items[j].0 !in paths
      {
        if items[i].0 in paths {
          return Some(AlreadyPresent(items[i].0));
        }
        i := i + 1;
      }
      var seen: set<Rid> := {};
      i := 0;
      while i < |items|
        invariant i <= |items|
        invariant forall r {:trigger r in seen} :: r in seen <==> exists j :: 0 <= j < i && items[j].0 == r
        invariant forall j, k :: 0 <= j < k < i ==> items[j].0 != items[k].0
      {
        if items[i].0 in seen {
          return Some(TwiceInBatch(items[i].0));
        }
        seen := seen + {items[i].0};
        i := i + 1;
      }
      i := 0;
      ghost var before := paths;
      while i < |items|
        invariant i <= |items| && Valid() && paths == Extended(before, items[..i])
        invariant forall j {:trigger items[j]} :: i <= j < |items| ==> items[j].0 !in paths
      {
        var ok := Insert(items[i].0, items[i].1);
        assert items[..i + 1][..i] == items[..i];
        i := i + 1;
      }
      assert items[..i] == items;
      return None;
    }

    /** Remove what is there; the count says how many were. */
    method RemoveMany(rids: seq<Rid>) returns (n: nat)
      requires Valid()
      modifies this, tree
      ensures Valid() && Without(old(paths), rids, paths)
      ensures n == |old(paths)| - |paths|
    {
      n := 0;
      var i := 0;
      ghost var before := paths;
      while i < |rids|
        invariant i <= |rids| && Valid() && Without(before, rids[..i], paths) && n == |before| - |paths|
      {
        ghost var was := paths;
        var present := Remove(rids[i]);
        RemoveCard(was, rids[i]);
        WithoutStep(before, rids, i, was);
        if present {
          n := n + 1;
        }
        i := i + 1;
      }
      assert rids[..i] == rids;
    }

    /** A removed request leaves no trace: the tree is what it was, up to slot names. */
    method InsertThenRemove(rid: Rid, tokens: seq<Token>)
      requires Valid() && rid !in paths
      modifies this, tree
      ensures Valid() && paths == old(paths)
      ensures SameTree(old(tree.nodes), old(tree.path), tree.nodes, tree.path)
    {
      hide Sound, SameTree;
      ghost var nodes, free, path := tree.nodes, tree.free, tree.path;
      var added := Insert(rid, tokens);
      var present := Remove(rid);
      assert paths == old(paths);
      SameMapAllTwins(nodes, free, path, tree.nodes, tree.free, tree.path, paths);
    }

    /** The most tokens this request shares with another one. */
    method LongestSharedPrefix(rid: Rid) returns (n: nat)
      requires Valid()
      ensures rid !in paths ==> n == 0
      ensures rid in paths ==> forall o :: o in paths && o != rid ==> CommonPrefix(paths[rid], paths[o]) <= n
      ensures n > 0 ==> rid in paths && exists o :: o in paths && o != rid && CommonPrefix(paths[rid], paths[o]) == n
    {
      if rid !in paths {
        return 0;
      }
      n := tree.DeepestWithCount(paths[rid], 2);
      DeepestIsLongestShared(paths, rid);
    }

    /** The most tokens shared with any request. */
    method MatchPrefix(tokens: seq<Token>) returns (n: nat)
      requires Valid()
      ensures forall r :: r in paths ==> CommonPrefix(tokens, paths[r]) <= n
      ensures n > 0 ==> exists r :: r in paths && CommonPrefix(tokens, paths[r]) == n
    {
      n := tree.DeepestWithCount(tokens, 1);
      forall r | r in paths
        ensures CommonPrefix(tokens, paths[r]) <= n
      {
        DeepestIsLongestMatch(paths, tokens, r);
      }
      if n > 0 {
        var r := DemandHasSharer(paths, tokens[..n]);
        PrefixIffCommon(tokens, paths[r], n);
        DeepestIsLongestMatch(paths, tokens, r);
      }
    }

    /** The cluster of a request: the deepest shared prefix of its tokens, and how many share it. */
    method ClusterInfo(rid: Rid) returns (info: Option<(NodeId, nat, nat)>)
      requires Valid()
      ensures info.Some? <==> rid in paths && Deepest(paths, paths[rid], 2) > 0
      ensures info.Some? ==>
        && var (node, depth, size) := info.value;
        && depth == Deepest(paths, paths[rid], 2) && size == Demand(paths, paths[rid][..depth])
        && node in tree.path && tree.path[node] == paths[rid][..depth]
    {
      if rid !in paths {
        return None;
      }
      info := tree.ClusterInfo(rid, paths[rid]);
    }

    /** The LPM order of the waiting requests, siblings last. */
    method LpmOrder(reqs: seq<(Rid, int)>, check: int, dedup: nat) returns (order: seq<nat>)
      requires Valid()
      ensures order == StableSort(LpmKeys(CacheHits(reqs), SiblingFlags(Known(paths, reqs), check, dedup)))
    {
      hide Sound, Linked, Seated, Descended;
      var flags: seq<bool> := [];
      var seenPrefixes: set<(NodeId, nat)> := {};
      ghost var q := Known(paths, reqs);
      while |flags| < |reqs|
        invariant |flags| <= |reqs|
        invariant forall i {:trigger flags[i]} ::
          0 <= i < |flags| ==> (flags[i] <==> dedup > 0 && Sibling(q, check, dedup, i))
        invariant dedup > 0 ==> ClaimedPositions(tree.nodes, tree.path, q, check, dedup, |flags|, seenPrefixes)
      {
        var i := |flags|;
        var rid, mainHit := reqs[i].0, reqs[i].1;
        var isSibling := false;
        if mainHit <= check && dedup > 0 && rid in paths && |paths[rid]| >= dedup {
          var node, offset := tree.PrefixPosition(paths[rid][..dedup]);
          PositionClaim(tree.nodes, tree.free, tree.path, paths, q, reqs, check, dedup, i, seenPrefixes,
            (node, offset));
          isSibling := (node, offset) in seenPrefixes;
          seenPrefixes := seenPrefixes + {(node, offset)};
        } else if dedup > 0 {
          NoClaim(tree.nodes, tree.path, q, check, dedup, i, seenPrefixes);
        }
        flags := flags + [isSibling];
      }
      assert flags == SiblingFlags(q, check, dedup);
      order := LpmSortOrder(CacheHits(reqs), flags);
    }
  }

  /** `after` is `before` without the listed requests. */
  ghost predicate Without(before: Pending, rids: seq<Rid>, after: Pending) {
    forall r {:trigger r in after} {:trigger r in before} ::
      (r in after <==> r in before && r !in rids) && (r in after ==> after[r] == before[r])
  }

  lemma WithoutStep(before: Pending, rids: seq<Rid>, i: nat, was: Pending)
    requires i < |rids| && Without(before, rids[..i], was)
    ensures Without(before, rids[..i + 1], was - {rids[i]})
  {
    assert rids[..i + 1] == rids[..i] + [rids[i]];
  }

  lemma RemoveCard(m: Pending, r: Rid)
    ensures |m - {r}| == |m| - if r in m then 1 else 0
  {
    assert (m - {r}).Keys == m.Keys - {r};
    assert |m - {r}| == |(m - {r}).Keys| && |m| == |m.Keys|;
  }

  function CacheHits(reqs: seq<(Rid, int)>): (hits: seq<int>)
    ensures |hits| == |reqs| && forall i :: 0 <= i < |hits| ==> hits[i] == reqs[i].1
  {
    seq(|reqs|, i requires 0 <= i < |reqs| => reqs[i].1)
  }

  /** The queue as the tree knows it: unknown requests have no tokens to claim. */
  ghost function Known(paths: Pending, reqs: seq<(Rid, int)>): (q: seq<Entry>)
    ensures |q| == |reqs|
    ensures forall i :: 0 <= i < |q| ==> q[i] == Entry(if reqs[i].0 in paths then paths[reqs[i].0] else [], reqs[i].1)
  {
    seq(|reqs|, i requires 0 <= i < |reqs| => Entry(if reqs[i].0 in paths then paths[reqs[i].0] else [], reqs[i].1))
  }

  // ----- positions stand for the tokens that lead to them -----

  ghost predicate Positioned(nodes: seq<Node>, path: Paths, tokens: seq<Token>, pos: (NodeId, nat)) {
    exists consumed: nat {:trigger Descent(pos.0, pos.1, consumed)} ::
      Descended(nodes, path, tokens, Descent(pos.0, pos.1, consumed))
  }

  ghost predicate ClaimedAt(nodes: seq<Node>, path: Paths, q: seq<Entry>, check: int, k: nat, n: nat,
                            pos: (NodeId, nat))
  {
    exists j {:trigger q[j]} ::
      0 <= j < n && j < |q| && Claims(q[j], check, k) && Positioned(nodes, path, q[j].prompt[..k], pos)
  }

  ghost predicate ClaimedPositions(nodes: seq<Node>, path: Paths, q: seq<Entry>, check: int, k: nat, n: nat,
                                   seen: set<(NodeId, nat)>)
  {
    forall pos {:trigger pos in seen} :: pos in seen <==> ClaimedAt(nodes, path, q, check, k, n, pos)
  }

  /** Prefixes of pending sequences are equal exactly when they stop at the same position. */
  lemma SamePosition(nodes: seq<Node>, free: seq<NodeId>, path: Paths, held: Pending, r: Rid, s: Rid, k: nat,
                     pos: (NodeId, nat))
    requires Sound(nodes, free, path, held, ROOT) && r in held && s in held && k <= |held[r]| && k <= |held[s]|
    requires Positioned(nodes, path, held[r][..k], pos)
    ensures Positioned(nodes, path, held[s][..k], pos) <==> held[r][..k] == held[s][..k]
  {
    hide Linked, Seated, Descended, Slots, Tallied, Compressed, Consistent, Sound;
    Parts(nodes, free, path, held, ROOT);
    var c: nat :| Descended(nodes, path, held[r][..k], Descent(pos.0, pos.1, c));
    if Positioned(nodes, path, held[s][..k], pos) {
      var d: nat :| Descended(nodes, path, held[s][..k], Descent(pos.0, pos.1, d));
      PositionInjective(nodes, path, held, r, s, k, k, pos.0, pos.1, c, d);
    }
  }

  /** A prefix has one position. */
  lemma OnePosition(nodes: seq<Node>, free: seq<NodeId>, path: Paths, held: Pending, tokens: seq<Token>,
                    pos: (NodeId, nat), other: (NodeId, nat))
    requires Sound(nodes, free, path, held, ROOT)
    requires Positioned(nodes, path, tokens, pos) && Positioned(nodes, path, tokens, other)
    ensures pos == other
  {
    hide Linked, Seated, Descended, Slots, Tallied, Compressed, Consistent, Sound;
    Parts(nodes, free, path, held, ROOT);
    var c: nat :| Descended(nodes, path, tokens, Descent(pos.0, pos.1, c));
    var d: nat :| Descended(nodes, path, tokens, Descent(other.0, other.1, d));
    DescentUnique(nodes, path, tokens, Descent(pos.0, pos.1, c), Descent(other.0, other.1, d));
  }

  /** A position already claimed is a sibling's, and claiming it claims the tokens. */
  lemma PositionClaim(nodes: seq<Node>, free: seq<NodeId>, path: Paths, held: Pending, q: seq<Entry>,
                      reqs: seq<(Rid, int)>, check: int, k: nat, i: nat, seen: set<(NodeId, nat)>, pos: (NodeId, nat))
    requires Sound(nodes, free, path, held, ROOT) && q == Known(held, reqs) && i < |reqs| && k > 0
    requires reqs[i].1 <= check && reqs[i].0 in held && k <= |held[reqs[i].0]|
    requires ClaimedPositions(nodes, path, q, check, k, i, seen) && Positioned(nodes, path, held[reqs[i].0][..k], pos)
    ensures pos in seen <==> Sibling(q, check, k, i)
    ensures ClaimedPositions(nodes, path, q, check, k, i + 1, seen + {pos})
  {
    hide Sound, Positioned;
    var r := reqs[i].0;
    SiblingIffClaimed(q, check, k, i);
    forall j | 0 <= j < i && Claims(q[j], check, k)
      ensures reqs[j].0 in held
      ensures Positioned(nodes, path, q[j].prompt[..k], pos) <==> q[j].prompt[..k] == q[i].prompt[..k]
    {
      SamePosition(nodes, free, path, held, r, reqs[j].0, k, pos);
    }
    assert ClaimedAt(nodes, path, q, check, k, i, pos) <==> Claimed(q, check, k, i, q[i].prompt[..k]);
    forall x
      ensures x in seen + {pos} <==> ClaimedAt(nodes, path, q, check, k, i + 1, x)
    {
      ClaimedAtNext(nodes, path, q, check, k, i, x);
      assert Claims(q[i], check, k);
      if Positioned(nodes, path, q[i].prompt[..k], x) {
        OnePosition(nodes, free, path, held, q[i].prompt[..k], pos, x);
      }
    }
  }

  lemma ClaimedAtNext(nodes: seq<Node>, path: Paths, q: seq<Entry>, check: int, k: nat, i: nat, pos: (NodeId, nat))
    requires i < |q|
    ensures ClaimedAt(nodes, path, q, check, k, i + 1, pos) <==>
      || ClaimedAt(nodes, path, q, check, k, i, pos)
      || (Claims(q[i], check, k) && Positioned(nodes, path, q[i].prompt[..k], pos))
  {
    hide Positioned;
    if ClaimedAt(nodes, path, q, check, k, i + 1, pos) {
      var j :| 0 <= j < i + 1 && Claims(q[j], check, k) && Positioned(nodes, path, q[j].prompt[..k], pos);
      assert j < i || j == i;
    }
  }

  /** A request that cannot claim changes nothing. */
  lemma NoClaim(nodes: seq<Node>, path: Paths, q: seq<Entry>, check: int, k: nat, i: nat, seen: set<(NodeId, nat)>)
    requires i < |q| && !Claims(q[i], check, k) && ClaimedPositions(nodes, path, q, check, k, i, seen)
    ensures ClaimedPositions(nodes, path, q, check, k, i + 1, seen) && !Sibling(q, check, k, i)
  {
    forall x
      ensures x in seen <==> ClaimedAt(nodes, path, q, check, k, i + 1, x)
    {
      ClaimedAtNext(nodes, path, q, check, k, i, x);
    }
  }
}
