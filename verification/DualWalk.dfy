/**
 The dual walk of src/pending.rs: one traversal of the pending tree against an external
 cache.  The walk shares one path buffer, one scratch stack and one result map.
 */
module DualWalking {
  import opened Prelude
  import opened Demands
  import opened Radix
  import opened Frontier
  import opened Arena
  import opened ArenaFacts
  import opened PendingRadix
  import opened Scores
  import opened MainHits

  /** `after` gives `value(r)` to the requests in `done` and leaves the others as in `before`. */
  ghost predicate Assigned(before: map<Rid, nat>, after: map<Rid, nat>, done: set<Rid>,
                           held: Pending, f: CacheMatch, minCount: nat)
  {
    && done <= held.Keys
    && after.Keys == before.Keys + done
    && forall r {:trigger after[r]} :: r in after ==>
      after[r] == if r in done then Hit(held, f, minCount, held[r]) else before[r]
  }

  lemma HitsMore(before: map<Rid, nat>, mid: map<Rid, nat>, after: map<Rid, nat>, done: set<Rid>, more: set<Rid>,
                 held: Pending, f: CacheMatch, minCount: nat)
    requires Assigned(before, mid, done, held, f, minCount) && Assigned(mid, after, more, held, f, minCount)
    ensures Assigned(before, after, done + more, held, f, minCount)
  {
    forall r | r in after
      ensures after[r] == if r in done + more then Hit(held, f, minCount, held[r]) else before[r]
    {
      assert r !in more ==> after[r] == mid[r];
    }
  }

  lemma HitsNone(result: map<Rid, nat>, held: Pending, f: CacheMatch, minCount: nat)
    ensures Assigned(result, result, {}, held, f, minCount)
  {
  }

  lemma HitsAssigned(before: map<Rid, nat>, after: map<Rid, nat>, rids: set<Rid>, value: nat,
                     held: Pending, f: CacheMatch, minCount: nat)
    requires rids <= held.Keys && after.Keys == before.Keys + rids
    requires forall r :: r in after ==> after[r] == if r in rids then value else before[r]
    requires forall r :: r in rids ==> Hit(held, f, minCount, held[r]) == value
    ensures Assigned(before, after, rids, held, f, minCount)
  {
  }

  /** Of the requests below `top`, those that end outside `waiting` are in `done`. */
  ghost predicate VisitedNodes(path: Paths, held: Pending, top: NodeId, waiting: set<NodeId>, done: set<Rid>)
    requires top in path
  {
    && done <= Sharers(held, path[top])
    && forall x {:trigger EndingAt(held, path[x])} ::
      x in path && path[top] <= path[x] && x !in waiting ==> EndingAt(held, path[x]) <= done
  }

  lemma VisitStarts(nodes: seq<Node>, path: Paths, held: Pending, top: NodeId)
    requires InRange(nodes, path) && top in path
    ensures VisitedNodes(path, held, top, Waiting(ShapeOf(nodes, path), [top]), {})
  {
    var sh := ShapeOf(nodes, path);
    WaitingOne(sh, top);
    assert Waiting(sh, [top]) == Below(sh, top);
  }

  lemma VisitedStep(path: Paths, held: Pending, top: NodeId, waiting: set<NodeId>, done: set<Rid>, n: NodeId)
    requires top in path && n in path && path[top] <= path[n] && VisitedNodes(path, held, top, waiting, done)
    ensures VisitedNodes(path, held, top, waiting - {n}, done + EndingAt(held, path[n]))
  {
  }

  lemma TopBelow(nodes: seq<Node>, path: Paths, stack: seq<NodeId>, id: NodeId, top: NodeId)
    requires InRange(nodes, path) && top in path && stack != [] && id == stack[|stack| - 1]
    requires Antichain(ShapeOf(nodes, path), stack)
    requires Waiting(ShapeOf(nodes, path), stack) <= Below(ShapeOf(nodes, path), top)
    ensures id in path && path[top] <= path[id]
  {
    StackTop(ShapeOf(nodes, path), stack);
  }

  lemma EndsBelow(path: Paths, held: Pending, top: NodeId, n: NodeId)
    requires top in path && n in path && path[top] <= path[n]
    ensures EndingAt(held, path[n]) <= Sharers(held, path[top]) <= held.Keys
  {
  }

  lemma VisitedAll(path: Paths, held: Pending, top: NodeId, done: set<Rid>)
    requires top in path && Seated(path, held) && VisitedNodes(path, held, top, {}, done)
    ensures done == Sharers(held, path[top])
  {
    forall r | r in Sharers(held, path[top])
      ensures r in done
    {
      assert SeatedAt(path, held[r]);
      var x :| x in path && path[x] == held[r];
      assert r in EndingAt(held, path[x]);
    }
  }

  /** The requests at or below the children from index `i` on, and those that end at `n`. */
  ghost function DoneFrom(path: Paths, held: Pending, n: NodeId, kids: seq<NodeId>, i: nat): set<Rid>
    requires n in path
  {
    set r | r in held && (held[r] == path[n] || BelowOne(path, kids, i, held[r]))
  }

  ghost predicate BelowOne(path: Paths, kids: seq<NodeId>, i: nat, p: seq<Token>) {
    exists j :: i <= j < |kids| && kids[j] in path && path[kids[j]] <= p
  }

  /** On top of the scratch stack the first `i` children are still to do. */
  ghost predicate Left(base: seq<NodeId>, kids: seq<NodeId>, i: nat, scratch: seq<NodeId>) {
    i <= |kids| && scratch == base + kids[..i]
  }

  lemma AllLeft(base: seq<NodeId>, kids: seq<NodeId>, scratch: seq<NodeId>)
    requires scratch == base + kids
    ensures Left(base, kids, |kids|, scratch)
  {
    assert kids[..|kids|] == kids;
  }

  lemma PopLeft(base: seq<NodeId>, kids: seq<NodeId>, i: int, scratch: seq<NodeId>)
    requires 0 <= i + 1 && Left(base, kids, i + 1, scratch) && |scratch| > |base|
    ensures 0 <= i < |kids| && scratch != [] && scratch[|scratch| - 1] == kids[i]
    ensures Left(base, kids, i, scratch[..|scratch| - 1])
  {
    assert kids[..i + 1] == kids[..i] + [kids[i]];
  }

  lemma NoneLeft(base: seq<NodeId>, kids: seq<NodeId>, i: nat, scratch: seq<NodeId>)
    requires Left(base, kids, i, scratch) && |scratch| <= |base|
    ensures i == 0 && scratch == base
  {
  }

  lemma DoneNone(path: Paths, held: Pending, n: NodeId, kids: seq<NodeId>)
    requires n in path
    ensures DoneFrom(path, held, n, kids, |kids|) == EndingAt(held, path[n])
  {
  }

  lemma DoneStep(path: Paths, held: Pending, n: NodeId, kids: seq<NodeId>, i: nat)
    requires n in path && i < |kids| && kids[i] in path
    ensures DoneFrom(path, held, n, kids, i) == DoneFrom(path, held, n, kids, i + 1) + Sharers(held, path[kids[i]])
  {
    forall p
      ensures BelowOne(path, kids, i, p) <==> BelowOne(path, kids, i + 1, p) || path[kids[i]] <= p
    {
    }
  }

  lemma DoneAll(nodes: seq<Node>, path: Paths, held: Pending, n: NodeId, kids: seq<NodeId>)
    requires Linked(nodes, path) && Seated(path, held) && n in path && Lists(kids, nodes[n].children)
    ensures DoneFrom(path, held, n, kids, 0) == Sharers(held, path[n])
  {
    var sh := ShapeOf(nodes, path);
    assert sh[n].kids == nodes[n].children;
    forall r | r in held
      ensures r in DoneFrom(path, held, n, kids, 0) <==> path[n] <= held[r]
    {
      if path[n] <= held[r] && held[r] != path[n] {
        assert SeatedAt(path, held[r]);
        var h :| h in path && path[h] == held[r];
        KidToward(sh, ROOT, n, h);
        var c := sh[n].kids[path[h][|path[n]|]];
        assert c in kids;
        var j :| 0 <= j < |kids| && kids[j] == c;
        assert BelowOne(path, kids, 0, held[r]);
      }
      if BelowOne(path, kids, 0, held[r]) {
        var j :| 0 <= j < |kids| && kids[j] in path && path[kids[j]] <= held[r];
        KidFacts(nodes, path, n, kids, j);
      }
    }
  }

  lemma KidFacts(nodes: seq<Node>, path: Paths, n: NodeId, kids: seq<NodeId>, j: nat)
    requires Linked(nodes, path) && n in path && Lists(kids, nodes[n].children) && j < |kids|
    ensures var c := kids[j];
      && c in path && c != ROOT && nodes[c].parent == n && EdgeFits(nodes, path, c)
      && |path[n]| < |path[c]| && path[n] <= path[c]
      && path[c][|path[n]|] in nodes[n].children && nodes[n].children[path[c][|path[n]|]] == c
  {
    assert IsKid(nodes[n].children, kids[j]);
    var t :| t in nodes[n].children && nodes[n].children[t] == kids[j];
    LinkedKid(nodes, path, n, t);
    LinkedParent(nodes, path, kids[j]);
  }

  /** A position strictly below `n` already asked about lies under one of the children from `i` on. */
  ghost predicate AskedFrom(path: Paths, asked: set<NodeId>, n: NodeId, kids: seq<NodeId>, i: nat)
    requires n in path
  {
    forall a {:trigger a in asked} :: a in asked ==>
      a in path && (path[n] <= path[a] ==> a == n || BelowOne(path, kids, i, path[a]))
  }

  lemma NotAskedYet(nodes: seq<Node>, path: Paths, asked: set<NodeId>, n: NodeId, kids: seq<NodeId>, i: nat)
    requires Linked(nodes, path) && n in path && Lists(kids, nodes[n].children) && i < |kids|
    requires AskedFrom(path, asked, n, kids, i + 1)
    ensures kids[i] in path && kids[i] !in asked && Fresh(path, asked + {kids[i]}, kids[i])
  {
    var sh := ShapeOf(nodes, path);
    assert sh[n].kids == nodes[n].children;
    KidsAntichain(sh, ROOT, n, kids);
    KidFacts(nodes, path, n, kids, i);
    forall a | a in asked
      ensures a in path && !(path[kids[i]] <= path[a])
    {
      if path[kids[i]] <= path[a] {
        var j :| i + 1 <= j < |kids| && kids[j] in path && path[kids[j]] <= path[a];
        assert Apart(sh, kids[i], kids[j]);
        var p, q := path[kids[i]], path[kids[j]];
        if |p| <= |q| {
          PrefixStep(p, q, path[a]);
        } else {
          PrefixStep(q, p, path[a]);
        }
      }
    }
  }

  /** Nothing below `n` was asked about, except perhaps `n` itself. */
  ghost predicate Fresh(path: Paths, asked: set<NodeId>, n: NodeId)
    requires n in path
  {
    forall a {:trigger a in asked} :: a in asked ==> a in path && (path[n] <= path[a] ==> a == n)
  }

  /** Only positions at or below `n` were asked about since. */
  ghost predicate NewBelow(path: Paths, before: set<NodeId>, asked: set<NodeId>, n: NodeId)
    requires n in path
  {
    before <= asked && forall a {:trigger a in asked} :: a in asked && a !in before ==> a in path && path[n] <= path[a]
  }

  lemma FreshFrom(path: Paths, asked: set<NodeId>, n: NodeId, kids: seq<NodeId>)
    requires n in path && Fresh(path, asked, n)
    ensures AskedFrom(path, asked, n, kids, |kids|) && NewBelow(path, asked, asked, n)
  {
  }

  /** Asking below child `i` only moves the frontier of what was asked by one. */
  lemma AskedStep(path: Paths, before: set<NodeId>, asked: set<NodeId>, n: NodeId, kids: seq<NodeId>, i: nat)
    requires n in path && i < |kids| && kids[i] in path && AskedFrom(path, before, n, kids, i + 1)
    requires NewBelow(path, before + {kids[i]}, asked, kids[i])
    ensures AskedFrom(path, asked, n, kids, i) && NewBelow(path, before, asked, kids[i])
  {
  }

  lemma NewBelowMore(path: Paths, before: set<NodeId>, mid: set<NodeId>, asked: set<NodeId>, n: NodeId, c: NodeId)
    requires n in path && c in path && path[n] <= path[c]
    requires NewBelow(path, before, mid, n) && NewBelow(path, mid, asked, c)
    ensures NewBelow(path, before, asked, n)
  {
  }

  lemma AskedWiden(path: Paths, asked: set<NodeId>, n: NodeId, kids: seq<NodeId>, i: nat)
    requires n in path && AskedFrom(path, asked, n, kids, i + 1)
    ensures AskedFrom(path, asked, n, kids, i)
  {
    forall a | a in asked
      ensures a in path && (path[n] <= path[a] ==> a == n || BelowOne(path, kids, i, path[a]))
    {
      assert BelowOne(path, kids, i + 1, path[a]) ==> BelowOne(path, kids, i, path[a]);
    }
  }

  /** The walk may stand at `n` with everything below it still to be decided. */
  ghost predicate Standing(path: Paths, held: Pending, f: CacheMatch, minCount: nat, n: NodeId, established: bool) {
    && n in path && (established <==> n != ROOT)
    && (established ==> Licensed(held, minCount, path[n]) && f(path[n]) == |path[n]|)
  }

  lemma StandingFacts(path: Paths, held: Pending, f: CacheMatch, minCount: nat, n: NodeId, established: bool)
    requires Standing(path, held, f, minCount, n, established)
    ensures n in path && (established <==> n != ROOT)
  {
  }

  lemma EndsHit(path: Paths, held: Pending, f: CacheMatch, minCount: nat, n: NodeId, established: bool)
    requires Oracle(f) && Standing(path, held, f, minCount, n, established) && ROOT in path && path[ROOT] == []
    ensures forall r :: r in EndingAt(held, path[n]) ==> Hit(held, f, minCount, held[r]) == |path[n]|
  {
    if established {
      HitAtEnd(held, f, minCount, path[n]);
    }
  }

  /** Everybody below a child that too few share hits up to the node. */
  lemma SkipHits(nodes: seq<Node>, free: seq<NodeId>, path: Paths, held: Pending, f: CacheMatch, minCount: nat,
                 n: NodeId, kids: seq<NodeId>, i: nat)
    requires Sound(nodes, free, path, held, ROOT) && Oracle(f) && Standing(path, held, f, minCount, n, true)
    requires Lists(kids, nodes[n].children) && i < |kids| && kids[i] in path
    requires nodes[kids[i]].pendingCount < minCount
    ensures forall r :: r in Sharers(held, path[kids[i]]) ==> Hit(held, f, minCount, held[r]) == |path[n]|
  {
    KidFacts(nodes, path, n, kids, i);
    var c, k := kids[i], |path[n]|;
    StrictDrop(nodes, free, path, held, n, path[c][k]);
    assert TalliedAt(nodes, path, held, c);
    forall r | r in Sharers(held, path[c])
      ensures Hit(held, f, minCount, held[r]) == k
    {
      var t := held[r];
      EdgeDemand(nodes, path, held, c, t, k, k + 1);
      assert t[..k] == path[n];
      HitOnSkip(held, f, minCount, t, k);
    }
  }

  /** A child that may be looked at is licensed, and if the cache runs out on the way to it
      everybody below hits exactly that far. */
  lemma AskedHits(nodes: seq<Node>, free: seq<NodeId>, path: Paths, held: Pending, f: CacheMatch, minCount: nat,
                  n: NodeId, established: bool, kids: seq<NodeId>, i: nat)
    requires Sound(nodes, free, path, held, ROOT) && Oracle(f)
    requires Standing(path, held, f, minCount, n, established)
    requires Lists(kids, nodes[n].children) && i < |kids| && kids[i] in path
    requires !established || nodes[kids[i]].pendingCount >= minCount
    ensures f(path[kids[i]]) <= |path[kids[i]]|
    ensures f(path[kids[i]]) == |path[kids[i]]| ==> Standing(path, held, f, minCount, kids[i], true)
    ensures f(path[kids[i]]) < |path[kids[i]]| ==>
      forall r :: r in Sharers(held, path[kids[i]]) ==> Hit(held, f, minCount, held[r]) == f(path[kids[i]])
  {
    KidFacts(nodes, path, n, kids, i);
    var c := kids[i];
    var p := path[c];
    assert TalliedAt(nodes, path, held, c);
    assert p[..|p|] == p;
    assert f(p[..|p|]) == f(p);
    if !established {
      assert ShapeOf(nodes, path)[ROOT].path == [];
      EdgeDemand(nodes, path, held, c, p, 0, |p|);
    }
    assert Licensed(held, minCount, p);
    if f(p) < |p| {
      forall r | r in Sharers(held, p)
        ensures Hit(held, f, minCount, held[r]) == f(p)
      {
        assert held[r][..|p|] == p;
        HitOnMiss(held, f, minCount, held[r], |p|);
      }
    }
  }

  class DualWalk {
    const tree: Tree
    const cacheMatch: CacheMatch
    const minCount: nat
    var prefix: seq<Token>
    var scratch: seq<NodeId>
    var result: map<Rid, nat>
    var calls: nat
    ghost var asked: set<NodeId>

    constructor (tree: Tree, cacheMatch: CacheMatch, minCount: nat)
      ensures this.tree == tree && this.cacheMatch == cacheMatch && this.minCount == minCount
      ensures prefix == [] && scratch == [] && result == map[] && calls == 0 && asked == {}
    {
      this.tree, this.cacheMatch, this.minCount := tree, cacheMatch, minCount;
      prefix, scratch, result, calls, asked := [], [], map[], 0, {};
    }

    /** Give every request at or below `subtree` the same hit; the scratch stack is put back. */
    method AssignSubtree(subtree: NodeId, mainHit: nat)
      requires tree.Valid() && subtree in tree.path
      requires forall r :: r in Sharers(tree.held, tree.path[subtree]) ==>
        Hit(tree.held, cacheMatch, minCount, tree.held[r]) == mainHit
      modifies this`scratch, this`result
      ensures scratch == old(scratch)
      ensures Assigned(old(result), result, Sharers(tree.held, tree.path[subtree]), tree.held, cacheMatch, minCount)
    {
      hide Sound, Consistent, Linked, Slots, Compressed, Tallied, Seated, Radix.Valid, Antichain, Waiting, Assigned,
        Hit, VisitedNodes, Lists, Below, Sharers;
      ghost var nodes, path, held, base := tree.nodes, tree.path, tree.held, scratch;
      Parts(nodes, tree.free, path, held, ROOT);
      LinkedShape(nodes, path);
      ghost var sh := ShapeOf(nodes, path);
      ghost var stack, done: set<Rid> := [subtree], {};
      var size := |scratch|;
      scratch := scratch + [subtree];
      StackOne(sh, subtree);
      HitsNone(result, held, cacheMatch, minCount);
      VisitStarts(nodes, path, held, subtree);
      while |scratch| > size
        invariant scratch == base + stack
        invariant Antichain(sh, stack) && Waiting(sh, stack) <= Below(sh, subtree)
        invariant Assigned(old(result), result, done, held, cacheMatch, minCount)
        invariant VisitedNodes(path, held, subtree, Waiting(sh, stack), done)
        decreases Waiting(sh, stack)
      {
        ghost var k := |stack| - 1;
        var id := scratch[|scratch| - 1];
        scratch := scratch[..|scratch| - 1];
        assert scratch == base + stack[..k] && id == stack[k];
        TopBelow(nodes, path, stack, id, subtree);
        NodeTally(nodes, path, held, id);
        ghost var was := result;
        result := AssignAll(tree.nodes[id].terminators, mainHit, result);
        EndsBelow(path, held, subtree, id);
        HitsAssigned(was, result, EndingAt(held, path[id]), mainHit, held, cacheMatch, minCount);
        HitsMore(old(result), was, result, done, EndingAt(held, path[id]), held, cacheMatch, minCount);
        VisitedStep(path, held, subtree, Waiting(sh, stack), done, id);
        done := done + EndingAt(held, path[id]);
        var kids := tree.ChildList(id);
        scratch := scratch + kids;
        PopPush(sh, ROOT, stack, kids);
        stack := stack[..k] + kids;
      }
      StackEmpty(sh, stack);
      VisitedAll(path, held, subtree, done);
    }

    /** Decide every request at or below `node`, which the cache is known to hold in full. */
    method Walk(node: NodeId, mainHit: nat, established: bool, ghost room: set<NodeId>)
      requires tree.Valid() && Oracle(cacheMatch)
      requires Standing(tree.path, tree.held, cacheMatch, minCount, node, established)
      requires prefix == tree.path[node] && mainHit == |prefix|
      requires room == Deeper(ShapeOf(tree.nodes, tree.path), node)
      requires Fresh(tree.path, asked, node)
      requires calls == |asked| && ROOT !in asked
      modifies this
      ensures prefix == old(prefix) && scratch == old(scratch)
      ensures Assigned(old(result), result, Sharers(tree.held, tree.path[node]), tree.held, cacheMatch, minCount)
      ensures calls == |asked| && ROOT !in asked && NewBelow(tree.path, old(asked), asked, node)
      decreases room, 2
    {
      hide Sound, Consistent, Linked, Slots, Compressed, Tallied, Seated, Radix.Valid, Assigned, Hit, Standing, Lists,
        Oracle, Fresh, NewBelow, AskedFrom, DoneFrom, Left, Sharers;
      ghost var nodes, path, held := tree.nodes, tree.path, tree.held;
      Parts(nodes, tree.free, path, held, ROOT);
      StandingFacts(path, held, cacheMatch, minCount, node, established);
      RootPath(nodes, path);
      NodeTally(nodes, path, held, node);
      EndsHit(path, held, cacheMatch, minCount, node, established);
      result := AssignAll(tree.nodes[node].terminators, mainHit, result);
      HitsAssigned(old(result), result, EndingAt(held, path[node]), mainHit, held, cacheMatch, minCount);
      var kids := tree.ChildList(node);
      var size := |scratch|;
      scratch := scratch + kids;
      ghost var done := EndingAt(held, path[node]);
      DoneNone(path, held, node, kids);
      FreshFrom(path, asked, node, kids);
      ghost var i: int := |kids|;
      AllLeft(old(scratch), kids, scratch);
      while |scratch| > size
        invariant i >= 0 && Left(old(scratch), kids, i, scratch) && prefix == path[node]
        invariant done == DoneFrom(path, held, node, kids, i)
        invariant Assigned(old(result), result, done, held, cacheMatch, minCount)
        invariant calls == |asked| && ROOT !in asked && NewBelow(path, old(asked), asked, node)
        invariant AskedFrom(path, asked, node, kids, i)
        decreases i
      {
        i := i - 1;
        PopLeft(old(scratch), kids, i, scratch);
        var child := scratch[|scratch| - 1];
        scratch := scratch[..|scratch| - 1];
        KidFacts(nodes, path, node, kids, i);
        DoneStep(path, held, node, kids, i);
        ghost var was, askedWas := result, asked;
        WalkKid(node, child, mainHit, established, kids, i, room);
        NewBelowMore(path, old(asked), askedWas, asked, node, child);
        HitsMore(old(result), was, result, done, Sharers(held, path[child]), held, cacheMatch, minCount);
        done := done + Sharers(held, path[child]);
      }
      NoneLeft(old(scratch), kids, i, scratch);
      DoneAll(nodes, path, held, node, kids);
    }

    /** Decide everybody at or below `child`, without asking if too few share it to be worth it. */
    method WalkKid(ghost node: NodeId, child: NodeId, mainHit: nat, established: bool, ghost kids: seq<NodeId>,
                   ghost i: nat, ghost room: set<NodeId>)
      requires tree.Valid() && Oracle(cacheMatch)
      requires Standing(tree.path, tree.held, cacheMatch, minCount, node, established)
      requires Lists(kids, tree.nodes[node].children) && i < |kids| && kids[i] == child && child in tree.path
      requires prefix == tree.path[node] && mainHit == |prefix|
      requires room == Deeper(ShapeOf(tree.nodes, tree.path), node)
      requires AskedFrom(tree.path, asked, node, kids, i + 1)
      requires calls == |asked| && ROOT !in asked
      modifies this
      ensures prefix == old(prefix) && scratch == old(scratch)
      ensures Assigned(old(result), result, Sharers(tree.held, tree.path[child]), tree.held, cacheMatch, minCount)
      ensures calls == |asked| && ROOT !in asked && NewBelow(tree.path, old(asked), asked, child)
      ensures AskedFrom(tree.path, asked, node, kids, i)
      decreases room, 1
    {
      hide Sound, Consistent, Linked, Slots, Compressed, Tallied, Seated, Radix.Valid, Assigned, Hit, Standing, Lists,
        Oracle, AskedFrom, Sharers;
      ghost var nodes, path, held := tree.nodes, tree.path, tree.held;
      Parts(nodes, tree.free, path, held, ROOT);
      StandingFacts(path, held, cacheMatch, minCount, node, established);
      KidFacts(nodes, path, node, kids, i);
      if established && tree.nodes[child].pendingCount < minCount {
        SkipHits(nodes, tree.free, path, held, cacheMatch, minCount, node, kids, i);
        AssignSubtree(child, mainHit);
        AskedWiden(path, asked, node, kids, i);
      } else {
        Ask(node, child, established, kids, i, room);
      }
    }

    /** Ask the cache about the path to `child` and decide everybody at or below it. */
    method Ask(ghost node: NodeId, child: NodeId, ghost established: bool, ghost kids: seq<NodeId>, ghost i: nat,
               ghost room: set<NodeId>)
      requires tree.Valid() && Oracle(cacheMatch)
      requires Standing(tree.path, tree.held, cacheMatch, minCount, node, established)
      requires Lists(kids, tree.nodes[node].children) && i < |kids| && kids[i] == child && child in tree.path
      requires !established || tree.nodes[child].pendingCount >= minCount
      requires prefix == tree.path[node]
      requires room == Deeper(ShapeOf(tree.nodes, tree.path), node)
      requires AskedFrom(tree.path, asked, node, kids, i + 1)
      requires calls == |asked| && ROOT !in asked
      modifies this
      ensures prefix == old(prefix) && scratch == old(scratch)
      ensures Assigned(old(result), result, Sharers(tree.held, tree.path[child]), tree.held, cacheMatch, minCount)
      ensures calls == |asked| && ROOT !in asked && NewBelow(tree.path, old(asked), asked, child)
      ensures AskedFrom(tree.path, asked, node, kids, i)
      decreases room, 0
    {
      hide Sound, Consistent, Linked, Slots, Compressed, Tallied, Seated, Radix.Valid, Assigned, Hit, Standing, Lists,
        Oracle, Fresh, NewBelow, AskedFrom;
      ghost var nodes, path, held := tree.nodes, tree.path, tree.held;
      Parts(nodes, tree.free, path, held, ROOT);
      StandingFacts(path, held, cacheMatch, minCount, node, established);
      KidFacts(nodes, path, node, kids, i);
      AskedHits(nodes, tree.free, path, held, cacheMatch, minCount, node, established, kids, i);
      DeeperShrinks(ShapeOf(nodes, path), node, child);
      NotAskedYet(nodes, path, asked, node, kids, i);
      var edgeLen := |tree.nodes[child].edge|;
      prefix := prefix + tree.nodes[child].edge;
      var depth := |prefix|;
      asked := asked + {child};
      calls := calls + 1;
      var matchLen := cacheMatch(prefix);
      if matchLen >= depth {
        Walk(child, depth, true, Deeper(ShapeOf(nodes, path), child));
      } else {
        AssignSubtree(child, matchLen);
        FreshFrom(path, asked, child, []);
      }
      AskedStep(path, old(asked), asked, node, kids, i);
      prefix := prefix[..|prefix| - edgeLen];
    }
  }

  /** Every pending request with its main hit, at the price of at most one cache query per edge
      of the tree. */
  method ComputeMainHits(tree: Tree, cacheMatch: CacheMatch, minCount: nat) returns (result: map<Rid, nat>, calls: nat)
    requires tree.Valid() && Oracle(cacheMatch)
    ensures result.Keys == tree.held.Keys
    ensures forall r :: r in tree.held ==> result[r] == Hit(tree.held, cacheMatch, minCount, tree.held[r])
    ensures calls < |tree.path|
  {
    hide Sound, Consistent, Linked, Slots, Compressed, Tallied, Seated, Radix.Valid, Hit;
    Parts(tree.nodes, tree.free, tree.path, tree.held, ROOT);
    RootPath(tree.nodes, tree.path);
    var walk := new DualWalk(tree, cacheMatch, minCount);
    walk.Walk(ROOT, 0, false, Deeper(ShapeOf(tree.nodes, tree.path), ROOT));
    assert Sharers(tree.held, []) == tree.held.Keys;
    SubsetCard(walk.asked + {ROOT}, tree.path.Keys);
    return walk.result, walk.calls;
  }
}
