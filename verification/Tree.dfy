/**
 src/tree.rs: the arena-backed radix tree of pending requests, updated in place.
 `held` is the abstract pending map and `path` the root path of every live slot; both are
 ghost.  `Valid` says that the arena is exactly the canonical tree of `held`.
 */
module PendingRadix {
  import opened Prelude
  import opened Demands
  import opened Sharing
  import opened Radix
  import opened Frontier
  import opened Arena
  import opened ArenaEdits
  import opened ArenaFacts

  datatype Descent = Descent(endNode: NodeId, endOffset: nat, consumed: nat)

  /** Where a descent stops: the deepest position whose tokens agree with the query. */
  ghost predicate Descended(nodes: seq<Node>, path: Paths, tokens: seq<Token>, d: Descent) {
    && d.endNode in path && d.endNode < |nodes| && d.consumed <= |tokens|
    && d.endOffset <= |nodes[d.endNode].edge|
    && d.consumed + |nodes[d.endNode].edge| == |path[d.endNode]| + d.endOffset
    && tokens[..d.consumed] <= path[d.endNode]
    && (d.endNode != ROOT ==> d.endOffset > 0)
    && (d.consumed == |tokens|
        || (d.endOffset < |nodes[d.endNode].edge| && path[d.endNode][d.consumed] != tokens[d.consumed])
        || (d.endOffset == |nodes[d.endNode].edge| && tokens[d.consumed] !in nodes[d.endNode].children))
  }

  class Tree {
    var nodes: seq<Node>
    var free: seq<NodeId>
    ghost var path: Paths
    ghost var held: Pending

    ghost predicate Valid()
      reads this
    {
      Sound(nodes, free, path, held, ROOT)
    }

    constructor ()
      ensures Valid() && held == map[] && path == map[ROOT := []]
    {
      nodes := [NewNode([], ROOT)];
      free := [];
      path := map[ROOT := []];
      held := map[];
    }

    method Alloc(edge: seq<Token>, parent: NodeId) returns (id: NodeId)
      requires Slots(|nodes|, free, path.Keys) && InRange(nodes, path)
      modifies this`nodes, this`free
      ensures id !in path && id < |nodes| && nodes[id] == NewNode(edge, parent)
      ensures |old(nodes)| <= |nodes| && forall n :: n in path ==> nodes[n] == old(nodes)[n]
      ensures Slots(|nodes|, free, path.Keys + {id})
    {
      if |free| > 0 {
        SlotsPop(|nodes|, free, path.Keys);
        id := free[|free| - 1];
        free := free[..|free| - 1];
        nodes := nodes[id := NewNode(edge, parent)];
      } else {
        SlotsGrow(|nodes|, free, path.Keys);
        id := |nodes|;
        nodes := nodes + [NewNode(edge, parent)];
      }
    }

    method Free(id: NodeId, ghost live: set<NodeId>)
      requires id != ROOT && id < |nodes| && id !in live
      requires Slots(|nodes|, free, live + {id})
      modifies this`nodes, this`free
      ensures nodes == old(nodes)[id := NewNode([], ROOT)]
      ensures Slots(|nodes|, free, live) && free == old(free) + [id]
    {
      nodes := nodes[id := NewNode([], ROOT)];
      SlotsFree(|nodes|, free, live, id);
      free := free + [id];
    }

    /** Point every child in the table at `parent`. */
    method Reparent(children: map<Token, NodeId>, parent: NodeId)
      requires forall t :: t in children ==> children[t] < |nodes|
      modifies this`nodes
      ensures |nodes| == |old(nodes)|
      ensures forall n :: 0 <= n < |nodes| ==>
        nodes[n] == if n in children.Values then old(nodes)[n].(parent := parent) else old(nodes)[n]
    {
      var todo := children.Values;
      while todo != {}
        invariant todo <= children.Values && |nodes| == |old(nodes)|
        invariant forall n :: 0 <= n < |nodes| ==>
          nodes[n] == if n in children.Values - todo then old(nodes)[n].(parent := parent) else old(nodes)[n]
        decreases todo
      {
        var g :| g in todo;
        nodes := nodes[g := nodes[g].(parent := parent)];
        todo := todo - {g};
      }
    }

    /** Split the edge into `node`: `node` keeps the upper half, slot `lower` takes the
        rest.  `path` is left to the caller. */
    method SplitEdge(node: NodeId, offset: nat) returns (ghost lower: NodeId)
      requires Linked(nodes, path) && Slots(|nodes|, free, path.Keys)
      requires node in path && node != ROOT && 0 < offset < |nodes[node].edge|
      requires EdgeFits(nodes, path, node)
      modifies this`nodes, this`free
      ensures lower !in path && SplitStep(old(nodes), nodes, path, node, offset, lower)
      ensures Slots(|nodes|, free, path.Keys + {lower})
    {
      ghost var a := nodes;
      KidsByParent(a, path, node);
      var lowerEdge := nodes[node].edge[offset..];
      var children := nodes[node].children;
      var terminators := nodes[node].terminators;
      var pendingCount := nodes[node].pendingCount;
      nodes := nodes[node := nodes[node].(edge := nodes[node].edge[..offset], children := map[], terminators := {})];
      var id := Alloc(lowerEdge, node);
      Reparent(children, id);
      nodes := nodes[id := nodes[id].(children := children, terminators := terminators, pendingCount := pendingCount)];
      nodes := nodes[node := nodes[node].(children := nodes[node].children[lowerEdge[0] := id])];
      lower := id;
    }

    /** Walk as deep as the tokens lead. */
    method Descend(tokens: seq<Token>) returns (d: Descent)
      requires Linked(nodes, path)
      ensures Descended(nodes, path, tokens, d)
    {
      var node, consumed := ROOT, 0;
      while true
        invariant node in path && consumed <= |tokens| && path[node] == tokens[..consumed]
        invariant node != ROOT ==> |nodes[node].edge| > 0
        decreases |tokens| - consumed
      {
        if consumed == |tokens| || tokens[consumed] !in nodes[node].children {
          return Descent(node, |nodes[node].edge|, consumed);
        }
        var child := nodes[node].children[tokens[consumed]];
        EdgeStep(nodes, path, tokens, node, consumed);
        var common := CommonPrefix(nodes[child].edge, tokens[consumed..]);
        consumed := consumed + common;
        if common < |nodes[child].edge| {
          return Descent(child, common, consumed);
        }
        node := child;
      }
    }

    /** The node whose root path is `tokens`, made if need be by a split, a new leaf or both. */
    method Reach(tokens: seq<Token>) returns (t: NodeId)
      requires Valid()
      modifies this`nodes, this`free, this`path
      ensures Sound(nodes, free, path, held, t)
      ensures t in path && path[t] == tokens
    {
      var d := Descend(tokens);
      t := d.endNode;
      if d.endOffset != |nodes[t].edge| {
        Cut(tokens, d);
      }
      if d.consumed < |tokens| {
        t := Grow(t, tokens, d.consumed);
      }
    }

    /** Split the edge a descent stopped inside of, so that a node sits where it stopped. */
    method Cut(tokens: seq<Token>, d: Descent)
      requires Valid() && Descended(nodes, path, tokens, d)
      requires d.endOffset < |nodes[d.endNode].edge|
      modifies this`nodes, this`free, this`path
      ensures Sound(nodes, free, path, held, d.endNode)
      ensures d.endNode in path && path[d.endNode] == tokens[..d.consumed]
      ensures |nodes[d.endNode].children| > 0
      ensures d.consumed < |tokens| ==> tokens[d.consumed] !in nodes[d.endNode].children
    {
      hide Sound, Consistent, Linked, Slots, Compressed;
      Parts(nodes, free, path, held, ROOT);
      var t := d.endNode;
      LinkedParent(nodes, path, t);
      ghost var a, free0, path0 := nodes, free, path;
      ghost var lower := SplitEdge(t, d.endOffset);
      ghost var k := |path0[a[t].parent]| + d.endOffset;
      ghost var path' := SplitPaths(path0, t, k, lower);
      SplitConsistent(a, nodes, free0, free, path0, held, t, d.endOffset, lower);
      assert k == d.consumed && path'[t] == path0[t][..k] == tokens[..k];
      assert a[t].edge[d.endOffset] == path0[t][k];
      path := path';
    }

    /** Hang a new leaf for the rest of `tokens` below `branch`. */
    method Grow(branch: NodeId, tokens: seq<Token>, consumed: nat) returns (t: NodeId)
      requires Sound(nodes, free, path, held, branch) && branch in path
      requires consumed < |tokens| && path[branch] == tokens[..consumed]
      requires tokens[consumed] !in nodes[branch].children
      requires branch == ROOT || Needed(nodes[branch]) || |nodes[branch].children| > 0
      modifies this`nodes, this`free, this`path
      ensures Sound(nodes, free, path, held, t)
      ensures t in path && path[t] == tokens
    {
      hide Sound, Consistent, Linked, Slots, Compressed;
      Parts(nodes, free, path, held, branch);
      ghost var a, free0 := nodes, free;
      var tail := tokens[consumed..];
      t := Alloc(tail, branch);
      nodes := nodes[branch := nodes[branch].(children := nodes[branch].children[tail[0] := t])];
      LeafConsistent(a, nodes, free0, free, path, held, branch, tokens, t);
      path := path[t := tokens];
    }

    /** Enter a request that is not yet pending. */
    method Insert(rid: Rid, tokens: seq<Token>)
      requires Valid() && rid !in held
      modifies this
      ensures Valid() && held == old(held)[rid := tokens]
    {
      hide Sound, Consistent, Linked, Slots, Compressed;
      var terminator := Reach(tokens);
      Parts(nodes, free, path, held, terminator);
      ghost var a := nodes;
      nodes := nodes[terminator := nodes[terminator].(terminators := nodes[terminator].terminators + {rid})];
      SameShape(a, nodes, path);
      CountIn(terminator, tokens);
      EnterStepHolds(a, nodes, path, rid, tokens, terminator);
      EnterConsistent(a, nodes, free, path, held, rid, tokens, terminator);
      held := held[rid := tokens];
    }

    /** Add one to the count of every node from `terminator` up to, but not including, ROOT. */
    method CountIn(terminator: NodeId, ghost tokens: seq<Token>)
      requires Linked(nodes, path) && terminator in path && path[terminator] == tokens
      modifies this`nodes
      ensures |nodes| == |old(nodes)|
      ensures forall n {:trigger n in path} :: n in path ==>
        Counted(old(nodes)[n], nodes[n], path, tokens, 0, 1, n)
    {
      var cur := terminator;
      while cur != ROOT
        invariant cur in path && path[cur] <= tokens && |nodes| == |old(nodes)|
        invariant Linked(nodes, path)
        invariant forall n {:trigger n in path} :: n in path ==>
          Counted(old(nodes)[n], nodes[n], path, tokens, |path[cur]|, 1, n)
        decreases |path[cur]|
      {
        ghost var a := nodes;
        ChainStep(nodes, path, tokens, cur);
        nodes := nodes[cur := nodes[cur].(pendingCount := nodes[cur].pendingCount + 1)];
        SameShape(a, nodes, path);
        cur := nodes[cur].parent;
      }
    }

    /** Take `rid` out if it is pending with exactly these tokens, then compress again. */
    method Remove(rid: Rid, tokens: seq<Token>) returns (found: bool)
      requires Valid()
      modifies this
      ensures Valid()
      ensures found <==> rid in old(held) && old(held)[rid] == tokens
      ensures held == if found then old(held) - {rid} else old(held)
      ensures !found ==> nodes == old(nodes) && free == old(free)
    {
      hide Sound, Consistent, Linked, Slots, Compressed, Descended;
      Parts(nodes, free, path, held, ROOT);
      var d := Descend(tokens);
      HeldAtDescent(nodes, path, held, tokens, d, rid);
      if d.consumed != |tokens| || d.endOffset != |nodes[d.endNode].edge| {
        return false;
      }
      var terminator := d.endNode;
      if rid !in nodes[terminator].terminators {
        return false;
      }
      ghost var a := nodes;
      SoundSkip(a, free, path, held, terminator);
      nodes := nodes[terminator := nodes[terminator].(terminators := nodes[terminator].terminators - {rid})];
      SameShape(a, nodes, path);
      ChainCounted(a, path, held, rid);
      CountOut(terminator, tokens);
      LeaveStepHolds(a, nodes, path, rid, tokens, terminator);
      LeaveConsistent(a, nodes, free, path, held, rid, terminator);
      held := held - {rid};
      Gc(terminator);
      return true;
    }

    /** Take one off the count of every node from `terminator` up to, but not including, ROOT. */
    method CountOut(terminator: NodeId, ghost tokens: seq<Token>)
      requires Linked(nodes, path) && terminator in path && path[terminator] == tokens
      requires forall n {:trigger n in path} :: n in path && OnChain(path, tokens, 0, n) ==> nodes[n].pendingCount >= 1
      modifies this`nodes
      ensures |nodes| == |old(nodes)|
      ensures forall n {:trigger n in path} :: n in path ==>
        Counted(old(nodes)[n], nodes[n], path, tokens, 0, -1, n)
    {
      var cur := terminator;
      while cur != ROOT
        invariant cur in path && path[cur] <= tokens && |nodes| == |old(nodes)|
        invariant Linked(nodes, path)
        invariant forall n {:trigger n in path} :: n in path ==>
          Counted(old(nodes)[n], nodes[n], path, tokens, |path[cur]|, -1, n)
        decreases |path[cur]|
      {
        ghost var a := nodes;
        ChainStep(nodes, path, tokens, cur);
        nodes := nodes[cur := nodes[cur].(pendingCount := SaturatingSub(nodes[cur].pendingCount, 1))];
        SameShape(a, nodes, path);
        cur := nodes[cur].parent;
      }
    }

    /** Drop dead leaves upward from `start`, or fuse a node left with one child. */
    method Gc(start: NodeId)
      requires Sound(nodes, free, path, held, start) && start in path
      modifies this`nodes, this`free, this`path
      ensures Valid()
    {
      hide Sound, Consistent, Linked, Slots, Compressed;
      var node := start;
      while node != ROOT
        invariant Sound(nodes, free, path, held, node) && node in path
        decreases |path[node]|
      {
        Parts(nodes, free, path, held, node);
        if nodes[node].terminators == {} && nodes[node].children == map[] {
          node := Prune(node);
        } else if nodes[node].terminators == {} && |nodes[node].children| == 1 {
          var _ := FuseChild(node);
          return;
        } else {
          SoundAll(nodes, free, path, held, node);
          return;
        }
      }
    }

    method Prune(node: NodeId) returns (parent: NodeId)
      requires Sound(nodes, free, path, held, node) && node in path
      requires node != ROOT && nodes[node].terminators == {} && nodes[node].children == map[]
      modifies this`nodes, this`free, this`path
      ensures Sound(nodes, free, path, held, parent) && parent in path
      ensures node in old(path) && |path[parent]| < |old(path)[node]|
    {
      hide Sound, Consistent, Linked, Slots, Compressed;
      Parts(nodes, free, path, held, node);
      LinkedParent(nodes, path, node);
      ghost var a, free0 := nodes, free;
      parent := nodes[node].parent;
      var first := nodes[node].edge[0];
      nodes := nodes[parent := nodes[parent].(children := nodes[parent].children - {first})];
      ghost var path' := path - {node};
      assert path'.Keys + {node} == path.Keys;
      Free(node, path'.Keys);
      DropConsistent(a, nodes, free0, free, path, held, node);
      path := path';
    }

    /** Give `node` the edge, children and terminators of its only child. */
    method Absorb(node: NodeId, child: NodeId)
      requires Linked(nodes, path) && node in path && child in path
      requires child != ROOT && node != ROOT && nodes[child].parent == node
      modifies this`nodes
      ensures |nodes| == |old(nodes)| && FuseStep(old(nodes), nodes, path, node, child)
    {
      var childEdge := nodes[child].edge;
      var childChildren := nodes[child].children;
      var childTerms := nodes[child].terminators;
      KidsByParent(nodes, path, child);
      LinkedParent(nodes, path, node);
      LinkedParent(nodes, path, child);
      nodes := nodes[node := nodes[node].(edge := nodes[node].edge + childEdge)];
      Reparent(childChildren, node);
      nodes := nodes[node := nodes[node].(children := childChildren, terminators := childTerms)];
    }

    method AbsorbOnly(node: NodeId) returns (child: NodeId, ghost t: Token)
      requires Linked(nodes, path) && node in path && node < |nodes| && node != ROOT && |nodes[node].children| == 1
      modifies this`nodes
      ensures child in path && child != ROOT && child != node && old(nodes)[node].children == map[t := child]
      ensures old(nodes)[node].children.Values == {child}
      ensures |nodes| == |old(nodes)| && child < |nodes| && FuseStep(old(nodes), nodes, path, node, child)
    {
      hide Radix.Valid, EdgeFits, FuseStep;
      var token :| token in nodes[node].children;
      t := token;
      OnlyKid(nodes[node].children, t);
      child := nodes[node].children[token];
      LinkedKid(nodes, path, node, t);
      Absorb(node, child);
    }

    /** Merge `node` with its only child: the edges are joined, the child's table and requests move
        up, its slot is freed, and no other node changes but for the parent of a grandchild. */
    method FuseChild(node: NodeId) returns (child: NodeId)
      requires Sound(nodes, free, path, held, node) && node in path
      requires node != ROOT && nodes[node].terminators == {} && |nodes[node].children| == 1
      modifies this`nodes, this`free, this`path
      ensures Valid() && free == old(free) + [child]
      ensures child in old(path) && old(nodes)[node].children.Values == {child}
      ensures path == (old(path) - {child})[node := old(path)[child]]
      ensures FuseStep(old(nodes), nodes, old(path), node, child)
      ensures nodes[child] == NewNode([], ROOT)
    {
      hide Sound, Consistent, Linked, Slots, Compressed, FuseStep;
      Parts(nodes, free, path, held, node);
      ghost var a, free0 := nodes, free;
      ghost var t;
      child, t := AbsorbOnly(node);
      FuseStepFreed(a, nodes, path, node, child);
      ghost var path' := path - {child};
      assert path'.Keys + {child} == path.Keys;
      Free(child, path'.Keys);
      FuseConsistent(a, nodes, free0, free, path, held, node, t, child);
      path := path'[node := path[child]];
    }

    // ----- queries -----

    /** Length of the longest prefix of `tokens` that at least `threshold` requests start with.
        Every node has a request below it, so threshold zero asks the same as one. */
    method DeepestWithCount(tokens: seq<Token>, threshold: nat) returns (best: nat)
      requires Valid()
      ensures best == Deepest(held, tokens, Max(threshold, 1))
    {
      hide Sound, Consistent, Linked, Slots, Compressed, Tallied, Seated, Deepest;
      Parts(nodes, free, path, held, ROOT);
      ghost var t: nat := Max(threshold, 1);
      var node, consumed := ROOT, 0;
      best := 0;
      RootPath(nodes, path);
      while true
        invariant node in path && best <= consumed <= |tokens| && path[node] == tokens[..consumed]
        invariant best > 0 ==> Demand(held, tokens[..best]) >= t
        invariant forall j :: best < j <= consumed ==> Demand(held, tokens[..j]) < t
        decreases |tokens| - consumed
      {
        if consumed == |tokens| {
          DeepestUnique(held, tokens, t, best);
          return;
        }
        if tokens[consumed] !in nodes[node].children {
          PastNode(nodes, path, held, node, tokens, consumed);
          DeepestUnique(held, tokens, t, best);
          return;
        }
        var child := nodes[node].children[tokens[consumed]];
        EdgeStep(nodes, path, tokens, node, consumed);
        var common := CommonPrefix(nodes[child].edge, tokens[consumed..]);
        LinkedParent(nodes, path, child);
        EdgeDemand(nodes, path, held, child, tokens, consumed, consumed + common);
        NodeCount(nodes, free, path, held, child);
        consumed := consumed + common;
        if nodes[child].pendingCount >= threshold {
          best := consumed;
        }
        if common < |nodes[child].edge| {
          if consumed < |tokens| {
            PastEdge(nodes, path, held, child, tokens, consumed);
          }
          DeepestUnique(held, tokens, t, best);
          return;
        }
        node := child;
      }
    }

    /** Number of requests that start with `p`; ROOT is not counted, so none for `[]`. */
    method PendingDemand(p: seq<Token>) returns (demand: nat)
      requires Valid()
      ensures demand == if p == [] then 0 else Demand(held, p)
    {
      hide Sound, Consistent, Linked, Slots, Compressed, Tallied, Seated;
      Parts(nodes, free, path, held, ROOT);
      var node, consumed := ROOT, 0;
      RootPath(nodes, path);
      while true
        invariant node in path && consumed <= |p| && path[node] == p[..consumed]
        invariant consumed == |p| ==> node == ROOT
        decreases |p| - consumed
      {
        if consumed == |p| {
          NodeTally(nodes, path, held, node);
          return nodes[node].pendingCount;
        }
        if p[consumed] !in nodes[node].children {
          PastNode(nodes, path, held, node, p, consumed);
          assert p[..|p|] == p;
          return 0;
        }
        var child := nodes[node].children[p[consumed]];
        EdgeStep(nodes, path, p, node, consumed);
        var common := CommonPrefix(nodes[child].edge, p[consumed..]);
        LinkedParent(nodes, path, child);
        EdgeDemand(nodes, path, held, child, p, consumed, consumed + common);
        consumed := consumed + common;
        assert p[..|p|] == p;
        if consumed == |p| {
          return nodes[child].pendingCount;
        }
        if common < |nodes[child].edge| {
          PastEdge(nodes, path, held, child, p, consumed);
          return 0;
        }
        node := child;
      }
    }

    /** Number of requests that end exactly at `p`. */
    method TerminatorsAt(p: seq<Token>) returns (count: nat)
      requires Valid()
      ensures count == |EndingAt(held, p)|
    {
      hide Sound, Consistent, Linked, Slots, Compressed, Tallied, Seated, Descended;
      Parts(nodes, free, path, held, ROOT);
      var d := Descend(p);
      EndingAtDescent(nodes, path, held, p, d);
      if d.consumed != |p| || d.endOffset != |nodes[d.endNode].edge| {
        return 0;
      }
      return |nodes[d.endNode].terminators|;
    }

    /** Where descending the tokens stops, as a key for the tokens themselves. */
    method PrefixPosition(tokens: seq<Token>) returns (node: NodeId, offset: nat)
      requires Valid()
      ensures exists consumed: nat :: Descended(nodes, path, tokens, Descent(node, offset, consumed))
    {
      Parts(nodes, free, path, held, ROOT);
      var d := Descend(tokens);
      assert d == Descent(d.endNode, d.endOffset, d.consumed);
      return d.endNode, d.endOffset;
    }

    /** Some request at or below `node`, if there is one. */
    method SampleTerminator(node: NodeId) returns (rid: Option<Rid>)
      requires Valid() && node in path
      ensures rid.Some? <==> Demand(held, path[node]) >= 1
      ensures rid.Some? ==> rid.value in held && path[node] <= held[rid.value]
    {
      hide Sound, Consistent, Linked, Slots, Compressed, Tallied, Seated, Radix.Valid, Antichain, Waiting;
      Parts(nodes, free, path, held, ROOT);
      ghost var sh := ShapeOf(nodes, path);
      LinkedShape(nodes, path);
      var stack := [node];
      StackOne(sh, node);
      while |stack| > 0
        invariant Antichain(sh, stack) && Waiting(sh, stack) <= Below(sh, node)
        invariant forall x {:trigger x in path} ::
          x in Below(sh, node) && x !in Waiting(sh, stack) ==> nodes[x].terminators == {}
        decreases Waiting(sh, stack)
      {
        var id, rest := stack[|stack| - 1], stack[..|stack| - 1];
        StackNode(sh, stack, |stack| - 1);
        if nodes[id].terminators != {} {
          var r :| r in nodes[id].terminators;
          assert id in Waiting(sh, stack) by { StackTop(sh, stack); }
          NodeTally(nodes, path, held, id);
          DemandWitness(held, path[node], r);
          return Some(r);
        }
        var kids := ChildList(id);
        PopPush(sh, ROOT, stack, kids);
        stack := rest + kids;
      }
      StackEmpty(sh, stack);
      NobodyBelow(nodes, path, held, node);
      return None;
    }

    /** The children of a node, each once, in some order. */
    lemma RootHas()
      requires Valid()
      ensures Linked(nodes, path) && ROOT in path && ROOT < |nodes|
    {
      hide Sound, Consistent, Linked;
      Parts(nodes, free, path, held, ROOT);
      RootPath(nodes, path);
    }

    method ChildList(n: NodeId) returns (kids: seq<NodeId>)
      requires Linked(nodes, path) && n in path
      ensures Lists(kids, nodes[n].children)
    {
      KidsInjective(nodes, path, n);
      kids := ListKids(nodes[n].children);
    }

    /** The farthest the tokens can be followed, and a request that goes with them that far. */
    method LongestMatchAlong(tokens: seq<Token>) returns (depth: nat, rid: Option<Rid>)
      requires Valid()
      ensures depth == Deepest(held, tokens, 1)
      ensures rid.Some? <==> depth > 0
      ensures rid.Some? ==> rid.value in held && CommonPrefix(tokens, held[rid.value]) == depth
    {
      hide Sound, Consistent, Linked, Slots, Compressed, Tallied, Seated, Deepest, Demand, CommonPrefix;
      Parts(nodes, free, path, held, ROOT);
      var node, consumed := ROOT, 0;
      RootPath(nodes, path);
      while consumed < |tokens| && tokens[consumed] in nodes[node].children
        invariant node in path && consumed <= |tokens| && path[node] == tokens[..consumed]
        invariant consumed > 0 ==> node != ROOT && Demand(held, tokens[..consumed]) >= 1
        decreases |tokens| - consumed
      {
        var child := nodes[node].children[tokens[consumed]];
        EdgeStep(nodes, path, tokens, node, consumed);
        var common := CommonPrefix(nodes[child].edge, tokens[consumed..]);
        NodeCount(nodes, free, path, held, child);
        consumed := consumed + common;
        DemandAntitone(held, tokens[..consumed], path[child]);
        if common < |nodes[child].edge| {
          if consumed < |tokens| {
            PastEdge(nodes, path, held, child, tokens, consumed);
          }
          rid := SampleTerminator(child);
          DeepestUnique(held, tokens, 1, consumed);
          WitnessesDepth(held, tokens, consumed, path[child], rid.value);
          return consumed, rid;
        }
        node := child;
      }
      if consumed < |tokens| {
        PastNode(nodes, path, held, node, tokens, consumed);
      }
      DeepestUnique(held, tokens, 1, consumed);
      if consumed == 0 {
        return 0, None;
      }
      rid := SampleTerminator(node);
      WitnessesDepth(held, tokens, consumed, path[node], rid.value);
      return consumed, rid;
    }

    /** The deepest node on the path of a pending request that another request shares, with its
        depth and the number of requests through it. */
    method ClusterInfo(rid: Rid, tokens: seq<Token>) returns (info: Option<(NodeId, nat, nat)>)
      requires Valid()
      ensures info.Some? <==> rid in held && held[rid] == tokens && Deepest(held, tokens, 2) > 0
      ensures info.Some? ==>
        && var (node, depth, size) := info.value;
        && depth == Deepest(held, tokens, 2) && size == Demand(held, tokens[..depth])
        && node in path && path[node] == tokens[..depth]
    {
      hide Sound, Consistent, Linked, Slots, Compressed, Tallied, Seated, Descended, Deepest;
      Parts(nodes, free, path, held, ROOT);
      var d := Descend(tokens);
      HeldAtDescent(nodes, path, held, tokens, d, rid);
      if d.consumed != |tokens| || d.endOffset != |nodes[d.endNode].edge| || rid !in nodes[d.endNode].terminators {
        return None;
      }
      var cur, depth := d.endNode, |tokens|;
      RootPath(nodes, path);
      while cur != ROOT
        invariant cur in path && 0 <= depth <= |tokens| && path[cur] == tokens[..depth]
        invariant forall j :: depth < j <= |tokens| ==> Demand(held, tokens[..j]) < 2
        decreases depth
      {
        LinkedParent(nodes, path, cur);
        NodeTally(nodes, path, held, cur);
        if nodes[cur].pendingCount >= 2 {
          DeepestUnique(held, tokens, 2, depth);
          return Some((cur, depth, nodes[cur].pendingCount));
        }
        ghost var above := |path[nodes[cur].parent]|;
        EdgeDemand(nodes, path, held, cur, tokens, above, depth);
        depth := depth - |nodes[cur].edge|;
        cur := nodes[cur].parent;
      }
      DeepestUnique(held, tokens, 2, 0);
      return None;
    }
  }

  /** No other node reaches farther along the tokens than a descent does. */
  lemma DescentFarthest(nodes: seq<Node>, path: Paths, tokens: seq<Token>, d: Descent, h: NodeId, k: nat)
    requires Linked(nodes, path) && Descended(nodes, path, tokens, d)
    requires h in path && k <= |tokens| && tokens[..k] <= path[h]
    ensures k <= d.consumed
  {
    var sh, c := ShapeOf(nodes, path), d.consumed;
    if k > c {
      var p := tokens[..k];
      assert p[..c] == tokens[..c] && p[c] == tokens[c];
      if d.endOffset < |nodes[d.endNode].edge| {
        LinkedParent(nodes, path, d.endNode);
        LeavesOnEdge(sh, ROOT, d.endNode, c, p, h);
      } else {
        assert sh[d.endNode].kids == nodes[d.endNode].children;
        LeavesAtNode(sh, ROOT, d.endNode, p, h);
      }
    }
  }

  /** A descent along the path of a node ends at that node. */
  lemma DescentMeets(nodes: seq<Node>, path: Paths, tokens: seq<Token>, d: Descent, n: NodeId)
    requires Linked(nodes, path) && Descended(nodes, path, tokens, d)
    requires n in path && path[n] == tokens
    ensures d == Descent(n, |nodes[n].edge|, |tokens|)
  {
    var sh := ShapeOf(nodes, path);
    assert tokens[..|tokens|] == tokens;
    DescentFarthest(nodes, path, tokens, d, n, |tokens|);
    if d.endOffset < |nodes[d.endNode].edge| {
      LinkedParent(nodes, path, d.endNode);
      OnEdgeBelow(sh, ROOT, d.endNode, tokens, n);
    } else {
      SamePath(sh, ROOT, d.endNode, n);
    }
  }

  /** A request is pending with these tokens exactly when the descent ends on its node. */
  lemma HeldAtDescent(nodes: seq<Node>, path: Paths, held: Pending, tokens: seq<Token>, d: Descent, rid: Rid)
    requires Linked(nodes, path) && Tallied(nodes, path, held) && Seated(path, held)
    requires Descended(nodes, path, tokens, d)
    ensures d.endNode in path && d.endNode < |nodes|
    ensures rid in held && held[rid] == tokens <==>
      d.consumed == |tokens| && d.endOffset == |nodes[d.endNode].edge| && rid in nodes[d.endNode].terminators
    ensures d.consumed == |tokens| && d.endOffset == |nodes[d.endNode].edge| ==> path[d.endNode] == tokens
  {
    assert tokens[..|tokens|] == tokens;
    assert TalliedAt(nodes, path, held, d.endNode);
    if rid in held && held[rid] == tokens {
      assert SeatedAt(path, held[rid]);
      var n :| n in path && path[n] == tokens;
      DescentMeets(nodes, path, tokens, d, n);
    }
  }

  /** Without a node at `tokens` nobody ends there. */
  lemma EndingAtDescent(nodes: seq<Node>, path: Paths, held: Pending, tokens: seq<Token>, d: Descent)
    requires Linked(nodes, path) && Tallied(nodes, path, held) && Seated(path, held)
    requires Descended(nodes, path, tokens, d)
    ensures d.endNode in path && d.endNode < |nodes|
    ensures EndingAt(held, tokens) ==
      if d.consumed == |tokens| && d.endOffset == |nodes[d.endNode].edge| then nodes[d.endNode].terminators else {}
  {
    forall r
      ensures r in EndingAt(held, tokens) <==>
        d.consumed == |tokens| && d.endOffset == |nodes[d.endNode].edge| && r in nodes[d.endNode].terminators
    {
      HeldAtDescent(nodes, path, held, tokens, d, r);
    }
  }

  lemma RootPath(nodes: seq<Node>, path: Paths)
    requires Linked(nodes, path)
    ensures ROOT in path && path[ROOT] == [] && ROOT < |nodes| && nodes[ROOT].edge == []
    ensures InRange(nodes, path)
  {
    assert ShapeOf(nodes, path)[ROOT].path == [];
  }

  lemma NodeTally(nodes: seq<Node>, path: Paths, held: Pending, n: NodeId)
    requires InRange(nodes, path) && Tallied(nodes, path, held) && n in path
    ensures TalliedAt(nodes, path, held, n)
  {
  }

  lemma NodeCount(nodes: seq<Node>, free: seq<NodeId>, path: Paths, held: Pending, n: NodeId)
    requires Sound(nodes, free, path, held, ROOT) && n in path && n != ROOT
    ensures n < |nodes| && nodes[n].pendingCount == Demand(held, path[n]) >= 1
  {
    assert TalliedAt(nodes, path, held, n);
    Populated(nodes, free, path, held, n);
  }

  /** Two prefixes of pending sequences share a position exactly when they are equal. */
  lemma PositionInjective(nodes: seq<Node>, path: Paths, held: Pending, r: Rid, s: Rid,
                          i: nat, j: nat, node: NodeId, offset: nat, c: nat, d: nat)
    requires Linked(nodes, path) && Seated(path, held) && r in held && s in held
    requires i <= |held[r]| && Descended(nodes, path, held[r][..i], Descent(node, offset, c))
    requires j <= |held[s]| && Descended(nodes, path, held[s][..j], Descent(node, offset, d))
    ensures held[r][..i] == held[s][..j]
  {
    assert SeatedAt(path, held[r]) && SeatedAt(path, held[s]);
    var a :| a in path && path[a] == held[r];
    var b :| b in path && path[b] == held[s];
    assert held[r][..i][..i] == held[r][..i] && held[s][..j][..j] == held[s][..j];
    DescentFarthest(nodes, path, held[r][..i], Descent(node, offset, c), a, i);
    DescentFarthest(nodes, path, held[s][..j], Descent(node, offset, d), b, j);
  }

  /** Equal sequences share a position: the descent is determined by its tokens. */
  lemma DescentUnique(nodes: seq<Node>, path: Paths, tokens: seq<Token>, d: Descent, e: Descent)
    requires Linked(nodes, path)
    requires Descended(nodes, path, tokens, d) && Descended(nodes, path, tokens, e)
    ensures d == e
  {
    var sh := ShapeOf(nodes, path);
    DescentFarthest(nodes, path, tokens, d, e.endNode, e.consumed);
    DescentFarthest(nodes, path, tokens, e, d.endNode, d.consumed);
    var p := tokens[..d.consumed];
    if d.endNode != ROOT {
      LinkedParent(nodes, path, d.endNode);
    }
    if e.endNode != ROOT {
      LinkedParent(nodes, path, e.endNode);
    }
    RootPath(nodes, path);
    if d.endNode != ROOT && e.endNode != ROOT {
      OnEdgeUnique(sh, ROOT, d.endNode, e.endNode, p);
    }
  }

  lemma LinkedShape(nodes: seq<Node>, path: Paths)
    requires Linked(nodes, path)
    ensures InRange(nodes, path) && Radix.Valid(ShapeOf(nodes, path), ROOT)
  {
  }

  lemma StackOne(sh: Shape<NodeId>, n: NodeId)
    requires n in sh
    ensures Antichain(sh, [n]) && Waiting(sh, [n]) == Below(sh, n)
  {
    WaitingOne(sh, n);
  }

  lemma StackNode(sh: Shape<NodeId>, stack: seq<NodeId>, i: nat)
    requires Antichain(sh, stack) && i < |stack|
    ensures stack[i] in sh
  {
  }

  lemma StackTop(sh: Shape<NodeId>, stack: seq<NodeId>)
    requires Antichain(sh, stack) && stack != []
    ensures stack[|stack| - 1] in Waiting(sh, stack)
  {
    assert stack[|stack| - 1] in sh;
  }

  lemma StackEmpty(sh: Shape<NodeId>, stack: seq<NodeId>)
    requires stack == []
    ensures Waiting(sh, stack) == {}
  {
  }

  lemma KidsInjective(nodes: seq<Node>, path: Paths, n: NodeId)
    requires Linked(nodes, path) && n in path
    ensures forall t, u :: t in nodes[n].children && u in nodes[n].children && t != u ==>
      nodes[n].children[t] != nodes[n].children[u]
  {
    forall t, u | t in nodes[n].children && u in nodes[n].children && t != u
      ensures nodes[n].children[t] != nodes[n].children[u]
    {
      LinkedKid(nodes, path, n, t);
      LinkedKid(nodes, path, n, u);
    }
  }

  lemma NobodyBelow(nodes: seq<Node>, path: Paths, held: Pending, n: NodeId)
    requires InRange(nodes, path) && Tallied(nodes, path, held) && Seated(path, held) && n in path
    requires forall x {:trigger x in path} :: x in Below(ShapeOf(nodes, path), n) ==> nodes[x].terminators == {}
    ensures Demand(held, path[n]) == 0
  {
    forall r | r in held
      ensures !(path[n] <= held[r])
    {
      assert SeatedAt(path, held[r]);
      var x :| x in path && path[x] == held[r];
      assert TalliedAt(nodes, path, held, x);
      assert r in EndingAt(held, path[x]);
    }
    DemandZero(held, path[n]);
  }

  lemma WitnessesDepth(held: Pending, tokens: seq<Token>, k: nat, p: seq<Token>, r: Rid)
    requires k == Deepest(held, tokens, 1) && r in held && tokens[..k] <= p && p <= held[r]
    ensures CommonPrefix(tokens, held[r]) == k
  {
    assert tokens[..k] <= held[r];
    PrefixIffCommon(tokens, held[r], k);
    DeepestIsLongestMatch(held, tokens, r);
  }

  lemma OnlyKid(children: map<Token, NodeId>, t: Token)
    requires t in children && |children| == 1
    ensures children == map[t := children[t]]
  {
    assert |children.Keys - {t}| == 0;
    assert forall u :: u in children ==> u !in children.Keys - {t};
  }

  /** The live slots in a child table are those whose parent pointer leads back. */
  lemma KidsByParent(nodes: seq<Node>, path: Paths, n: NodeId)
    requires Linked(nodes, path) && n in path && n != ROOT
    ensures forall t :: t in nodes[n].children ==> nodes[n].children[t] in path
    ensures forall c :: c in path ==> (nodes[c].parent == n <==> c in nodes[n].children.Values)
    ensures n !in nodes[n].children.Values
  {
    var sh := ShapeOf(nodes, path);
    forall t | t in nodes[n].children
      ensures nodes[n].children[t] in path && nodes[nodes[n].children[t]].parent == n
    {
      LinkedKid(nodes, path, n, t);
    }
    forall c | c in path && nodes[c].parent == n
      ensures c in nodes[n].children.Values
    {
      assert c != ROOT;
      LinkedParent(nodes, path, c);
      assert sh[n].kids == nodes[n].children;
    }
    LinkedParent(nodes, path, n);
  }
}
