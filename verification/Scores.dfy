/** The per-request score of src/pending.rs, as an explicit-stack walk of the pending tree. */
module Scores {
  import opened Prelude
  import opened Demands
  import opened Sharing
  import opened Radix
  import opened Frontier
  import opened Arena
  import opened ArenaFacts
  import opened PendingRadix

  /** Along one edge the prefix demands add up to count times length. */
  lemma {:induction false} EdgeScore(nodes: seq<Node>, path: Paths, held: Pending, c: NodeId, k: nat)
    requires Linked(nodes, path) && Tallied(nodes, path, held) && Seated(path, held)
    requires c in path && c != ROOT && EdgeFits(nodes, path, c) && k <= |nodes[c].edge|
    ensures path[c][..|path[nodes[c].parent]| + k] <= path[c]
    ensures PrefixDemand(held, path[c][..|path[nodes[c].parent]| + k])
      == PrefixDemand(held, path[nodes[c].parent]) + nodes[c].pendingCount * k
    decreases k
  {
    var at := |path[nodes[c].parent]|;
    var p := path[c][..at + k];
    if k == 0 {
      assert p == path[nodes[c].parent];
    } else {
      EdgeScore(nodes, path, held, c, k - 1);
      assert p[..|p| - 1] == path[c][..at + k - 1];
      EdgeDemand(nodes, path, held, c, path[c], at, at + k);
    }
  }

  /** The requests that end at `p` have been given their score. */
  ghost predicate Scored(held: Pending, result: map<Rid, nat>, p: seq<Token>) {
    forall r :: r in held && held[r] == p ==> r in result && result[r] == PrefixDemand(held, p)
  }

  ghost predicate ScoredOutside(path: Paths, held: Pending, result: map<Rid, nat>, waiting: set<NodeId>) {
    forall x {:trigger Scored(held, result, path[x])} :: x in path && x !in waiting ==> Scored(held, result, path[x])
  }

  /** A stack entry carries the prefix demand of its node. */
  ghost predicate Priced(path: Paths, held: Pending, e: (NodeId, nat)) {
    e.0 in path && e.1 == PrefixDemand(held, path[e.0])
  }

  ghost predicate AllPriced(path: Paths, held: Pending, stack: seq<(NodeId, nat)>) {
    forall i {:trigger stack[i]} :: 0 <= i < |stack| ==> Priced(path, held, stack[i])
  }

  ghost function Ids(stack: seq<(NodeId, nat)>): (ids: seq<NodeId>)
    ensures |ids| == |stack| && forall i :: 0 <= i < |ids| ==> ids[i] == stack[i].0
  {
    seq(|stack|, i requires 0 <= i < |stack| => stack[i].0)
  }

  /** Give every request in `rids` the same value. */
  method AssignAll(rids: set<Rid>, value: nat, result: map<Rid, nat>) returns (after: map<Rid, nat>)
    ensures after.Keys == result.Keys + rids
    ensures forall r :: r in after ==> after[r] == if r in rids then value else result[r]
  {
    after := result;
    var todo := rids;
    while todo != {}
      invariant todo <= rids && after.Keys == result.Keys + (rids - todo)
      invariant forall r :: r in after ==> after[r] == if r in rids - todo then value else result[r]
      decreases todo
    {
      var r :| r in todo;
      after := after[r := value];
      todo := todo - {r};
    }
  }

  lemma ScoredStep(path: Paths, held: Pending, was: map<Rid, nat>, result: map<Rid, nat>,
                   n: NodeId, terminators: set<Rid>, score: nat, before: set<NodeId>)
    requires ScoredOutside(path, held, was, before)
    requires Priced(path, held, (n, score)) && terminators == EndingAt(held, path[n])
    requires result.Keys == was.Keys + terminators
    requires forall r :: r in result ==> result[r] == if r in terminators then score else was[r]
    ensures ScoredOutside(path, held, result, before - {n})
  {
    forall x | x in path && x !in before - {n}
      ensures Scored(held, result, path[x])
    {
      assert x != n ==> Scored(held, was, path[x]);
      assert forall r :: r in held && held[r] == path[n] ==> r in terminators;
    }
  }

  lemma ScoredAll(path: Paths, held: Pending, result: map<Rid, nat>)
    requires Seated(path, held) && ScoredOutside(path, held, result, {})
    ensures forall r :: r in held ==> r in result && result[r] == PrefixDemand(held, held[r])
  {
    forall r | r in held
      ensures r in result && result[r] == PrefixDemand(held, held[r])
    {
      assert SeatedAt(path, held[r]);
      var n :| n in path && path[n] == held[r];
      assert Scored(held, result, path[n]);
    }
  }

  /** Push the children with the score of their parent plus count times edge length. */
  method PushChildren(tree: Tree, n: NodeId, score: nat, stack: seq<(NodeId, nat)>)
    returns (after: seq<(NodeId, nat)>, ghost kids: seq<NodeId>)
    requires tree.Valid() && Priced(tree.path, tree.held, (n, score)) && AllPriced(tree.path, tree.held, stack)
    ensures n < |tree.nodes| && Lists(kids, tree.nodes[n].children) && Ids(after) == Ids(stack) + kids
    ensures AllPriced(tree.path, tree.held, after)
  {
    hide Sound, Consistent, Linked, Slots, Compressed, Tallied, Seated, PrefixDemand;
    Parts(tree.nodes, tree.free, tree.path, tree.held, ROOT);
    var list := tree.ChildList(n);
    kids := list;
    after := stack;
    var i := 0;
    while i < |list|
      invariant i <= |list| && Ids(after) == Ids(stack) + list[..i]
      invariant AllPriced(tree.path, tree.held, after)
    {
      var c := list[i];
      assert IsKid(tree.nodes[n].children, c);
      ghost var t :| t in tree.nodes[n].children && tree.nodes[n].children[t] == c;
      LinkedKid(tree.nodes, tree.path, n, t);
      LinkedParent(tree.nodes, tree.path, c);
      ghost var k := |tree.nodes[c].edge|;
      EdgeScore(tree.nodes, tree.path, tree.held, c, k);
      assert tree.path[c][..|tree.path[n]| + k] == tree.path[c];
      ghost var was := after;
      after := after + [(c, score + tree.nodes[c].pendingCount * |tree.nodes[c].edge|)];
      assert Ids(after) == Ids(was) + [c];
      assert list[..i + 1] == list[..i] + [c];
      i := i + 1;
    }
    assert list[..i] == list;
  }

  /** Every pending request with the sum, up its path, of count times edge length: by
      `PrefixDemandIsSum`, the total of its common prefixes with all pending requests. */
  method ComputeReqScores(tree: Tree) returns (result: map<Rid, nat>)
    requires tree.Valid()
    ensures result.Keys == tree.held.Keys
    ensures forall r :: r in tree.held ==> result[r] == SumCommon(tree.held, tree.held.Keys, tree.held[r])
  {
    hide Sound, Consistent, Linked, Slots, Compressed, Tallied, Seated, Radix.Valid, Antichain, Waiting, PrefixDemand,
      ScoredOutside;
    ghost var nodes, path, held := tree.nodes, tree.path, tree.held;
    Parts(nodes, tree.free, path, held, ROOT);
    LinkedShape(nodes, path);
    RootPath(nodes, path);
    ghost var sh := ShapeOf(nodes, path);
    result := map[];
    var stack := [(ROOT, 0)];
    assert Ids(stack) == [ROOT];
    StartScores(nodes, path, held);
    while |stack| > 0
      invariant Antichain(sh, Ids(stack)) && AllPriced(path, held, stack)
      invariant result.Keys <= held.Keys
      invariant ScoredOutside(path, held, result, Waiting(sh, Ids(stack)))
      decreases Waiting(sh, Ids(stack))
    {
      var (id, score) := stack[|stack| - 1];
      ghost var ids := Ids(stack);
      assert Priced(path, held, stack[|stack| - 1]);
      NodeTally(nodes, path, held, id);
      ghost var was := result;
      result := AssignAll(tree.nodes[id].terminators, score, result);
      ScoredStep(path, held, was, result, id, nodes[id].terminators, score, Waiting(sh, ids));
      var rest := stack[..|stack| - 1];
      ghost var kids;
      stack, kids := PushChildren(tree, id, score, rest);
      assert ids[..|ids| - 1] == Ids(rest);
      PopPush(sh, ROOT, ids, kids);
    }
    StackEmpty(sh, Ids(stack));
    ScoredAll(path, held, result);
    forall r | r in held
      ensures result[r] == SumCommon(held, held.Keys, held[r])
    {
      PrefixDemandIsSum(held, held.Keys, held[r]);
      assert Restrict(held, held.Keys) == held;
    }
  }

  lemma StartScores(nodes: seq<Node>, path: Paths, held: Pending)
    requires Linked(nodes, path)
    ensures Antichain(ShapeOf(nodes, path), [ROOT])
    ensures ScoredOutside(path, held, map[], Waiting(ShapeOf(nodes, path), [ROOT]))
    ensures AllPriced(path, held, [(ROOT, 0)])
  {
    hide Linked, Antichain, Waiting;
    RootPath(nodes, path);
    var sh := ShapeOf(nodes, path);
    StackOne(sh, ROOT);
    forall x | x in path
      ensures x in Below(sh, ROOT)
    {
    }
  }
}
