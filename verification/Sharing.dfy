/**
 The plain specifications that the queries of the pending tree are measured against:
 functions of the pending map alone, with no tree in them.
 */
module Sharing {
  import opened Prelude
  import opened Demands

  /** Length of the longest prefix of `tokens` that at least `t` pending requests start with. */
  ghost function Deepest(m: Pending, tokens: seq<Token>, t: nat): (k: nat)
    ensures k <= |tokens|
    ensures k > 0 ==> Demand(m, tokens[..k]) >= t
    ensures forall j :: k < j <= |tokens| ==> Demand(m, tokens[..j]) < t
  {
    DeepestUpTo(m, tokens, t, |tokens|)
  }

  ghost function DeepestUpTo(m: Pending, tokens: seq<Token>, t: nat, n: nat): (k: nat)
    requires n <= |tokens|
    ensures k <= n
    ensures k > 0 ==> Demand(m, tokens[..k]) >= t
    ensures forall j :: k < j <= n ==> Demand(m, tokens[..j]) < t
  {
    if n == 0 then 0
    else if Demand(m, tokens[..n]) >= t then n
    else DeepestUpTo(m, tokens, t, n - 1)
  }

  /** The three clauses of `Deepest` determine it. */
  lemma DeepestUnique(m: Pending, tokens: seq<Token>, t: nat, k: nat)
    requires k <= |tokens|
    requires k > 0 ==> Demand(m, tokens[..k]) >= t
    requires forall j :: k < j <= |tokens| ==> Demand(m, tokens[..j]) < t
    ensures k == Deepest(m, tokens, t)
  {
  }

  /** With threshold one it is the longest common prefix with any pending request. */
  lemma DeepestIsLongestMatch(m: Pending, tokens: seq<Token>, r: Rid)
    requires r in m
    ensures CommonPrefix(tokens, m[r]) <= Deepest(m, tokens, 1)
  {
    var c := CommonPrefix(tokens, m[r]);
    if c > Deepest(m, tokens, 1) {
      DemandWitness(m, tokens[..c], r);
    }
  }

  lemma DemandHasSharer(m: Pending, p: seq<Token>) returns (r: Rid)
    requires Demand(m, p) >= 1
    ensures r in m && p <= m[r]
  {
    assert Sharers(m, p) != {};
    r :| r in Sharers(m, p);
  }

  /** With threshold two, for a pending request, it is the longest common prefix with another. */
  lemma DeepestIsLongestShared(m: Pending, r: Rid)
    requires r in m
    ensures forall o :: o in m && o != r ==> CommonPrefix(m[r], m[o]) <= Deepest(m, m[r], 2)
    ensures Deepest(m, m[r], 2) > 0 ==>
      exists o :: o in m && o != r && CommonPrefix(m[r], m[o]) == Deepest(m, m[r], 2)
  {
    var d := Deepest(m, m[r], 2);
    forall o | o in m && o != r
      ensures CommonPrefix(m[r], m[o]) <= d
    {
      var c := CommonPrefix(m[r], m[o]);
      SubsetCard({r, o}, Sharers(m, m[r][..c]));
    }
    if d > 0 {
      var s := Sharers(m, m[r][..d]);
      assert r in s;
      assert |s - {r}| >= 1;
      var o :| o in s - {r};
      PrefixIffCommon(m[r], m[o], d);
    }
  }

  /** Sum over every prefix of `p`, shortest first, of its demand. */
  ghost function PrefixDemand(m: Pending, p: seq<Token>): nat {
    if p == [] then 0 else PrefixDemand(m, p[..|p| - 1]) + Demand(m, p)
  }

  /** Sum over the pending requests in `rids` of their common prefix with `tokens`. */
  ghost function SumCommon(m: Pending, rids: set<Rid>, tokens: seq<Token>): nat
    requires rids <= m.Keys
    decreases rids
  {
    if rids == {} then 0
    else
      var r :| r in rids;
      CommonPrefix(tokens, m[r]) + SumCommon(m, rids - {r}, tokens)
  }

  ghost function Restrict(m: Pending, rids: set<Rid>): Pending
    requires rids <= m.Keys
  {
    map r | r in rids :: m[r]
  }

  lemma PrefixDemandEmpty(p: seq<Token>)
    ensures PrefixDemand(map[], p) == 0
  {
    if p != [] {
      PrefixDemandEmpty(p[..|p| - 1]);
      DemandZero(map[], p);
    }
  }

  /** One more pending request adds its common prefix. */
  lemma {:induction false} PrefixDemandAdd(m: Pending, r: Rid, t: seq<Token>, p: seq<Token>)
    requires r !in m
    ensures PrefixDemand(m[r := t], p) == PrefixDemand(m, p) + CommonPrefix(p, t)
    decreases |p|
  {
    if p != [] {
      var k := |p| - 1;
      PrefixDemandAdd(m, r, t, p[..k]);
      DemandAdd(m, r, t, p);
      CommonPrefixLast(p, t);
    }
  }

  lemma CommonPrefixLast(p: seq<Token>, t: seq<Token>)
    requires p != []
    ensures CommonPrefix(p, t) == CommonPrefix(p[..|p| - 1], t) + if p <= t then 1 else 0
  {
    var k := |p| - 1;
    var c, d := CommonPrefix(p, t), CommonPrefix(p[..k], t);
    assert p[..|p|] == p;
    PrefixIffCommon(p, t, |p|);
    assert forall i :: 0 <= i < c ==> p[..c][i] == t[..c][i] == p[i];
    assert forall i :: 0 <= i < d ==> p[..k][..d][i] == t[..d][i] == p[i];
  }

  /** Counting the sharers of every prefix is adding up the common prefixes. */
  lemma {:induction false} PrefixDemandIsSum(m: Pending, rids: set<Rid>, p: seq<Token>)
    requires rids <= m.Keys
    ensures PrefixDemand(Restrict(m, rids), p) == SumCommon(m, rids, p)
    decreases rids
  {
    var part := Restrict(m, rids);
    if rids == {} {
      assert part == map[];
      PrefixDemandEmpty(p);
    } else {
      var r :| r in rids && SumCommon(m, rids, p) == CommonPrefix(p, m[r]) + SumCommon(m, rids - {r}, p);
      var rest := Restrict(m, rids - {r});
      PrefixDemandIsSum(m, rids - {r}, p);
      assert part == rest[r := m[r]];
      PrefixDemandAdd(rest, r, m[r], p);
    }
  }
}
