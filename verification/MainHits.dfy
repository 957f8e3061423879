/**
 What the dual walk of src/pending.rs is to compute, as a function of the pending map and of
 the cache alone, and the facts about single nodes that make the walk correct.
 */
module MainHits {
  import opened Prelude
  import opened Demands
  import opened Sharing
  import opened Radix
  import opened Arena
  import opened ArenaFacts

  /** Tokens to the length of their longest cached prefix. */
  type CacheMatch = seq<Token> -> nat

  /** `f` answers from a prefix-closed cache. */
  ghost predicate Oracle(f: CacheMatch) {
    forall t: seq<Token>, k: nat {:trigger f(t[..k])} :: k <= |t| ==> f(t) <= |t| && f(t[..k]) == Min(f(t), k)
  }

  ghost predicate LongestCached(f: CacheMatch, cache: iset<seq<Token>>) {
    forall t {:trigger f(t)} ::
      && f(t) <= |t|
      && (f(t) > 0 ==> t[..f(t)] in cache)
      && forall k :: f(t) < k <= |t| ==> t[..k] !in cache
  }

  ghost predicate PrefixClosed(cache: iset<seq<Token>>) {
    forall t, k: nat {:trigger t[..k]} :: t in cache && 0 < k <= |t| ==> t[..k] in cache
  }

  /** Longest-prefix answers from a prefix-closed cache are consistent along prefixes. */
  lemma CacheIsOracle(f: CacheMatch, cache: iset<seq<Token>>)
    requires LongestCached(f, cache) && PrefixClosed(cache)
    ensures Oracle(f)
  {
    forall t: seq<Token>, k: nat | k <= |t|
      ensures f(t) <= |t| && f(t[..k]) == Min(f(t), k)
    {
      var p := t[..k];
      var a, b := f(t), f(p);
      if b > 0 {
        assert p[..b] == t[..b];
      }
      var j: nat := Min(a, k);
      if j > 0 {
        assert t[..a][..j] == t[..j] == p[..j];
      }
    }
  }

  /** Length of the first edge on the way to a pending sequence: as far as everybody who shares
      its first token goes along. */
  ghost function FirstEdge(m: Pending, t: seq<Token>): nat
    requires t != []
  {
    Deepest(m, t, Demand(m, t[..1]))
  }

  /** The main hit of a pending sequence: its cached prefix, cut where sharing gives out. */
  ghost function Hit(m: Pending, f: CacheMatch, minCount: nat, t: seq<Token>): nat {
    if t == [] then 0
    else Min(f(t), Max(Deepest(m, t, minCount), FirstEdge(m, t)))
  }

  /** The walk may look as far as `p`: enough sharers, or still on the first edge. */
  ghost predicate Licensed(m: Pending, minCount: nat, p: seq<Token>) {
    p != [] && (Demand(m, p) >= minCount || Demand(m, p) == Demand(m, p[..1]))
  }

  lemma DeepestReaches(m: Pending, t: seq<Token>, threshold: nat, k: nat)
    requires k <= |t| && Demand(m, t[..k]) >= threshold
    ensures k <= Deepest(m, t, threshold)
  {
  }

  lemma DeepestStops(m: Pending, t: seq<Token>, threshold: nat, k: nat)
    requires k < |t| && Demand(m, t[..k + 1]) < threshold
    ensures Deepest(m, t, threshold) <= k
  {
    var d := Deepest(m, t, threshold);
    if d > k {
      assert t[..d][..k + 1] == t[..k + 1];
      DemandAntitone(m, t[..k + 1], t[..d]);
    }
  }

  lemma LicensedReaches(m: Pending, minCount: nat, t: seq<Token>, k: nat)
    requires 0 < k <= |t| && Licensed(m, minCount, t[..k])
    ensures k <= Max(Deepest(m, t, minCount), FirstEdge(m, t))
  {
    assert t[..k][..1] == t[..1];
    if Demand(m, t[..k]) >= minCount {
      DeepestReaches(m, t, minCount, k);
    } else {
      DeepestReaches(m, t, Demand(m, t[..1]), k);
    }
  }

  /** Ending at a fully cached licensed node: the whole sequence hits. */
  lemma HitAtEnd(m: Pending, f: CacheMatch, minCount: nat, t: seq<Token>)
    requires Oracle(f) && Licensed(m, minCount, t) && f(t) == |t|
    ensures Hit(m, f, minCount, t) == |t|
  {
    assert t[..|t|] == t;
    LicensedReaches(m, minCount, t, |t|);
  }

  /** The cache runs out before a licensed point: everybody past it hits exactly that far. */
  lemma HitOnMiss(m: Pending, f: CacheMatch, minCount: nat, t: seq<Token>, k: nat)
    requires Oracle(f) && 0 < k <= |t| && Licensed(m, minCount, t[..k]) && f(t[..k]) < k
    ensures Hit(m, f, minCount, t) == f(t[..k])
  {
    LicensedReaches(m, minCount, t, k);
  }

  /** Past a node where sharing gives out everybody hits up to that node. */
  lemma HitOnSkip(m: Pending, f: CacheMatch, minCount: nat, t: seq<Token>, k: nat)
    requires Oracle(f) && 0 < k < |t| && Licensed(m, minCount, t[..k]) && f(t[..k]) == k
    requires Demand(m, t[..k + 1]) < minCount && Demand(m, t[..k + 1]) < Demand(m, t[..k])
    ensures Hit(m, f, minCount, t) == k
  {
    LicensedReaches(m, minCount, t, k);
    DeepestStops(m, t, minCount, k);
    assert t[..k][..1] == t[..1];
    DemandAntitone(m, t[..1], t[..k]);
    DeepestStops(m, t, Demand(m, t[..1]), k);
  }

  /** Threshold one (or zero) finds every cached prefix in full. */
  lemma HitIsExact(m: Pending, f: CacheMatch, minCount: nat, r: Rid)
    requires Oracle(f) && r in m && minCount <= 1
    ensures Hit(m, f, minCount, m[r]) == f(m[r])
  {
    var t := m[r];
    assert t[..|t|] == t;
    assert f(t) == f(t[..|t|]);
    if t != [] {
      DemandWitness(m, t, r);
      DeepestReaches(m, t, minCount, |t|);
    }
  }

  /** From a node other than ROOT to a child strictly fewer requests go on. */
  lemma StrictDrop(nodes: seq<Node>, free: seq<NodeId>, path: Paths, held: Pending, n: NodeId, t: Token)
    requires Sound(nodes, free, path, held, ROOT) && n in path && n != ROOT && t in nodes[n].children
    ensures nodes[n].children[t] in path
    ensures Demand(held, path[nodes[n].children[t]]) < Demand(held, path[n])
  {
    LinkedKid(nodes, path, n, t);
    var c := nodes[n].children[t];
    assert TalliedAt(nodes, path, held, n) && Needed(nodes[n]);
    var r: Rid;
    if nodes[n].terminators != {} {
      r :| r in nodes[n].terminators;
    } else {
      assert |nodes[n].children.Keys - {t}| >= 1;
      var u :| u in nodes[n].children.Keys - {t};
      r := KidContinued(nodes, free, path, held, n, u);
    }
    assert r in Sharers(held, path[n]) && r !in Sharers(held, path[c]) by {
      assert path[c][|path[n]|] == t;
    }
    assert Sharers(held, path[c]) <= Sharers(held, path[n]) - {r};
    SubsetCard(Sharers(held, path[c]), Sharers(held, path[n]) - {r});
  }

  /** The first edge of the specification is the first edge of the tree. */
  lemma FirstEdgeIsEdge(nodes: seq<Node>, free: seq<NodeId>, path: Paths, held: Pending, r: Rid)
    requires Sound(nodes, free, path, held, ROOT) && r in held && held[r] != []
    ensures var t := held[r];
      && ROOT in path && t[0] in nodes[ROOT].children && nodes[ROOT].children[t[0]] in path
      && FirstEdge(held, t) == |nodes[nodes[ROOT].children[t[0]]].edge|
  {
    var t, sh := held[r], ShapeOf(nodes, path);
    assert SeatedAt(path, t);
    var h :| h in path && path[h] == t;
    assert sh[ROOT].path == [] && sh[ROOT].kids == nodes[ROOT].children;
    KidToward(sh, ROOT, ROOT, h);
    var c := nodes[ROOT].children[t[0]];
    LinkedKid(nodes, path, ROOT, t[0]);
    LinkedParent(nodes, path, c);
    var e := |path[c]|;
    assert path[ROOT] == [];
    EdgeDemand(nodes, path, held, c, t, 0, e);
    DeepestReaches(held, t, Demand(held, t[..1]), e);
    if e < |t| {
      KidToward(sh, ROOT, c, h);
      StrictDrop(nodes, free, path, held, c, t[e]);
      var d := nodes[c].children[t[e]];
      LinkedKid(nodes, path, c, t[e]);
      EdgeDemand(nodes, path, held, d, t, e, e + 1);
      assert TalliedAt(nodes, path, held, d) && TalliedAt(nodes, path, held, c);
      DeepestStops(held, t, Demand(held, t[..1]), e);
    }
  }
}
