/**
 Demand-aware eviction of eviction.py: priorities from the most tokens at risk on any ancestor of
 a cache node, found by a walk that stops once demand has collapsed, and what evicting by them
 means for the tree.
 */
module DemandEviction {
  import opened Prelude
  import opened Demands
  import opened Radix
  import opened CacheStore
  import opened CacheEviction
  import opened CacheLeaves
  import opened CacheRefs
  import opened CacheSweeps
  import opened CacheTimes
  import opened CacheWalk
  import opened KvCache
  import opened PendingRadix
  import opened Sorting

  // ----- the most at risk along a chain of growing paths -----

  /** What evicting the path would cost: its length for everyone who wants it. */
  ghost function AtRisk(held: Pending, p: seq<Token>): nat {
    Demand(held, p) * |p|
  }

  lemma RiskIsDemand(held: Pending, p: seq<Token>)
    requires p != []
    ensures AtRisk(held, p) == Demand(held, p) * |p|
    ensures AtRisk(held, p) == 0 <==> Demand(held, p) == 0
  {
  }

  /** Each path properly extends the one before. */
  ghost predicate Rising(paths: seq<seq<Token>>) {
    && (forall i {:trigger paths[i]} :: 0 <= i < |paths| ==> paths[i] != [])
    && forall i, j {:trigger paths[i], paths[j]} :: 0 <= i < j < |paths| ==> paths[i] <= paths[j]
  }

  /** The first path with this value, below `n`. */
  ghost predicate FirstWith(held: Pending, paths: seq<seq<Token>>, n: nat, i: nat, value: nat)
    requires n <= |paths|
  {
    && i < n && AtRisk(held, paths[i]) == value
    && forall j {:trigger paths[j]} :: 0 <= j < i ==> AtRisk(held, paths[j]) < value
  }

  /** `value` is the most at risk along the first `n` paths, `length` that of the shallowest such. */
  ghost predicate Worst(held: Pending, paths: seq<seq<Token>>, n: nat, value: nat, length: nat)
    requires n <= |paths|
  {
    && (forall i {:trigger paths[i]} :: 0 <= i < n ==> AtRisk(held, paths[i]) <= value)
    && if value == 0 then length == 0 else exists i: nat {:trigger FirstWith(held, paths, n, i, value)} ::
      FirstWith(held, paths, n, i, value) && |paths[i]| == length
  }

  /** Where the walk stops: past the first path without demand, if anything was at risk before. */
  ghost predicate Stops(held: Pending, paths: seq<seq<Token>>, levels: nat, value: nat) {
    && levels <= |paths|
    && (value > 0 ==> forall i {:trigger paths[i]} :: 0 <= i < levels - 1 ==> Demand(held, paths[i]) > 0)
    && (levels < |paths| ==> value > 0 && levels > 0 && Demand(held, paths[levels - 1]) == 0)
  }

  /** While the walk goes on: everything so far is in demand, or nothing has been at risk. */
  ghost predicate Walking(held: Pending, paths: seq<seq<Token>>, levels: nat, value: nat) {
    && levels <= |paths|
    && forall i {:trigger paths[i]} :: 0 <= i < levels ==> (Demand(held, paths[i]) > 0 <==> value > 0)
  }

  lemma WorstStep(held: Pending, paths: seq<seq<Token>>, n: nat, value: nat, length: nat)
    requires n < |paths| && Worst(held, paths, n, value, length)
    ensures var risk := AtRisk(held, paths[n]);
      if risk > value then Worst(held, paths, n + 1, risk, |paths[n]|) else Worst(held, paths, n + 1, value, length)
  {
    hide AtRisk;
    var risk := AtRisk(held, paths[n]);
    if risk > value {
      assert FirstWith(held, paths, n + 1, n, risk);
    } else if value > 0 {
      var i: nat :| FirstWith(held, paths, n, i, value) && |paths[i]| == length;
      assert FirstWith(held, paths, n + 1, i, value);
    }
  }

  lemma WalkingStep(held: Pending, paths: seq<seq<Token>>, levels: nat, before: nat, value: nat)
    requires Rising(paths) && levels < |paths| && Walking(held, paths, levels, before)
    requires value == Max(before, AtRisk(held, paths[levels]))
    ensures Demand(held, paths[levels]) == 0 && value > 0 ==> Stops(held, paths, levels + 1, value)
    ensures !(Demand(held, paths[levels]) == 0 && value > 0) ==> Walking(held, paths, levels + 1, value)
  {
    RiskIsDemand(held, paths[levels]);
    hide AtRisk, Demand;
    if levels > 0 {
      DemandAntitone(held, paths[0], paths[levels]);
    }
  }

  /** The early exit loses nothing: past a path nobody wants, nobody wants anything. */
  lemma ExitIsSound(held: Pending, paths: seq<seq<Token>>, n: nat, value: nat, length: nat)
    requires Rising(paths) && 0 < n <= |paths| && Worst(held, paths, n, value, length)
    requires Demand(held, paths[n - 1]) == 0
    ensures Worst(held, paths, |paths|, value, length)
  {
    hide AtRisk, Demand;
    forall i | n <= i < |paths|
      ensures AtRisk(held, paths[i]) == 0
    {
      DemandAntitone(held, paths[n - 1], paths[i]);
      RiskIsDemand(held, paths[i]);
    }
    if value > 0 {
      var i: nat :| FirstWith(held, paths, n, i, value) && |paths[i]| == length;
      assert FirstWith(held, paths, |paths|, i, value);
    }
  }

  // ----- the chain of a cache node -----

  /** The nodes from just below the root down to `n`. */
  ghost function ChainTo<N>(c: Cache<N>, n: N): seq<N>
    requires Chained(c) && n in c.st
    decreases c.st[n].depth
  {
    if n == c.root then []
    else
      assert Climbs(c, n);
      ChainTo(c, c.st[n].parent.value) + [n]
  }

  /** The paths of the nodes from just below the root down to `n`. */
  ghost function PathsTo<N>(c: Cache<N>, n: N): (paths: seq<seq<Token>>)
    requires Chained(c) && n in c.st
    ensures |paths| == |ChainTo(c, n)|
  {
    var chain := ChainTo(c, n);
    seq(|chain|, i requires 0 <= i < |chain| => if chain[i] in c.path then c.path[chain[i]] else [])
  }

  lemma InvBuilt<N>(c: Cache<N>)
    requires Inv(c)
    ensures Built(c) && c.root in c.path && c.path[c.root] == [] && c.path.Keys <= c.st.Keys
  {
  }

  /** Each path is the one before with the key of its node. */
  ghost predicate ChainLink<N>(c: Cache<N>, chain: seq<N>, paths: seq<seq<Token>>, i: nat)
    requires i < |chain| == |paths|
  {
    && chain[i] in c.path && chain[i] in c.st && chain[i] != c.root && c.path[chain[i]] == paths[i]
    && c.st[chain[i]].key != [] && paths[i] == (if i == 0 then [] else paths[i - 1]) + c.st[chain[i]].key
  }

  ghost predicate Spells<N>(c: Cache<N>, chain: seq<N>, paths: seq<seq<Token>>) {
    |paths| == |chain| && forall i {:trigger ChainLink(c, chain, paths, i)} ::
      0 <= i < |chain| ==> ChainLink(c, chain, paths, i)
  }

  lemma {:induction false} ChainIsWalk<N>(c: Cache<N>, n: N, m: N)
    requires Chained(c) && n in c.st
    ensures m in ChainTo(c, n) <==> m in WalkUp(c, n)
    decreases c.st[n].depth
  {
    if n != c.root {
      assert Climbs(c, n);
      ChainIsWalk(c, c.st[n].parent.value, m);
    }
  }

  /** The chain of a live node spells its path. */
  lemma {:induction false} ChainSpells<N>(c: Cache<N>, n: N)
    requires Inv(c) && n in c.path && n in c.st && Chained(c)
    ensures Spells(c, ChainTo(c, n), PathsTo(c, n))
    ensures c.path[n] == if ChainTo(c, n) == [] then [] else PathsTo(c, n)[|PathsTo(c, n)| - 1]
    decreases c.st[n].depth
  {
    hide Inv, Built;
    InvBuilt(c);
    if n != c.root {
      Fits(c, n);
      assert Climbs(c, n);
      var q := c.st[n].parent.value;
      ChainSpells(c, q);
      SpellsOne(c, ChainTo(c, q), PathsTo(c, q), n);
      assert PathsTo(c, n) == PathsTo(c, q) + [c.path[n]];
    }
  }

  lemma SpellsOne<N>(c: Cache<N>, up: seq<N>, below: seq<seq<Token>>, n: N)
    requires Spells(c, up, below) && n in c.path && n in c.st && n != c.root && c.st[n].key != []
    requires c.path[n] == (if up == [] then [] else below[|below| - 1]) + c.st[n].key
    ensures Spells(c, up + [n], below + [c.path[n]])
  {
    forall i | 0 <= i < |up| + 1
      ensures ChainLink(c, up + [n], below + [c.path[n]], i)
    {
      if i < |up| {
        assert ChainLink(c, up, below, i);
      }
    }
  }

  lemma {:induction false} Extends<N>(c: Cache<N>, chain: seq<N>, paths: seq<seq<Token>>, i: nat, j: nat)
    requires Spells(c, chain, paths) && i <= j < |chain|
    ensures paths[i] != [] && paths[i] <= paths[j]
    decreases j
  {
    assert ChainLink(c, chain, paths, j);
    if i < j {
      Extends(c, chain, paths, i, j - 1);
    }
  }

  lemma SpellsRising<N>(c: Cache<N>, chain: seq<N>, paths: seq<seq<Token>>)
    requires Spells(c, chain, paths)
    ensures Rising(paths)
  {
    forall i, j | 0 <= i <= j < |paths|
      ensures paths[i] != [] && paths[i] <= paths[j]
    {
      Extends(c, chain, paths, i, j);
    }
  }

  /** The keys on the way up, nearest first. */
  method Segments(cache: RadixCache, node: TreeNode) returns (segments: seq<seq<Token>>)
    requires cache.Valid() && node in cache.view.path
    ensures Climbed(cache.view, ChainTo(cache.view, node), segments, 0)
  {
    hide Good, Inv, RadixCache.Synced;
    cache.ValidParts();
    cache.FieldsAre();
    ghost var c := cache.view;
    ghost var chain := ChainTo(c, node);
    segments := [];
    var cur := node;
    cache.RecordIs(cur);
    while cur.parent != null
      invariant cur in c.st && cur.Record() == c.st[cur]
      invariant |ChainTo(c, cur)| <= |chain| && ChainTo(c, cur) == chain[..|ChainTo(c, cur)|]
      invariant Climbed(c, chain, segments, |ChainTo(c, cur)|)
      decreases c.st[cur].depth
    {
      ParentStep(c, cur);
      assert ChainTo(c, cur)[|ChainTo(c, cur)| - 1] == cur;
      ClimbStep(c, chain, segments, |ChainTo(c, cur)|, cur);
      segments := segments + [cur.key];
      cur := cur.parent;
      cache.RecordIs(cur);
    }
    RootStep(c, cur);
  }

  /** The segments are the keys of the chain above position `from`, last one first. */
  ghost predicate Climbed<N>(c: Cache<N>, chain: seq<N>, segments: seq<seq<Token>>, from: nat) {
    && from + |segments| == |chain|
    && forall i {:trigger SegmentAt(c, chain, segments, i)} :: 0 <= i < |segments| ==> SegmentAt(c, chain, segments, i)
  }

  ghost predicate SegmentAt<N>(c: Cache<N>, chain: seq<N>, segments: seq<seq<Token>>, i: nat)
    requires i < |segments| <= |chain|
  {
    var n := chain[|chain| - 1 - i];
    n in c.st && segments[i] == c.st[n].key
  }

  lemma ClimbStep<N>(c: Cache<N>, chain: seq<N>, segments: seq<seq<Token>>, from: nat, n: N)
    requires Climbed(c, chain, segments, from) && 0 < from <= |chain| && chain[from - 1] == n && n in c.st
    ensures Climbed(c, chain, segments + [c.st[n].key], from - 1)
  {
    var more := segments + [c.st[n].key];
    forall i | 0 <= i < |more|
      ensures SegmentAt(c, chain, more, i)
    {
      if i < |segments| {
        assert SegmentAt(c, chain, segments, i);
      }
    }
  }

  lemma ParentStep<N>(c: Cache<N>, n: N)
    requires Inv(c) && Chained(c) && n in c.st && c.st[n].parent.Some?
    ensures n != c.root && c.st[n].parent.value in c.st && c.st[c.st[n].parent.value].depth < c.st[n].depth
    ensures ChainTo(c, n) == ChainTo(c, c.st[n].parent.value) + [n]
  {
    InvBuilt(c);
    assert Climbs(c, n);
  }

  lemma RootStep<N>(c: Cache<N>, n: N)
    requires Inv(c) && Chained(c) && n in c.st && c.st[n].parent.None?
    ensures n == c.root && ChainTo(c, n) == []
  {
    assert Climbs(c, n);
  }

  /** The most tokens at risk on any ancestor, the node itself included; the length is that of the
      shallowest ancestor with so much at risk. */
  method MaxAncestorDemand(cache: RadixCache, node: TreeNode, tree: Tree)
    returns (maxValue: nat, maxLen: nat, levels: nat)
    requires cache.Valid() && tree.Valid() && node in cache.view.path
    ensures var paths := PathsTo(cache.view, node);
      Worst(tree.held, paths, |paths|, maxValue, maxLen) && Stops(tree.held, paths, levels, maxValue)
    ensures MostAtRisk(cache.view, tree.held, node, maxValue, maxLen)
  {
    hide Good, Inv, RadixCache.Synced, RadixCache.Valid, Tree.Valid, Worst, Stops, Walking, ChainTo, AtRisk,
      Rising, Spells, Climbed, PathsTo, MostAtRisk, Demand;
    cache.ValidParts();
    InvChain(cache.view);
    var segments := Segments(cache, node);
    ghost var c := cache.view;
    ghost var chain, paths := ChainTo(c, node), PathsTo(c, node);
    ChainSpells(c, node);
    SpellsRising(c, chain, paths);
    maxValue, maxLen, levels := 0, 0, 0;
    NothingYet(c, chain, segments, tree.held, paths);
    if |segments| == 0 {
      WorstOfAll(c, tree.held, node, 0, 0);
      return;
    }
    var ancestor: seq<Token> := [];
    while levels < |segments|
      invariant levels <= |segments| == |paths| && ancestor == if levels == 0 then [] else paths[levels - 1]
      invariant Worst(tree.held, paths, levels, maxValue, maxLen)
      invariant Walking(tree.held, paths, levels, maxValue)
    {
      NextSegment(c, chain, paths, segments, levels);
      ancestor := ancestor + segments[|segments| - 1 - levels];
      var d := tree.PendingDemand(ancestor);
      RiskIsDemand(tree.held, ancestor);
      WorstStep(tree.held, paths, levels, maxValue, maxLen);
      ghost var before := maxValue;
      var value := d * |ancestor|;
      if value > maxValue {
        maxValue := value;
        maxLen := |ancestor|;
      }
      WalkingStep(tree.held, paths, levels, before, maxValue);
      levels := levels + 1;
      if d == 0 && maxValue > 0 {
        ExitIsSound(tree.held, paths, levels, maxValue, maxLen);
        WorstOfAll(c, tree.held, node, maxValue, maxLen);
        return;
      }
    }
    WalkingEnds(tree.held, paths, levels, maxValue);
    WorstOfAll(c, tree.held, node, maxValue, maxLen);
  }

  lemma NothingYet<N>(c: Cache<N>, chain: seq<N>, segments: seq<seq<Token>>, held: Pending, paths: seq<seq<Token>>)
    requires Climbed(c, chain, segments, 0) && |paths| == |chain|
    ensures |segments| == |paths| && Worst(held, paths, 0, 0, 0) && Walking(held, paths, 0, 0)
    ensures paths == [] ==> Stops(held, paths, 0, 0)
  {
  }

  lemma NextSegment<N>(c: Cache<N>, chain: seq<N>, paths: seq<seq<Token>>, segments: seq<seq<Token>>, n: nat)
    requires Spells(c, chain, paths) && Climbed(c, chain, segments, 0) && n < |segments|
    ensures |segments| == |paths| && paths[n] == (if n == 0 then [] else paths[n - 1]) + segments[|segments| - 1 - n]
    ensures paths[n] != []
  {
    var i := |segments| - 1 - n;
    assert ChainLink(c, chain, paths, n);
    assert SegmentAt(c, chain, segments, i);
  }

  lemma WalkingEnds(held: Pending, paths: seq<seq<Token>>, levels: nat, value: nat)
    requires levels == |paths| && Walking(held, paths, levels, value)
    ensures Stops(held, paths, levels, value)
  {
  }

  ghost predicate IsAncestor<N>(c: Cache<N>, n: N, m: N)
    requires n in c.path
  {
    m in c.path && m != c.root && c.path[m] <= c.path[n]
  }

  /** The chain lists the ancestors. */
  lemma AncestorsInChain<N>(c: Cache<N>, n: N, m: N)
    requires Inv(c) && Chained(c) && n in c.path && n in c.st && m in c.path
    ensures IsAncestor(c, n, m) <==> exists i :: 0 <= i < |PathsTo(c, n)| && PathsTo(c, n)[i] == c.path[m]
  {
    hide Inv;
    ChainSpells(c, n);
    ChainIsWalk(c, n, m);
    InvBuilt(c);
    WalkUpLive(c, n, m);
    var chain, paths := ChainTo(c, n), PathsTo(c, n);
    if m in chain {
      var i :| 0 <= i < |chain| && chain[i] == m;
      assert ChainLink(c, chain, paths, i);
    }
    if i :| 0 <= i < |paths| && paths[i] == c.path[m] {
      assert ChainLink(c, chain, paths, i);
      SamePath(Sh(c), c.root, chain[i], m);
    }
  }

  /** No cached ancestor has more than `value` requests times tokens behind it, and the shallowest
      one that has as much, if anything is wanted, is `length` tokens long. */
  ghost predicate MostAtRisk<N>(c: Cache<N>, held: Pending, n: N, value: nat, length: nat)
    requires n in c.path
  {
    && (forall m {:trigger IsAncestor(c, n, m)} :: m in c.path && IsAncestor(c, n, m) ==>
      Demand(held, c.path[m]) * |c.path[m]| <= value)
    && (forall m {:trigger IsAncestor(c, n, m)} :: m in c.path && IsAncestor(c, n, m) ==>
      value > 0 && Demand(held, c.path[m]) * |c.path[m]| == value ==> length <= |c.path[m]|)
    && if value == 0 then length == 0 else exists m {:trigger IsAncestor(c, n, m)} ::
      m in c.path && IsAncestor(c, n, m) && |c.path[m]| == length && Demand(held, c.path[m]) * |c.path[m]| == value
  }

  /** What the walk returns is the most at risk over all ancestors in the cache, reported at the
      shallowest that attains it. */
  lemma WorstOfAll<N>(c: Cache<N>, held: Pending, n: N, value: nat, length: nat)
    requires Inv(c) && Chained(c) && n in c.path && n in c.st
    requires Worst(held, PathsTo(c, n), |PathsTo(c, n)|, value, length)
    ensures MostAtRisk(c, held, n, value, length)
    ensures forall m {:trigger IsAncestor(c, n, m)} :: IsAncestor(c, n, m) ==> AtRisk(held, c.path[m]) <= value
    ensures value > 0 ==> exists m {:trigger IsAncestor(c, n, m)} ::
      IsAncestor(c, n, m) && |c.path[m]| == length && AtRisk(held, c.path[m]) == value
  {
    hide Inv, AtRisk, PathsTo, ChainTo, Demand;
    var chain, paths := ChainTo(c, n), PathsTo(c, n);
    ChainSpells(c, n);
    SpellsRising(c, chain, paths);
    forall m | IsAncestor(c, n, m)
      ensures AtRisk(held, c.path[m]) <= value && AtRisk(held, c.path[m]) == Demand(held, c.path[m]) * |c.path[m]|
      ensures value > 0 && AtRisk(held, c.path[m]) == value ==> length <= |c.path[m]|
    {
      AncestorsInChain(c, n, m);
      WorstBounds(held, paths, value, length, c.path[m]);
      PathsBelowRoot(c, m);
      RiskIsDemand(held, c.path[m]);
    }
    if value > 0 {
      var i: nat :| FirstWith(held, paths, |paths|, i, value) && |paths[i]| == length;
      assert ChainLink(c, chain, paths, i);
      AncestorsInChain(c, n, chain[i]);
      assert IsAncestor(c, n, chain[i]);
    }
  }

  lemma WorstBounds(held: Pending, paths: seq<seq<Token>>, value: nat, length: nat, p: seq<Token>)
    requires Rising(paths) && Worst(held, paths, |paths|, value, length)
    requires exists k :: 0 <= k < |paths| && paths[k] == p
    ensures AtRisk(held, p) <= value
    ensures value > 0 && AtRisk(held, p) == value ==> length <= |p|
  {
    hide AtRisk;
    var k :| 0 <= k < |paths| && paths[k] == p;
    if value > 0 {
      var i: nat :| FirstWith(held, paths, |paths|, i, value) && |paths[i]| == length;
      assert i < k ==> paths[i] <= paths[k];
    }
  }

  // ----- priorities -----

  /** How the tokens at risk become a priority; `decay` stands for the exponential of the age. */
  datatype Mode = Plain | ByCluster | ByRecency(weight: real) | ByDecay(decay: real -> real)

  /** What one clock reads now less what another read at the last access; no age for a node never
      accessed, or where the first clock is behind. */
  function TimeSince(now: int, lastAccess: int): real {
    if lastAccess == 0 || now < lastAccess then 0.0 else (now - lastAccess) as real
  }

  function Weighed(mode: Mode, value: nat, levels: nat, age: real): real {
    match mode
    case Plain => value as real
    case ByCluster => (value * (1 + levels)) as real
    case ByRecency(weight) => value as real - weight * age
    case ByDecay(decay) => value as real * decay(age)
  }

  ghost predicate IsPriority<N>(c: Cache<N>, held: Pending, n: N, mode: Mode, age: real, priority: int)
    requires Chained(c) && n in c.st
  {
    var paths := PathsTo(c, n);
    exists value: nat, length: nat, levels: nat
      {:trigger Worst(held, paths, |paths|, value, length), Weighed(mode, value, levels, age)} ::
      && Worst(held, paths, |paths|, value, length) && Stops(held, paths, levels, value)
      && priority == Truncate(Weighed(mode, value, levels, age))
  }

  /** Tokens at risk, weighed by the levels walked or the age; then least recently used. */
  method GetPriority(cache: RadixCache, node: TreeNode, tree: Tree, mode: Mode, now: int)
    returns (priority: int, lastAccess: int)
    requires cache.Valid() && tree.Valid() && node in cache.view.path
    ensures IsPriority(cache.view, tree.held, node, mode, TimeSince(now, node.lastAccessTime), priority)
    ensures lastAccess == node.lastAccessTime
  {
    hide Worst, Stops, RadixCache.Valid, Tree.Valid;
    var value, length, levels := MaxAncestorDemand(cache, node, tree);
    lastAccess := node.lastAccessTime;
    priority := Truncate(Weighed(mode, value, levels, TimeSince(now, lastAccess)));
  }

  lemma WeighedMonotone(mode: Mode, value: nat, more: nat, age: real)
    requires value <= more && (mode.ByDecay? ==> mode.decay(age) >= 0.0)
    ensures Weighed(mode, value, 0, age) <= Weighed(mode, more, 0, age)
  {
    if mode.ByDecay? {
      var gain := (more - value) as real * mode.decay(age);
      assert gain >= 0.0 && more as real * mode.decay(age) == value as real * mode.decay(age) + gain;
    }
  }

  lemma LevelsAside(mode: Mode, value: nat, levels: nat, age: real)
    ensures Truncate(Weighed(mode, value, levels, age)) <= 0 <==> Weighed(mode, value, 0, age) < 1.0
  {
    if mode.ByCluster? && value > 0 {
      assert value * (1 + levels) >= value;
    }
  }

  /** A node is let go first, in any mode, exactly when no cached ancestor's tokens at risk come to
      one after weighing: truncation makes a little demand count for nothing. */
  lemma LetGoFirst<N>(c: Cache<N>, held: Pending, n: N, mode: Mode, age: real, priority: int)
    requires Inv(c) && Chained(c) && n in c.path && n in c.st && IsPriority(c, held, n, mode, age, priority)
    requires mode.ByDecay? ==> mode.decay(age) >= 0.0
    ensures priority <= 0 <==>
      && Weighed(mode, 0, 0, age) < 1.0
      && forall m {:trigger IsAncestor(c, n, m)} ::
        IsAncestor(c, n, m) ==> Weighed(mode, AtRisk(held, c.path[m]), 0, age) < 1.0
  {
    hide Inv, Worst, Stops, PathsTo, AtRisk, Weighed, Truncate;
    var paths := PathsTo(c, n);
    var value: nat, length: nat, levels: nat :|
      && Worst(held, paths, |paths|, value, length) && Stops(held, paths, levels, value)
      && priority == Truncate(Weighed(mode, value, levels, age));
    WorstOfAll(c, held, n, value, length);
    LevelsAside(mode, value, levels, age);
    WeighedMonotone(mode, 0, value, age);
    forall m | IsAncestor(c, n, m)
      ensures Weighed(mode, AtRisk(held, c.path[m]), 0, age) <= Weighed(mode, value, 0, age)
    {
      WeighedMonotone(mode, AtRisk(held, c.path[m]), value, age);
    }
  }

  /** A node nobody waits for goes first in the modes that ignore age, and nothing else does. */
  lemma UnwantedGoFirst<N>(c: Cache<N>, held: Pending, n: N, mode: Mode, age: real, priority: int)
    requires Inv(c) && Chained(c) && n in c.path && n in c.st && IsPriority(c, held, n, mode, age, priority)
    requires mode.Plain? || mode.ByCluster?
    ensures priority >= 0
    ensures priority == 0 <==>
      forall m {:trigger IsAncestor(c, n, m)} :: IsAncestor(c, n, m) ==> Demand(held, c.path[m]) == 0
  {
    hide Inv, Worst, Stops, PathsTo, AtRisk;
    LetGoFirst(c, held, n, mode, age, priority);
    forall m | IsAncestor(c, n, m)
      ensures AtRisk(held, c.path[m]) == 0 <==> Demand(held, c.path[m]) == 0
    {
      PathsBelowRoot(c, m);
      RiskIsDemand(held, c.path[m]);
    }
  }

  // ----- evicting by demand -----

  /** The nodes that somebody pending wants, or that have such a node above them. */
  ghost function InDemand<N>(c: Cache<N>, held: Pending): set<N> {
    set n | n in c.path && AnyWanted(c, held, n)
  }

  ghost predicate AnyWanted<N>(c: Cache<N>, held: Pending, n: N)
    requires n in c.path
  {
    exists m {:trigger IsAncestor(c, n, m)} :: m in c.path && IsAncestor(c, n, m) && Demand(held, c.path[m]) > 0
  }

  lemma InDemandUpClosed<N>(c: Cache<N>, held: Pending)
    requires Inv(c)
    ensures UpClosed(c, InDemand(c, held))
  {
    hide Inv, Demand;
    forall k | k in c.path && k != c.root && NodeFits(c, k) && k in InDemand(c, held)
      ensures c.st[k].parent.value == c.root || c.st[k].parent.value in InDemand(c, held)
    {
      var p := c.st[k].parent.value;
      var m :| m in c.path && IsAncestor(c, k, m) && Demand(held, c.path[m]) > 0;
      if p != c.root {
        if |c.path[m]| <= |c.path[p]| {
          PrefixStep(c.path[m], c.path[p], c.path[k]);
          assert IsAncestor(c, p, m);
        } else {
          PrefixStep(c.path[p], c.path[m], c.path[k]);
          DemandAntitone(held, c.path[p], c.path[m]);
          assert IsAncestor(c, p, p);
        }
      }
    }
  }

  ghost predicate IsKey<N>(c: Cache<N>, held: Pending, n: N, mode: Mode, now: int, access: int, key: Key)
    requires Chained(c)
  {
    && n in c.path && n in c.st
    && exists priority: int {:trigger IsPriority(c, held, n, mode, TimeSince(now, access), priority)} ::
      IsPriority(c, held, n, mode, TimeSince(now, access), priority) && key == [priority as real, access as real]
  }

  /** The keys are the demand priorities in the first cache, then these access times. */
  ghost predicate DemandKeys<N>(c0: Cache<N>, held: Pending, mode: Mode, now: int, access: map<N, int>,
                                keys: map<N, Key>)
    requires Chained(c0)
  {
    forall n {:trigger keys[n]} :: n in keys ==> n in access && IsKey(c0, held, n, mode, now, access[n], keys[n])
  }

  lemma {:induction false} ChainStays<N>(c0: Cache<N>, c: Cache<N>, n: N)
    requires Chained(c0) && Chained(c) && KidsOnly(c0, c) && c.root == c0.root && n in c.st
    ensures ChainTo(c, n) == ChainTo(c0, n)
    decreases c.st[n].depth
  {
    assert c.st[n] == c0.st[n].(kids := c.st[n].kids);
    if n != c.root {
      assert Climbs(c, n);
      ChainStays(c0, c, c.st[n].parent.value);
    }
  }

  /** A survivor keeps its key whatever else goes. */
  lemma KeyStays<N>(c0: Cache<N>, c: Cache<N>, victims: seq<N>, held: Pending, n: N, mode: Mode, now: int, access: int,
                    key: Key)
    requires Inv(c) && Chained(c) && Chained(c0) && Evicted(c0, c, victims) && IsKey(c, held, n, mode, now, access, key)
    ensures IsKey(c0, held, n, mode, now, access, key)
  {
    hide Inv, Evicted, Worst, Stops, ChainTo, KidsOnly, Weighed;
    EvictedParts(c0, c, victims);
    KeysSame(c0, c);
    ChainStays(c0, c, n);
    ChainSpells(c, n);
    var chain, paths := ChainTo(c, n), PathsTo(c, n);
    forall i | 0 <= i < |chain|
      ensures PathsTo(c0, n)[i] == paths[i]
    {
      assert ChainLink(c, chain, paths, i);
    }
    assert PathsTo(c0, n) == paths;
    var priority: int :| IsPriority(c, held, n, mode, TimeSince(now, access), priority)
      && key == [priority as real, access as real];
    assert IsPriority(c0, held, n, mode, TimeSince(now, access), priority);
  }

  lemma KeysSame<N>(c0: Cache<N>, c: Cache<N>)
    requires KidsOnly(c0, c)
    ensures c.st.Keys == c0.st.Keys
  {
  }

  /** In the modes without age a node in demand has a higher key than one that is not. */
  lemma DemandSeparates<N>(c: Cache<N>, held: Pending, mode: Mode, now: int, x: N, y: N, ax: int, ay: int, kx: Key,
                           ky: Key)
    requires Inv(c) && Chained(c) && (mode.Plain? || mode.ByCluster?)
    requires IsKey(c, held, x, mode, now, ax, kx) && IsKey(c, held, y, mode, now, ay, ky)
    requires x in InDemand(c, held) && y !in InDemand(c, held)
    ensures LexLess(ky, kx)
  {
    hide Inv, IsPriority, LexLess, Demand;
    var p: int :| IsPriority(c, held, x, mode, TimeSince(now, ax), p) && kx == [p as real, ax as real];
    var q: int :| IsPriority(c, held, y, mode, TimeSince(now, ay), q) && ky == [q as real, ay as real];
    UnwantedGoFirst(c, held, x, mode, TimeSince(now, ax), p);
    UnwantedGoFirst(c, held, y, mode, TimeSince(now, ay), q);
    LexPair(q as real, ay as real, p as real, ax as real);
  }

  /** Evicting by demand takes nothing that is in demand while something unlocked is not. */
  lemma DemandPartitions<N>(c: Cache<N>, held: Pending, mode: Mode, now: int, access: map<N, int>, keys: map<N, Key>,
                            victims: seq<N>)
    requires Inv(c) && Chained(c) && (mode.Plain? || mode.ByCluster?)
    requires LeastFirst(c, keys, victims) && DemandKeys(c, held, mode, now, access, keys)
    ensures Partitioned(c, InDemand(c, held), victims)
  {
    hide Inv, LeastFirst, LexLess, IsKey, InDemand;
    InDemandUpClosed(c, held);
    forall x, y | x in keys && y in keys && x in InDemand(c, held) && y !in InDemand(c, held)
      ensures LexLess(keys[y], keys[x])
    {
      DemandSeparates(c, held, mode, now, x, y, access[x], access[y], keys[x], keys[y]);
    }
    LeastPartitions(c, keys, victims, InDemand(c, held));
  }

  method KeyFor(cache: RadixCache, node: TreeNode, tree: Tree, mode: Mode, now: int) returns (key: Key)
    requires cache.Valid() && tree.Valid() && node in cache.view.path && Chained(cache.view)
    ensures IsKey(cache.view, tree.held, node, mode, now, node.lastAccessTime, key)
  {
    hide Good, Inv, IsPriority, Tree.Valid;
    cache.ValidParts();
    var priority, access := GetPriority(cache, node, tree, mode, now);
    key := [priority as real, access as real];
  }

  method DemandHeap(cache: RadixCache, tree: Tree, mode: Mode, now: int) returns (heap: map<TreeNode, Key>)
    requires cache.Valid() && tree.Valid() && Chained(cache.view)
    ensures heap.Keys == cache.view.leaves
    ensures DemandKeys(cache.view, tree.held, mode, now, cache.AccessTimes(), heap)
  {
    hide RadixCache.Valid, Tree.Valid, IsKey, Inv, RadixCache.Synced;
    cache.ValidParts();
    cache.FieldsAre();
    LeavesLive(cache.view);
    var todo := cache.evictableLeaves;
    heap := map[];
    while todo != {}
      invariant todo <= cache.view.leaves && heap.Keys == cache.view.leaves - todo
      invariant DemandKeys(cache.view, tree.held, mode, now, cache.AccessTimes(), heap)
      decreases todo
    {
      var n :| n in todo;
      var key := KeyFor(cache, n, tree, mode, now);
      heap, todo := heap[n := key], todo - {n};
    }
  }

  lemma LeavesLive<N>(c: Cache<N>)
    requires Inv(c)
    ensures c.leaves <= c.path.Keys <= c.st.Keys
  {
  }

  /** Evict with the demand strategy: least priority first, ties by access time. */
  method EvictByDemand(cache: RadixCache, tree: Tree, mode: Mode, now: int, numTokens: int)
    returns (numEvicted: int, ghost victims: seq<TreeNode>, ghost keys: map<TreeNode, Key>)
    requires cache.Valid() && tree.Valid()
    modifies cache`view, cache`evictableSize, cache`evictableLeaves, cache.all`children
    ensures cache.Valid() && Evicted(old(cache.view), cache.view, victims)
    ensures numEvicted >= Min(numTokens, old(cache.evictableSize))
    ensures numEvicted + cache.evictableSize == old(cache.evictableSize)
    ensures StopsInTime(old(cache.view), victims, numEvicted, numTokens) && (numTokens <= 0 ==> victims == [])
    ensures Chained(old(cache.view)) && LeastFirst(old(cache.view), keys, victims)
    ensures DemandKeys(old(cache.view), tree.held, mode, now, old(cache.AccessTimes()), keys)
    ensures mode.Plain? || mode.ByCluster? ==>
      Partitioned(old(cache.view), InDemand(old(cache.view), tree.held), victims)
  {
    hide RadixCache.Valid, RadixCache.AccessTimes, Tree.Valid, Chained, LeastFirst, Good, Inv, RadixCache.Synced,
      Progress, DemandKeys, IsKey, Evicted, Partitioned, RemoveReady, RemoveNode, InDemand, StopsInTime, OneMore;
    ghost var c, held, access := cache.view, tree.held, cache.AccessTimes();
    cache.ValidParts();
    cache.FieldsAre();
    InvChain(c);
    victims := [];
    var heap := DemandHeap(cache, tree, mode, now);
    keys := heap;
    ProgressStarts(c, heap);
    numEvicted := 0;
    StopsStarts(c, numTokens);
    while numEvicted < numTokens && heap != map[]
      invariant cache.Valid() && tree.Valid() && tree.held == held && heap.Keys == cache.view.leaves
      invariant Progress(c, cache.view, keys, heap, victims)
      invariant access == cache.AccessTimes() && DemandKeys(c, held, mode, now, access, keys)
      invariant numEvicted + cache.view.evictable == c.evictable
      invariant StopsInTime(c, victims, numEvicted, numTokens)
      decreases cache.view.path.Keys
    {
      var freed;
      ghost var before := victims;
      freed, heap, keys, victims := TakeNext(cache, tree, mode, now, heap, c, keys, victims);
      StopsStep(c, before, victims, numEvicted, freed, numTokens);
      numEvicted := numEvicted + freed;
    }
    cache.ValidParts();
    cache.FieldsAre();
    QuotaMet(c, cache.view, numEvicted, numTokens);
    NothingAsked(c, victims, numEvicted, numTokens);
    ProgressParts(c, cache.view, keys, heap, victims);
    if mode.Plain? || mode.ByCluster? {
      DemandPartitions(c, held, mode, now, access, keys, victims);
    }
  }

  /** One victim: a least entry of the heap goes, and the parent it leaves bare may come in. */
  method TakeNext(cache: RadixCache, tree: Tree, mode: Mode, now: int, heap: map<TreeNode, Key>,
                  ghost c0: Cache<TreeNode>, ghost keys: map<TreeNode, Key>, ghost victims: seq<TreeNode>)
    returns (freed: nat, rest: map<TreeNode, Key>, ghost more: map<TreeNode, Key>, ghost gone: seq<TreeNode>)
    requires cache.Valid() && tree.Valid() && Chained(c0) && heap.Keys == cache.view.leaves && heap != map[]
    requires Progress(c0, cache.view, keys, heap, victims)
    requires DemandKeys(c0, tree.held, mode, now, cache.AccessTimes(), keys)
    modifies cache`view, cache`evictableSize, cache`evictableLeaves, cache.all`children
    ensures cache.Valid() && rest.Keys == cache.view.leaves && cache.AccessTimes() == old(cache.AccessTimes())
    ensures Progress(c0, cache.view, more, rest, gone)
    ensures DemandKeys(c0, tree.held, mode, now, cache.AccessTimes(), more)
    ensures freed + cache.view.evictable == old(cache.view).evictable
    ensures cache.view.path.Keys < old(cache.view).path.Keys && OneMore(c0, victims, gone, freed)
  {
    hide RadixCache.Valid, RadixCache.AccessTimes, Tree.Valid, Chained, Inv, RadixCache.Synced, Progress, DemandKeys,
      IsKey, RemoveReady, RemoveNode, OneMore;
    ghost var was := cache.view;
    cache.ValidParts();
    var x := PopMin(heap);
    var bared;
    freed, bared := cache.TakeLeaf(x);
    var key := BaredKey(cache, bared, tree, mode, now);
    ProgressStep(c0, was, keys, heap, victims, x, bared, key);
    rest, more, gone := With(heap - {x}, bared, key), With(keys, bared, key), victims + [x];
    GoneIsMore(c0, was, keys, heap, victims, x, freed);
    DemandKeysMore(c0, cache, heap - {x}, gone, tree.held, mode, now, keys, bared, key);
  }

  method BaredKey(cache: RadixCache, bared: Option<TreeNode>, tree: Tree, mode: Mode, now: int) returns (key: Key)
    requires cache.Valid() && tree.Valid() && (bared.Some? ==> bared.value in cache.view.path)
    ensures Chained(cache.view)
    ensures bared.Some? ==> IsKey(cache.view, tree.held, bared.value, mode, now, bared.value.lastAccessTime, key)
  {
    hide RadixCache.Valid, Tree.Valid, Chained, Inv, IsKey, RadixCache.Synced;
    cache.ValidParts();
    InvChain(cache.view);
    key := [];
    if bared.Some? {
      key := KeyFor(cache, bared.value, tree, mode, now);
    }
  }

  lemma DemandKeysMore(c0: Cache<TreeNode>, cache: RadixCache, heap: map<TreeNode, Key>, victims: seq<TreeNode>,
                       held: Pending, mode: Mode, now: int, keys: map<TreeNode, Key>, bared: Option<TreeNode>, key: Key)
    requires cache.Valid() && Chained(c0) && Chained(cache.view)
    requires Progress(c0, cache.view, With(keys, bared, key), With(heap, bared, key), victims)
    requires DemandKeys(c0, held, mode, now, cache.AccessTimes(), keys)
    requires bared.Some? ==> bared.value in cache.all
    requires bared.Some? ==> IsKey(cache.view, held, bared.value, mode, now, bared.value.lastAccessTime, key)
    ensures DemandKeys(c0, held, mode, now, cache.AccessTimes(), With(keys, bared, key))
    ensures With(heap, bared, key).Keys == cache.view.leaves
  {
    hide Good, Inv, Evicted, IsKey, Progress;
    cache.ValidParts();
    ProgressParts(c0, cache.view, With(keys, bared, key), With(heap, bared, key), victims);
    if bared.Some? {
      KeyStays(c0, cache.view, victims, held, bared.value, mode, now, bared.value.lastAccessTime, key);
    }
  }

  /** One cached token that one pending request wants: as soon as its age weighs it below one, the
      decay mode lets it go like something nobody wants. */
  method DecayForgets(token: Token, index: int, access: int, now: int, decay: real -> real)
    returns (cache: RadixCache, tree: Tree, node: TreeNode, priority: int)
    requires 0.0 <= decay(TimeSince(now, access)) < 1.0
    ensures cache.Valid() && tree.held == map[0 := [token]] && node in InDemand(cache.view, tree.held)
    ensures node.lastAccessTime == access && priority == 0
  {
    hide RadixCache.Valid, Tree.Valid, IsPriority, Chained, Inv, RadixCache.Synced, InDemand;
    tree := new Tree();
    tree.Insert(0, [token]);
    cache, node := CacheOne(token, index, access);
    var mode := ByDecay(decay);
    var last;
    priority, last := GetPriority(cache, node, tree, mode, now);
    cache.ValidParts();
    InvChain(cache.view);
    Forgotten(cache, tree.held, node, token, mode, TimeSince(now, access), priority);
  }

  /** A cache of one token, and its node. */
  method CacheOne(token: Token, index: int, access: int) returns (cache: RadixCache, node: TreeNode)
    ensures fresh(cache) && cache.Valid() && node in cache.view.path && cache.view.path[node] == [token]
    ensures node.lastAccessTime == access
  {
    hide RadixCache.Valid, IsHit, Reads, LeastRecentlyUsed, Touched, MadeNow, GrownAlong, OneMade, Falling, NoneLater,
      HasNode, RadixCache.AccessTimes;
    cache := new RadixCache(LeastRecentlyUsed(), access);
    var prefixLen := cache.Insert([token], [index], access);
    ghost var content := cache.view.content;
    var values;
    values, node := cache.MatchPrefix([token], true, access);
    OneCached(content, token, prefixLen, |values|);
  }

  lemma OneCached(content: map<seq<Token>, int>, token: Token, had: nat, k: nat)
    requires IsHit(map[], [token], had) && IsHit(content, [token], k)
    requires forall p :: p in content <==> p <= [token] && had < |p|
    ensures k == 1 && [token][..k] == [token]
  {
    assert [token][..1] == [token] && ([token] in content <==> had == 0);
  }

  lemma Forgotten(cache: RadixCache, held: Pending, node: TreeNode, token: Token, mode: Mode, age: real, priority: int)
    requires cache.Valid() && node in cache.view.path && cache.view.path[node] == [token] && held == map[0 := [token]]
    requires mode.ByDecay? && 0.0 <= mode.decay(age) < 1.0 && Chained(cache.view) && node in cache.view.st
    requires IsPriority(cache.view, held, node, mode, age, priority)
    ensures node in InDemand(cache.view, held) && priority == 0
  {
    hide Inv, Good, RadixCache.Synced, IsPriority, Weighed, Truncate, Demand;
    ghost var c := cache.view;
    cache.ValidParts();
    InvBuilt(c);
    OneWants(token);
    assert IsAncestor(c, node, node);
    forall m | IsAncestor(c, node, m)
      ensures Weighed(mode, AtRisk(held, c.path[m]), 0, age) < 1.0
    {
      PathsBelowRoot(c, m);
      assert c.path[m] == [token];
      WeighedOne(mode, age);
    }
    WeighedOne(mode, age);
    LetGoFirst(c, held, node, mode, age, priority);
    DecayNotNegative(c, held, node, mode, age, priority);
  }

  lemma OneWants(token: Token)
    ensures Demand(map[0 := [token]], [token]) == 1 && AtRisk(map[0 := [token]], [token]) == 1
  {
    assert Sharers(map[0 := [token]], [token]) == {0};
  }

  lemma WeighedOne(mode: Mode, age: real)
    requires mode.ByDecay? && mode.decay(age) < 1.0
    ensures Weighed(mode, 0, 0, age) < 1.0 && Weighed(mode, 1, 0, age) < 1.0
  {
  }

  lemma DecayNotNegative<N>(c: Cache<N>, held: Pending, n: N, mode: Mode, age: real, priority: int)
    requires Chained(c) && n in c.st && IsPriority(c, held, n, mode, age, priority)
    requires mode.ByDecay? && mode.decay(age) >= 0.0
    ensures priority >= 0
  {
    hide Worst, Stops, PathsTo;
    var paths := PathsTo(c, n);
    var value: nat, length: nat, levels: nat :|
      && Worst(held, paths, |paths|, value, length) && Stops(held, paths, levels, value)
      && priority == Truncate(Weighed(mode, value, levels, age));
    assert value as real * mode.decay(age) >= 0.0;
  }

  lemma PathsBelowRoot<N>(c: Cache<N>, m: N)
    requires Inv(c) && m in c.path && m != c.root
    ensures c.path[m] != []
  {
    Fits(c, m);
  }
}
