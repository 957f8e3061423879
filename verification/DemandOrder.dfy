/**
 What the priorities of eviction.py mean and in which order they let leaves go, told in requests,
 tokens and clock readings.
 */
module DemandOrder {
  import opened Prelude
  import opened Demands
  import opened CacheStore
  import opened CacheEviction
  import opened DemandEviction
  import opened Sorting

  /** The greatest number of requests times tokens is one number. */
  lemma MostIsOne<N>(c: Cache<N>, held: Pending, n: N, v: nat, lv: nat, w: nat, lw: nat)
    requires n in c.path && MostAtRisk(c, held, n, v, lv) && MostAtRisk(c, held, n, w, lw)
    ensures v == w && lv == lw
  {
    hide Demand;
    if v > 0 {
      var m :| m in c.path && IsAncestor(c, n, m) && |c.path[m]| == lv && Demand(held, c.path[m]) * |c.path[m]| == v;
    }
    if w > 0 {
      var m :| m in c.path && IsAncestor(c, n, m) && |c.path[m]| == lw && Demand(held, c.path[m]) * |c.path[m]| == w;
    }
  }

  /** Seconds since the last access, none for a node never accessed or accessed ahead of the clock. */
  ghost predicate AgeOf(now: int, access: int, age: real) {
    if access == 0 || access > now then age == 0.0 else age == now as real - access as real
  }

  /** What a mode makes of the most at risk, after so many levels and at such an age. */
  ghost predicate Means(mode: Mode, value: nat, levels: nat, age: real, priority: int) {
    match mode
    case Plain => priority == value
    case ByCluster => priority == value + value * levels
    case ByRecency(weight) => WholePart(priority, value as real - weight * age)
    case ByDecay(decay) => WholePart(priority, decay(age) * value as real)
  }

  /** The key of a node, told by its ancestors and the clocks. */
  lemma KeyMeans<N>(c: Cache<N>, held: Pending, n: N, mode: Mode, now: int, access: int, key: Key)
    returns (value: nat, length: nat, levels: nat, age: real, priority: int)
    requires Inv(c) && Chained(c) && IsKey(c, held, n, mode, now, access, key)
    ensures n in c.path && MostAtRisk(c, held, n, value, length) && AgeOf(now, access, age)
    ensures Stops(held, PathsTo(c, n), levels, value)
    ensures Means(mode, value, levels, age, priority) && key == [priority as real, access as real]
  {
    hide Inv, Worst, Stops, PathsTo, MostAtRisk;
    age := TimeSince(now, access);
    priority :| IsPriority(c, held, n, mode, age, priority) && key == [priority as real, access as real];
    var paths := PathsTo(c, n);
    value, length, levels :| Worst(held, paths, |paths|, value, length) && Stops(held, paths, levels, value)
      && priority == Truncate(Weighed(mode, value, levels, age));
    WorstOfAll(c, held, n, value, length);
    WeighedMeans(mode, value, levels, age);
  }

  lemma WeighedMeans(mode: Mode, value: nat, levels: nat, age: real)
    ensures Means(mode, value, levels, age, Truncate(Weighed(mode, value, levels, age)))
  {
    if mode.ByCluster? {
      assert value * (1 + levels) == value + value * levels;
    }
    TruncateIsWhole(Weighed(mode, value, levels, age));
  }

  /** In the plain mode a leaf goes before every other one whose ancestors have more requests times
      tokens at stake, and among equals the least recently used goes first. */
  lemma PlainOrder<N>(c: Cache<N>, held: Pending, now: int, access: map<N, int>, keys: map<N, Key>, victims: seq<N>,
                      i: nat, y: N, vx: nat, lx: nat, vy: nat, ly: nat)
    requires Inv(c) && Chained(c) && c.path.Keys <= c.st.Keys && LeastFirst(c, keys, victims)
    requires DemandKeys(c, held, Plain, now, access, keys) && i < |victims|
    requires y in c.path && LeafAfter(c, victims[..i], y) && victims[i] in c.path
    requires MostAtRisk(c, held, victims[i], vx, lx) && MostAtRisk(c, held, y, vy, ly)
    ensures victims[i] in access && y in access
    ensures vx < vy || (vx == vy && access[victims[i]] <= access[y])
  {
    hide Inv, LeafAfter, IsKey, MostAtRisk, LexLess;
    var x := victims[i];
    assert LeastAmong(c, keys, victims[..i], x);
    var v, l, levels, age, p := KeyMeans(c, held, x, Plain, now, access[x], keys[x]);
    var w, m, below, since, q := KeyMeans(c, held, y, Plain, now, access[y], keys[y]);
    MostIsOne(c, held, x, v, l, vx, lx);
    MostIsOne(c, held, y, w, m, vy, ly);
    LexPair(q as real, access[y] as real, p as real, access[x] as real);
  }

  /** The walk stops after one number of levels. */
  lemma LevelsAreOne(held: Pending, paths: seq<seq<Token>>, value: nat, levels: nat, others: nat)
    requires Stops(held, paths, levels, value) && Stops(held, paths, others, value)
    ensures levels == others
  {
  }

  /** The cluster mode multiplies the stake by one more than the levels walked. */
  lemma ClusterOrder<N>(c: Cache<N>, held: Pending, now: int, access: map<N, int>, keys: map<N, Key>, victims: seq<N>,
                        i: nat, y: N, vx: nat, lx: nat, nx: nat, vy: nat, ly: nat, ny: nat)
    requires Inv(c) && Chained(c) && c.path.Keys <= c.st.Keys && LeastFirst(c, keys, victims)
    requires DemandKeys(c, held, ByCluster, now, access, keys) && i < |victims|
    requires y in c.path && LeafAfter(c, victims[..i], y) && victims[i] in c.path && victims[i] in c.st
    requires MostAtRisk(c, held, victims[i], vx, lx) && Stops(held, PathsTo(c, victims[i]), nx, vx)
    requires MostAtRisk(c, held, y, vy, ly) && Stops(held, PathsTo(c, y), ny, vy)
    ensures victims[i] in access && y in access
    ensures var sx, sy := vx + vx * nx, vy + vy * ny; sx < sy || (sx == sy && access[victims[i]] <= access[y])
  {
    hide Inv, LeafAfter, IsKey, MostAtRisk, LexLess, Stops, PathsTo;
    var x := victims[i];
    assert LeastAmong(c, keys, victims[..i], x);
    var v, l, levels, age, p := KeyMeans(c, held, x, ByCluster, now, access[x], keys[x]);
    var w, m, below, since, q := KeyMeans(c, held, y, ByCluster, now, access[y], keys[y]);
    MostIsOne(c, held, x, v, l, vx, lx);
    MostIsOne(c, held, y, w, m, vy, ly);
    LevelsAreOne(held, PathsTo(c, x), v, levels, nx);
    LevelsAreOne(held, PathsTo(c, y), w, below, ny);
    LexPair(q as real, access[y] as real, p as real, access[x] as real);
  }

  /** A weight that age cannot raise. */
  ghost predicate Fading(mode: Mode) {
    match mode
    case ByRecency(weight) => weight >= 0.0
    case ByDecay(decay) => forall a: real, b: real {:trigger decay(a), decay(b)} :: a <= b ==> decay(b) <= decay(a)
    case _ => true
  }

  /** With as much at risk on both, the leaf accessed longer ago goes first in every mode but the
      cluster mode; one never accessed counts as accessed just now. */
  lemma OlderFirst<N>(c: Cache<N>, held: Pending, mode: Mode, now: int, access: map<N, int>, keys: map<N, Key>,
                      victims: seq<N>, i: nat, y: N, value: nat, lx: nat, ly: nat)
    requires Inv(c) && Chained(c) && c.path.Keys <= c.st.Keys && LeastFirst(c, keys, victims)
    requires DemandKeys(c, held, mode, now, access, keys) && i < |victims| && Fading(mode)
    requires y in c.path && LeafAfter(c, victims[..i], y) && victims[i] in c.path
    requires MostAtRisk(c, held, victims[i], value, lx) && MostAtRisk(c, held, y, value, ly) && !mode.ByCluster?
    ensures victims[i] in access && y in access
    ensures access[y] != 0 ==> access[victims[i]] <= access[y]
  {
    hide Inv, LeafAfter, IsKey, MostAtRisk, LexLess, WholePart;
    var x := victims[i];
    assert LeastAmong(c, keys, victims[..i], x);
    var v, l, levels, age, p := KeyMeans(c, held, x, mode, now, access[x], keys[x]);
    var w, m, below, since, q := KeyMeans(c, held, y, mode, now, access[y], keys[y]);
    MostIsOne(c, held, x, v, l, value, lx);
    MostIsOne(c, held, y, w, m, value, ly);
    LexPair(q as real, access[y] as real, p as real, access[x] as real);
    if access[y] != 0 && access[y] < access[x] {
      OlderNoHigher(mode, value, levels, below, age, since, p, q);
      assert false;
    }
  }

  lemma OlderNoHigher(mode: Mode, value: nat, levels: nat, below: nat, age: real, since: real, p: int, q: int)
    requires Fading(mode) && !mode.ByCluster? && age <= since
    requires Means(mode, value, levels, age, p) && Means(mode, value, below, since, q)
    ensures q <= p
  {
    match mode
    case Plain =>
    case ByCluster =>
    case ByRecency(weight) => RecencyFades(weight, value as real, age, since, p, q);
    case ByDecay(decay) => DecayFades(decay(age), decay(since), value as real, p, q);
  }

  lemma RecencyFades(weight: real, value: real, age: real, since: real, p: int, q: int)
    requires weight >= 0.0 && age <= since
    requires WholePart(p, value - weight * age) && WholePart(q, value - weight * since)
    ensures q <= p
  {
    hide WholePart;
    assert weight * since == weight * age + weight * (since - age);
    WholeMonotone(q, value - weight * since, p, value - weight * age);
  }

  lemma DecayFades(a: real, b: real, value: real, p: int, q: int)
    requires value >= 0.0 && b <= a && WholePart(p, a * value) && WholePart(q, b * value)
    ensures q <= p
  {
    hide WholePart;
    assert a * value == b * value + (a - b) * value;
    WholeMonotone(q, b * value, p, a * value);
  }
}
