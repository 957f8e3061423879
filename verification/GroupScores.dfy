/**
 How engine.py ranks the tagged groups of a cycle, and how many of them it protects.
 */
module GroupScores {
  import opened Prelude
  import opened Sorting
  import opened Sums

  /** What the server knows of a group when it ranks it. */
  datatype Facts = Facts(cached: nat, length: nat, pending: nat, risk: real, wait: real, count: nat, rank: int)

  function Score(f: Facts): real {
    (f.cached as real / (if f.length > 1 then f.length else 1) as real) * 10000.0
    - (if f.pending > 32 then f.pending - 32 else 0) as real
    + f.risk * 100.0 + f.wait * 100.0 + f.count as real * 0.001
  }

  /** Higher scores first, then lower client ranks. */
  function RankKeys(facts: seq<Facts>): (keys: seq<Key>)
    ensures |keys| == |facts| && forall g :: 0 <= g < |facts| ==> keys[g] == [-Score(facts[g]), facts[g].rank as real]
  {
    seq(|facts|, g requires 0 <= g < |facts| => [-Score(facts[g]), facts[g].rank as real])
  }

  // ----- what the order means -----

  /** How much of the prompt is cached. */
  ghost function CachedShare(f: Facts): real {
    f.cached as real / Max(f.length, 1) as real
  }

  /** By how much `f` leads `g`, counted in pending requests beyond a batch of 32. */
  ghost function Lead(f: Facts, g: Facts): real {
    10000.0 * (CachedShare(f) - CachedShare(g)) + 100.0 * (f.risk - g.risk) + 100.0 * (f.wait - g.wait)
    + (f.count - g.count) as real / 1000.0 + (Max(g.pending, 32) - Max(f.pending, 32)) as real
  }

  lemma LeadIs(f: Facts, g: Facts)
    ensures Score(f) - Score(g) == Lead(f, g)
  {
    assert Max(f.length, 1) == if f.length > 1 then f.length else 1;
    assert Max(g.length, 1) == if g.length > 1 then g.length else 1;
  }

  /** Groups come in descending order of their facts, ties by the client's rank and then by arrival. */
  lemma ScoreOrder(facts: seq<Facts>, i: nat, j: nat)
    requires i < j < |facts|
    ensures var order := StableSort(RankKeys(facts));
      var f, g := facts[order[i]], facts[order[j]];
      && Lead(f, g) >= 0.0
      && (Lead(f, g) == 0.0 ==> f.rank <= g.rank && (f.rank == g.rank ==> order[i] < order[j]))
  {
    hide Score, Lead;
    var keys := RankKeys(facts);
    var order := StableSort(keys);
    StableSortOrdered(keys);
    assert Before(keys, order[i], order[j]);
    BeforeIsLead(facts, order[i], order[j]);
  }

  lemma BeforeIsLead(facts: seq<Facts>, x: nat, y: nat)
    requires x < |facts| && y < |facts|
    ensures var f, g := facts[x], facts[y];
      Before(RankKeys(facts), x, y) <==>
        Lead(f, g) > 0.0 || (Lead(f, g) == 0.0 && (f.rank < g.rank || (f.rank == g.rank && x < y)))
  {
    hide Score, Lead;
    var f, g := facts[x], facts[y];
    LeadIs(f, g);
    LexPair(-Score(f), f.rank as real, -Score(g), g.rank as real);
    LexPair(-Score(g), g.rank as real, -Score(f), f.rank as real);
  }

  lemma AheadIsLead(facts: seq<Facts>, x: nat, y: nat)
    requires x < |facts| && y < |facts| && x != y
    ensures var f, g := facts[x], facts[y];
      ListedAhead(StableSort(RankKeys(facts)), x, y) <==>
        Lead(f, g) > 0.0 || (Lead(f, g) == 0.0 && (f.rank < g.rank || (f.rank == g.rank && x < y)))
  {
    hide Lead;
    AheadIffBefore(RankKeys(facts), x, y);
    BeforeIsLead(facts, x, y);
  }

  /** The cached share of the prompt is larger, told without dividing. */
  ghost predicate MoreCached(f: Facts, g: Facts) {
    g.cached * Max(f.length, 1) < f.cached * Max(g.length, 1)
  }

  /** Of two groups that differ in one thing only, the one with more of its prompt cached, more at
      risk, a longer wait, more requests, fewer pending beyond 32, or the lower rank comes first. */
  lemma OneFactOrders(facts: seq<Facts>, x: nat, y: nat)
    requires x < |facts| && y < |facts| && x != y
    ensures var f, g, first := facts[x], facts[y], ListedAhead(StableSort(RankKeys(facts)), x, y);
      && (f == g.(cached := f.cached, length := f.length) && MoreCached(f, g) ==> first)
      && (f == g.(risk := f.risk) && f.risk > g.risk ==> first)
      && (f == g.(wait := f.wait) && f.wait > g.wait ==> first)
      && (f == g.(count := f.count) && f.count > g.count ==> first)
      && (f == g.(pending := f.pending) && f.pending < g.pending && 32 < g.pending ==> first)
      && (f == g.(pending := f.pending) && f.pending <= 32 && g.pending <= 32 ==> (first <==> x < y))
      && (f == g.(rank := f.rank) && f.rank < g.rank ==> first)
  {
    hide CachedShare, MoreCached;
    var f, g := facts[x], facts[y];
    AheadIsLead(facts, x, y);
    LargerShare(f, g);
    SameShare(f, g);
  }

  lemma LargerShare(f: Facts, g: Facts)
    ensures MoreCached(f, g) ==> CachedShare(g) < CachedShare(f)
  {
    var a, b, m, n := f.cached as real, g.cached as real, Max(f.length, 1) as real, Max(g.length, 1) as real;
    if MoreCached(f, g) {
      assert b * m < a * n;
      CrossDivide(a, m, b, n);
    }
  }

  lemma CrossDivide(a: real, m: real, b: real, n: real)
    requires m > 0.0 && n > 0.0 && b * m < a * n
    ensures b / n < a / m
  {
    var p, q := a / m, b / n;
    assert p * m == a && q * n == b;
    assert (p - q) * (m * n) == p * m * n - q * n * m;
    SignOf(p - q, m * n);
  }

  lemma SignOf(x: real, y: real)
    requires y > 0.0 && x * y > 0.0
    ensures x > 0.0
  {
  }

  lemma SameShare(f: Facts, g: Facts)
    ensures f.cached == g.cached && f.length == g.length ==> CachedShare(f) == CachedShare(g)
  {
  }

  /** What a prompt cached in full weighs: 100 units of risk or of wait, ten million requests, or ten
      thousand pending ones beyond a batch.  Against any of these, ranks being equal, arrival decides. */
  lemma ExchangeRates(facts: seq<Facts>, x: nat, y: nat, f: Facts)
    requires x < |facts| && y < |facts| && x != y && f.cached == 0 && f.length > 0
    requires
      var full := f.(cached := f.length);
      || (facts[x] == full && facts[y] == f.(risk := f.risk + 100.0))
      || (facts[x] == full && facts[y] == f.(wait := f.wait + 100.0))
      || (facts[x] == full && facts[y] == f.(count := f.count + 10_000_000))
      || (f.pending >= 32 && facts[x] == full.(pending := f.pending + 10_000) && facts[y] == f)
    ensures ListedAhead(StableSort(RankKeys(facts)), x, y) <==> x < y
  {
    hide CachedShare;
    AheadIsLead(facts, x, y);
    NoneAndAll(f);
    SameShare(facts[x], f.(cached := f.length));
    SameShare(facts[y], f);
  }

  lemma NoneAndAll(f: Facts)
    requires f.cached == 0 && f.length > 0
    ensures CachedShare(f) == 0.0 && CachedShare(f.(cached := f.length)) == 1.0
  {
    DivMul(f.length as real, f.length as real);
  }

  // ----- how many groups to protect -----

  /** How many groups of mean length, at least one token, the cached tokens have room for. */
  function Room(groups: nat, total: nat, lengths: nat): real
    requires groups > 0
  {
    var mean := lengths as real / groups as real;
    total as real / if mean > 1.0 then mean else 1.0
  }

  /** Three quarters of the groups the cached tokens have room for, but at least one. */
  function ProtectCount(groups: nat, total: nat, lengths: nat): (k: nat)
    ensures k <= groups && (groups > 0 ==> k > 0)
  {
    var capacity := if groups > 0 && total > 0 then Room(groups, total, lengths).Floor else groups;
    Min(groups, Max(1, capacity * 3 / 4))
  }

  /** Unless a single group is protected, the protected ones need, at the mean prompt length, at
      most three quarters of what is cached; and unless all are, two more would need more than that.
      With nothing cached, three quarters of the groups are protected. */
  lemma ProtectBudget(groups: nat, total: nat, lengths: nat)
    requires groups > 0
    ensures var k := ProtectCount(groups, total, lengths);
      var fair := Max(lengths, groups);
      && (total > 0 && k > 1 ==> 4 * k * fair <= 3 * (total * groups))
      && (total > 0 && k < groups ==> 3 * (total * groups) < (4 * k + 7) * fair)
      && (total == 0 && k > 1 ==> 4 * k <= 3 * groups)
      && (total == 0 && k < groups ==> 3 * groups < 4 * (k + 1))
  {
    hide Room;
    if total > 0 {
      var room := Room(groups, total, lengths);
      var f, fair := room.Floor, Max(lengths, groups);
      RoomAtMean(groups, total, lengths);
      FloorTimes(room, f, fair, total * groups);
      ThreeQuarters(groups, f, fair, total * groups);
    }
  }

  lemma ThreeQuarters(groups: nat, f: nat, fair: nat, have: nat)
    requires f * fair <= have < (f + 1) * fair
    ensures var k := Min(groups, Max(1, f * 3 / 4));
      (k > 1 ==> 4 * k * fair <= 3 * have) && (k < groups ==> 3 * have < (4 * k + 7) * fair)
  {
    var k := Min(groups, Max(1, f * 3 / 4));
    Quarters(groups, f);
    if k > 1 {
      Threefold(4 * k, f, fair, have);
    }
    if k < groups {
      ThreefoldBelow(4 * k + 7, f + 1, fair, have);
    }
  }

  lemma Quarters(groups: nat, f: nat)
    ensures var k := Min(groups, Max(1, f * 3 / 4));
      (k > 1 ==> 4 * k <= 3 * f) && (k < groups ==> 3 * (f + 1) <= 4 * k + 7)
  {
  }

  lemma Threefold(a: nat, f: nat, fair: nat, have: nat)
    requires a <= 3 * f && f * fair <= have
    ensures a * fair <= 3 * have
  {
    TimesAsMuch(a, 3 * f, fair);
    assert 3 * f * fair == 3 * (f * fair);
  }

  lemma ThreefoldBelow(a: nat, f: nat, fair: nat, have: nat)
    requires 3 * f <= a && have < f * fair
    ensures 3 * have < a * fair
  {
    TimesAsMuch(3 * f, a, fair);
    assert 3 * f * fair == 3 * (f * fair);
  }

  lemma TimesAsMuch(a: int, b: int, c: nat)
    requires a <= b
    ensures a * c <= b * c
  {
  }

  lemma RoomAtMean(groups: nat, total: nat, lengths: nat)
    requires groups > 0
    ensures Room(groups, total, lengths) * Max(lengths, groups) as real == (total * groups) as real
  {
    var g, mean := groups as real, lengths as real / groups as real;
    var avg := if mean > 1.0 then mean else 1.0;
    DivMul(lengths as real, g);
    DivMul(total as real, avg);
    assert avg * g == Max(lengths, groups) as real by { MeanOrOne(mean, g, lengths as real); }
    assert total as real / avg * (avg * g) == total as real * g;
  }

  lemma MeanOrOne(mean: real, g: real, lengths: real)
    requires g > 0.0 && mean * g == lengths
    ensures (if mean > 1.0 then mean else 1.0) * g == if lengths > g then lengths else g
  {
    assert mean > 1.0 ==> (mean - 1.0) * g > 0.0;
    assert mean <= 1.0 ==> (1.0 - mean) * g >= 0.0;
  }

  lemma DivMul(x: real, y: real)
    requires y > 0.0
    ensures x / y * y == x
  {
  }

  lemma FloorTimes(room: real, f: int, fair: nat, have: nat)
    requires fair > 0 && room * fair as real == have as real && f == room.Floor
    ensures f >= 0 && f * fair <= have < (f + 1) * fair
  {
    FloorTimesReal(room, f as real, fair as real, have as real);
    AsReal(f, fair);
    NextTimes(f, fair);
    RealOrder(f * fair, have, fair);
  }

  lemma FloorTimesReal(room: real, f: real, r: real, have: real)
    requires r > 0.0 && have >= 0.0 && room * r == have && f <= room < f + 1.0
    ensures room >= 0.0 && f * r <= have < f * r + r
  {
    var next := f + 1.0;
    Scaled(f, room, r);
    Scaled(next, room, r);
    var low, high := f * r, next * r;
    assert high == low + r;
    assert low <= have < high;
  }

  lemma Scaled(a: real, b: real, r: real)
    requires r > 0.0
    ensures a <= b <==> a * r <= b * r
    ensures b * r >= 0.0 ==> b >= 0.0
  {
    assert (b - a) * r == b * r - a * r;
  }

  lemma NextTimes(a: int, b: int)
    ensures (a + 1) * b == a * b + b
  {
  }

  lemma RealOrder(x: int, y: int, z: int)
    ensures x as real <= y as real ==> x <= y
    ensures y as real < x as real + z as real ==> y < x + z
  {
  }

  lemma AsReal(a: int, b: int)
    ensures (a * b) as real == a as real * b as real
  {
  }

  // ----- the lengths added up -----

  function SumLengths(facts: seq<Facts>): nat {
    if facts == [] then 0 else SumLengths(facts[..|facts| - 1]) + facts[|facts| - 1].length
  }

  ghost function Lengths(facts: seq<Facts>): map<nat, nat> {
    map g: nat | g < |facts| :: facts[g].length
  }

  /** Every group counts once, with the length of its first request. */
  lemma {:induction false} SumLengthsIsSum(facts: seq<Facts>)
    ensures SumLengths(facts) == Sum(Lengths(facts), Lengths(facts).Keys)
  {
    if facts == [] {
      assert Lengths(facts).Keys == {};
    } else {
      var n := |facts| - 1;
      var front := facts[..n];
      SumLengthsIsSum(front);
      assert Lengths(facts).Keys == Lengths(front).Keys + {n};
      SumSame<nat>(Lengths(front), Lengths(facts), Lengths(front).Keys);
      SumAdd<nat>(Lengths(facts), Lengths(front).Keys, n);
    }
  }
}
