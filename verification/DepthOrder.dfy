/**
 In which order the queue-depth reorder of engine.py schedules its groups, told in prompts, cached
 tokens and numbers of requests.
 */
module DepthOrder {
  import opened Prelude
  import opened Sorting
  import opened Grouping
  import opened Sums
  import opened DepthReordering

  // ----- the groups -----

  /** The same prompt, or the same first 64 tokens. */
  ghost predicate SamePrefix(p: seq<Token>, q: seq<Token>) {
    p == q || (|p| >= 64 && |q| >= 64 && p[..64] == q[..64])
  }

  /** A group holds, in queue order, the requests not held back that share a prefix with its first. */
  lemma GroupHolds(items: seq<Item>, group: seq<nat>)
    requires IsGroup(items, group) && group != []
    ensures group[0] < |items|
    ensures forall x: nat {:trigger x in group} ::
      x in group <==> x < |items| && !items[x].heldBack && SamePrefix(items[x].prompt, items[group[0]].prompt)
    ensures forall i, j :: 0 <= i < j < |group| ==> group[i] < group[j]
  {
    var k :| group == Members(KeysWhere(items, false), k);
    MembersIncrease(KeysWhere(items, false), k);
    assert group[0] in group;
    forall x: nat | x < |items|
      ensures GroupSortKey(items[x].prompt) == k <==> SamePrefix(items[x].prompt, items[group[0]].prompt)
    {
    }
  }

  ghost function CachedOf(items: seq<Item>): map<nat, nat> {
    map x: nat | x < |items| :: items[x].cached
  }

  ghost function MembersOf(group: seq<nat>): set<nat> {
    set x | x in group
  }

  /** Every member counts once, with what is cached of it. */
  lemma {:induction false} TotalCachedIs(items: seq<Item>, group: seq<nat>)
    requires NoDup(group) && forall i :: 0 <= i < |group| ==> group[i] < |items|
    ensures MembersOf(group) <= CachedOf(items).Keys
    ensures TotalCached(items, group) == Sum(CachedOf(items), MembersOf(group))
  {
    if group == [] {
      assert MembersOf(group) == {};
    } else {
      var n := |group| - 1;
      TotalCachedIs(items, group[..n]);
      assert MembersOf(group) == MembersOf(group[..n]) + {group[n]};
      SumAdd<nat>(CachedOf(items), MembersOf(group[..n]), group[n]);
    }
  }

  // ----- the order -----

  /** How much of its prompts, each taken as long as the first, the group has cached. */
  ghost function GroupShare(items: seq<Item>, group: seq<nat>): real
    requires group != [] && forall i :: 0 <= i < |group| ==> group[i] < |items|
  {
    TotalCached(items, group) as real / Max(|group| * |items[group[0]].prompt|, 1) as real
  }

  /** By how many requests the group at `x` leads the one at `y`. */
  ghost function GroupLead(items: seq<Item>, stats: seq<seq<nat>>, targets: nat, x: nat, y: nat): real
    requires GroupsOf(items, stats) && x < |stats| && y < |stats|
  {
    (if x < targets <= y then 10000.0 else if y < targets <= x then -10000.0 else 0.0)
    + 1000.0 * (GroupShare(items, stats[x]) - GroupShare(items, stats[y])) + (|stats[x]| - |stats[y]|) as real
  }

  /** Being a target is worth ten thousand requests, a group cached in full one thousand; ties go by
      investment and then by first appearance. */
  lemma ScheduledAhead(items: seq<Item>, stats: seq<seq<nat>>, targets: nat, x: nat, y: nat)
    requires GroupsOf(items, stats) && x < |stats| && y < |stats| && x != y
    ensures ListedAhead(StableSort(ScoreKeys(items, stats, targets)), x, y) <==>
      GroupLead(items, stats, targets, x, y) > 0.0 || (GroupLead(items, stats, targets, x, y) == 0.0 && x < y)
  {
    hide StableSort, GroupsOf, LexLess;
    var keys := ScoreKeys(items, stats, targets);
    AheadIffBefore(keys, x, y);
    KeyScores(items, stats, targets, x);
    KeyScores(items, stats, targets, y);
    LexOne(keys[x], keys[y]);
    LexOne(keys[y], keys[x]);
  }

  lemma LexOne(a: Key, b: Key)
    requires |a| == |b| == 1
    ensures LexLess(a, b) <==> a[0] < b[0]
  {
    LexHead(a, b);
  }

  lemma KeyScores(items: seq<Item>, stats: seq<seq<nat>>, targets: nat, x: nat)
    requires GroupsOf(items, stats) && x < |stats|
    ensures stats[x] != [] && forall i :: 0 <= i < |stats[x]| ==> stats[x][i] < |items|
    ensures ScoreKeys(items, stats, targets)[x] ==
      [-((if x < targets then 10000.0 else 0.0) + 1000.0 * GroupShare(items, stats[x]) + |stats[x]| as real)]
  {
    hide TotalCached;
    var slots := |items[stats[x][0]].prompt| * |stats[x]|;
    assert slots == |stats[x]| * |items[stats[x][0]].prompt|;
  }

  /** A group with more cached goes first if nothing else differs, and so does one with more
      requests for the same share. */
  lemma OneFactSchedules(items: seq<Item>, stats: seq<seq<nat>>, targets: nat, x: nat, y: nat)
    requires GroupsOf(items, stats) && x < |stats| && y < |stats| && x != y && (x < targets <==> y < targets)
    ensures var first := ListedAhead(StableSort(ScoreKeys(items, stats, targets)), x, y);
      var f, g := stats[x], stats[y];
      var alike := |f| == |g| && |items[f[0]].prompt| == |items[g[0]].prompt|;
      && (alike && TotalCached(items, f) > TotalCached(items, g) ==> first)
      && (TotalCached(items, f) == TotalCached(items, g) == 0 && |f| > |g| ==> first)
  {
    hide StableSort, GroupsOf, TotalCached;
    ScheduledAhead(items, stats, targets, x, y);
    KeyScores(items, stats, targets, x);
    KeyScores(items, stats, targets, y);
    var f, g := stats[x], stats[y];
    MoreShare(TotalCached(items, f) as real, TotalCached(items, g) as real,
      Max(|f| * |items[f[0]].prompt|, 1) as real);
    NoShare(Max(|f| * |items[f[0]].prompt|, 1) as real);
    NoShare(Max(|g| * |items[g[0]].prompt|, 1) as real);
  }

  lemma MoreShare(a: real, b: real, n: real)
    requires n > 0.0
    ensures a > b ==> a / n > b / n
  {
    assert a / n * n == a && b / n * n == b;
    assert (a / n - b / n) * n == a - b;
  }

  lemma NoShare(n: real)
    requires n > 0.0
    ensures 0.0 / n == 0.0
  {
  }

  /** The promise that targets come first holds up to nine thousand requests more in the other
      group, whatever is cached of either. */
  lemma TargetsFirst(items: seq<Item>, stats: seq<seq<nat>>, targets: nat, x: nat, y: nat)
    requires GroupsOf(items, stats) && x < targets <= y < |stats|
    requires TotalCached(items, stats[y]) <= |stats[y]| * |items[stats[y][0]].prompt|
    requires |stats[y]| <= |stats[x]| + 9000
    ensures ListedAhead(StableSort(ScoreKeys(items, stats, targets)), x, y)
  {
    hide StableSort, GroupsOf, TotalCached;
    ScheduledAhead(items, stats, targets, x, y);
    KeyScores(items, stats, targets, x);
    KeyScores(items, stats, targets, y);
    var f, g := stats[x], stats[y];
    ShareBounds(TotalCached(items, f) as real, Max(|f| * |items[f[0]].prompt|, 1) as real);
    ShareBounds(TotalCached(items, g) as real, Max(|g| * |items[g[0]].prompt|, 1) as real);
  }

  lemma ShareBounds(a: real, n: real)
    requires a >= 0.0 && n > 0.0
    ensures a / n >= 0.0 && (a <= n ==> a / n <= 1.0)
  {
    assert a / n * n == a && (1.0 - a / n) * n == n - a;
  }

  /** And it fails beyond: with nothing cached of either, a group that is no target overtakes a
      target exactly when it has over ten thousand requests more. */
  lemma TargetOvertaken(items: seq<Item>, stats: seq<seq<nat>>, targets: nat, x: nat, y: nat)
    requires GroupsOf(items, stats) && x < targets <= y < |stats|
    requires TotalCached(items, stats[x]) == 0 && TotalCached(items, stats[y]) == 0
    ensures ListedAhead(StableSort(ScoreKeys(items, stats, targets)), y, x) <==> |stats[y]| > |stats[x]| + 10000
  {
    hide StableSort, GroupsOf, TotalCached;
    ScheduledAhead(items, stats, targets, y, x);
    KeyScores(items, stats, targets, x);
    KeyScores(items, stats, targets, y);
    NoShare(Max(|stats[x]| * |items[stats[x][0]].prompt|, 1) as real);
    NoShare(Max(|stats[y]| * |items[stats[y][0]].prompt|, 1) as real);
  }
}
