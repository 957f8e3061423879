/**
 The queue-depth reorder of engine.py for queues without tags: groups by prompt prefix, a set
 of groups worth investing cache in, and the requests held back by the in-batch check last.
 */
module DepthReordering {
  import opened Prelude
  import opened Sorting
  import opened Grouping

  const KEY_LEN: nat := 64

  datatype Item = Item(prompt: seq<Token>, cached: nat, heldBack: bool)

  function GroupSortKey(prompt: seq<Token>): seq<Token> {
    if |prompt| >= KEY_LEN then prompt[..KEY_LEN] else prompt
  }

  function AllKeys(items: seq<Item>): (keys: seq<Option<seq<Token>>>)
    ensures |keys| == |items| && forall x :: 0 <= x < |items| ==> keys[x] == Some(GroupSortKey(items[x].prompt))
  {
    seq(|items|, x requires 0 <= x < |items| => Some(GroupSortKey(items[x].prompt)))
  }

  /** The keys of the requests that are, or are not, held back. */
  ghost function KeysWhere(items: seq<Item>, heldBack: bool): (keys: seq<Option<seq<Token>>>)
    ensures |keys| == |items|
    ensures forall x :: 0 <= x < |items| ==>
      keys[x] == if items[x].heldBack == heldBack then Some(GroupSortKey(items[x].prompt)) else None
  {
    seq(|items|, x requires 0 <= x < |items| =>
      if items[x].heldBack == heldBack then Some(GroupSortKey(items[x].prompt)) else None)
  }

  ghost function Filter(items: seq<Item>, members: seq<nat>, heldBack: bool): seq<nat>
    requires forall i :: 0 <= i < |members| ==> members[i] < |items|
  {
    if members == [] then []
    else
      var n := |members| - 1;
      Filter(items, members[..n], heldBack) + if items[members[n]].heldBack == heldBack then [members[n]] else []
  }

  lemma {:induction false} FilterAppend(items: seq<Item>, more: seq<Item>, members: seq<nat>, heldBack: bool)
    requires (forall i :: 0 <= i < |members| ==> members[i] < |items|) && items <= more
    ensures Filter(items, members, heldBack) == Filter(more, members, heldBack)
  {
    if members != [] {
      FilterAppend(items, more, members[..|members| - 1], heldBack);
    }
  }

  /** Filtering a group is grouping what the filter lets through. */
  lemma {:induction false} FilterIsMembers(items: seq<Item>, k: seq<Token>, heldBack: bool)
    ensures Filter(items, Members(AllKeys(items), k), heldBack) == Members(KeysWhere(items, heldBack), k)
  {
    hide Filter, Members, AllKeys, KeysWhere;
    if items == [] {
      NothingToFilter(items, k, heldBack);
    } else {
      var n := |items| - 1;
      var init := items[..n];
      FilterIsMembers(init, k, heldBack);
      assert AllKeys(items)[..n] == AllKeys(init) && KeysWhere(items, heldBack)[..n] == KeysWhere(init, heldBack);
      var front := Members(AllKeys(init), k);
      FilterAppend(init, items, front, heldBack);
      MembersLast(AllKeys(items), k);
      MembersLast(KeysWhere(items, heldBack), k);
      FilterLast(items, front, n, heldBack);
    }
  }

  lemma NothingToFilter(items: seq<Item>, k: seq<Token>, heldBack: bool)
    requires items == []
    ensures Members(AllKeys(items), k) == Members(KeysWhere(items, heldBack), k) == []
    ensures Filter(items, [], heldBack) == []
  {
  }

  lemma MembersLast(keys: seq<Option<seq<Token>>>, k: seq<Token>)
    requires keys != []
    ensures var n := |keys| - 1;
      Members(keys, k) == if keys[n] == Some(k) then Members(keys[..n], k) + [n] else Members(keys[..n], k)
  {
  }

  lemma FilterLast(items: seq<Item>, front: seq<nat>, n: nat, heldBack: bool)
    requires n < |items| && forall i :: 0 <= i < |front| ==> front[i] < |items|
    ensures Filter(items, front + [n], heldBack) ==
      if items[n].heldBack == heldBack then Filter(items, front, heldBack) + [n] else Filter(items, front, heldBack)
  {
    assert (front + [n])[..|front|] == front;
  }

  /** Split a group into the requests to schedule and the ones held back. */
  method Split(items: seq<Item>, members: seq<nat>) returns (normal: seq<nat>, back: seq<nat>)
    requires forall i :: 0 <= i < |members| ==> members[i] < |items|
    ensures normal == Filter(items, members, false) && back == Filter(items, members, true)
  {
    normal, back := [], [];
    var i := 0;
    while i < |members|
      invariant i <= |members| && normal == Filter(items, members[..i], false)
      invariant back == Filter(items, members[..i], true)
    {
      assert members[..i + 1][..i] == members[..i];
      if items[members[i]].heldBack {
        back := back + [members[i]];
      } else {
        normal := normal + [members[i]];
      }
      i := i + 1;
    }
    assert members[..i] == members;
  }

  /** The groups of `ks` with anybody in them. */
  ghost predicate Collected(items: seq<Item>, ks: seq<seq<Token>>, kept: seq<seq<Token>>, groups: seq<seq<nat>>,
                            back: seq<seq<nat>>)
  {
    && |kept| == |groups| && |back| == |ks| && NoDup(kept)
    && (forall i {:trigger groups[i]} :: 0 <= i < |groups| ==>
      kept[i] in ks && groups[i] != [] && groups[i] == Members(KeysWhere(items, false), kept[i]))
    && (forall i {:trigger ks[i]} :: 0 <= i < |ks| ==> Members(KeysWhere(items, false), ks[i]) == [] || ks[i] in kept)
    && forall i {:trigger back[i]} :: 0 <= i < |back| ==> back[i] == Members(KeysWhere(items, true), ks[i])
  }

  method Collect(items: seq<Item>) returns (ghost kept: seq<seq<Token>>, groups: seq<seq<nat>>, back: seq<seq<nat>>)
    ensures Collected(items, FirstSeen(AllKeys(items)), kept, groups, back)
  {
    var table, ks := GroupBy(AllKeys(items));
    kept, groups, back := [], [], [];
    var i := 0;
    while i < |ks|
      invariant i <= |ks| && Collected(items, ks[..i], kept, groups, back)
    {
      assert ks[i] in ks;
      var normal, held := Split(items, table[ks[i]]);
      FilterIsMembers(items, ks[i], false);
      FilterIsMembers(items, ks[i], true);
      CollectStep(items, ks, i, kept, groups, back);
      if normal != [] {
        kept, groups := kept + [ks[i]], groups + [normal];
      }
      back := back + [held];
      i := i + 1;
    }
    assert ks[..i] == ks;
  }

  lemma CollectStep(items: seq<Item>, ks: seq<seq<Token>>, i: nat, kept: seq<seq<Token>>, groups: seq<seq<nat>>,
                    back: seq<seq<nat>>)
    requires NoDup(ks) && i < |ks| && Collected(items, ks[..i], kept, groups, back)
    ensures var normal, held := Members(KeysWhere(items, false), ks[i]), Members(KeysWhere(items, true), ks[i]);
      if normal == [] then Collected(items, ks[..i + 1], kept, groups, back + [held])
      else Collected(items, ks[..i + 1], kept + [ks[i]], groups + [normal], back + [held])
  {
    hide Members, KeysWhere;
    var less, more := ks[..i], ks[..i + 1];
    assert more == less + [ks[i]];
    forall j | 0 <= j < |kept|
      ensures kept[j] in less
    {
      assert groups[j] != [];
    }
    assert forall j :: 0 <= j < i ==> less[j] == ks[j];
    NoDupConcat(kept, [ks[i]]);
  }

  // ----- which groups to invest in -----

  /** Demand times prompt length. */
  function Investment(items: seq<Item>, group: seq<nat>): nat
    requires group != [] && group[0] < |items|
  {
    |group| * |items[group[0]].prompt|
  }

  ghost function TotalLength(lengths: seq<nat>): nat {
    if lengths == [] then 0 else TotalLength(lengths[..|lengths| - 1]) + lengths[|lengths| - 1]
  }

  /** Groups are taken in order while they fit; the first is taken whatever its length, and all are
      when there is no budget. */
  method ChooseTargets(lengths: seq<nat>, budget: int) returns (count: nat)
    ensures count <= |lengths|
    ensures budget <= 0 ==> count == |lengths|
    ensures budget > 0 && |lengths| > 0 ==> count > 0
    ensures budget > 0 && count > 1 ==> TotalLength(lengths[..count]) <= budget
    ensures budget > 0 && count < |lengths| ==> TotalLength(lengths[..count + 1]) > budget
  {
    if budget <= 0 {
      return |lengths|;
    }
    var used := 0;
    count := 0;
    while count < |lengths|
      invariant count <= |lengths| && used == TotalLength(lengths[..count]) && (count > 1 ==> used <= budget)
    {
      assert lengths[..count + 1][..count] == lengths[..count];
      if used + lengths[count] > budget && count > 0 {
        return;
      }
      used := used + lengths[count];
      count := count + 1;
    }
  }

  function ScoreKey(items: seq<Item>, group: seq<nat>, target: bool): Key
    requires group != [] && forall i :: 0 <= i < |group| ==> group[i] < |items|
  {
    var slots := |items[group[0]].prompt| * |group|;
    var perSlot := TotalCached(items, group) as real / (if slots > 1 then slots else 1) as real;
    [-((if target then 10000.0 else 0.0) + perSlot * 1000.0 + |group| as real)]
  }

  function TotalCached(items: seq<Item>, group: seq<nat>): nat
    requires forall i :: 0 <= i < |group| ==> group[i] < |items|
  {
    if group == [] then 0 else TotalCached(items, group[..|group| - 1]) + items[group[|group| - 1]].cached
  }

  ghost predicate GroupsOf(items: seq<Item>, groups: seq<seq<nat>>) {
    forall g {:trigger groups[g]} :: 0 <= g < |groups| ==>
      groups[g] != [] && forall i :: 0 <= i < |groups[g]| ==> groups[g][i] < |items|
  }

  /** All the requests of one prompt prefix that are not held back. */
  ghost predicate IsGroup(items: seq<Item>, group: seq<nat>) {
    exists k {:trigger Members(KeysWhere(items, false), k)} :: group == Members(KeysWhere(items, false), k)
  }

  /** The groups whose first request has something cached. */
  ghost function WithCache(items: seq<Item>, groups: seq<seq<nat>>): seq<seq<nat>>
    requires GroupsOf(items, groups)
  {
    if groups == [] then []
    else
      var n := |groups| - 1;
      WithCache(items, groups[..n]) + if items[groups[n][0]].cached > 0 then [groups[n]] else []
  }

  /** Exactly those of the groups, in their order. */
  lemma {:induction false} WithCacheIs(items: seq<Item>, groups: seq<seq<nat>>, g: seq<nat>)
    requires GroupsOf(items, groups)
    ensures |WithCache(items, groups)| <= |groups|
    ensures g in WithCache(items, groups) <==> g in groups && items[g[0]].cached > 0
  {
    if groups != [] {
      var n := |groups| - 1;
      assert groups == groups[..n] + [groups[n]];
      WithCacheIs(items, groups[..n], g);
    }
  }

  /** The nodes to protect are those of the targets whose first request has something cached. */
  method ProtectTargets(items: seq<Item>, targets: seq<seq<nat>>) returns (protect: seq<seq<nat>>)
    requires GroupsOf(items, targets)
    ensures protect == WithCache(items, targets)
  {
    hide GroupsOf;
    FirstGroups(items, targets, 0);
    protect := [];
    var i := 0;
    while i < |targets|
      invariant i <= |targets| && GroupsOf(items, targets[..i]) && protect == WithCache(items, targets[..i])
    {
      NextTarget(items, targets, i);
      if items[targets[i][0]].cached > 0 {
        protect := protect + [targets[i]];
      }
      i := i + 1;
    }
    assert targets[..i] == targets;
  }

  lemma NextTarget(items: seq<Item>, targets: seq<seq<nat>>, i: nat)
    requires GroupsOf(items, targets) && i < |targets|
    ensures targets[i] != [] && targets[i][0] < |items|
    ensures GroupsOf(items, targets[..i]) && GroupsOf(items, targets[..i + 1])
    ensures WithCache(items, targets[..i + 1]) == if items[targets[i][0]].cached > 0 then
      WithCache(items, targets[..i]) + [targets[i]] else WithCache(items, targets[..i])
  {
    FirstGroups(items, targets, i);
    FirstGroups(items, targets, i + 1);
    hide GroupsOf;
    assert targets[..i + 1][..i] == targets[..i] && targets[..i + 1][i] == targets[i];
  }

  lemma FirstGroups(items: seq<Item>, groups: seq<seq<nat>>, i: nat)
    requires GroupsOf(items, groups) && i <= |groups|
    ensures GroupsOf(items, groups[..i])
  {
    forall g | 0 <= g < i
      ensures groups[..i][g] != [] && forall j :: 0 <= j < |groups[..i][g]| ==> groups[..i][g][j] < |items|
    {
      assert groups[..i][g] == groups[g];
    }
  }

  /** The whole queue again, the requests held back at its tail; the groups to invest in, and those
      of them to protect. */
  method DepthReorder(items: seq<Item>, totalSize: nat)
    returns (order: seq<nat>, targets: seq<seq<nat>>, protect: seq<seq<nat>>, scheduled: nat,
             ghost stats: seq<seq<nat>>)
    ensures Permutes(order, |items|) && scheduled <= |items|
    ensures forall i {:trigger order[i]} :: 0 <= i < |items| ==> (items[order[i]].heldBack <==> i >= scheduled)
    ensures GroupsOf(items, targets) && protect == WithCache(items, targets)
    ensures totalSize * 3 / 4 > 0 && |targets| > 1 ==>
      TotalLength(HeadLengths(items, targets)) <= totalSize * 3 / 4
    ensures GroupsOf(items, stats) && ByInvestment(items, stats)
    ensures forall g {:trigger stats[g]} :: 0 <= g < |stats| ==> IsGroup(items, stats[g])
    ensures |targets| <= |stats| && targets == stats[..|targets|]
    ensures order[..scheduled] == Flatten(Pick(stats, StableSort(ScoreKeys(items, stats, |targets|))))
  {
    hide Permutes, Members, KeysWhere, NoDup, StableSort, LexLess, GroupsOf, IsGroup, Collected, Sorts, Flatten, Pick,
      InBounds, Ordered;
    ghost var kept;
    var groups, back;
    kept, groups, back := Collect(items);
    CollectedGroups(items, FirstSeen(AllKeys(items)), kept, groups, back);
    var byWeight := StableSort(WeightKeys(items, groups));
    StableSortOrdered(WeightKeys(items, groups));
    var chosen := Pick(groups, byWeight);
    stats := chosen;
    WeightsDescend(items, groups);
    PickedGroups(items, groups, byWeight);
    var count := ChooseTargets(HeadLengths(items, chosen), totalSize * 3 / 4);
    var byScore := StableSort(ScoreKeys(items, chosen, count));
    StableSortOrdered(ScoreKeys(items, chosen, count));
    var front := LayOut(chosen, byScore);
    var tail := LayOut(back, Positions(|back|));
    order, scheduled := front + tail, |front|;
    assert order[..scheduled] == front;
    targets := chosen[..count];
    TargetsFit(items, FirstSeen(AllKeys(items)), kept, groups, back, byWeight, count);
    protect := ProtectTargets(items, targets);
    AllScheduled(items, kept, groups, back, byWeight, byScore);
  }

  function WeightKeys(items: seq<Item>, groups: seq<seq<nat>>): (keys: seq<Key>)
    requires GroupsOf(items, groups)
    ensures |keys| == |groups|
  {
    seq(|groups|, g requires 0 <= g < |groups| => [-(Investment(items, groups[g]) as real)])
  }

  function HeadLengths(items: seq<Item>, groups: seq<seq<nat>>): (lengths: seq<nat>)
    requires GroupsOf(items, groups)
    ensures |lengths| == |groups| && forall g :: 0 <= g < |groups| ==> lengths[g] == |items[groups[g][0]].prompt|
  {
    seq(|groups|, g requires 0 <= g < |groups| => |items[groups[g][0]].prompt|)
  }

  function ScoreKeys(items: seq<Item>, groups: seq<seq<nat>>, targets: nat): (keys: seq<Key>)
    requires GroupsOf(items, groups)
    ensures |keys| == |groups|
  {
    seq(|groups|, g requires 0 <= g < |groups| => ScoreKey(items, groups[g], g < targets))
  }

  /** The groups whose requests times prompt length come to most are first. */
  ghost predicate ByInvestment(items: seq<Item>, groups: seq<seq<nat>>)
    requires GroupsOf(items, groups)
  {
    forall i, j {:trigger groups[i], groups[j]} ::
      0 <= i < j < |groups| ==>
        |groups[i]| * |items[groups[i][0]].prompt| >= |groups[j]| * |items[groups[j][0]].prompt|
  }

  lemma WeightsDescend(items: seq<Item>, groups: seq<seq<nat>>)
    requires GroupsOf(items, groups)
    ensures GroupsOf(items, Pick(groups, StableSort(WeightKeys(items, groups))))
    ensures ByInvestment(items, Pick(groups, StableSort(WeightKeys(items, groups))))
  {
    var keys := WeightKeys(items, groups);
    var order := StableSort(keys);
    StableSortOrdered(keys);
    PickedGroups(items, groups, order);
    hide StableSort, Investment;
    forall i, j | 0 <= i < j < |order|
      ensures Investment(items, groups[order[i]]) >= Investment(items, groups[order[j]])
    {
      assert Before(keys, order[i], order[j]);
      LexHead(keys[order[j]], keys[order[i]]);
    }
    InvestmentsAre(items, groups);
  }

  lemma InvestmentsAre(items: seq<Item>, groups: seq<seq<nat>>)
    requires GroupsOf(items, groups)
    ensures forall g {:trigger groups[g]} ::
      0 <= g < |groups| ==> Investment(items, groups[g]) == |groups[g]| * |items[groups[g][0]].prompt|
  {
  }

  lemma CollectedGroups(items: seq<Item>, ks: seq<seq<Token>>, kept: seq<seq<Token>>, groups: seq<seq<nat>>,
                        back: seq<seq<nat>>)
    requires Collected(items, ks, kept, groups, back)
    ensures GroupsOf(items, groups) && Sorts(KeysWhere(items, false), kept, groups)
  {
  }

  lemma PickedGroups(items: seq<Item>, groups: seq<seq<nat>>, order: seq<nat>)
    requires GroupsOf(items, groups) && forall i :: 0 <= i < |order| ==> order[i] < |groups|
    ensures GroupsOf(items, Pick(groups, order))
  {
  }

  lemma TargetsFit(items: seq<Item>, ks: seq<seq<Token>>, kept: seq<seq<Token>>, groups: seq<seq<nat>>,
                   back: seq<seq<nat>>, order: seq<nat>, count: nat)
    requires Collected(items, ks, kept, groups, back) && (forall i :: 0 <= i < |order| ==> order[i] < |groups|)
    requires count <= |order|
    requires GroupsOf(items, Pick(groups, order))
    ensures var targets := Pick(groups, order)[..count];
      && GroupsOf(items, targets) && HeadLengths(items, Pick(groups, order))[..count] == HeadLengths(items, targets)
      && forall g {:trigger Pick(groups, order)[g]} :: 0 <= g < |order| ==> IsGroup(items, Pick(groups, order)[g])
  {
    var stats := Pick(groups, order);
    var targets := stats[..count];
    forall g | 0 <= g < |order|
      ensures stats[g] == groups[order[g]] && IsGroup(items, stats[g])
    {
    }
    forall g | 0 <= g < count
      ensures targets[g] != [] && forall i :: 0 <= i < |targets[g]| ==> targets[g][i] < |items|
    {
      assert stats[g] == targets[g];
    }
    assert HeadLengths(items, stats)[..count] == HeadLengths(items, targets);
  }

  /** Everybody is laid out once: scheduled in front, held back behind. */
  lemma AllScheduled(items: seq<Item>, kept: seq<seq<Token>>, groups: seq<seq<nat>>, back: seq<seq<nat>>,
                     byWeight: seq<nat>, byScore: seq<nat>)
    requires Collected(items, FirstSeen(AllKeys(items)), kept, groups, back)
    requires Permutes(byWeight, |groups|) && Permutes(byScore, |groups|)
    ensures var front, tail := Flatten(Pick(Pick(groups, byWeight), byScore)), Flatten(Pick(back, Positions(|back|)));
      && Permutes(front + tail, |items|)
      && forall i {:trigger (front + tail)[i]} ::
        0 <= i < |items| ==> (items[(front + tail)[i]].heldBack <==> i >= |front|)
  {
    var ks := FirstSeen(AllKeys(items));
    var names, stats := Pick(kept, byWeight), Pick(groups, byWeight);
    PickSorts(KeysWhere(items, false), kept, groups, byWeight);
    PickSorts(KeysWhere(items, false), names, stats, byScore);
    FlattenGroups(KeysWhere(items, false), Pick(names, byScore), Pick(stats, byScore));
    assert Pick(back, Positions(|back|)) == back;
    FlattenGroups(KeysWhere(items, true), ks, back);
    var front, tail := Flatten(Pick(stats, byScore)), Flatten(back);
    forall x: nat | x < |items|
      ensures x in front <==> !items[x].heldBack
      ensures x in tail <==> items[x].heldBack
    {
      var k := GroupSortKey(items[x].prompt);
      assert AllKeys(items)[x] == Some(k);
      assert k in ks;
      if !items[x].heldBack {
        assert x in Members(KeysWhere(items, false), k);
        assert k in kept;
        PickKeeps(kept, byWeight, k);
        PickKeeps(names, byScore, k);
      }
    }
    SplitPermutes(items, front, tail);
  }

  lemma SplitPermutes(items: seq<Item>, front: seq<nat>, tail: seq<nat>)
    requires NoDup(front) && NoDup(tail)
    requires forall x {:trigger x in front} :: x in front <==> 0 <= x < |items| && !items[x].heldBack
    requires forall x {:trigger x in tail} :: x in tail <==> 0 <= x < |items| && items[x].heldBack
    ensures Permutes(front + tail, |items|)
    ensures forall i {:trigger (front + tail)[i]} ::
      0 <= i < |items| ==> (items[(front + tail)[i]].heldBack <==> i >= |front|)
  {
    NoDupConcat(front, tail);
    ListsAll(front + tail, |items|);
    forall i | 0 <= i < |items|
      ensures items[(front + tail)[i]].heldBack <==> i >= |front|
    {
      if i < |front| {
        assert front[i] in front;
      } else {
        assert tail[i - |front|] in tail;
      }
    }
  }
}
