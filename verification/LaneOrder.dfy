/**
 In which order the two lanes of lpm_integration.py list the waiting requests, and what share of
 the picks a queue asks for, told in the fields of the requests.
 */
module LaneOrder {
  import opened Prelude
  import opened Sorting
  import opened Grouping
  import opened ClusterLpm

  // ----- times and hits -----

  /** When a request counts as arrived: now if it has no time of its own, provided anything asks for
      the time. */
  ghost function Stamp(r: QueuedRequest, s: Settings): real {
    if !s.stamped then 0.0
    else
      match r.arrived
      case Some(t) => t
      case None => if s.ageAlpha > 0.0 || s.dynamicLane then s.clock else 0.0
  }

  /** The stamp in whole nanoseconds. */
  ghost predicate Nanos(r: QueuedRequest, s: Settings, ns: int) {
    WholePart(ns, 1000000000.0 * Stamp(r, s))
  }

  lemma ArrivalIsNanos(r: QueuedRequest, s: Settings)
    ensures Nanos(r, s, ArrivalNs(r, s))
  {
    TruncateIsWhole(1000000000.0 * Stamp(r, s));
  }

  /** The hit, and `ageAlpha` more for every second waited, where ages count. */
  ghost predicate AgedHit(r: QueuedRequest, s: Settings, hit: int) {
    if s.stamped && s.ageAlpha > 0.0 && s.clock > Stamp(r, s) then
      WholePart(hit - r.hit, s.ageAlpha * (s.clock - Stamp(r, s)))
    else hit == r.hit
  }

  lemma EffectiveIsAged(r: QueuedRequest, s: Settings)
    ensures AgedHit(r, s, EffectiveHit(r, s))
  {
    if s.stamped && s.ageAlpha > 0.0 && s.clock > Stamp(r, s) {
      assert s.ageAlpha * (s.clock - Stamp(r, s)) >= 0.0;
    }
  }

  // ----- lane B -----

  /** The fairness lane: within a section the earlier arrival, then the larger hit, then the earlier
      place in the queue comes first. */
  lemma FairnessOrder(queue: seq<QueuedRequest>, s: Settings, sections: seq<int>, i: nat, j: nat)
    returns (x: nat, y: nat, m: int, n: int)
    requires |sections| == |queue| && i < j < |LaneB(queue, s, sections)|
    ensures x == LaneB(queue, s, sections)[i] < |queue| && y == LaneB(queue, s, sections)[j] < |queue|
    ensures Nanos(queue[x], s, m) && Nanos(queue[y], s, n)
    ensures sections[x] < sections[y] || (sections[x] == sections[y] && (m < n || (m == n &&
      (queue[x].hit > queue[y].hit || (queue[x].hit == queue[y].hit && x < y)))))
  {
    hide LexLess, ArrivalNs, Nanos;
    var keys := LaneBKeys(queue, s, sections);
    StableSortOrdered(keys);
    x, y := StableSort(keys)[i], StableSort(keys)[j];
    assert Before(keys, x, y);
    LexThree(keys[x], keys[y]);
    LexThree(keys[y], keys[x]);
    m, n := ArrivalNs(queue[x], s), ArrivalNs(queue[y], s);
    ArrivalIsNanos(queue[x], s);
    ArrivalIsNanos(queue[y], s);
  }

  /** Of two requests of one section, the fairness lane takes the one that came a nanosecond
      earlier first. */
  lemma OldestFirst(queue: seq<QueuedRequest>, s: Settings, sections: seq<int>, i: nat, j: nat)
    requires |sections| == |queue| && i < |LaneB(queue, s, sections)| && j < |LaneB(queue, s, sections)|
    requires Permutes(LaneB(queue, s, sections), |queue|)
    requires var x, y := LaneB(queue, s, sections)[i], LaneB(queue, s, sections)[j];
      && s.stamped && sections[x] == sections[y] && queue[x].arrived.Some? && queue[y].arrived.Some?
      && 0.0 <= queue[x].arrived.value && queue[x].arrived.value + 0.000000001 <= queue[y].arrived.value
    ensures i < j
  {
    hide LaneB;
    if j < i {
      var y, x, n, m := FairnessOrder(queue, s, sections, j, i);
      assert false;
    }
  }

  // ----- lane A -----

  /** The dense lane, request by request: within a section the denser comes first. */
  lemma DenseOrder(queue: seq<QueuedRequest>, s: Settings, sections: seq<int>, i: nat, j: nat)
    returns (x: nat, y: nat, e: int, f: int, m: int, n: int)
    requires |sections| == |queue| && !s.groupMajor && i < j < |LaneA(queue, s, sections)|
    ensures x == LaneA(queue, s, sections)[i] < |queue| && y == LaneA(queue, s, sections)[j] < |queue|
    ensures AgedHit(queue[x], s, e) && AgedHit(queue[y], s, f) && Nanos(queue[x], s, m) && Nanos(queue[y], s, n)
    ensures sections[x] < sections[y] || (sections[x] == sections[y] && Denser(queue, x, y, e, f, m, n))
  {
    hide LexLess, ArrivalNs, EffectiveHit, Nanos, AgedHit;
    var keys := LaneAKeys(queue, s, sections);
    StableSortOrdered(keys);
    x, y := StableSort(keys)[i], StableSort(keys)[j];
    assert Before(keys, x, y);
    LexFive(keys[x], keys[y]);
    LexFive(keys[y], keys[x]);
    e, f := EffectiveHit(queue[x], s), EffectiveHit(queue[y], s);
    m, n := ArrivalNs(queue[x], s), ArrivalNs(queue[y], s);
    ArrivalIsNanos(queue[x], s);
    ArrivalIsNanos(queue[y], s);
    EffectiveIsAged(queue[x], s);
    EffectiveIsAged(queue[y], s);
  }

  /** How many pending requests share the cluster of `r`, none without one. */
  ghost function Crowd(r: QueuedRequest): nat {
    match r.cluster
    case Some(c) => c.size
    case None => 0
  }

  /** The larger aged hit, then more pending tokens in common, then the larger cluster, then the
      earlier arrival, then the earlier place. */
  ghost predicate Denser(queue: seq<QueuedRequest>, x: nat, y: nat, e: int, f: int, m: int, n: int)
    requires x < |queue| && y < |queue|
  {
    var a, b := queue[x], queue[y];
    e > f || (e == f && (a.score > b.score || (a.score == b.score &&
      (Crowd(a) > Crowd(b) || (Crowd(a) == Crowd(b) && (m < n || (m == n && x < y)))))))
  }

  // ----- lane A by whole groups -----

  /** Of one section and one cluster of at least two, or the same request. */
  ghost predicate Mates(queue: seq<QueuedRequest>, sections: seq<int>, x: nat, y: nat)
    requires x < |queue| == |sections| && y < |queue|
  {
    var a, b := queue[x], queue[y];
    && sections[x] == sections[y] && (Crowd(a) >= 2 <==> Crowd(b) >= 2)
    && if Crowd(a) >= 2 then a.cluster.value.node == b.cluster.value.node else a.rid == b.rid
  }

  /** What a group is ranked by: the depth times the size of the cluster that its last member names,
      zero for those outside every cluster, the earliest arrival among its members, and the place of
      its first member in the queue. */
  datatype GroupRank = GroupRank(weight: nat, arrived: int, place: nat)

  ghost predicate RanksGroup(queue: seq<QueuedRequest>, s: Settings, sections: seq<int>, x: nat, rank: GroupRank)
    requires x < |queue| == |sections|
  {
    && LastWeighs(queue, sections, x, rank.weight) && EarliestArrival(queue, s, sections, x, rank.arrived)
    && rank.place < |queue| && Mates(queue, sections, x, rank.place)
    && forall z: nat {:trigger Mates(queue, sections, x, z)} ::
      z < |queue| && Mates(queue, sections, x, z) ==> rank.place <= z
  }

  ghost predicate LastWeighs(queue: seq<QueuedRequest>, sections: seq<int>, x: nat, weight: nat)
    requires x < |queue| == |sections|
  {
    exists last: nat {:trigger Mates(queue, sections, x, last)} ::
      && last < |queue| && Mates(queue, sections, x, last)
      && (forall z: nat {:trigger Mates(queue, sections, x, z)} ::
        z < |queue| && Mates(queue, sections, x, z) ==> z <= last)
      && weight == Weight(queue[last])
  }

  ghost function Weight(r: QueuedRequest): nat {
    match r.cluster
    case Some(c) => if c.size < 2 then 0 else c.depth * c.size
    case None => 0
  }

  ghost predicate EarliestArrival(queue: seq<QueuedRequest>, s: Settings, sections: seq<int>, x: nat, ns: int)
    requires x < |queue| == |sections|
  {
    && (exists z: nat {:trigger Mates(queue, sections, x, z)} ::
      z < |queue| && Mates(queue, sections, x, z) && Nanos(queue[z], s, ns))
    && forall z: nat {:trigger Mates(queue, sections, x, z)} ::
      z < |queue| && Mates(queue, sections, x, z) ==> exists later: int :: Nanos(queue[z], s, later) && ns <= later
  }

  lemma MatesShareBuckets(queue: seq<QueuedRequest>, sections: seq<int>, x: nat, y: nat)
    requires x < |queue| == |sections| && y < |queue|
    ensures Mates(queue, sections, x, y) <==> Buckets(queue, sections)[x] == Buckets(queue, sections)[y]
  {
  }

  lemma {:induction false} EarliestOf(queue: seq<QueuedRequest>, s: Settings, members: seq<nat>)
    requires members != [] && forall i :: 0 <= i < |members| ==> members[i] < |queue|
    ensures var e := EarliestNs(queue, s, members);
      && (exists i {:trigger members[i]} :: 0 <= i < |members| && ArrivalNs(queue[members[i]], s) == e)
      && forall i {:trigger members[i]} :: 0 <= i < |members| ==> e <= ArrivalNs(queue[members[i]], s)
  {
    hide ArrivalNs;
    var n := |members| - 1;
    var last := ArrivalNs(queue[members[n]], s);
    if n > 0 {
      var front := members[..n];
      EarliestOf(queue, s, front);
      var i :| 0 <= i < |front| && ArrivalNs(queue[front[i]], s) == EarliestNs(queue, s, front);
      assert members[i] == front[i];
      forall k | 0 <= k < n
        ensures EarliestNs(queue, s, members) <= ArrivalNs(queue[members[k]], s)
      {
        assert front[k] == members[k];
      }
    }
  }

  /** The key a group is sorted by says what it is ranked by. */
  lemma KeyRanks(queue: seq<QueuedRequest>, s: Settings, sections: seq<int>, members: seq<nat>, x: nat)
    returns (rank: GroupRank)
    requires x < |queue| == |sections| && Buckets(queue, sections)[x].Some?
    requires members == Members(Buckets(queue, sections), Buckets(queue, sections)[x].value)
    ensures members != [] && RanksGroup(queue, s, sections, x, rank) && rank.place == members[0]
    ensures RankOfGroup(queue, s, sections[x], members) ==
      [sections[x] as real, -(rank.weight as real), rank.arrived as real]
  {
    hide ArrivalNs, EarliestNs, Nanos, Buckets, Mates;
    var buckets := Buckets(queue, sections);
    assert x in members;
    MembersIncrease(buckets, buckets[x].value);
    forall z: nat | z < |queue|
      ensures Mates(queue, sections, x, z) <==> z in members
      ensures z in members ==> members[0] <= z <= members[|members| - 1]
    {
      MatesShareBuckets(queue, sections, x, z);
    }
    var last := members[|members| - 1];
    rank := GroupRank(GroupScore(queue[last]), EarliestNs(queue, s, members), members[0]);
    assert members[0] in members && last in members;
    assert LastWeighs(queue, sections, x, rank.weight) by {
      assert Mates(queue, sections, x, last);
    }
    EarliestIs(queue, s, sections, members, x);
  }

  lemma EarliestIs(queue: seq<QueuedRequest>, s: Settings, sections: seq<int>, members: seq<nat>, x: nat)
    requires x < |queue| == |sections| && members != []
    requires forall i :: 0 <= i < |members| ==> members[i] < |queue|
    requires forall z: nat {:trigger Mates(queue, sections, x, z)} ::
      z < |queue| ==> (Mates(queue, sections, x, z) <==> z in members)
    ensures EarliestArrival(queue, s, sections, x, EarliestNs(queue, s, members))
  {
    hide ArrivalNs, EarliestNs, Nanos, Mates;
    var e := EarliestNs(queue, s, members);
    EarliestOf(queue, s, members);
    var i :| 0 <= i < |members| && ArrivalNs(queue[members[i]], s) == e;
    ArrivalIsNanos(queue[members[i]], s);
    assert members[i] in members && Mates(queue, sections, x, members[i]);
    forall z: nat | z < |queue| && Mates(queue, sections, x, z)
      ensures exists later: int :: Nanos(queue[z], s, later) && e <= later
    {
      var k :| 0 <= k < |members| && members[k] == z;
      ArrivalIsNanos(queue[z], s);
      assert Nanos(queue[z], s, ArrivalNs(queue[z], s));
    }
  }

  /** Where a position of the group-major order comes from. */
  lemma FromGroup(queue: seq<QueuedRequest>, s: Settings, sections: seq<int>, i: nat)
    returns (x: nat, g: nat, k: nat, rank: GroupRank)
    requires |sections| == |queue| && s.groupMajor && i < |LaneA(queue, s, sections)|
    ensures var order := StableSort(GroupKeys(queue, s, sections));
      && Located(Pick(SortedGroups(queue, s, sections), order), i, g, k)
      && g < |order| && order[g] < |SortedGroups(queue, s, sections)|
      && k < |SortedGroups(queue, s, sections)[order[g]]| && SortedGroups(queue, s, sections)[order[g]][k] == x
      && x == LaneA(queue, s, sections)[i] < |queue| && RanksGroup(queue, s, sections, x, rank)
      && Buckets(queue, sections)[x] == Some(FirstSeen(Buckets(queue, sections))[order[g]])
      && GroupKeys(queue, s, sections)[order[g]] ==
        [sections[x] as real, -(rank.weight as real), rank.arrived as real]
      && Members(Buckets(queue, sections), FirstSeen(Buckets(queue, sections))[order[g]]) != []
      && rank.place == Members(Buckets(queue, sections), FirstSeen(Buckets(queue, sections))[order[g]])[0]
  {
    hide StableSort, RanksGroup, RankOfGroup, Mates;
    var order, groups := StableSort(GroupKeys(queue, s, sections)), SortedGroups(queue, s, sections);
    g, k := Locate(Pick(groups, order), i);
    x := LaneA(queue, s, sections)[i];
    GroupsSort(queue, s, sections);
    assert groups[order[g]][k] in groups[order[g]];
    SortsIn(Buckets(queue, sections), FirstSeen(Buckets(queue, sections)), groups, order[g], x);
    rank := KeyRanks(queue, s, sections,
      Members(Buckets(queue, sections), FirstSeen(Buckets(queue, sections))[order[g]]), x);
  }

  /** Higher weight, then arrived earlier, then at an earlier place. */
  ghost predicate RanksAhead(a: GroupRank, b: GroupRank) {
    a.weight > b.weight || (a.weight == b.weight &&
      (a.arrived < b.arrived || (a.arrived == b.arrived && a.place < b.place)))
  }

  /** Two positions of one group. */
  lemma MembersOrder(queue: seq<QueuedRequest>, s: Settings, sections: seq<int>, order: seq<nat>, g: nat,
                     k: nat, l: nat, x: nat, y: nat)
    requires |sections| == |queue| && g < |order| && x < |queue| && y < |queue|
    requires forall c :: 0 <= c < |order| ==> order[c] < |SortedGroups(queue, s, sections)|
    requires var group := SortedGroups(queue, s, sections)[order[g]];
      k < l < |group| && group[k] == x && group[l] == y
    ensures queue[x].hit > queue[y].hit || (queue[x].hit == queue[y].hit &&
      (ArrivalNs(queue[x], s) < ArrivalNs(queue[y], s) || (ArrivalNs(queue[x], s) == ArrivalNs(queue[y], s) && x < y)))
  {
    hide LexLess, ArrivalNs, Buckets;
    var buckets := Buckets(queue, sections);
    var members := Members(buckets, FirstSeen(buckets)[order[g]]);
    MembersIncrease(buckets, FirstSeen(buckets)[order[g]]);
    var keys := MemberKeys(queue, s);
    SortListOrdered(keys, members);
    assert Before(keys, SortList(keys, members)[k], SortList(keys, members)[l]);
    LexPair(keys[x][0], keys[x][1], keys[y][0], keys[y][1]);
    LexPair(keys[y][0], keys[y][1], keys[x][0], keys[x][1]);
  }

  /** Two positions of different groups. */
  lemma GroupsOrder(queue: seq<QueuedRequest>, s: Settings, sections: seq<int>, order: seq<nat>, g: nat, h: nat,
                    x: nat, y: nat, a: GroupRank, b: GroupRank)
    requires |sections| == |queue| && g < h < |order| && x < |queue| && y < |queue|
    requires order == StableSort(GroupKeys(queue, s, sections))
    requires var seen, keys := FirstSeen(Buckets(queue, sections)), GroupKeys(queue, s, sections);
      && keys[order[g]] == [sections[x] as real, -(a.weight as real), a.arrived as real]
      && keys[order[h]] == [sections[y] as real, -(b.weight as real), b.arrived as real]
      && Members(Buckets(queue, sections), seen[order[g]]) != []
      && Members(Buckets(queue, sections), seen[order[h]]) != []
      && a.place == Members(Buckets(queue, sections), seen[order[g]])[0]
      && b.place == Members(Buckets(queue, sections), seen[order[h]])[0]
    ensures sections[x] < sections[y] || (sections[x] == sections[y] && RanksAhead(a, b))
    ensures order[g] != order[h]
  {
    hide LexLess, Buckets, GroupKeys, StableSort;
    var keys := GroupKeys(queue, s, sections);
    StableSortOrdered(keys);
    assert Before(keys, order[g], order[h]);
    LexThree(keys[order[g]], keys[order[h]]);
    LexThree(keys[order[h]], keys[order[g]]);
    if order[g] < order[h] {
      SeenEarlier(Buckets(queue, sections), order[g], order[h]);
    }
  }

  /** The dense lane by groups: sections in order, within a section whole groups by their rank, and
      within a group the larger hit, then the earlier arrival, then the earlier place first. */
  lemma GroupOrder(queue: seq<QueuedRequest>, s: Settings, sections: seq<int>, i: nat, j: nat)
    returns (x: nat, y: nat, a: GroupRank, b: GroupRank, m: int, n: int)
    requires |sections| == |queue| && s.groupMajor && i < j < |LaneA(queue, s, sections)|
    ensures x == LaneA(queue, s, sections)[i] < |queue| && y == LaneA(queue, s, sections)[j] < |queue|
    ensures RanksGroup(queue, s, sections, x, a) && RanksGroup(queue, s, sections, y, b)
    ensures Nanos(queue[x], s, m) && Nanos(queue[y], s, n)
    ensures !Mates(queue, sections, x, y) ==>
      sections[x] < sections[y] || (sections[x] == sections[y] && RanksAhead(a, b))
    ensures Mates(queue, sections, x, y) ==>
      queue[x].hit > queue[y].hit || (queue[x].hit == queue[y].hit && (m < n || (m == n && x < y)))
  {
    hide StableSort, RanksGroup, RankOfGroup, Mates, Nanos, ArrivalNs, LaneA, GroupKeys, SortedGroups, Located, LexLess,
      Buckets;
    var g, k, h, l;
    x, g, k, a := FromGroup(queue, s, sections, i);
    y, h, l, b := FromGroup(queue, s, sections, j);
    m, n := ArrivalNs(queue[x], s), ArrivalNs(queue[y], s);
    ArrivalIsNanos(queue[x], s);
    ArrivalIsNanos(queue[y], s);
    var order := StableSort(GroupKeys(queue, s, sections));
    LocatedInOrder(Pick(SortedGroups(queue, s, sections), order), i, g, k, j, h, l);
    MatesShareBuckets(queue, sections, x, y);
    StableSortOrdered(GroupKeys(queue, s, sections));
    if g == h {
      MembersOrder(queue, s, sections, order, g, k, l, x, y);
    } else {
      GroupsOrder(queue, s, sections, order, g, h, x, y, a, b);
    }
  }

  /** The members of a group stand together. */
  lemma GroupsTogether(queue: seq<QueuedRequest>, s: Settings, sections: seq<int>, i: nat, c: nat, j: nat)
    requires |sections| == |queue| && s.groupMajor && i < c < j < |LaneA(queue, s, sections)|
    requires Permutes(LaneA(queue, s, sections), |queue|)
    requires Mates(queue, sections, LaneA(queue, s, sections)[i], LaneA(queue, s, sections)[j])
    ensures Mates(queue, sections, LaneA(queue, s, sections)[i], LaneA(queue, s, sections)[c])
  {
    hide StableSort, RanksGroup, RankOfGroup, Mates, LaneA, GroupKeys, SortedGroups, Located, Buckets;
    var order, gs := StableSort(GroupKeys(queue, s, sections)), SortedGroups(queue, s, sections);
    var x, g, k, a := FromGroup(queue, s, sections, i);
    var y, h, l, b := FromGroup(queue, s, sections, c);
    var z, e, n, d := FromGroup(queue, s, sections, j);
    LocatedInOrder(Pick(gs, order), i, g, k, c, h, l);
    LocatedInOrder(Pick(gs, order), c, h, l, j, e, n);
    MatesShareBuckets(queue, sections, x, y);
    MatesShareBuckets(queue, sections, x, z);
    StableSortOrdered(GroupKeys(queue, s, sections));
  }

  // ----- the share a queue asks for -----

  ghost function Loners(queue: seq<QueuedRequest>): set<nat> {
    set i: nat | i < |queue| && Crowd(queue[i]) < 2
  }

  /** The singles are the requests outside every cluster of at least two. */
  lemma {:induction false} SinglesCounted(queue: seq<QueuedRequest>)
    ensures Singles(queue) == |Loners(queue)|
  {
    if queue == [] {
      assert Loners(queue) == {};
    } else {
      var n := |queue| - 1;
      SinglesCounted(queue[..n]);
      assert Loners(queue) == Loners(queue[..n]) + if Crowd(queue[n]) < 2 then {n} else {};
    }
  }

  /** Outside every cluster, with an arrival time, on a tick that has the time. */
  ghost predicate Ages(r: QueuedRequest, s: Settings) {
    && Crowd(r) < 2 && s.stamped && r.arrived.Some? && r.arrived.value != 0.0
    && (s.ageAlpha > 0.0 || s.dynamicLane) && s.clock != 0.0
  }

  /** The oldest single is the longest wait of those requests. */
  lemma {:induction false} OldestMeans(queue: seq<QueuedRequest>, s: Settings)
    ensures forall i {:trigger queue[i]} ::
      0 <= i < |queue| && Ages(queue[i], s) ==> s.clock - queue[i].arrived.value <= OldestSingle(queue, s)
    ensures OldestSingle(queue, s) > 0.0 ==> exists i {:trigger queue[i]} ::
      0 <= i < |queue| && Ages(queue[i], s) && s.clock - queue[i].arrived.value == OldestSingle(queue, s)
  {
    if queue != [] {
      var n := |queue| - 1;
      var front, last := queue[..n], queue[n];
      OldestMeans(front, s);
      forall i | 0 <= i < n
        ensures front[i] == queue[i]
      {
      }
      if OldestSingle(front, s) > 0.0 {
        var i :| 0 <= i < n && Ages(front[i], s) && s.clock - front[i].arrived.value == OldestSingle(front, s);
        assert queue[i] == front[i];
      }
    }
  }

  /** The share starts at 0.15 and grows by half the fraction of singles and by 0.3 of the pressure,
      the oldest wait in budgets but at most one, until it reaches 0.6. */
  lemma ShareMeans(singles: nat, total: nat, oldest: real, sloBudget: real, pressure: real)
    requires singles <= total && total > 0 && oldest >= 0.0
    requires if sloBudget > 0.0 then pressure * sloBudget == (if oldest < sloBudget then oldest else sloBudget)
      else pressure == 0.0
    ensures var asked := 0.15 * total as real + 0.5 * singles as real + 0.3 * pressure * total as real;
      var b := WantedShare(singles, total, oldest, sloBudget);
      if asked < 0.6 * total as real then b * total as real == asked else b == 0.6
  {
    var t, x := total as real, singles as real;
    if sloBudget > 0.0 {
      PressureIs(oldest, sloBudget, pressure);
    }
    FractionsFit(x, t, oldest, sloBudget);
    RawTimes(x / t, pressure, x, t);
    Capped(0.15 + 0.5 * (x / t) + 0.3 * pressure, t, 0.15 * t + 0.5 * x + 0.3 * pressure * t);
  }

  lemma RawTimes(fraction: real, pressure: real, x: real, t: real)
    requires t > 0.0 && fraction == x / t
    ensures (0.15 + 0.5 * fraction + 0.3 * pressure) * t == 0.15 * t + 0.5 * x + 0.3 * pressure * t
  {
    assert fraction * t == x;
  }

  lemma Capped(raw: real, t: real, asked: real)
    requires t > 0.0 && raw * t == asked
    ensures raw < 0.6 <==> asked < 0.6 * t
  {
    assert (0.6 - raw) * t == 0.6 * t - asked;
  }

  lemma PressureIs(oldest: real, budget: real, pressure: real)
    requires budget > 0.0 && oldest >= 0.0
    requires pressure * budget == if oldest < budget then oldest else budget
    ensures pressure == if oldest / budget > 1.0 then 1.0 else oldest / budget
  {
    var q := oldest / budget;
    assert q * budget == oldest;
    Cancels(q, 1.0, budget);
    Cancels(pressure, q, budget);
    Cancels(pressure, 1.0, budget);
  }

  lemma Cancels(x: real, y: real, b: real)
    requires b > 0.0
    ensures x * b <= y * b <==> x <= y
    ensures x * b == y * b <==> x == y
  {
    assert (x - y) * b == x * b - y * b;
  }
}
