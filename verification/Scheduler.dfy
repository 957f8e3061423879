/**
 Cluster-LPM scheduling of lpm_integration.py: sections, the two lane orders, the share
 controller and the reordering of the waiting queue.
 */
module ClusterLpm {
  import opened Prelude
  import opened Sorting
  import opened Grouping
  import opened Stride
  import opened InBatch

  datatype Cluster = Cluster(node: nat, depth: nat, size: nat)

  /** A waiting request with what the pending tree and the cache say about it. */
  datatype QueuedRequest = QueuedRequest(rid: Rid, prompt: seq<Token>, hit: nat, score: nat, cluster: Option<Cluster>,
    arrived: Option<real>)

  /** `stamped`: arrival times are known at all. */
  datatype Settings = Settings(check: int, dedup: int, share: real, ageAlpha: real, groupMajor: bool, dynamicLane: bool,
    sloBudget: real, stamped: bool, clock: real)

  // ----- sections -----

  function Entries(queue: seq<QueuedRequest>): (q: seq<Entry>)
    ensures |q| == |queue| && forall i :: 0 <= i < |q| ==> q[i] == Entry(queue[i].prompt, queue[i].hit)
  {
    seq(|queue|, i requires 0 <= i < |queue| => Entry(queue[i].prompt, queue[i].hit))
  }

  /** 0 for warm, 2 for the siblings of an earlier cold request, 1 for the other cold ones. */
  ghost function Section(queue: seq<QueuedRequest>, s: Settings, i: nat): int
    requires i < |queue|
  {
    if queue[i].hit > s.check then 0
    else if s.check >= 0 && s.dedup >= 0 && Sibling(Entries(queue), s.check, s.dedup, i) then 2
    else 1
  }

  ghost predicate AreSections(queue: seq<QueuedRequest>, s: Settings, sections: seq<int>) {
    |sections| == |queue| && forall i {:trigger sections[i]} :: 0 <= i < |queue| ==> sections[i] == Section(queue, s, i)
  }

  method AssignSections(queue: seq<QueuedRequest>, s: Settings) returns (sections: seq<int>)
    ensures AreSections(queue, s, sections)
  {
    var siblings := TupleClaims(Entries(queue), s.check, s.dedup);
    sections := seq(|queue|, i requires 0 <= i < |queue| =>
      if queue[i].hit > s.check then 0 else if siblings[i] then 2 else 1);
    forall i | 0 <= i < |queue|
      ensures sections[i] == Section(queue, s, i)
    {
      assert siblings[i] <==> s.check >= 0 && s.dedup >= 0 && Sibling(Entries(queue), s.check, s.dedup, i);
    }
  }

  // ----- the lanes -----

  /** The time of this tick, where anything asks for it. */
  function Now(s: Settings): real {
    if s.stamped && (s.ageAlpha > 0.0 || s.dynamicLane) then s.clock else 0.0
  }

  function At(r: QueuedRequest, s: Settings): real {
    if !s.stamped then 0.0 else if r.arrived.Some? then r.arrived.value else Now(s)
  }

  function ArrivalNs(r: QueuedRequest, s: Settings): int {
    Truncate(At(r, s) * 1000000000.0)
  }

  function EffectiveHit(r: QueuedRequest, s: Settings): int {
    if s.stamped && s.ageAlpha > 0.0 && Now(s) > At(r, s) then
      r.hit + (s.ageAlpha * (Now(s) - At(r, s))).Floor
    else r.hit
  }

  function ClusterSize(r: QueuedRequest): nat {
    if r.cluster.Some? then r.cluster.value.size else 0
  }

  function LaneAKeys(queue: seq<QueuedRequest>, s: Settings, sections: seq<int>): (keys: seq<Key>)
    requires |sections| == |queue|
    ensures |keys| == |queue|
  {
    seq(|queue|, i requires 0 <= i < |queue| =>
      [sections[i] as real, -(EffectiveHit(queue[i], s) as real), -(queue[i].score as real),
       -(ClusterSize(queue[i]) as real), ArrivalNs(queue[i], s) as real])
  }

  function LaneBKeys(queue: seq<QueuedRequest>, s: Settings, sections: seq<int>): (keys: seq<Key>)
    requires |sections| == |queue|
    ensures |keys| == |queue|
  {
    seq(|queue|, i requires 0 <= i < |queue| =>
      [sections[i] as real, ArrivalNs(queue[i], s) as real, -(queue[i].hit as real)])
  }

  /** Keys that lead with the section sort by section. */
  ghost predicate Leading(sections: seq<int>, keys: seq<Key>) {
    |keys| == |sections| && forall i {:trigger keys[i]} ::
      0 <= i < |keys| ==> keys[i] != [] && keys[i][0] == sections[i] as real
  }

  lemma LeadingAscends(sections: seq<int>, keys: seq<Key>)
    requires Leading(sections, keys)
    ensures Ascending(sections, StableSort(keys))
  {
    StableSortOrdered(keys);
    var s := StableSort(keys);
    forall i, j | 0 <= i < j < |s|
      ensures sections[s[i]] <= sections[s[j]]
    {
      assert Before(keys, s[i], s[j]);
      assert keys[s[i]][0] == sections[s[i]] as real && keys[s[j]][0] == sections[s[j]] as real;
    }
  }

  // ----- group-major lane A -----

  /** Requests of one cluster form a group; every other request is a group of its own. */
  datatype GroupKey = Shared(node: nat) | Alone(rid: Rid)

  datatype Bucket = Bucket(section: int, group: GroupKey)

  predicate InCluster(r: QueuedRequest) {
    r.cluster.Some? && r.cluster.value.size >= 2
  }

  function Buckets(queue: seq<QueuedRequest>, sections: seq<int>): (keys: seq<Option<Bucket>>)
    requires |sections| == |queue|
    ensures |keys| == |queue|
    ensures forall i {:trigger keys[i]} :: 0 <= i < |keys| ==> keys[i].Some? && keys[i].value.section == sections[i]
  {
    seq(|queue|, i requires 0 <= i < |queue| =>
      Some(Bucket(sections[i],
        if InCluster(queue[i]) then Shared(queue[i].cluster.value.node) else Alone(queue[i].rid))))
  }

  function GroupScore(r: QueuedRequest): nat {
    if InCluster(r) then r.cluster.value.depth * r.cluster.value.size else 0
  }

  function EarliestNs(queue: seq<QueuedRequest>, s: Settings, members: seq<nat>): int
    requires members != [] && forall i :: 0 <= i < |members| ==> members[i] < |queue|
  {
    var first := ArrivalNs(queue[members[|members| - 1]], s);
    if |members| == 1 then first else Min(first, EarliestNs(queue, s, members[..|members| - 1]))
  }

  function MemberKeys(queue: seq<QueuedRequest>, s: Settings): (keys: seq<Key>)
    ensures |keys| == |queue|
  {
    seq(|queue|, i requires 0 <= i < |queue| => [-(queue[i].hit as real), ArrivalNs(queue[i], s) as real])
  }

  /** The groups in order of first appearance, with members by hit and arrival. */
  ghost function SortedGroups(queue: seq<QueuedRequest>, s: Settings, sections: seq<int>): (groups: seq<seq<nat>>)
    requires |sections| == |queue|
    ensures |groups| == |FirstSeen(Buckets(queue, sections))|
  {
    var keys := Buckets(queue, sections);
    seq(|FirstSeen(keys)|, g requires 0 <= g < |FirstSeen(keys)| =>
      SortList(MemberKeys(queue, s), Members(keys, FirstSeen(keys)[g])))
  }

  /** Section, then the score the group was last given, then its earliest arrival. */
  function RankOfGroup(queue: seq<QueuedRequest>, s: Settings, section: int, members: seq<nat>): Key
    requires members != [] && forall i :: 0 <= i < |members| ==> members[i] < |queue|
  {
    [section as real, -(GroupScore(queue[members[|members| - 1]]) as real), EarliestNs(queue, s, members) as real]
  }

  function GroupKeys(queue: seq<QueuedRequest>, s: Settings, sections: seq<int>): (keys: seq<Key>)
    requires |sections| == |queue|
    ensures |keys| == |FirstSeen(Buckets(queue, sections))|
  {
    var buckets := Buckets(queue, sections);
    SeenHaveMembers(buckets);
    var ks := FirstSeen(buckets);
    seq(|ks|, g requires 0 <= g < |ks| => RankOfGroup(queue, s, ks[g].section, Members(buckets, ks[g])))
  }

  /** Whole groups, by section, score and earliest arrival. */
  method GroupMajorOrder(queue: seq<QueuedRequest>, s: Settings, sections: seq<int>) returns (order: seq<nat>)
    requires |sections| == |queue|
    ensures order == Flatten(Pick(SortedGroups(queue, s, sections), StableSort(GroupKeys(queue, s, sections))))
    ensures Permutes(order, |queue|) && Ascending(sections, order)
  {
    var buckets := Buckets(queue, sections);
    var table, ks := GroupBy(buckets);
    var groups := seq(|ks|,
      g requires 0 <= g < |ks| && ks[g] in table && (forall i :: 0 <= i < |table[ks[g]]| ==> table[ks[g]][i] < |queue|)
      => SortList(MemberKeys(queue, s), table[ks[g]]));
    assert groups == SortedGroups(queue, s, sections);
    order := LayOut(groups, StableSort(GroupKeys(queue, s, sections)));
    GroupMajorFacts(queue, s, sections);
  }

  lemma GroupMajorFacts(queue: seq<QueuedRequest>, s: Settings, sections: seq<int>)
    requires |sections| == |queue|
    ensures var order := Flatten(Pick(SortedGroups(queue, s, sections), StableSort(GroupKeys(queue, s, sections))));
      Permutes(order, |queue|) && Ascending(sections, order)
  {
    hide SortedGroups, GroupKeys, Permutes, StableSort, Buckets, LexLess;
    var buckets, groups, keys :=
      Buckets(queue, sections), SortedGroups(queue, s, sections), GroupKeys(queue, s, sections);
    StableSortOrdered(keys);
    GroupsSort(queue, s, sections);
    LayOutPermutes(buckets, groups, StableSort(keys));
    GroupsAscend(queue, s, sections);
  }

  lemma GroupsSort(queue: seq<QueuedRequest>, s: Settings, sections: seq<int>)
    requires |sections| == |queue|
    ensures Sorts(Buckets(queue, sections), FirstSeen(Buckets(queue, sections)), SortedGroups(queue, s, sections))
  {
  }

  ghost function GroupSections(queue: seq<QueuedRequest>, sections: seq<int>): (r: seq<int>)
    requires |sections| == |queue|
    ensures |r| == |FirstSeen(Buckets(queue, sections))|
    ensures forall g :: 0 <= g < |r| ==> r[g] == FirstSeen(Buckets(queue, sections))[g].section
  {
    seq(|FirstSeen(Buckets(queue, sections))|, g requires 0 <= g < |FirstSeen(Buckets(queue, sections))| =>
      FirstSeen(Buckets(queue, sections))[g].section)
  }

  lemma GroupsAscend(queue: seq<QueuedRequest>, s: Settings, sections: seq<int>)
    requires |sections| == |queue|
    ensures Ascending(sections,
      Flatten(Pick(SortedGroups(queue, s, sections), StableSort(GroupKeys(queue, s, sections)))))
  {
    var groups, keys := SortedGroups(queue, s, sections), GroupKeys(queue, s, sections);
    var groupSections := GroupSections(queue, sections);
    assert Leading(groupSections, keys);
    LeadingAscends(groupSections, keys);
    GroupsSort(queue, s, sections);
    hide SortedGroups, GroupKeys, StableSort, Buckets, GroupSections;
    forall g, i | 0 <= g < |groups| && 0 <= i < |groups[g]|
      ensures groups[g][i] < |sections| && sections[groups[g][i]] == groupSections[g]
    {
      assert groups[g][i] in groups[g];
      SortsIn(Buckets(queue, sections), FirstSeen(Buckets(queue, sections)), groups, g, groups[g][i]);
    }
    FlattenAscends(sections, groups, groupSections, StableSort(keys));
  }

  /** Groups of one section each, laid out by section, list the requests by section. */
  lemma {:induction false} FlattenAscends(sections: seq<int>, groups: seq<seq<nat>>, groupSections: seq<int>,
                                          order: seq<nat>)
    requires |groupSections| == |groups| && Ascending(groupSections, order)
    requires forall g, i {:trigger groups[g][i]} :: 0 <= g < |groups| && 0 <= i < |groups[g]| ==>
      groups[g][i] < |sections| && sections[groups[g][i]] == groupSections[g]
    ensures Ascending(sections, Flatten(Pick(groups, order)))
    ensures forall i {:trigger Flatten(Pick(groups, order))[i]} :: 0 <= i < |Flatten(Pick(groups, order))| ==>
      order != [] && sections[Flatten(Pick(groups, order))[i]] <= groupSections[order[|order| - 1]]
  {
    if order != [] {
      var n := |order| - 1;
      FlattenAscends(sections, groups, groupSections, order[..n]);
      assert Pick(groups, order)[..n] == Pick(groups, order[..n]);
      var front, last := Flatten(Pick(groups, order[..n])), groups[order[n]];
      assert Flatten(Pick(groups, order)) == front + last;
      forall i | 0 <= i < |front|
        ensures sections[front[i]] <= groupSections[order[n]]
      {
        assert order[..n][n - 1] == order[n - 1];
      }
    }
  }

  /** Lane A: dense clusters first. */
  ghost function LaneA(queue: seq<QueuedRequest>, s: Settings, sections: seq<int>): seq<nat>
    requires |sections| == |queue|
  {
    if s.groupMajor then Flatten(Pick(SortedGroups(queue, s, sections), StableSort(GroupKeys(queue, s, sections))))
    else StableSort(LaneAKeys(queue, s, sections))
  }

  /** Lane B: oldest first. */
  ghost function LaneB(queue: seq<QueuedRequest>, s: Settings, sections: seq<int>): seq<nat>
    requires |sections| == |queue|
  {
    StableSort(LaneBKeys(queue, s, sections))
  }

  lemma LaneBFacts(queue: seq<QueuedRequest>, s: Settings, sections: seq<int>)
    requires |sections| == |queue|
    ensures Permutes(LaneB(queue, s, sections), |queue|) && Ascending(sections, LaneB(queue, s, sections))
  {
    StableSortOrdered(LaneBKeys(queue, s, sections));
    assert Leading(sections, LaneBKeys(queue, s, sections));
    LeadingAscends(sections, LaneBKeys(queue, s, sections));
  }

  lemma LaneAFacts(queue: seq<QueuedRequest>, s: Settings, sections: seq<int>)
    requires |sections| == |queue|
    ensures Permutes(LaneA(queue, s, sections), |queue|) && Ascending(sections, LaneA(queue, s, sections))
  {
    if s.groupMajor {
      GroupMajorFacts(queue, s, sections);
    } else {
      StableSortOrdered(LaneAKeys(queue, s, sections));
      assert Leading(sections, LaneAKeys(queue, s, sections));
      LeadingAscends(sections, LaneAKeys(queue, s, sections));
    }
  }

  // ----- the share controller -----

  predicate IsSingle(r: QueuedRequest) {
    r.cluster.None? || r.cluster.value.size < 2
  }

  ghost function Singles(queue: seq<QueuedRequest>): (n: nat)
    ensures n <= |queue|
  {
    if queue == [] then 0
    else Singles(queue[..|queue| - 1]) + if IsSingle(queue[|queue| - 1]) then 1 else 0
  }

  function Age(r: QueuedRequest, s: Settings): (age: real)
    ensures age >= 0.0
  {
    if IsSingle(r) && s.stamped && r.arrived.Some? && r.arrived.value != 0.0 && Now(s) != 0.0
      && Now(s) > r.arrived.value
    then Now(s) - r.arrived.value else 0.0
  }

  /** The longest wait of a request outside every cluster. */
  ghost function OldestSingle(queue: seq<QueuedRequest>, s: Settings): (age: real)
    ensures age >= 0.0
  {
    if queue == [] then 0.0
    else
      var rest, last := OldestSingle(queue[..|queue| - 1], s), Age(queue[|queue| - 1], s);
      if last > rest then last else rest
  }

  /** The share of lane B this queue asks for. */
  function WantedShare(singles: nat, total: nat, oldest: real, sloBudget: real): (b: real)
    requires singles <= total && total > 0 && oldest >= 0.0
    ensures 0.15 <= b <= 0.6
  {
    var fraction := singles as real / total as real;
    var pressure := if sloBudget > 0.0 then (if oldest / sloBudget > 1.0 then 1.0 else oldest / sloBudget) else 0.0;
    FractionsFit(singles as real, total as real, oldest, sloBudget);
    var raw := 0.15 + 0.5 * fraction + 0.3 * pressure;
    var capped := if raw < 0.6 then raw else 0.6;
    if capped > 0.1 then capped else 0.1
  }

  lemma FractionsFit(x: real, y: real, oldest: real, sloBudget: real)
    requires x >= 0.0 && y > 0.0 && oldest >= 0.0
    ensures x / y >= 0.0 && (sloBudget > 0.0 ==> oldest / sloBudget >= 0.0)
  {
  }

  class Scheduler {
    var waitingQueue: seq<QueuedRequest>
    var dynLaneState: map<nat, real>

    /** Every smoothed share lies between the least and the greatest wanted one. */
    ghost predicate SharesBounded()
      reads this`dynLaneState
    {
      forall k {:trigger dynLaneState[k]} :: k in dynLaneState ==> 0.15 <= dynLaneState[k] <= 0.6
    }

    constructor ()
      ensures SharesBounded() && dynLaneState == map[] && waitingQueue == []
    {
      waitingQueue, dynLaneState := [], map[];
    }

    ghost function Previous(tree: nat): real
      reads this`dynLaneState
    {
      if tree in dynLaneState then dynLaneState[tree] else 0.3
    }

    /** Smooth the wanted share of lane B into the tree's state.  Lane A is left with a share that is
        never near 0 or 1. */
    method NextShare(tree: nat, s: Settings) returns (share: real)
      requires SharesBounded() && waitingQueue != []
      modifies this`dynLaneState
      ensures SharesBounded() && 0.4 <= share <= 0.85
      ensures dynLaneState == old(dynLaneState)[tree := 1.0 - share]
      ensures 1.0 - share == 0.7 * old(Previous(tree)) + 0.3 *
        WantedShare(Singles(waitingQueue), |waitingQueue|, OldestSingle(waitingQueue, s), s.sloBudget)
    {
      var singles, oldest := 0, 0.0;
      var i := 0;
      while i < |waitingQueue|
        invariant i <= |waitingQueue| && singles == Singles(waitingQueue[..i])
        invariant oldest == OldestSingle(waitingQueue[..i], s)
      {
        assert waitingQueue[..i + 1][..i] == waitingQueue[..i];
        if IsSingle(waitingQueue[i]) {
          singles := singles + 1;
          if Age(waitingQueue[i], s) > oldest {
            oldest := Age(waitingQueue[i], s);
          }
        }
        i := i + 1;
      }
      assert waitingQueue[..i] == waitingQueue;
      var previous := if tree in dynLaneState then dynLaneState[tree] else 0.3;
      var smoothed := 0.7 * previous + 0.3 * WantedShare(singles, |waitingQueue|, oldest, s.sloBudget);
      dynLaneState := dynLaneState[tree := smoothed];
      share := 1.0 - smoothed;
    }

    /** Reorder the waiting queue. */
    method Sort(tree: nat, s: Settings)
      returns (ghost sections: seq<int>, ghost share: real, ghost order: seq<nat>, ghost lane: seq<bool>)
      requires SharesBounded()
      modifies this
      ensures SharesBounded() && AreSections(old(waitingQueue), s, sections)
      ensures if s.dynamicLane && old(waitingQueue) != [] then
        0.4 <= share <= 0.85 && Previous(tree) == 1.0 - share
      else share == s.share
      ensures Permutes(order, |old(waitingQueue)|) && waitingQueue == Pick(old(waitingQueue), order)
      ensures Laid(old(waitingQueue), s, sections, share, order, lane)
      ensures Ascending(sections, order)
    {
      hide Permutes, Ascending, Laid, AreSections;
      var parts := AssignSections(waitingQueue, s);
      SectionsLength(waitingQueue, s, parts);
      sections := parts;
      var bigLaneShare := s.share;
      if s.dynamicLane && waitingQueue != [] {
        bigLaneShare := NextShare(tree, s);
      }
      share := bigLaneShare;
      var picks;
      picks, lane := PickOrder(s, parts, bigLaneShare);
      order := picks;
      PermutesLength(picks, |waitingQueue|);
      waitingQueue := Pick(waitingQueue, picks);
    }

    /** One lane alone where the share says so, the merge of both otherwise. */
    method PickOrder(s: Settings, sections: seq<int>, share: real) returns (order: seq<nat>, ghost lane: seq<bool>)
      requires |sections| == |waitingQueue|
      ensures Laid(waitingQueue, s, sections, share, order, lane)
      ensures Permutes(order, |waitingQueue|) && Ascending(sections, order)
    {
      hide Permutes, Ascending, Merged, LaneA, LaneB;
      LaneAFacts(waitingQueue, s, sections);
      LaneBFacts(waitingQueue, s, sections);
      lane := [];
      if share >= 1.0 - 0.000000001 {
        order := LaneAOrder(s, sections);
      } else if share <= 0.000000001 {
        order := LaneBOrder(s, sections);
      } else {
        var a := LaneAOrder(s, sections);
        var b := LaneBOrder(s, sections);
        PermutesLength(a, |waitingQueue|);
        order, lane := Interleave(a, b, share);
        MergedAscends(sections, a, b, share, order, lane);
      }
    }

    method LaneAOrder(s: Settings, sections: seq<int>) returns (order: seq<nat>)
      requires |sections| == |waitingQueue|
      ensures order == LaneA(waitingQueue, s, sections)
    {
      if s.groupMajor {
        order := GroupMajorOrder(waitingQueue, s, sections);
      } else {
        order := StableSort(LaneAKeys(waitingQueue, s, sections));
      }
    }

    method LaneBOrder(s: Settings, sections: seq<int>) returns (order: seq<nat>)
      requires |sections| == |waitingQueue|
      ensures order == LaneB(waitingQueue, s, sections)
    {
      order := StableSort(LaneBKeys(waitingQueue, s, sections));
    }
  }

  /** The order is one lane's where the share says so, and the merge of both otherwise. */
  ghost predicate Laid(queue: seq<QueuedRequest>, s: Settings, sections: seq<int>, share: real, order: seq<nat>,
                       lane: seq<bool>)
  {
    && |sections| == |queue|
    && if share >= 1.0 - 0.000000001 then order == LaneA(queue, s, sections)
       else if share <= 0.000000001 then order == LaneB(queue, s, sections)
       else Merged(LaneA(queue, s, sections), LaneB(queue, s, sections), share, order, lane)
  }

  lemma SectionsLength(queue: seq<QueuedRequest>, s: Settings, sections: seq<int>)
    requires AreSections(queue, s, sections)
    ensures |sections| == |queue|
  {
  }

  lemma PermutesLength(s: seq<nat>, n: nat)
    requires Permutes(s, n)
    ensures |s| == n && forall i :: 0 <= i < n ==> s[i] < n
  {
  }

  lemma MergedAscends(sections: seq<int>, a: seq<nat>, b: seq<nat>, share: real, order: seq<nat>, lane: seq<bool>)
    requires Ascending(sections, a) && Ascending(sections, b) && Merged(a, b, share, order, lane)
    requires Permutes(a, |sections|) && Permutes(b, |sections|) && Permutes(order, |sections|)
    ensures Ascending(sections, order)
  {
    MergeAscending(sections, a, b, share, order, lane);
  }

  // ----- what the order guarantees -----

  /** Every sibling comes after its pioneer: the one cold request with the same first tokens that
      is not a sibling. */
  lemma SiblingAfterPioneer(queue: seq<QueuedRequest>, s: Settings, sections: seq<int>, order: seq<nat>, i: nat)
    returns (p: nat)
    requires AreSections(queue, s, sections) && Ascending(sections, order) && Permutes(order, |queue|)
    requires i < |order| && sections[order[i]] == 2
    ensures p < i && sections[order[p]] == 1
    ensures s.dedup >= 0 && |queue[order[p]].prompt| >= s.dedup && |queue[order[i]].prompt| >= s.dedup
    ensures queue[order[p]].prompt[..s.dedup] == queue[order[i]].prompt[..s.dedup]
    ensures forall r :: 0 <= r < |queue| && r != order[p] && sections[r] == 1 && |queue[r].prompt| >= s.dedup ==>
      queue[r].prompt[..s.dedup] != queue[order[i]].prompt[..s.dedup]
  {
    var q, x := Entries(queue), order[i];
    assert sections[x] == Section(queue, s, x);
    var pioneer := PioneerOf(q, s.check, s.dedup, x);
    assert sections[pioneer] == Section(queue, s, pioneer);
    assert pioneer in order;
    p :| 0 <= p < |order| && order[p] == pioneer;
    forall r | 0 <= r < |queue| && r != pioneer && Claims(q[r], s.check, s.dedup)
      && q[r].prompt[..s.dedup] == q[x].prompt[..s.dedup]
      ensures sections[r] == 2
    {
      assert sections[r] == Section(queue, s, r);
      if r < x {
        assert Earlier(q, s.check, s.dedup, x, r);
      } else {
        assert Earlier(q, s.check, s.dedup, r, pioneer);
      }
    }
    forall r | 0 <= r < |queue| && sections[r] == 1
      ensures q[r].hit <= s.check
    {
      assert sections[r] == Section(queue, s, r);
    }
  }

  lemma WidestShare(n: real, j: real, share: real)
    requires n >= 0.0 && share <= 0.85 && n * (1.0 - share) <= j + share
    ensures n * 0.15 <= j + 0.85
  {
    assert n * 0.15 <= n * (1.0 - share);
  }

  lemma NarrowestShare(n: real, j: real, share: real)
    requires n >= 0.0 && share >= 0.4 && n * share <= j + 1.0 - share
    ensures n * 0.4 <= j + 0.6
  {
    assert n * 0.4 <= n * share;
  }

  /** With the dynamic share nobody at rank `j` of the fairness lane waits past index
      `(j + 0.85) / 0.15`, and nobody at rank `j` of the dense lane past `(j + 0.6) / 0.4`, whatever
      the queue and its history. */
  lemma DynamicStarvation(queue: seq<QueuedRequest>, s: Settings, sections: seq<int>, share: real, order: seq<nat>,
                          lane: seq<bool>, i: nat, j: nat, inA: bool)
    requires Laid(queue, s, sections, share, order, lane) && 0.4 <= share <= 0.85 && Permutes(order, |queue|)
    requires var ranks := if inA then LaneA(queue, s, sections) else LaneB(queue, s, sections);
      i < |order| && j < |ranks| && order[i] == ranks[j]
    ensures inA ==> i <= ((j as real + 0.6) / 0.4).Floor
    ensures !inA ==> i <= ((j as real + 0.85) / 0.15).Floor
  {
    hide Merged, LaneA, LaneB;
    var a, b := LaneA(queue, s, sections), LaneB(queue, s, sections);
    RankWait(a, b, share, order, lane, i, j, inA);
    if inA {
      NarrowestShare(i as real, j as real, share);
      FloorBound(i, j as real + 0.6, 0.4);
    } else {
      WidestShare(i as real, j as real, share);
      FloorBound(i, j as real + 0.85, 0.15);
    }
  }
}
