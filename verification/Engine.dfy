/**
 The scheduling cycle of engine.py over the KV cache: drop last cycle's queue references,
 match the waiting requests, rebuild the queue and protect what the front of it will use.
 */
module PeekEngines {
  import opened Prelude
  import opened Sorting
  import opened Grouping
  import opened GroupScores
  import opened CacheStore
  import opened CacheRefs
  import opened CacheWalk
  import opened CacheSweeps
  import opened CacheTimes
  import opened KvCache

  /** What the client packs into a request id. */
  datatype Tag = Tag(rank: int, group: nat)

  datatype Req = Req(rid: Rid, tag: Option<Tag>, origin: seq<Token>, output: seq<Token>, entered: real)

  /** The tokens a request is matched with. */
  function Prompt(r: Req): seq<Token> {
    r.origin + r.output
  }

  /** The fast path is taken when the first waiting request is tagged. */
  predicate HasPeekTags(queue: seq<Req>) {
    queue != [] && queue[0].tag.Some?
  }

  function TagKeys(queue: seq<Req>): (keys: seq<Option<nat>>)
    ensures |keys| == |queue|
    ensures forall x ::
      0 <= x < |queue| ==> keys[x] == if queue[x].tag.Some? then Some(queue[x].tag.value.group) else None
  {
    seq(|queue|, x requires 0 <= x < |queue| => if queue[x].tag.Some? then Some(queue[x].tag.value.group) else None)
  }

  ghost function GroupLists(tags: seq<Option<nat>>): (groups: seq<seq<nat>>)
    ensures |groups| == |FirstSeen(tags)|
    ensures forall g :: 0 <= g < |groups| ==> groups[g] == Members(tags, FirstSeen(tags)[g])
  {
    seq(|FirstSeen(tags)|, g requires 0 <= g < |FirstSeen(tags)| => Members(tags, FirstSeen(tags)[g]))
  }

  // ----- the facts of a group -----

  /** The longest that a member with a known arrival has been waiting, if at all. */
  ghost predicate LongestWait(queue: seq<Req>, members: seq<nat>, now: real, w: real)
    requires forall i :: 0 <= i < |members| ==> members[i] < |queue|
  {
    && w >= 0.0
    && (forall i {:trigger members[i]} ::
      0 <= i < |members| && queue[members[i]].entered > 0.0 ==> now - queue[members[i]].entered <= w)
    && (w > 0.0 ==> exists i {:trigger members[i]} ::
      0 <= i < |members| && queue[members[i]].entered > 0.0 && now - queue[members[i]].entered == w)
  }

  /** When each group is matched, and when the age of its node is read. */
  datatype Times = Times(matched: nat -> int, read: nat -> int)

  /** The age of the matched node.  The match has just refreshed it, so all it measures is the time
      between the match and the reading. */
  ghost function Risk(hit: nat, times: Times, g: nat): real {
    if hit > 0 && times.read(g) > times.matched(g) then (times.read(g) - times.matched(g)) as real else 0.0
  }

  ghost predicate FactsFit(queue: seq<Req>, members: seq<nat>, hit: nat, pending: map<nat, nat>, now: real, risk: real,
                           f: Facts)
    requires Filled(queue, members)
  {
    var rep := queue[members[0]];
    && f.cached == hit && f.length == |rep.origin| && f.count == |members| && f.rank == rep.tag.value.rank
    && f.pending == (if rep.tag.value.group in pending then pending[rep.tag.value.group] else |members|)
    && f.risk == risk && LongestWait(queue, members, now, f.wait)
  }

  /** Queue references count the walks that visit the node, for every node of the tree. */
  ghost predicate RefsWalked<N>(c: Cache<N>, nodes: seq<N>)
    requires Chained(c)
  {
    && c.path.Keys <= c.st.Keys
    && forall n {:trigger c.st[n]} :: n in c.path && n != c.root ==> c.st[n].refs == |Walkers(c, nodes, n)|
  }

  /** Queue references count the protected nodes below, for every node of the tree. */
  ghost predicate RefsExact<N>(c: Cache<N>, nodes: seq<N>) {
    && c.path.Keys <= c.st.Keys
    && forall n {:trigger c.st[n]} :: n in c.path && n != c.root ==> c.st[n].refs == |Protectors(c, nodes, n)|
  }

  class PeekEngine {
    const treeCache: RadixCache
    var waitingQueue: seq<Req>

    constructor (treeCache: RadixCache)
      ensures this.treeCache == treeCache && waitingQueue == []
    {
      this.treeCache := treeCache;
      waitingQueue := [];
    }

    /** Zero the references along the walks from last cycle's protected nodes, or everywhere when
        there was no last cycle.  Either way no node of the tree keeps a reference, and nothing
        else changes. */
    method ResetProtection()
      requires treeCache.Valid()
      modifies treeCache`view, treeCache.all`queueRefCount
      ensures treeCache.Valid() && AllClear(treeCache.view)
      ensures RefsOnly(old(treeCache.view), treeCache.view)
    {
      hide Good, Inv, SweptTo, Traced, Cleared, RefsOnly, RadixCache.Synced, AllClear;
      var prev := treeCache.peekPrevProtected;
      ghost var c := treeCache.view;
      ResetParts(c, prev);
      if prev.Some? {
        var nodes, i := prev.value, 0;
        SweepStart(c, nodes);
        while i < |nodes|
          invariant i <= |nodes| && treeCache.Synced() && SweptTo(c, treeCache.view, nodes, i)
        {
          ghost var was := treeCache.view;
          treeCache.FieldsAre();
          SweptParts(c, was, nodes, i);
          treeCache.ClearWalk(nodes[i], c);
          SweepStep(c, was, treeCache.view, nodes, i);
          i := i + 1;
        }
        SweptParts(c, treeCache.view, nodes, i);
        SweepClears(c, treeCache.view, nodes);
      } else {
        treeCache.ResetAllQueueRefs();
      }
      ClearIsGood(c, treeCache.view, prev);
    }

    /** Reference the walks up from the given nodes, which may have left the tree since they were
        matched, and remember them for the next reset. */
    method Protect(nodes: seq<TreeNode>)
      requires treeCache.Valid() && AllClear(treeCache.view) && AllKnown(treeCache.view, nodes)
      modifies treeCache`view, treeCache`peekPrevProtected, treeCache.all`queueRefCount
      ensures treeCache.Valid() && treeCache.peekPrevProtected == Some(nodes)
      ensures RefsOnly(old(treeCache.view), treeCache.view) && Chained(treeCache.view)
      ensures RefsWalked(treeCache.view, nodes)
      ensures AllLive(old(treeCache.view), nodes) ==> RefsExact(treeCache.view, nodes)
    {
      hide Good, Inv, Traced, Raised, RefsOnly, RadixCache.Synced, AllClear, ProtectedTo, RefsExact, RefsWalked,
        AllLive;
      ghost var c := treeCache.view;
      GoodParts(c, treeCache.peekPrevProtected);
      InvChain(c);
      ProtectStart(c, nodes);
      var i := 0;
      while i < |nodes|
        invariant i <= |nodes| && treeCache.Synced() && Inv(treeCache.view) && ProtectedTo(c, treeCache.view, nodes, i)
      {
        ghost var was := treeCache.view;
        treeCache.FieldsAre();
        ProtectedParts(c, was, nodes, i);
        InvChain(was);
        treeCache.IncQueueRef(nodes[i]);
        ProtectStep(c, was, treeCache.view, nodes, i);
        i := i + 1;
      }
      InvChain(treeCache.view);
      ProtectTraced(c, treeCache.view, nodes);
      ProtectedWalked(c, treeCache.view, nodes);
      if AllLive(c, nodes) {
        ProtectedExact(c, treeCache.view, nodes);
      }
      treeCache.SetPrev(nodes);
    }

    method GatherWait(members: seq<nat>, clock: real) returns (w: real)
      requires forall i :: 0 <= i < |members| ==> members[i] < |waitingQueue|
      ensures LongestWait(waitingQueue, members, clock, w)
    {
      w := 0.0;
      var i := 0;
      while i < |members|
        invariant i <= |members| && LongestWait(waitingQueue, members[..i], clock, w)
      {
        var more := members[..i + 1];
        assert more[i] == members[i];
        assert forall j :: 0 <= j < i ==> more[j] == members[..i][j];
        var entered := waitingQueue[members[i]].entered;
        if entered > 0.0 && w < clock - entered {
          w := clock - entered;
        }
        i := i + 1;
      }
      assert members[..i] == members;
    }

    /** What the score of each group is computed from. */
    method GatherFacts(groups: seq<seq<nat>>, hits: seq<nat>, risks: seq<real>, pending: map<nat, nat>, clock: real)
      returns (facts: seq<Facts>)
      requires |hits| == |risks| == |groups|
      requires forall g {:trigger groups[g]} :: 0 <= g < |groups| ==> Filled(waitingQueue, groups[g])
      ensures |facts| == |groups|
      ensures forall g {:trigger facts[g]} ::
        0 <= g < |facts| ==> FactsFit(waitingQueue, groups[g], hits[g], pending, clock, risks[g], facts[g])
    {
      facts := [];
      while |facts| < |groups|
        invariant |facts| <= |groups|
        invariant forall g {:trigger facts[g]} ::
          0 <= g < |facts| ==> FactsFit(waitingQueue, groups[g], hits[g], pending, clock, risks[g], facts[g])
      {
        var g := |facts|;
        var rep := waitingQueue[groups[g][0]];
        var wait := GatherWait(groups[g], clock);
        var demand := if rep.tag.value.group in pending then pending[rep.tag.value.group] else |groups[g]|;
        facts := facts + [Facts(hits[g], |rep.origin|, demand, risks[g], wait, |groups[g]|, rep.tag.value.rank)];
      }
    }

    /** The matched nodes of the first `count` groups of the order, where something was matched. */
    method ChooseNodes(order: seq<nat>, nodes: seq<TreeNode>, hits: seq<nat>, count: nat)
      returns (chosen: seq<TreeNode>)
      requires |nodes| == |hits| && count <= |order| && forall i :: 0 <= i < |order| ==> order[i] < |nodes|
      ensures chosen == Chosen(order[..count], nodes, hits)
    {
      chosen := [];
      var i := 0;
      while i < count
        invariant i <= count && chosen == Chosen(order[..i], nodes, hits)
      {
        assert order[..i + 1][..i] == order[..i];
        if hits[order[i]] > 0 {
          chosen := chosen + [nodes[order[i]]];
        }
        i := i + 1;
      }
    }

    /** Match one representative per group, and read how long ago its node was accessed. */
    method MatchGroups(groups: seq<seq<nat>>, times: Times)
      returns (nodes: seq<TreeNode>, hits: seq<nat>, risks: seq<real>)
      requires treeCache.Valid() && AllClear(treeCache.view)
      requires forall g {:trigger groups[g]} :: 0 <= g < |groups| ==> groups[g] != [] && groups[g][0] < |waitingQueue|
      modifies treeCache`all, treeCache`view
      modifies treeCache.all`children, treeCache.all`parent, treeCache.all`key, treeCache.all`value
      modifies treeCache.all`lastAccessTime
      ensures treeCache.Valid() && AllClear(treeCache.view) && SameOutside(old(treeCache.view), treeCache.view)
      ensures old(treeCache.all) <= treeCache.all && fresh(treeCache.all - old(treeCache.all))
      ensures |nodes| == |hits| == |risks| == |groups|
      ensures forall g {:trigger risks[g]} :: 0 <= g < |groups| ==> risks[g] == Risk(hits[g], times, g)
      ensures forall g {:trigger nodes[g]} ::
        0 <= g < |groups| ==> Landed(treeCache.view, Prompt(waitingQueue[groups[g][0]]), nodes[g], hits[g])
    {
      hide Good, Inv, IsHit, Reads, SameRefs, RadixCache.Synced, AllClear, Landed, Touched, MadeNow, OneMade, Falling,
        NoneLater, RadixCache.AccessTimes;
      nodes, hits, risks := [], [], [];
      GoodParts(treeCache.view, treeCache.peekPrevProtected);
      while |nodes| < |groups|
        invariant |nodes| == |hits| == |risks| <= |groups|
        invariant forall g {:trigger risks[g]} :: 0 <= g < |risks| ==> risks[g] == Risk(hits[g], times, g)
        invariant treeCache.Valid() && AllClear(treeCache.view) && SameOutside(old(treeCache.view), treeCache.view)
        invariant old(treeCache.all) <= treeCache.all && fresh(treeCache.all - old(treeCache.all))
        invariant forall g {:trigger nodes[g]} ::
          0 <= g < |nodes| ==> Landed(treeCache.view, Prompt(waitingQueue[groups[g][0]]), nodes[g], hits[g])
      {
        ghost var was := treeCache.view;
        var prompt := Prompt(waitingQueue[groups[|nodes|][0]]);
        var values, node := treeCache.MatchPrefix(prompt, true, times.matched(|nodes|));
        var age := times.read(|nodes|) - node.lastAccessTime;
        risks := risks + [if |values| > 0 && age > 0 then age as real else 0.0];
        StaysClear(was, treeCache.view);
        LandedHere(treeCache.view, prompt, node, values);
        forall g | 0 <= g < |nodes|
          ensures Landed(treeCache.view, Prompt(waitingQueue[groups[g][0]]), nodes[g], hits[g])
        {
          LandedStays(was, treeCache.view, Prompt(waitingQueue[groups[g][0]]), nodes[g], hits[g]);
        }
        nodes, hits := nodes + [node], hits + [|values|];
      }
    }

    /** Group, match, score and lay out the waiting requests. */
    method Rebuild(pending: map<nat, nat>, times: Times, clock: real)
      returns (nodes: seq<TreeNode>, hits: seq<nat>, facts: seq<Facts>, ghost positions: seq<nat>)
      requires treeCache.Valid() && AllClear(treeCache.view)
      modifies this`waitingQueue, treeCache`all, treeCache`view
      modifies treeCache.all`children, treeCache.all`parent, treeCache.all`key, treeCache.all`value
      modifies treeCache.all`lastAccessTime
      ensures treeCache.Valid() && AllClear(treeCache.view) && SameOutside(old(treeCache.view), treeCache.view)
      ensures old(treeCache.all) <= treeCache.all && fresh(treeCache.all - old(treeCache.all))
      ensures |nodes| == |facts|
      ensures Planned(old(waitingQueue), treeCache.view.content, pending, times, clock, hits, facts, positions)
      ensures Rebuilt(old(waitingQueue), waitingQueue, positions) && |hits| == |facts| && AllLive(treeCache.view, nodes)
      ensures MatchedOk(old(waitingQueue), hits) && PathsOf(treeCache.view, nodes) == Matched(old(waitingQueue), hits)
    {
      hide Good, Inv, MatchedOk, Matched, PathsOf, IsHit, RefsOnly, RadixCache.Valid, AllClear, Landed, FactsFit,
        Filled, Planned, Rebuilt, SameOutside, AllLive;
      var queue := waitingQueue;
      var tags := TagKeys(queue);
      GroupsFilled(queue);
      var table, groupKeys := GroupBy(tags);
      var groups := Tabled(table, groupKeys, tags);
      var risks;
      nodes, hits, risks := MatchGroups(groups, times);
      LandedLive(treeCache.view, queue, groups, nodes, hits) by { treeCache.ValidParts(); }
      LandedMatched(treeCache.view, queue, nodes, hits);
      facts := GatherFacts(groups, hits, risks, pending, clock);
      var laidOut := LayOut(groups, StableSort(RankKeys(facts)));
      positions := laidOut;
      ItIsPlanned(treeCache.view, queue, pending, times, clock, nodes, hits, risks, facts, positions);
      ItIsRebuilt(queue, facts, positions);
      StoreQueue(Pick(queue, laidOut));
    }

    method StoreQueue(queue: seq<Req>)
      modifies this`waitingQueue
      ensures waitingQueue == queue
      ensures old(treeCache.Valid()) ==> treeCache.Valid()
    {
      waitingQueue := queue;
    }

    /** One cycle of the tagged path: the tagged requests, whole groups at a time, in score order,
        and the matched prefixes of the first groups protected. */
    method RunTagged(pending: map<nat, nat>, times: Times, clock: real)
      returns (groupCount: nat, ghost hits: seq<nat>, ghost facts: seq<Facts>, ghost positions: seq<nat>)
      requires treeCache.Valid()
      modifies this`waitingQueue, treeCache`all, treeCache`view, treeCache`peekPrevProtected
      modifies treeCache.all`children, treeCache.all`parent, treeCache.all`key, treeCache.all`value
      modifies treeCache.all`lastAccessTime, treeCache.all`queueRefCount
      ensures treeCache.Valid() && SameOutside(old(treeCache.view), treeCache.view)
      ensures groupCount == |facts|
      ensures Planned(old(waitingQueue), treeCache.view.content, pending, times, clock, hits, facts, positions)
      ensures Rebuilt(old(waitingQueue), waitingQueue, positions)
      ensures treeCache.peekPrevProtected.Some? && RefsExact(treeCache.view, treeCache.peekPrevProtected.value)
      ensures ProtectsFirst(treeCache.view, treeCache.peekPrevProtected.value, old(waitingQueue), hits, facts)
    {
      hide Good, Inv, MatchedOk, Matched, PathsOf, ProtectsFirst, RefsOnly, RadixCache.Valid, AllClear, Planned,
        Rebuilt, SameOutside, RefsExact, AllLive;
      ghost var c := treeCache.view;
      ResetProtection();
      ghost var clear := treeCache.view;
      var nodes, matched, gathered;
      nodes, matched, gathered, positions := Rebuild(pending, times, clock);
      ghost var split := treeCache.view;
      hits, facts, groupCount := matched, gathered, |gathered|;
      treeCache.ValidParts();
      treeCache.FieldsAre();
      var total := treeCache.TotalSize();
      var chosen := ChooseNodes(StableSort(RankKeys(gathered)), nodes, matched,
        ProtectCount(groupCount, total, SumLengths(gathered)));
      ChosenLive(split, Front(gathered, total), nodes, matched);
      LiveKnown(split, chosen);
      Protect(chosen);
      OutsideChain(c, clear, split, treeCache.view);
      ProtectsThem(split, treeCache.view, nodes, chosen, old(waitingQueue), matched, gathered, total);
    }
  }

  /** A match of `prompt` ended at `node` after `hit` tokens, and no longer prefix is cached. */
  ghost predicate Landed<N>(c: Cache<N>, prompt: seq<Token>, node: N, hit: nat) {
    && node in c.path && hit <= |prompt| && c.path[node] == prompt[..hit] && IsHit(c.content, prompt, hit)
  }

  /** A group: some tagged requests of the queue. */
  ghost predicate Filled(queue: seq<Req>, members: seq<nat>) {
    members != [] && forall i {:trigger members[i]} ::
      0 <= i < |members| ==> members[i] < |queue| && queue[members[i]].tag.Some?
  }

  /** What was matched for the groups with a hit, in this order. */
  ghost function Chosen<N>(order: seq<nat>, nodes: seq<N>, hits: seq<nat>): seq<N>
    requires |nodes| == |hits| && forall i :: 0 <= i < |order| ==> order[i] < |nodes|
  {
    if order == [] then []
    else
      var n := |order| - 1;
      Chosen(order[..n], nodes, hits) + if hits[order[n]] > 0 then [nodes[order[n]]] else []
  }

  /** The dictionary's lists, in the order its keys were first seen. */
  function Tabled(table: map<nat, seq<nat>>, order: seq<nat>, tags: seq<Option<nat>>): (groups: seq<seq<nat>>)
    requires order == FirstSeen(tags)
    requires forall g {:trigger order[g]} ::
      0 <= g < |order| ==> order[g] in table && table[order[g]] == Members(tags, order[g])
    ensures groups == GroupLists(tags)
  {
    seq(|order|, g requires 0 <= g < |order| => table[order[g]])
  }

  /** Every group of the queue, with the hit of its first request and what it is scored by, laid
      out in score order. */
  ghost predicate Planned(queue: seq<Req>, content: map<seq<Token>, int>, pending: map<nat, nat>, times: Times,
                          clock: real, hits: seq<nat>, facts: seq<Facts>, positions: seq<nat>)
  {
    var groups := GroupLists(TagKeys(queue));
    && |hits| == |facts| == |groups|
    && (forall g {:trigger facts[g]} :: 0 <= g < |facts| ==>
      && Filled(queue, groups[g])
      && FactsFit(queue, groups[g], hits[g], pending, clock, Risk(hits[g], times, g), facts[g])
      && IsHit(content, queue[groups[g][0]].origin + queue[groups[g][0]].output, hits[g]))
    && positions == Flatten(Pick(groups, StableSort(RankKeys(facts))))
  }

  /** The order depends on the queue, on what is cached and on the clocks, and on nothing else: the
      match refreshes a node before its age is read, so how stale it was, and when eviction would
      have come for it, never enters the score. */
  lemma PlannedUnique(queue: seq<Req>, content: map<seq<Token>, int>, pending: map<nat, nat>, times: Times, clock: real,
                      hits: seq<nat>, facts: seq<Facts>, positions: seq<nat>,
                      hits': seq<nat>, facts': seq<Facts>, positions': seq<nat>)
    requires Planned(queue, content, pending, times, clock, hits, facts, positions)
    requires Planned(queue, content, pending, times, clock, hits', facts', positions')
    ensures hits == hits' && facts == facts' && positions == positions'
  {
    hide StableSort, Flatten, IsHit, LongestWait, GroupLists;
    var groups := GroupLists(TagKeys(queue));
    forall g | 0 <= g < |groups|
      ensures hits[g] == hits'[g] && facts[g] == facts'[g]
    {
      var f, f' := facts[g], facts'[g];
      HitUnique(content, Prompt(queue[groups[g][0]]), hits[g], hits'[g]);
      WaitUnique(queue, groups[g], clock, f.wait, f'.wait);
      assert f == Facts(f.cached, f.length, f.pending, f.risk, f.wait, f.count, f.rank);
    }
  }

  lemma HitUnique(content: map<seq<Token>, int>, key: seq<Token>, k: nat, k': nat)
    requires IsHit(content, key, k) && IsHit(content, key, k')
    ensures k == k'
  {
  }

  lemma WaitUnique(queue: seq<Req>, members: seq<nat>, now: real, w: real, w': real)
    requires forall i :: 0 <= i < |members| ==> members[i] < |queue|
    requires LongestWait(queue, members, now, w) && LongestWait(queue, members, now, w')
    ensures w == w'
  {
  }

  /** `after` holds the tagged requests of `before`, each once, and no other. */
  ghost predicate Rebuilt(before: seq<Req>, after: seq<Req>, positions: seq<nat>) {
    && NoDup(positions) && |after| == |positions|
    && (forall x: nat {:trigger x in positions} :: x in positions <==> x < |before| && before[x].tag.Some?)
    && forall i {:trigger positions[i]} ::
      0 <= i < |positions| ==> positions[i] < |before| && after[i] == before[positions[i]]
  }

  /** The rebuilt queue is a reordering of the queue exactly when every request is tagged. */
  lemma RebuiltPermutes(before: seq<Req>, after: seq<Req>, positions: seq<nat>)
    requires Rebuilt(before, after, positions)
    ensures Permutes(positions, |before|) <==> forall x :: 0 <= x < |before| ==> before[x].tag.Some?
  {
    KeyedPermutes(TagKeys(before), positions);
    assert forall x :: 0 <= x < |before| ==> (TagKeys(before)[x].Some? <==> before[x].tag.Some?);
  }

  /** The guard of the tagged path looks at the first request only, so a tagged request in front
      of an untagged one loses the latter. */
  lemma UntaggedIsDropped(a: Req, b: Req, after: seq<Req>, positions: seq<nat>)
    requires a.tag.Some? && b.tag.None? && Rebuilt([a, b], after, positions)
    ensures HasPeekTags([a, b]) && after == [a]
  {
    var first: nat := 0;
    assert first in positions;
    forall i | 0 <= i < |positions|
      ensures positions[i] == 0
    {
      assert positions[i] in positions;
    }
    assert positions[0] == positions[|positions| - 1];
  }

  lemma GroupsFilled(queue: seq<Req>)
    ensures var groups := GroupLists(TagKeys(queue));
      forall g {:trigger groups[g]} ::
        0 <= g < |groups| ==> Filled(queue, groups[g]) && groups[g] != [] && groups[g][0] < |queue|
  {
    var tags := TagKeys(queue);
    var groups := GroupLists(tags);
    forall g | 0 <= g < |groups|
      ensures Filled(queue, groups[g])
    {
      var k := FirstSeen(tags)[g];
      SeenHaveMembers(tags);
      forall i | 0 <= i < |groups[g]|
        ensures groups[g][i] < |queue| && queue[groups[g][i]].tag.Some?
      {
        assert groups[g][i] in Members(tags, k);
      }
    }
  }

  lemma ItIsPlanned<N>(c: Cache<N>, queue: seq<Req>, pending: map<nat, nat>, times: Times, clock: real, nodes: seq<N>,
                       hits: seq<nat>, risks: seq<real>, facts: seq<Facts>, positions: seq<nat>)
    requires var groups := GroupLists(TagKeys(queue));
      && |nodes| == |hits| == |risks| == |facts| == |groups|
      && (forall g {:trigger risks[g]} :: 0 <= g < |groups| ==> risks[g] == Risk(hits[g], times, g))
      && (forall g {:trigger groups[g]} :: 0 <= g < |groups| ==> Filled(queue, groups[g]))
      && (forall g {:trigger nodes[g]} :: 0 <= g < |groups| ==>
        Landed(c, Prompt(queue[groups[g][0]]), nodes[g], hits[g]))
      && (forall g {:trigger facts[g]} :: 0 <= g < |groups| ==>
        FactsFit(queue, groups[g], hits[g], pending, clock, risks[g], facts[g]))
      && positions == Flatten(Pick(groups, StableSort(RankKeys(facts))))
    ensures Planned(queue, c.content, pending, times, clock, hits, facts, positions)
  {
    hide FactsFit, IsHit, LongestWait;
    var groups := GroupLists(TagKeys(queue));
    forall g | 0 <= g < |facts|
      ensures Filled(queue, groups[g]) && IsHit(c.content, Prompt(queue[groups[g][0]]), hits[g])
      ensures risks[g] == Risk(hits[g], times, g)
    {
      assert Landed(c, Prompt(queue[groups[g][0]]), nodes[g], hits[g]);
    }
  }

  lemma ItIsRebuilt(queue: seq<Req>, facts: seq<Facts>, positions: seq<nat>)
    requires |facts| == |GroupLists(TagKeys(queue))|
    requires positions == Flatten(Pick(GroupLists(TagKeys(queue)), StableSort(RankKeys(facts))))
    ensures forall i {:trigger positions[i]} :: 0 <= i < |positions| ==> positions[i] < |queue|
    ensures Rebuilt(queue, Pick(queue, positions), positions)
  {
    var tags := TagKeys(queue);
    StableSortOrdered(RankKeys(facts));
    LayOutPermutes(tags, GroupLists(tags), StableSort(RankKeys(facts)));
    forall i | 0 <= i < |positions|
      ensures positions[i] < |queue|
    {
      assert positions[i] in positions;
    }
    forall x: nat
      ensures x in positions <==> x < |queue| && queue[x].tag.Some?
    {
    }
  }

  lemma LandedLive<N>(c: Cache<N>, queue: seq<Req>, groups: seq<seq<nat>>, nodes: seq<N>, hits: seq<nat>)
    requires |nodes| == |hits| == |groups| && c.path.Keys <= c.st.Keys
    requires forall g {:trigger groups[g]} :: 0 <= g < |groups| ==> groups[g] != [] && groups[g][0] < |queue|
    requires forall g {:trigger nodes[g]} ::
      0 <= g < |groups| ==> Landed(c, Prompt(queue[groups[g][0]]), nodes[g], hits[g])
    ensures AllLive(c, nodes)
  {
    hide IsHit;
  }

  /** The prefix each group's first request was matched by. */
  ghost function Matched(queue: seq<Req>, hits: seq<nat>): (prefixes: seq<seq<Token>>)
    requires MatchedOk(queue, hits)
    ensures |prefixes| == |hits|
  {
    seq(|hits|, g requires 0 <= g < |hits| => Prompt(queue[GroupLists(TagKeys(queue))[g][0]])[..hits[g]])
  }

  ghost predicate MatchedOk(queue: seq<Req>, hits: seq<nat>) {
    var groups := GroupLists(TagKeys(queue));
    && |hits| == |groups|
    && forall g {:trigger groups[g]} :: 0 <= g < |groups| ==>
      groups[g] != [] && groups[g][0] < |queue| && hits[g] <= |Prompt(queue[groups[g][0]])|
  }

  ghost function PathsOf<N>(c: Cache<N>, nodes: seq<N>): (paths: seq<seq<Token>>)
    requires AllLive(c, nodes)
    ensures |paths| == |nodes| && forall i :: 0 <= i < |nodes| ==> paths[i] == c.path[nodes[i]]
  {
    seq(|nodes|, i requires 0 <= i < |nodes| => c.path[nodes[i]])
  }

  /** The protected nodes end the matched prefixes of the first groups in score order, down to the
      protection budget, leaving out the groups with nothing cached. */
  ghost predicate ProtectsFirst<N>(c: Cache<N>, nodes: seq<N>, queue: seq<Req>, hits: seq<nat>, facts: seq<Facts>) {
    && MatchedOk(queue, hits) && AllLive(c, nodes) && |hits| == |facts| && c.evictable + c.shielded >= 0
    && PathsOf(c, nodes) == Chosen(Front(facts, c.evictable + c.shielded), Matched(queue, hits), hits)
  }

  lemma {:induction false} ChosenPaths<N>(c: Cache<N>, order: seq<nat>, nodes: seq<N>, prefixes: seq<seq<Token>>,
                                          hits: seq<nat>)
    requires |nodes| == |hits| == |prefixes| && AllLive(c, nodes) && PathsOf(c, nodes) == prefixes
    requires forall i :: 0 <= i < |order| ==> order[i] < |nodes|
    requires AllLive(c, Chosen(order, nodes, hits))
    ensures PathsOf(c, Chosen(order, nodes, hits)) == Chosen(order, prefixes, hits)
  {
    if order != [] {
      var n := |order| - 1;
      ChosenLive(c, order[..n], nodes, hits);
      ChosenPaths(c, order[..n], nodes, prefixes, hits);
      assert nodes[order[n]] in c.path && PathsOf(c, nodes)[order[n]] == c.path[nodes[order[n]]];
    }
  }

  lemma LandedMatched<N>(c: Cache<N>, queue: seq<Req>, nodes: seq<N>, hits: seq<nat>)
    requires var groups := GroupLists(TagKeys(queue));
      && |nodes| == |hits| == |groups|
      && (forall g {:trigger groups[g]} :: 0 <= g < |groups| ==> groups[g] != [] && groups[g][0] < |queue|)
      && (forall g {:trigger nodes[g]} :: 0 <= g < |groups| ==>
        Landed(c, Prompt(queue[groups[g][0]]), nodes[g], hits[g]))
    requires AllLive(c, nodes)
    ensures MatchedOk(queue, hits) && PathsOf(c, nodes) == Matched(queue, hits)
  {
    hide IsHit;
    var groups := GroupLists(TagKeys(queue));
    forall g | 0 <= g < |groups|
      ensures hits[g] <= |Prompt(queue[groups[g][0]])| && c.path[nodes[g]] == Prompt(queue[groups[g][0]])[..hits[g]]
    {
      assert Landed(c, Prompt(queue[groups[g][0]]), nodes[g], hits[g]);
    }
  }

  lemma PathsKept<N>(c: Cache<N>, c': Cache<N>, nodes: seq<N>)
    requires RefsOnly(c, c') && AllLive(c, nodes)
    ensures AllLive(c', nodes) && PathsOf(c', nodes) == PathsOf(c, nodes)
    ensures c'.evictable == c.evictable && c'.shielded == c.shielded
  {
  }

  /** The groups that are protected, in score order. */
  ghost function Front(facts: seq<Facts>, total: nat): (order: seq<nat>)
    ensures forall i :: 0 <= i < |order| ==> order[i] < |facts|
  {
    StableSort(RankKeys(facts))[..ProtectCount(|facts|, total, SumLengths(facts))]
  }

  lemma ProtectsThem<N>(c: Cache<N>, c': Cache<N>, nodes: seq<N>, chosen: seq<N>, queue: seq<Req>, hits: seq<nat>,
                        facts: seq<Facts>, total: nat)
    requires AllLive(c, nodes) && |nodes| == |facts| == |hits| && MatchedOk(queue, hits)
    requires PathsOf(c, nodes) == Matched(queue, hits)
    requires total == c.evictable + c.shielded && RefsOnly(c, c') && chosen == Chosen(Front(facts, total), nodes, hits)
    requires AllLive(c, chosen)
    ensures ProtectsFirst(c', chosen, queue, hits, facts)
  {
    hide Front, Matched, MatchedOk, RefsOnly, AllLive, Chosen, PathsOf;
    ChosenPaths(c, Front(facts, total), nodes, Matched(queue, hits), hits);
    PathsKept(c, c', chosen);
  }

  lemma {:induction false} ChosenLive<N>(c: Cache<N>, order: seq<nat>, nodes: seq<N>, hits: seq<nat>)
    requires |nodes| == |hits| && AllLive(c, nodes) && forall i :: 0 <= i < |order| ==> order[i] < |nodes|
    ensures AllLive(c, Chosen(order, nodes, hits))
  {
    if order != [] {
      ChosenLive(c, order[..|order| - 1], nodes, hits);
    }
  }

  lemma OutsideChain<N>(c: Cache<N>, clear: Cache<N>, split: Cache<N>, c': Cache<N>)
    requires RefsOnly(c, clear) && SameOutside(clear, split) && RefsOnly(split, c')
    ensures SameOutside(c, c') && c'.content == split.content
  {
  }

  lemma LandedHere<N>(c: Cache<N>, prompt: seq<Token>, node: N, values: seq<int>)
    requires node in c.path && Reads(c.content, prompt, values) && c.path[node] == prompt[..|values|]
    requires IsHit(c.content, prompt, |values|)
    ensures Landed(c, prompt, node, |values|)
  {
  }

  lemma LandedStays<N>(c: Cache<N>, c': Cache<N>, prompt: seq<Token>, node: N, hit: nat)
    requires Landed(c, prompt, node, hit) && c'.content == c.content
    requires node in c.path ==> node in c'.path && c'.path[node] == c.path[node]
    ensures Landed(c', prompt, node, hit)
  {
  }

  lemma StaysClear<N>(c: Cache<N>, c': Cache<N>)
    requires AllClear(c) && SameRefs(c, c')
    ensures AllClear(c')
  {
  }

  lemma LiveKnown<N>(c: Cache<N>, nodes: seq<N>)
    requires AllLive(c, nodes)
    ensures AllKnown(c, nodes)
  {
  }

  lemma ResetParts<N>(c: Cache<N>, prev: Option<seq<N>>)
    requires Good(c, prev)
    ensures Inv(c) && Chained(c) && c.path.Keys <= c.st.Keys
    ensures prev.Some? ==> Traced(c, prev.value)
    ensures prev.Some? ==> forall i {:trigger prev.value[i]} :: 0 <= i < |prev.value| ==> prev.value[i] in c.st
  {
  }

  lemma SweptParts<N>(c: Cache<N>, c': Cache<N>, prev: seq<N>, j: nat)
    requires Chained(c) && j <= |prev| && SweptTo(c, c', prev, j)
    ensures RefsOnly(c, c') && c'.st.Keys == c.st.Keys
  {
  }

  lemma ProtectedParts<N>(c: Cache<N>, c': Cache<N>, nodes: seq<N>, j: nat)
    requires j <= |nodes| && Chained(c) && ProtectedTo(c, c', nodes, j)
    ensures RefsOnly(c, c') && c'.st.Keys == c.st.Keys && c'.root == c.root && c'.path == c.path
  {
  }

  lemma ClearIsGood<N>(c: Cache<N>, c': Cache<N>, prev: Option<seq<N>>)
    requires Good(c, prev) && Inv(c') && AllClear(c') && RefsOnly(c, c')
    ensures Good(c', prev)
  {
  }

  lemma ProtectedWalked<N>(c: Cache<N>, c': Cache<N>, nodes: seq<N>)
    requires Chained(c) && Chained(c') && AllKnown(c, nodes) && ProtectedTo(c, c', nodes, |nodes|)
    ensures RefsOnly(c, c') && RefsWalked(c', nodes)
  {
    hide WalkUp;
    assert nodes[..|nodes|] == nodes;
    forall i | 0 <= i < |nodes|
      ensures WalkUp(c', nodes[i]) == WalkUp(c, nodes[i])
    {
      WalkSame(c, c', nodes[i]);
    }
    forall n | n in c'.path && n != c'.root
      ensures c'.st[n].refs == |Walkers(c', nodes, n)|
    {
      assert Walkers(c', nodes, n) == Walkers(c, nodes, n);
    }
  }

  lemma ProtectedExact<N>(c: Cache<N>, c': Cache<N>, nodes: seq<N>)
    requires Inv(c) && Chained(c) && AllLive(c, nodes) && ProtectedTo(c, c', nodes, |nodes|)
    ensures RefsExact(c', nodes)
  {
    hide Inv, WalkUp, Walkers;
    assert nodes[..|nodes|] == nodes;
    forall n | n in c'.path && n != c'.root
      ensures c'.st[n].refs == |Protectors(c', nodes, n)|
    {
      WalkersLive(c, nodes, n);
      assert Protectors(c', nodes, n) == Protectors(c, nodes, n);
    }
  }
}
