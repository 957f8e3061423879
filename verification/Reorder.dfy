/**
 Client-side reordering of reorder.py: the offline reorder of a batch, and the dispatcher that
 keeps group counts and a lazily recomputed group order beside the trie.
 */
module Reordering {
  import opened Prelude
  import opened Demands
  import opened Sorting
  import opened Grouping
  import opened TrieOrder
  import opened Tries
  import opened TrieScores
  import opened TrieWalks

  const MAX_DEPTH: nat := 128

  ghost function Prompts(sequences: seq<Path>, n: nat): (held: Pending)
    requires n <= |sequences|
  {
    map i: nat | i < n :: Truncated(sequences[i], MAX_DEPTH)
  }

  // ----- exact duplicates -----

  ghost function Whole(sequences: seq<Path>, n: nat): (held: Pending)
    requires n <= |sequences|
  {
    map i: nat | i < n :: sequences[i]
  }

  /** The same tokens occur at another position. */
  ghost predicate Repeated(held: Pending, x: nat)
    requires x in held
  {
    exists y :: y in held && y != x && held[y] == held[x]
  }

  ghost function Duplicated(held: Pending): set<nat> {
    set x | x in held && Repeated(held, x)
  }

  ghost function DuplicationRatio(sequences: seq<Path>): real {
    if sequences == [] then 0.0
    else |Duplicated(Whole(sequences, |sequences|))| as real / |sequences| as real
  }

  lemma RepeatedIffCount(held: Pending, x: nat)
    requires x in held
    ensures Repeated(held, x) <==> |EndingAt(held, held[x])| >= 2
  {
    var all := EndingAt(held, held[x]);
    assert |all - {x}| == |all| - 1;
    if Repeated(held, x) {
      var y :| y in held && y != x && held[y] == held[x];
      assert y in all - {x};
    }
    if all - {x} != {} {
      var y :| y in all - {x};
      assert y in held && y != x && held[y] == held[x];
    }
  }

  /** The duplicated ones among these contents. */
  ghost function DuplicatedIn(held: Pending, contents: set<Path>): set<nat> {
    set x | x in Duplicated(held) && held[x] in contents
  }

  lemma DuplicatedStep(held: Pending, contents: set<Path>, p: Path)
    requires p !in contents
    ensures var n := |EndingAt(held, p)|;
      |DuplicatedIn(held, contents + {p})| == |DuplicatedIn(held, contents)| + if n >= 2 then n else 0
  {
    var was, here := DuplicatedIn(held, contents), EndingAt(held, p);
    forall x | x in here
      ensures Repeated(held, x) <==> |here| >= 2
    {
      RepeatedIffCount(held, x);
    }
    assert DuplicatedIn(held, contents + {p}) == was + if |here| >= 2 then here else {};
    assert was * here == {};
  }

  method CountContents(sequences: seq<Path>) returns (counts: map<Path, nat>)
    ensures GroupsFit(counts, Whole(sequences, |sequences|))
  {
    hide GroupsFit;
    counts := map[];
    NoGroups(sequences);
    var i := 0;
    while i < |sequences|
      invariant i <= |sequences| && GroupsFit(counts, Whole(sequences, i))
    {
      var key := sequences[i];
      GroupsGrow(counts, Whole(sequences, i), i, key);
      assert Whole(sequences, i)[i := key] == Whole(sequences, i + 1);
      counts := counts[key := Count(counts, key) + 1];
      i := i + 1;
    }
  }

  lemma NoGroups(sequences: seq<Path>)
    ensures GroupsFit(map[], Whole(sequences, 0))
  {
  }

  /** The fraction of sequences that occur more than once, compared in full. */
  method FullDuplicationRatio(sequences: seq<Path>) returns (ratio: real)
    ensures ratio == DuplicationRatio(sequences)
  {
    hide EndingAt, Duplicated;
    if |sequences| == 0 {
      return 0.0;
    }
    ghost var held := Whole(sequences, |sequences|);
    var counts := CountContents(sequences);
    var todo, duplicated := counts.Keys, 0;
    while todo != {}
      invariant todo <= counts.Keys && duplicated == |DuplicatedIn(held, counts.Keys - todo)|
      decreases todo
    {
      var p :| p in todo;
      DuplicatedStep(held, counts.Keys - todo, p);
      assert counts.Keys - todo + {p} == counts.Keys - (todo - {p});
      if counts[p] >= 2 {
        duplicated := duplicated + counts[p];
      }
      todo := todo - {p};
    }
    AllContents(held, counts);
    assert counts.Keys - {} == counts.Keys;
    ratio := duplicated as real / |sequences| as real;
  }

  lemma AllContents(held: Pending, counts: map<Path, nat>)
    requires GroupsFit(counts, held)
    ensures DuplicatedIn(held, counts.Keys) == Duplicated(held)
  {
    forall x | x in held
      ensures held[x] in counts
    {
      assert x in EndingAt(held, held[x]);
    }
  }

  // ----- the offline reorder -----

  /** When there is too little to gain, or too much repetition, the order stays as it is. */
  ghost predicate NotWorthIt(sequences: seq<Path>, minSharingDepth: int, minCoverage: real,
                             minAverage: real, maxDuplication: real)
  {
    var held, m := Prompts(sequences, |sequences|), Max(minSharingDepth, 1);
    || DuplicationRatio(sequences) > maxDuplication
    || Coverage(held, m) < minCoverage
    || AverageDepth(held, m) < minAverage
  }

  /** Prompts with a common prefix next to each other, larger groups first, unless it is not worth
      it.  Always a reordering. */
  method ReorderForPrefixSharing(sequences: seq<Path>, minSharingDepth: int, minCoverage: real,
                                 minAverage: real, maxDuplication: real) returns (order: seq<nat>)
    ensures Permutes(order, |sequences|)
    ensures NotWorthIt(sequences, minSharingDepth, minCoverage, minAverage, maxDuplication) ==>
      order == Positions(|sequences|)
    ensures !NotWorthIt(sequences, minSharingDepth, minCoverage, minAverage, maxDuplication) ==>
      Grouped(Prompts(sequences, |sequences|), order)
  {
    hide PrefixTrie.Valid, Coverage, AverageDepth, DuplicationRatio, Nested, Ranked;
    IdentityPermutes(|sequences|);
    if |sequences| == 0 {
      GroupedNone(Prompts(sequences, 0));
      return [];
    }
    var ratio := FullDuplicationRatio(sequences);
    if ratio > maxDuplication {
      return Positions(|sequences|);
    }
    var trie := BuildTrie(sequences);
    var coverage, _, average := SharingScore(trie, minSharingDepth);
    if coverage < minCoverage {
      return Positions(|sequences|);
    }
    if average < minAverage {
      return Positions(|sequences|);
    }
    ghost var entries;
    order, entries := DfsOrder(trie, true);
    ListsPrompts(sequences, order);
  }

  method BuildTrie(sequences: seq<Path>) returns (trie: PrefixTrie)
    ensures trie.Valid() && trie.FreshIndices() && trie.held == Prompts(sequences, |sequences|)
  {
    hide PrefixTrie.Valid, OwnNames, Prompts, Truncated;
    NoPrompts(sequences);
    trie := new PrefixTrie(MAX_DEPTH);
    var idx := 0;
    while idx < |sequences|
      invariant idx <= |sequences| && trie.Valid() && fresh(trie) && fresh(trie.at.Values) && trie.maxDepth == MAX_DEPTH
      invariant trie.held == Prompts(sequences, idx) && trie.FreshIndices()
    {
      OwnNamesGrow(trie.held, trie.index, idx, Truncated(sequences[idx], MAX_DEPTH));
      PromptsGrow(sequences, idx);
      var _ := trie.Insert(sequences[idx], idx);
      idx := idx + 1;
    }
  }

  lemma NoPrompts(sequences: seq<Path>)
    ensures Prompts(sequences, 0) == map[]
  {
  }

  lemma PromptsGrow(sequences: seq<Path>, n: nat)
    requires n < |sequences|
    ensures n !in Prompts(sequences, n)
    ensures Prompts(sequences, n)[n := Truncated(sequences[n], MAX_DEPTH)] == Prompts(sequences, n + 1)
  {
  }

  lemma ListsPrompts(sequences: seq<Path>, order: seq<nat>)
    requires NoDup(order) && forall x {:trigger x in order} :: x in order <==> x in Prompts(sequences, |sequences|)
    ensures Permutes(order, |sequences|)
  {
    forall x: nat
      ensures x in order <==> x < |sequences|
    {
      assert x in order <==> x in Prompts(sequences, |sequences|);
    }
    ListsAll(order, |sequences|);
  }

  /** Together where prefixes agree, larger sibling groups first. */
  ghost predicate Grouped(held: Pending, order: seq<nat>) {
    && (forall i :: 0 <= i < |order| ==> order[i] in held)
    && Nested(PromptPaths(held, order)) && Ranked(held, PromptPaths(held, order))
  }

  lemma GroupedNone(held: Pending)
    ensures Grouped(held, [])
  {
  }

  lemma IdentityPermutes(n: nat)
    ensures Permutes(Positions(n), n)
  {
    forall x: nat | x < n
      ensures x in Positions(n)
    {
      assert Positions(n)[x] == x;
    }
  }

  // ----- the dispatcher -----

  /** A group for every truncated prompt, counted. */
  ghost predicate GroupsFit(counts: map<Path, nat>, held: Pending) {
    && (forall p {:trigger p in counts} :: p in counts <==> EndingAt(held, p) != {})
    && forall p {:trigger counts[p]} :: p in counts ==> counts[p] == |EndingAt(held, p)|
  }

  /** Every group once. */
  ghost predicate KeysFit(keys: seq<Path>, counts: map<Path, nat>) {
    NoDup(keys) && forall p {:trigger p in keys} :: p in keys <==> p in counts
  }

  ghost predicate Numbered(held: Pending, next: nat) {
    forall x {:trigger x in held} :: x in held ==> x < next
  }

  ghost predicate Agrees(counts: map<Path, nat>, held: Pending, next: nat, dirty: bool, keys: seq<Path>) {
    GroupsFit(counts, held) && Numbered(held, next) && (dirty || KeysFit(keys, counts))
  }

  /** How many prompts a group has. */
  function Count(counts: map<Path, nat>, p: Path): nat {
    if p in counts then counts[p] else 0
  }

  /** What no history breaks: no group is counted beyond the prompts it has, and the group order is
      depth-first, without repeats, and lists every counted group unless it is due for
      recomputation. */
  ghost predicate Tracks(counts: map<Path, nat>, held: Pending, next: nat, dirty: bool, keys: seq<Path>) {
    && Numbered(held, next) && Nested(keys) && NoDup(keys) && CountsBelow(counts, held)
    && (dirty || forall p {:trigger p in keys} :: p in counts ==> p in keys)
  }

  ghost predicate CountsBelow(counts: map<Path, nat>, held: Pending) {
    forall p {:trigger counts[p]} :: p in counts ==> 0 < counts[p] <= |EndingAt(held, p)|
  }

  /** Groups of equal count keep the order of the keys. */
  ghost predicate TiesKeep(counts: map<Path, nat>, keys: seq<Path>, ranked: seq<Path>) {
    forall i, j {:trigger InOrder(keys, ranked[i], ranked[j])} ::
      0 <= i < j < |ranked| && Count(counts, ranked[i]) == Count(counts, ranked[j]) ==>
        InOrder(keys, ranked[i], ranked[j])
  }

  ghost predicate InOrder(keys: seq<Path>, p: Path, q: Path) {
    exists a, b :: 0 <= a < b < |keys| && keys[a] == p && keys[b] == q
  }

  /** A ranking of these keys: larger groups first, ties in the order of the keys. */
  ghost predicate Ranking(counts: map<Path, nat>, keys: seq<Path>, ranked: seq<Path>) {
    && NoDup(ranked) && (forall p {:trigger p in ranked} :: p in ranked <==> p in keys)
    && Descends(counts, ranked) && TiesKeep(counts, keys, ranked)
  }

  ghost predicate Descends(counts: map<Path, nat>, ranked: seq<Path>) {
    forall i, j :: 0 <= i < j < |ranked| ==> Count(counts, ranked[i]) >= Count(counts, ranked[j])
  }

  function CountDownKeys(keys: seq<Path>, counts: map<Path, nat>): (sortKeys: seq<Key>)
    ensures |sortKeys| == |keys|
    ensures forall i :: 0 <= i < |keys| ==> sortKeys[i] == [-(Count(counts, keys[i]) as real)]
  {
    seq(|keys|, i requires 0 <= i < |keys| => [-(Count(counts, keys[i]) as real)])
  }

  /** One prompt more in this group. */
  ghost predicate CountedUp(before: map<Path, nat>, key: Path, after: map<Path, nat>) {
    after == before[key := if key in before then before[key] + 1 else 1]
  }

  /** One prompt less in this group, which goes with its last; a group not counted stays so. */
  ghost predicate CountedDown(before: map<Path, nat>, key: Path, after: map<Path, nat>) {
    after == if key !in before then before
      else if before[key] <= 1 then before - {key} else before[key := before[key] - 1]
  }

  class PeekDispatcher {
    const trie: PrefixTrie
    var nextIdx: nat
    var groupCount: map<Path, nat>
    var dfsKeys: seq<Path>
    var structureDirty: bool

    /** What every submit and every removal keeps. */
    ghost predicate Sane()
      reads this, trie, trie.at.Values
    {
      trie.Valid() && trie.FreshIndices() && Tracks(groupCount, trie.held, nextIdx, structureDirty, dfsKeys)
    }

    /** The counts agree with the trie, and the group order lists every group unless it is due for
        recomputation. */
    ghost predicate Coherent()
      reads this, trie, trie.at.Values
    {
      Sane() && Agrees(groupCount, trie.held, nextIdx, structureDirty, dfsKeys)
    }

    constructor (maxDepth: nat)
      ensures Coherent() && trie.held == map[] && trie.maxDepth == maxDepth && nextIdx == 0
      ensures fresh(trie) && fresh(trie.at.Values)
    {
      trie := new PrefixTrie(maxDepth);
      nextIdx, groupCount, dfsKeys, structureDirty := 0, map[], [], false;
    }

    method RecomputeDfsKeys()
      requires trie.Valid()
      modifies this`dfsKeys, this`structureDirty
      ensures !structureDirty && Listing(trie.held, dfsKeys) && Ranked(trie.held, dfsKeys)
    {
      dfsKeys := DfsGroupKeys(trie, true);
      structureDirty := false;
    }

    /** Take in a prompt and rank its group: larger groups first, ties in depth-first order.  After
        any history the ranking lists every counted group; while the counts agree with the trie it
        lists every group and no other. */
    method Submit(tokens: Path) returns (rank: nat, ghost ranked: seq<Path>)
      requires Sane()
      modifies this, trie, trie.at.Values
      ensures Sane() && !structureDirty && nextIdx == old(nextIdx) + 1
      ensures trie.held == old(trie.held)[old(nextIdx) := Truncated(tokens, trie.maxDepth)]
      ensures Ranking(groupCount, dfsKeys, ranked) && Nested(dfsKeys)
      ensures forall p {:trigger p in ranked} :: p in groupCount ==> p in ranked
      ensures rank < |ranked| && ranked[rank] == Truncated(tokens, trie.maxDepth)
      ensures ranked[rank] in groupCount
      ensures CountedUp(old(groupCount), ranked[rank], groupCount)
      ensures if ranked[rank] in old(groupCount) && !old(structureDirty) then dfsKeys == old(dfsKeys)
        else Listing(trie.held, dfsKeys) && Ranked(trie.held, dfsKeys)
      ensures old(Coherent()) ==> Coherent() && KeysFit(ranked, groupCount)
      ensures fresh(trie.at.Values - old(trie.at.Values))
    {
      hide PrefixTrie.Valid, Nested, Ranked, Permutes, OwnNames, NoDup, Ranking, Tracks, Agrees, KeysFit,
        Listing;
      var idx := nextIdx;
      var key := Truncated(tokens, trie.maxDepth);
      ghost var before, counts, dirty := trie.held, groupCount, structureDirty;
      TracksNext(counts, before, idx, dirty, dfsKeys);
      OwnNamesGrow(before, trie.index, idx, key);
      var _ := trie.Insert(tokens, idx);
      nextIdx := nextIdx + 1;
      var isNewGroup := key !in groupCount;
      groupCount := groupCount[key := Count(groupCount, key) + 1];
      if isNewGroup || structureDirty {
        RecomputeDfsKeys();
      }
      SubmitTracks(counts, before, idx, dirty, old(dfsKeys), key, trie.held, groupCount, dfsKeys);
      TracksNext(groupCount, trie.held, nextIdx, false, dfsKeys);
      SubmitAgrees(counts, before, idx, dirty, old(dfsKeys), key, trie.held, groupCount, dfsKeys);
      rank, ranked := RankOf(key);
      RankingFits(groupCount, trie.held, nextIdx, dfsKeys, ranked);
    }

    /** The position of a group among all groups, sorted by descending count. */
    method RankOf(key: Path) returns (rank: nat, ghost ranked: seq<Path>)
      requires NoDup(dfsKeys) && key in dfsKeys
      ensures Ranking(groupCount, dfsKeys, ranked) && rank < |ranked| && ranked[rank] == key
    {
      var order := StableSort(CountDownKeys(dfsKeys, groupCount));
      var rankedKeys := Pick(dfsKeys, order);
      ranked := rankedKeys;
      SortRanks(dfsKeys, groupCount);
      rank := 0;
      while rank < |rankedKeys| && rankedKeys[rank] != key
        invariant rank <= |rankedKeys| && key !in rankedKeys[..rank]
      {
        rank := rank + 1;
      }
      assert key in rankedKeys && rankedKeys[..|rankedKeys|] == rankedKeys;
    }

    /** Drop a prompt.  The count goes down whether or not the trie had it, so the dispatcher stays
        coherent exactly when the prompt was stored or its group was empty anyway. */
    method Remove(tokens: Path, promptIndex: nat)
      requires Sane()
      modifies this`groupCount, this`structureDirty, trie`recs, trie`at, trie`held, trie`numPrompts, trie.at.Values
      ensures Sane()
      ensures var key := Truncated(tokens, trie.maxDepth);
        var stored := promptIndex in old(trie.held) && old(trie.held)[promptIndex] == key;
        && trie.held == (if stored then old(trie.held) - {promptIndex} else old(trie.held))
        && (old(Coherent()) ==> (Coherent() <==> stored || key !in old(groupCount)))
        && CountedDown(old(groupCount), key, groupCount)
        && (structureDirty <==> old(structureDirty) || (key in old(groupCount) && key !in groupCount))
    {
      hide PrefixTrie.Valid, Agrees, Tracks;
      var key := Truncated(tokens, trie.maxDepth);
      ghost var before, counts, dirty := trie.held, groupCount, structureDirty;
      var found, entry := trie.Remove(tokens, promptIndex);
      assert promptIndex in before && before[promptIndex] == key ==>
        IsEntry(before, trie.index, promptIndex, key, promptIndex);
      CountNotZero(counts, before, nextIdx, dirty, dfsKeys, key);
      if key in groupCount {
        groupCount := groupCount[key := groupCount[key] - 1];
        if groupCount[key] <= 0 {
          groupCount := groupCount - {key};
          structureDirty := true;
        }
      }
      RemoveTracks(counts, before, nextIdx, dirty, dfsKeys, promptIndex, key);
      if old(Coherent()) {
        RemoveAgrees(counts, before, nextIdx, dirty, dfsKeys, promptIndex, key);
      }
      assert counts[key := 0] - {key} == counts - {key};
    }
  }

  /** One prompt submitted, then a removal of the same tokens under an index never handed out: the
      trie still holds the prompt, and the dispatcher is no longer coherent. */
  method RemoveStranger(tokens: Path, stranger: nat) returns (d: PeekDispatcher)
    requires stranger != 0
    ensures d.trie.Valid() && d.trie.held == map[0 := Truncated(tokens, MAX_DEPTH)]
    ensures !d.Coherent()
  {
    hide PrefixTrie.Valid, Agrees;
    d := new PeekDispatcher(MAX_DEPTH);
    assert d.nextIdx == 0;
    var rank, ranked := d.Submit(tokens);
    assert ranked[rank] in ranked;
    d.Remove(tokens, stranger);
  }

  lemma CountNotZero(counts: map<Path, nat>, held: Pending, next: nat, dirty: bool, keys: seq<Path>, key: Path)
    requires Tracks(counts, held, next, dirty, keys)
    ensures key in counts ==> counts[key] > 0
  {
  }

  lemma TracksNext(counts: map<Path, nat>, held: Pending, next: nat, dirty: bool, keys: seq<Path>)
    requires Tracks(counts, held, next, dirty, keys)
    ensures next !in held && NoDup(keys) && Nested(keys)
  {
  }

  /** A submit keeps what no history breaks; the key of the prompt is then counted and listed. */
  lemma SubmitTracks(counts: map<Path, nat>, held: Pending, next: nat, dirty: bool, keys: seq<Path>, key: Path,
                     held': Pending, counts': map<Path, nat>, keys': seq<Path>)
    requires Tracks(counts, held, next, dirty, keys)
    requires held' == held[next := key] && counts' == counts[key := Count(counts, key) + 1]
    requires if key !in counts || dirty then Listing(held', keys') else keys' == keys
    ensures Tracks(counts', held', next + 1, false, keys') && key in keys'
  {
    hide EndingAt, NoDup, Nested;
    CountsGrow(counts, held, next, key);
    if key !in counts || dirty {
      forall p | p in counts'
        ensures p in keys'
      {
        assert counts'[p] > 0;
        assert p in keys' <==> EndingAt(held', p) != {};
      }
    }
  }

  /** Every group of the trie once, in depth-first order. */
  ghost predicate Listing(held: Pending, keys: seq<Path>) {
    NoDup(keys) && Nested(keys) && forall p {:trigger p in keys} :: p in keys <==> EndingAt(held, p) != {}
  }

  lemma CountsGrow(counts: map<Path, nat>, held: Pending, idx: nat, key: Path)
    requires CountsBelow(counts, held) && idx !in held
    ensures CountsBelow(counts[key := Count(counts, key) + 1], held[idx := key])
  {
    hide EndingAt;
    var after := counts[key := Count(counts, key) + 1];
    forall p | p in after
      ensures 0 < after[p] <= |EndingAt(held[idx := key], p)|
    {
      EndingMore(held, idx, key, p);
      assert p in counts ==> 0 < counts[p] <= |EndingAt(held, p)|;
    }
  }

  lemma EndingMore(held: Pending, idx: nat, key: Path, p: Path)
    requires idx !in held
    ensures |EndingAt(held[idx := key], p)| == |EndingAt(held, p)| + if p == key then 1 else 0
  {
    DemandAdd(held, idx, key, p);
    NotEnding(held, idx, p);
  }

  lemma SubmitAgrees(counts: map<Path, nat>, held: Pending, next: nat, dirty: bool, keys: seq<Path>, key: Path,
                     held': Pending, counts': map<Path, nat>, keys': seq<Path>)
    requires held' == held[next := key] && counts' == counts[key := Count(counts, key) + 1]
    requires if key !in counts || dirty then Listing(held', keys') else keys' == keys
    ensures Agrees(counts, held, next, dirty, keys) ==> Agrees(counts', held', next + 1, false, keys')
  {
    hide EndingAt, NoDup, Nested;
    if Agrees(counts, held, next, dirty, keys) {
      GroupsGrow(counts, held, next, key);
      KeysStay(keys, counts, counts');
    }
  }

  lemma RankingFits(counts: map<Path, nat>, held: Pending, next: nat, keys: seq<Path>, ranked: seq<Path>)
    requires Ranking(counts, keys, ranked) && Tracks(counts, held, next, false, keys)
    ensures forall p {:trigger p in ranked} :: p in counts ==> p in ranked
    ensures Agrees(counts, held, next, false, keys) ==> KeysFit(ranked, counts)
  {
  }

  /** No removal, stored prompt or not, lets a count exceed the prompts of its group. */
  lemma RemoveTracks(counts: map<Path, nat>, held: Pending, next: nat, dirty: bool, keys: seq<Path>, idx: nat,
                     key: Path)
    requires Tracks(counts, held, next, dirty, keys)
    ensures var rest := if idx in held && held[idx] == key then held - {idx} else held;
      if key !in counts then Tracks(counts, rest, next, dirty, keys)
      else if counts[key] <= 1 then Tracks(counts - {key}, rest, next, true, keys)
      else Tracks(counts[key := counts[key] - 1], rest, next, dirty, keys)
  {
    hide EndingAt, NoDup, Nested;
    forall p
      ensures idx in held && held[idx] == key ==>
        |EndingAt(held - {idx}, p)| == |EndingAt(held, p)| - if p == key then 1 else 0
    {
      EndingLess(held, idx, key, p);
    }
  }

  lemma EndingLess(held: Pending, idx: nat, key: Path, p: Path)
    ensures idx in held && held[idx] == key ==>
      |EndingAt(held - {idx}, p)| == |EndingAt(held, p)| - if p == key then 1 else 0
  {
    if idx in held && held[idx] == key {
      DemandRemove(held, idx, p);
      assert idx in EndingAt(held, p) <==> p == key;
    }
  }

  /** Counting one down agrees with the trie exactly when the prompt was stored. */
  lemma RemoveAgrees(counts: map<Path, nat>, held: Pending, next: nat, dirty: bool, keys: seq<Path>, idx: nat,
                     key: Path)
    requires Agrees(counts, held, next, dirty, keys)
    ensures var stored := idx in held && held[idx] == key;
      var rest := if stored then held - {idx} else held;
      if key !in counts then !stored
      else if counts[key] <= 1 then Agrees(counts - {key}, rest, next, true, keys) <==> stored
      else Agrees(counts[key := counts[key] - 1], rest, next, dirty, keys) <==> stored
  {
    hide GroupsFit, EndingAt;
    StoredHasGroup(counts, held, idx, key);
    if key in counts {
      GroupsShrink(counts, held, idx, key);
      KeysStay(keys, counts, counts[key := if counts[key] > 0 then counts[key] - 1 else 0]);
    }
  }

  lemma GroupsGrow(counts: map<Path, nat>, held: Pending, idx: nat, key: Path)
    requires GroupsFit(counts, held) && idx !in held
    ensures GroupsFit(counts[key := Count(counts, key) + 1], held[idx := key])
  {
    hide EndingAt;
    var more, after := held[idx := key], counts[key := Count(counts, key) + 1];
    forall p
      ensures p in after <==> EndingAt(more, p) != {}
      ensures p in after ==> after[p] == |EndingAt(more, p)|
    {
      DemandAdd(held, idx, key, p);
      NotEnding(held, idx, p);
      assert p in counts <==> EndingAt(held, p) != {};
    }
  }

  lemma NotEnding(held: Pending, idx: nat, p: Path)
    ensures idx !in held ==> idx !in EndingAt(held, p)
  {
  }

  lemma StoredHasGroup(counts: map<Path, nat>, held: Pending, idx: nat, key: Path)
    requires GroupsFit(counts, held)
    ensures idx in held && held[idx] == key ==> key in counts
  {
    assert idx in held && held[idx] == key ==> idx in EndingAt(held, key);
  }

  /** Counting one down fits the trie exactly when the prompt was there. */
  lemma GroupsShrink(counts: map<Path, nat>, held: Pending, idx: nat, key: Path)
    requires GroupsFit(counts, held) && key in counts
    ensures counts[key] > 0
    ensures var stored := idx in held && held[idx] == key;
      var after := if counts[key] == 1 then counts - {key} else counts[key := counts[key] - 1];
      && (stored ==> GroupsFit(after, held - {idx}))
      && (!stored ==> !GroupsFit(after, held))
  {
    hide EndingAt;
    assert EndingAt(held, key) != {} && counts[key] == |EndingAt(held, key)|;
    var after := if counts[key] == 1 then counts - {key} else counts[key := counts[key] - 1];
    if idx in held && held[idx] == key {
      forall p
        ensures p in after <==> EndingAt(held - {idx}, p) != {}
        ensures p in after ==> after[p] == |EndingAt(held - {idx}, p)|
      {
        EndingLess(held, idx, key, p);
        assert p in counts <==> EndingAt(held, p) != {};
      }
    } else {
      assert key in after <==> counts[key] != 1;
    }
  }

  lemma KeysStay(keys: seq<Path>, counts: map<Path, nat>, after: map<Path, nat>)
    ensures counts.Keys == after.Keys ==> (KeysFit(keys, counts) <==> KeysFit(keys, after))
  {
  }

  lemma SortRanks(keys: seq<Path>, counts: map<Path, nat>)
    requires NoDup(keys)
    ensures Ranking(counts, keys, Pick(keys, StableSort(CountDownKeys(keys, counts))))
  {
    hide NoDup;
    var sortKeys := CountDownKeys(keys, counts);
    var order := StableSort(sortKeys);
    StableSortOrdered(sortKeys);
    PickAll(keys, order);
    var ranked := Pick(keys, order);
    forall i, j | 0 <= i < j < |ranked|
      ensures Count(counts, ranked[i]) >= Count(counts, ranked[j])
      ensures Count(counts, ranked[i]) == Count(counts, ranked[j]) ==> InOrder(keys, ranked[i], ranked[j])
    {
      CountBefore(keys, counts, order[i], order[j]);
    }
  }

  lemma CountBefore(keys: seq<Path>, counts: map<Path, nat>, a: nat, b: nat)
    requires a < |keys| && b < |keys| && Before(CountDownKeys(keys, counts), a, b)
    ensures Count(counts, keys[a]) >= Count(counts, keys[b])
    ensures Count(counts, keys[a]) == Count(counts, keys[b]) ==> InOrder(keys, keys[a], keys[b])
  {
    var sortKeys := CountDownKeys(keys, counts);
    LexHead(sortKeys[a], sortKeys[b]);
    LexHead(sortKeys[b], sortKeys[a]);
    assert sortKeys[a][1..] == [] && sortKeys[b][1..] == [];
  }
}
