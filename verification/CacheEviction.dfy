/** What a run of evictions leaves of the cache, and in which order nodes may go. */
module CacheEviction {
  import opened Prelude
  import opened Sorting
  import opened Radix
  import opened CacheStore
  import opened CacheLeaves
  import opened CacheRefs
  import opened CacheTimes

  /** Eviction order: queue references, depth and access time to a tuple; lowest goes first. */
  type Strategy = (nat, nat, int) -> Key

  /** The queue-aware key, for a cost that stands for `log1p(refs) * max(depth, 1)`. */
  function QueueAware(cost: (nat, nat) -> real): Strategy {
    (refs: nat, depth: nat, access: int) =>
      [if refs > 0 then 1.0 else 0.0, cost(refs, if depth > 1 then depth else 1), access as real]
  }

  function LeastRecentlyUsed(): Strategy {
    (refs: nat, depth: nat, access: int) => [access as real]
  }

  /** Every unreferenced node comes before every referenced one. */
  ghost predicate HardPartition(strategy: Strategy) {
    forall r: nat, d: nat, t: int, d': nat, t': int {:trigger strategy(r, d, t), strategy(0, d', t')} ::
      r > 0 ==> LexLess(strategy(0, d', t'), strategy(r, d, t))
  }

  lemma HardOrder(strategy: Strategy, r: nat, d: nat, t: int, d': nat, t': int)
    requires HardPartition(strategy) && r > 0
    ensures LexLess(strategy(0, d', t'), strategy(r, d, t))
  {
    var a, b := strategy(r, d, t), strategy(0, d', t');
  }

  lemma QueueAwareIsHard(cost: (nat, nat) -> real)
    ensures HardPartition(QueueAware(cost))
  {
  }

  /** The records of `c'` are those of `c` but for child tables. */
  ghost predicate KidsOnly<N>(c: Cache<N>, c': Cache<N>) {
    && c'.st.Keys == c.st.Keys
    && forall n {:trigger c'.st[n]} :: n in c.st ==> c'.st[n] == c.st[n].(kids := c'.st[n].kids)
  }

  /** The cached prefixes that went with the victims. */
  ghost function Lost<N>(c: Cache<N>, victims: seq<N>): set<seq<Token>> {
    if victims == [] then {}
    else
      var x := victims[|victims| - 1];
      Lost(c, victims[..|victims| - 1]) +
        if x in c.st && c.st[x].parent.Some? && c.st[x].parent.value in c.path then OnKey(c, x) else {}
  }

  /** The number of tokens that went with the victims. */
  ghost function Freed<N>(c: Cache<N>, victims: seq<N>): nat {
    if victims == [] then 0
    else
      var x := victims[|victims| - 1];
      Freed(c, victims[..|victims| - 1]) + if x in c.st then |c.st[x].key| else 0
  }

  /** The victims freed so much, and every one of them went while the quota was not yet met. */
  ghost predicate StopsInTime<N>(c: Cache<N>, victims: seq<N>, freed: int, quota: int) {
    && freed == Freed(c, victims)
    && forall i {:trigger victims[..i]} :: 0 <= i < |victims| ==> Freed(c, victims[..i]) < quota
  }

  /** `c` is what is left of `c0` once the victims are gone. */
  ghost predicate Evicted<N>(c0: Cache<N>, c: Cache<N>, victims: seq<N>) {
    && c0.path.Keys <= c0.st.Keys && c.path.Keys <= c0.path.Keys
    && KidsOnly(c0, c) && c.root == c0.root && c.holders == c0.holders && c.shielded == c0.shielded
    && (forall n {:trigger n in c.path} :: n in c0.path ==> (n in c.path <==> n !in victims))
    && (forall n {:trigger c.path[n]} :: n in c.path ==> c.path[n] == c0.path[n])
    && (forall i {:trigger victims[i]} :: 0 <= i < |victims| ==> victims[i] in Unlocked(c0))
    && c.content == c0.content - Lost(c0, victims)
  }

  /** No kept node went while an unlocked one that is not kept was left, anywhere in the tree. */
  ghost predicate Partitioned<N>(c0: Cache<N>, kept: set<N>, victims: seq<N>)
    requires c0.path.Keys <= c0.st.Keys
  {
    forall i, n {:trigger victims[i], n in Unlocked(c0)} ::
      0 <= i < |victims| && victims[i] in kept && n in Unlocked(c0) && n !in kept ==> n in victims[..i]
  }

  /** `y` is unlocked, still there, and without children once the victims are gone. */
  ghost predicate LeafAfter<N>(c0: Cache<N>, victims: seq<N>, y: N)
    requires c0.path.Keys <= c0.st.Keys
  {
    && y in Unlocked(c0) && y !in victims
    && forall k {:trigger c0.st[k]} :: k in c0.path && c0.st[k].parent == Some(y) ==> k in victims
  }

  /** A surviving child keeps its parent in the cache and off the leaves. */
  lemma ChildRemains<N>(c0: Cache<N>, c: Cache<N>, victims: seq<N>, y: N, k: N)
    requires Inv(c) && Evicted(c0, c, victims) && k in c0.path && c0.st[k].parent == Some(y)
    ensures k !in victims && k != c.root ==> y in c.st && c.st[y].kids != map[]
  {
    hide KidsOnly, Locked, Sized, Leaved, Referenced, Mapped;
    KeptParent(c0, c, k);
    if k !in victims && k != c.root {
      InParent(c, k);
    }
  }

  lemma KeptParent<N>(c0: Cache<N>, c: Cache<N>, k: N)
    ensures KidsOnly(c0, c) && k in c0.st ==> k in c.st && c.st[k].parent == c0.st[k].parent
  {
  }

  /** Whatever a surviving node still has as a child was its child from the start. */
  lemma KidRemains<N>(c0: Cache<N>, c: Cache<N>, victims: seq<N>, y: N, t: Token)
    requires Inv(c) && Evicted(c0, c, victims) && y in c.path && t in c.st[y].kids
    ensures var k := c.st[y].kids[t]; k in c0.path && k !in victims && k in c0.st && c0.st[k].parent == Some(y)
  {
    KidFits(c, y, t);
    KeptParent(c0, c, c.st[y].kids[t]);
  }

  /** The evictable leaves at any moment are told by the first cache and the victims so far. */
  lemma LeavesAfter<N>(c0: Cache<N>, c: Cache<N>, victims: seq<N>, y: N)
    requires Inv(c) && Evicted(c0, c, victims)
    ensures y in c.leaves <==> LeafAfter(c0, victims, y)
  {
    hide Referenced, Mapped, Sized, Chained, Locked;
    assert c0.root == c.root && c.st[c.root].parent == None;
    forall k | k in c0.path && c0.st[k].parent == Some(y)
      ensures k !in victims ==> y in c.st && c.st[y].kids != map[]
    {
      KeptParent(c0, c, k);
      ChildRemains(c0, c, victims, y, k);
    }
    if y in c.path {
      forall t | t in c.st[y].kids
        ensures var k := c.st[y].kids[t]; k in c0.path && k !in victims && k in c0.st && c0.st[k].parent == Some(y)
      {
        KidRemains(c0, c, victims, y, t);
      }
    }
  }

  lemma EvictedNone<N>(c: Cache<N>)
    requires Inv(c)
    ensures Evicted(c, c, [])
  {
    assert c.content - {} == c.content;
  }

  lemma LeafReady<N>(c: Cache<N>, x: N)
    requires Inv(c) && x in c.leaves
    ensures RemoveReady(c, x) && x in c.path && x in c.st && x in Unlocked(c)
    ensures c.st[x].parent.Some? && c.st[x].parent.value in c.path && c.st[x].parent.value in c.st
    ensures c.st[x].parent.value != x
    ensures c.st[x].key[0] in c.st[c.st[x].parent.value].kids
  {
    InParent(c, x);
  }

  lemma LostStep<N>(c0: Cache<N>, c: Cache<N>, victims: seq<N>, x: N)
    requires Evicted(c0, c, victims) && x in c.path && x in c.st
    requires c.st[x].parent.Some? && c.st[x].parent.value in c.path
    ensures c.content - OnKey(c, x) == c0.content - Lost(c0, victims + [x])
  {
    var more := victims + [x];
    assert more[..|more| - 1] == victims;
    assert c0.st[x].parent == c.st[x].parent && c0.st[x].key == c.st[x].key;
    assert Lost(c0, more) == Lost(c0, victims) + OnKey(c, x);
  }

  /** The tokens of one more victim. */
  lemma FreedStep<N>(c0: Cache<N>, c: Cache<N>, victims: seq<N>, x: N, freed: nat)
    requires KidsOnly(c0, c) && RemoveReady(c, x) && freed + RemoveNode(c, x).evictable == c.evictable
    ensures Freed(c0, victims + [x]) == Freed(c0, victims) + freed
  {
    var more := victims + [x];
    assert more[..|more| - 1] == victims;
    assert c.st[x] == c0.st[x].(kids := c.st[x].kids);
  }

  lemma StopsStep<N>(c: Cache<N>, victims: seq<N>, gone: seq<N>, before: int, freed: nat, quota: int)
    requires StopsInTime(c, victims, before, quota) && before < quota && OneMore(c, victims, gone, freed)
    ensures StopsInTime(c, gone, before + freed, quota)
  {
    forall i | 0 <= i < |gone|
      ensures Freed(c, gone[..i]) < quota
    {
      assert gone[..i] == victims[..i];
      assert i == |victims| ==> gone[..i] == victims;
    }
  }

  /** `gone` is `victims` and one more, which took `freed` tokens with it. */
  ghost predicate OneMore<N>(c: Cache<N>, victims: seq<N>, gone: seq<N>, freed: nat) {
    && |gone| == |victims| + 1 && gone[..|victims|] == victims
    && Freed(c, gone) == Freed(c, victims) + freed
  }

  lemma EvictedStep<N>(c0: Cache<N>, c: Cache<N>, victims: seq<N>, x: N)
    requires Inv(c) && Evicted(c0, c, victims) && x in c.leaves && RemoveReady(c, x)
    ensures Evicted(c0, RemoveNode(c, x), victims + [x])
  {
    hide Inv, KidsOnly, RemoveReady, RemoveNode, Lost, OnKey, Unlocked;
    LeafReady(c, x);
    LostStep(c0, c, victims, x);
    RemoveShape(c, x);
    KidsOnlyTwice(c0, c, RemoveNode(c, x));
    UnlockedBefore(c0, c, x);
    assert forall n :: n in victims + [x] <==> n in victims || n == x;
  }

  lemma RemoveShape<N>(c: Cache<N>, x: N)
    requires RemoveReady(c, x)
    ensures var c' := RemoveNode(c, x);
      && KidsOnly(c, c') && c'.path == c.path - {x} && c'.content == c.content - OnKey(c, x)
      && c'.root == c.root && c'.holders == c.holders && c'.shielded == c.shielded
  {
  }

  lemma KidsOnlyTwice<N>(a: Cache<N>, b: Cache<N>, c: Cache<N>)
    requires KidsOnly(a, b) && KidsOnly(b, c)
    ensures KidsOnly(a, c)
  {
    forall n | n in c.st
      ensures c.st[n] == a.st[n].(kids := c.st[n].kids)
    {
      assert b.st[n] == a.st[n].(kids := b.st[n].kids);
    }
  }

  lemma UnlockedBefore<N>(c0: Cache<N>, c: Cache<N>, x: N)
    requires KidsOnly(c0, c) && c0.path.Keys <= c0.st.Keys && c.path.Keys <= c0.path.Keys && c0.root == c.root
    requires c.path.Keys <= c.st.Keys && x in Unlocked(c)
    ensures x in Unlocked(c0)
  {
    assert c.st[x] == c0.st[x].(kids := c.st[x].kids);
  }

  // ----- least first -----

  /** The heap entry to go first. */
  method PopMin<N(==)>(heap: map<N, Key>) returns (x: N)
    requires heap != map[]
    ensures x in heap && forall y :: y in heap ==> !LexLess(heap[y], heap[x])
  {
    var todo := heap.Keys;
    x :| x in todo;
    todo := todo - {x};
    LexIrreflexive(heap[x]);
    while todo != {}
      invariant todo <= heap.Keys && x in heap
      invariant forall y :: y in heap.Keys - todo ==> !LexLess(heap[y], heap[x])
      decreases todo
    {
      var z :| z in todo;
      if LexLess(heap[z], heap[x]) {
        LexAsymmetric(heap[z], heap[x]);
        forall y | y in heap.Keys - todo
          ensures !LexLess(heap[y], heap[z])
        {
          LexTransitive(heap[z], heap[x], heap[y]);
        }
        x := z;
        LexIrreflexive(heap[x]);
      }
      todo := todo - {z};
    }
  }

  ghost predicate LeastAmong<N>(c0: Cache<N>, keys: map<N, Key>, gone: seq<N>, x: N)
    requires c0.path.Keys <= c0.st.Keys
  {
    && x in keys && LeafAfter(c0, gone, x)
    && forall y {:trigger LeafAfter(c0, gone, y)} ::
      y in c0.path && LeafAfter(c0, gone, y) ==> y in keys && !LexLess(keys[y], keys[x])
  }

  /** Each victim was an evictable leaf of its moment, and none of those then had a lower key. */
  ghost predicate LeastFirst<N>(c0: Cache<N>, keys: map<N, Key>, victims: seq<N>)
    requires c0.path.Keys <= c0.st.Keys
  {
    forall i {:trigger victims[i]} :: 0 <= i < |victims| ==> LeastAmong(c0, keys, victims[..i], victims[i])
  }

  /** The heap holds the leaves that are left, under the keys they came in with. */
  ghost predicate Heaped<N>(c: Cache<N>, keys: map<N, Key>, heap: map<N, Key>, victims: seq<N>) {
    && heap.Keys == c.leaves && keys.Keys == heap.Keys + (set x | x in victims)
    && forall n {:trigger heap[n]} :: n in heap ==> n in keys && keys[n] == heap[n]
  }

  ghost predicate Progress<N>(c0: Cache<N>, c: Cache<N>, keys: map<N, Key>, heap: map<N, Key>, victims: seq<N>) {
    Evicted(c0, c, victims) && LeastFirst(c0, keys, victims) && Heaped(c, keys, heap, victims)
  }

  lemma ProgressParts<N>(c0: Cache<N>, c: Cache<N>, keys: map<N, Key>, heap: map<N, Key>, victims: seq<N>)
    requires Progress(c0, c, keys, heap, victims)
    ensures Evicted(c0, c, victims) && c0.path.Keys <= c0.st.Keys && LeastFirst(c0, keys, victims)
    ensures heap.Keys == c.leaves
  {
  }

  lemma ProgressStarts<N>(c: Cache<N>, heap: map<N, Key>)
    requires Inv(c) && heap.Keys == c.leaves
    ensures Progress(c, c, heap, heap, [])
  {
    EvictedNone(c);
  }

  lemma LeastNow<N>(c0: Cache<N>, c: Cache<N>, keys: map<N, Key>, heap: map<N, Key>, victims: seq<N>, x: N)
    requires Inv(c) && Evicted(c0, c, victims) && Heaped(c, keys, heap, victims)
    requires x in heap && forall y :: y in heap ==> !LexLess(heap[y], heap[x])
    ensures LeastAmong(c0, keys, victims, x)
  {
    hide Inv, Evicted, LexLess, LeafAfter;
    EvictedParts(c0, c, victims);
    LeavesAfter(c0, c, victims, x);
    forall y | y in c0.path && LeafAfter(c0, victims, y)
      ensures y in heap
    {
      LeavesAfter(c0, c, victims, y);
    }
  }

  lemma EvictedParts<N>(c0: Cache<N>, c: Cache<N>, victims: seq<N>)
    requires Evicted(c0, c, victims)
    ensures c0.path.Keys <= c0.st.Keys && c.path.Keys <= c0.path.Keys && KidsOnly(c0, c) && c0.root == c.root
    ensures forall n :: n in c.path ==> n !in victims && c.path[n] == c0.path[n]
  {
  }

  /** A least leaf goes, and the parent it leaves bare may come in with a key of its own. */
  lemma ProgressStep<N>(c0: Cache<N>, c: Cache<N>, keys: map<N, Key>, heap: map<N, Key>, victims: seq<N>,
                        x: N, bared: Option<N>, key: Key)
    requires Inv(c) && Progress(c0, c, keys, heap, victims) && RemoveReady(c, x)
    requires x in heap && forall y :: y in heap ==> !LexLess(heap[y], heap[x])
    requires RemoveNode(c, x).leaves == c.leaves - {x} + Bared(bared)
    requires bared.Some? ==> bared.value in c.path && bared.value !in c.leaves
    ensures Progress(c0, RemoveNode(c, x), With(keys, bared, key), With(heap - {x}, bared, key), victims + [x])
  {
    hide Inv, Evicted, RemoveReady, RemoveNode, LexLess, LeafAfter, LeastFirst, LeastAmong, Heaped;
    ProgressParts(c0, c, keys, heap, victims);
    EvictedParts(c0, c, victims);
    HeapedStep(c, RemoveNode(c, x), keys, heap, victims, x, bared, key);
    EvictedStep(c0, c, victims, x);
    LeastNow(c0, c, keys, heap, victims, x);
    LeastMore(c0, keys, victims, x, bared, key);
  }

  lemma HeapedStep<N>(c: Cache<N>, c': Cache<N>, keys: map<N, Key>, heap: map<N, Key>, victims: seq<N>,
                      x: N, bared: Option<N>, key: Key)
    requires Heaped(c, keys, heap, victims) && x in heap && c'.leaves == c.leaves - {x} + Bared(bared)
    requires bared.Some? ==> bared.value !in victims && bared.value !in c.leaves
    ensures Heaped(c', With(keys, bared, key), With(heap - {x}, bared, key), victims + [x])
    ensures bared.Some? ==> bared.value !in keys
  {
    assert (set y | y in victims + [x]) == (set y | y in victims) + {x};
  }

  ghost function Bared<N>(bared: Option<N>): set<N> {
    if bared.Some? then {bared.value} else {}
  }

  function With<N>(keys: map<N, Key>, bared: Option<N>, key: Key): map<N, Key> {
    if bared.Some? then keys[bared.value := key] else keys
  }

  lemma LeastMore<N>(c0: Cache<N>, keys: map<N, Key>, victims: seq<N>, x: N, bared: Option<N>, key: Key)
    requires c0.path.Keys <= c0.st.Keys && LeastFirst(c0, keys, victims) && LeastAmong(c0, keys, victims, x)
    requires bared.Some? ==> bared.value !in keys
    ensures LeastFirst(c0, With(keys, bared, key), victims + [x])
  {
    hide LexLess, LeafAfter;
    var more := victims + [x];
    forall i | 0 <= i < |more|
      ensures LeastAmong(c0, With(keys, bared, key), more[..i], more[i])
    {
      assert more[..i] == victims[..i];
      assert i == |victims| ==> victims[..i] == victims;
      assert i < |victims| ==> more[i] == victims[i];
      assert LeastAmong(c0, keys, more[..i], more[i]);
    }
  }

  // ----- what least first means for the tree -----

  /** Below every unlocked node that is left and not kept there is a leaf like it. */
  lemma {:induction false} UnkeptLeaf<N>(c0: Cache<N>, kept: set<N>, gone: seq<N>, n: N) returns (y: N)
    requires Built(c0) && Locked(c0) && UpClosed(c0, kept)
    requires n in Unlocked(c0) && n !in gone && n !in kept
    ensures y in c0.path && LeafAfter(c0, gone, y) && y !in kept
    decreases Deeper(Sh(c0), n)
  {
    if k :| k in c0.path && c0.st[k].parent == Some(n) && k !in gone {
      ChildUnlocked(c0, kept, n, k);
      DeeperShrinks(Sh(c0), n, k);
      y := UnkeptLeaf(c0, kept, gone, k);
    } else {
      y := n;
    }
  }

  lemma ChildUnlocked<N>(c0: Cache<N>, kept: set<N>, n: N, k: N)
    requires Built(c0) && Locked(c0) && UpClosed(c0, kept)
    requires n in Unlocked(c0) && k in c0.path && c0.st[k].parent == Some(n)
    ensures k in Unlocked(c0) && (k in kept ==> n in kept)
    ensures n in Sh(c0) && k in Sh(c0) && Sh(c0)[n].path <= Sh(c0)[k].path && |Sh(c0)[n].path| < |Sh(c0)[k].path|
  {
    Fits(c0, k);
    LockMonotone(c0, n, k);
    assert NodeFits(c0, k);
  }

  /** Kept nodes have kept parents. */
  ghost predicate UpClosed<N>(c: Cache<N>, kept: set<N>) {
    forall k {:trigger NodeFits(c, k)} ::
      k in c.path && k != c.root && NodeFits(c, k) && k in kept ==>
        c.st[k].parent.value == c.root || c.st[k].parent.value in kept
  }

  /** If whatever is not kept has lower keys, least first empties the tree of it first. */
  lemma LeastPartitions<N>(c0: Cache<N>, keys: map<N, Key>, victims: seq<N>, kept: set<N>)
    requires Inv(c0) && LeastFirst(c0, keys, victims) && UpClosed(c0, kept)
    requires forall x, y {:trigger LexLess(keys[y], keys[x])} ::
      x in keys && y in keys && y in c0.path && x in kept && y !in kept ==> LexLess(keys[y], keys[x])
    ensures Partitioned(c0, kept, victims)
  {
    hide LexLess, LeafAfter, UpClosed, Referenced, Mapped, Sized, Leaved, Chained;
    forall i, n | 0 <= i < |victims| && victims[i] in kept && n in Unlocked(c0) && n !in kept
      ensures n in victims[..i]
    {
      assert LeastAmong(c0, keys, victims[..i], victims[i]);
      if n !in victims[..i] {
        var y := UnkeptLeaf(c0, kept, victims[..i], n);
        assert false;
      }
    }
  }

  /** The nodes some waiting request needs. */
  ghost function Wanted<N>(c: Cache<N>): set<N> {
    set n | n in c.st && c.st[n].refs > 0
  }

  lemma WantedUpClosed<N>(c: Cache<N>)
    requires Inv(c)
    ensures UpClosed(c, Wanted(c))
  {
    forall k | k in c.path && k != c.root && NodeFits(c, k) && k in Wanted(c)
      ensures c.st[k].parent.value == c.root || c.st[k].parent.value in Wanted(c)
    {
      assert RefFits(c, k);
    }
  }

  /** The keys are the strategy's, for references and depth of the first cache and these access
      times. */
  ghost predicate KeysOf<N>(c0: Cache<N>, strategy: Strategy, access: map<N, int>, keys: map<N, Key>) {
    forall n {:trigger keys[n]} :: n in keys ==>
      n in c0.st && n in access && keys[n] == strategy(c0.st[n].refs, c0.st[n].depth, access[n])
  }

  /** Under a hard partition no referenced node goes while an unlocked unreferenced one is left. */
  lemma HardPartitions<N>(c0: Cache<N>, strategy: Strategy, access: map<N, int>, keys: map<N, Key>, victims: seq<N>)
    requires Inv(c0) && LeastFirst(c0, keys, victims) && KeysOf(c0, strategy, access, keys) && HardPartition(strategy)
    ensures Partitioned(c0, Wanted(c0), victims)
  {
    hide Inv, LeastFirst, LexLess, HardPartition;
    WantedUpClosed(c0);
    forall x, y | x in keys && y in keys && x in Wanted(c0) && y !in Wanted(c0)
      ensures LexLess(keys[y], keys[x])
    {
      assert c0.st[y].refs == 0;
      HardOrder(strategy, c0.st[x].refs, c0.st[x].depth, access[x], c0.st[y].depth, access[y]);
    }
    LeastPartitions(c0, keys, victims, Wanted(c0));
  }

  /** The victim went no earlier than any other evictable leaf of its moment was used last. */
  lemma LruOrder<N>(c0: Cache<N>, access: map<N, int>, keys: map<N, Key>, victims: seq<N>, i: nat, y: N)
    requires c0.path.Keys <= c0.st.Keys && LeastFirst(c0, keys, victims) && i < |victims|
    requires KeysOf(c0, LeastRecentlyUsed(), access, keys)
    requires y in c0.path && LeafAfter(c0, victims[..i], y)
    ensures victims[i] in access && y in access && access[victims[i]] <= access[y]
  {
    hide LeafAfter;
    var x := victims[i];
    assert LeastAmong(c0, keys, victims[..i], x);
    LexHead(keys[y], keys[x]);
  }

  /** The nodes accessed at `since` or later. */
  ghost function AccessedSince<N>(c: Cache<N>, access: map<N, int>, since: int): set<N> {
    set n | n in c.path && n in access && access[n] >= since
  }

  /** While access times fall along the root paths, evicting the least recently used takes, of the
      whole tree and not only of its leaves, nothing accessed since any given time as long as an
      unlocked node was last accessed before it. */
  lemma LruPartitions<N>(c0: Cache<N>, access: map<N, int>, keys: map<N, Key>, victims: seq<N>, since: int)
    requires Inv(c0) && LeastFirst(c0, keys, victims) && KeysOf(c0, LeastRecentlyUsed(), access, keys)
    requires Falling(c0.path, access)
    ensures Partitioned(c0, AccessedSince(c0, access, since), victims)
  {
    hide Inv, LeastFirst, LexLess;
    var kept := AccessedSince(c0, access, since);
    SinceUpClosed(c0, access, since);
    forall x, y | x in keys && y in keys && y in c0.path && x in kept && y !in kept
      ensures LexLess(keys[y], keys[x])
    {
      LexHead(keys[y], keys[x]);
    }
    LeastPartitions(c0, keys, victims, kept);
  }

  lemma SinceUpClosed<N>(c0: Cache<N>, access: map<N, int>, since: int)
    requires Inv(c0) && Falling(c0.path, access)
    ensures UpClosed(c0, AccessedSince(c0, access, since))
  {
    hide Referenced, Mapped, Sized, Leaved, Locked;
    forall k | k in c0.path && k != c0.root && NodeFits(c0, k) && k in AccessedSince(c0, access, since)
      ensures var q := c0.st[k].parent.value; q == c0.root || q in AccessedSince(c0, access, since)
    {
      var q := c0.st[k].parent.value;
      assert c0.path[q] <= c0.path[k];
      NotRoot(c0, q);
    }
  }

  /** Unreferenced leaves go before referenced ones, then cheaper ones before dearer ones, then
      the least recently used. */
  lemma QueueAwareOrder<N>(c0: Cache<N>, cost: (nat, nat) -> real, access: map<N, int>, keys: map<N, Key>,
                           victims: seq<N>, i: nat, y: N)
    requires c0.path.Keys <= c0.st.Keys && LeastFirst(c0, keys, victims) && i < |victims|
    requires KeysOf(c0, QueueAware(cost), access, keys)
    requires y in c0.path && LeafAfter(c0, victims[..i], y)
    ensures var x := victims[i]; x in access && y in access && x in c0.st && NoDearer(c0, cost, access, x, y)
  {
    hide LeafAfter;
    var x := victims[i];
    assert LeastAmong(c0, keys, victims[..i], x);
    LexThree(keys[y], keys[x]);
  }

  /** References decide, then the cost at the depth or at one, then the access time. */
  ghost predicate NoDearer<N>(c: Cache<N>, cost: (nat, nat) -> real, access: map<N, int>, x: N, y: N)
    requires x in c.st && y in c.st && x in access && y in access
  {
    var dx, dy := cost(c.st[x].refs, Max(c.st[x].depth, 1)), cost(c.st[y].refs, Max(c.st[y].depth, 1));
    if c.st[x].refs == 0 || c.st[y].refs == 0 then
      c.st[x].refs == 0 && (c.st[y].refs == 0 ==> dx < dy || (dx == dy && access[x] <= access[y]))
    else dx < dy || (dx == dy && access[x] <= access[y])
  }

  /** Each victim was no dearer than any other evictable leaf of its moment. */
  ghost predicate CheapestFirst<N>(c0: Cache<N>, cost: (nat, nat) -> real, access: map<N, int>, victims: seq<N>) {
    c0.path.Keys <= c0.st.Keys && forall i, y {:trigger LeafAfter(c0, victims[..i], y)} ::
      0 <= i < |victims| && y in c0.path && LeafAfter(c0, victims[..i], y) ==>
        var x := victims[i]; x in access && y in access && x in c0.st && NoDearer(c0, cost, access, x, y)
  }

  lemma CheapestGoFirst<N>(c0: Cache<N>, cost: (nat, nat) -> real, access: map<N, int>, keys: map<N, Key>,
                           victims: seq<N>)
    requires c0.path.Keys <= c0.st.Keys && LeastFirst(c0, keys, victims)
    requires KeysOf(c0, QueueAware(cost), access, keys)
    ensures CheapestFirst(c0, cost, access, victims)
  {
    hide LeafAfter, LeastFirst, KeysOf, NoDearer;
    forall i, y | 0 <= i < |victims| && y in c0.path && LeafAfter(c0, victims[..i], y)
      ensures var x := victims[i]; x in access && y in access && x in c0.st && NoDearer(c0, cost, access, x, y)
    {
      QueueAwareOrder(c0, cost, access, keys, victims, i, y);
    }
  }

  lemma StopsStarts<N>(c: Cache<N>, quota: int)
    ensures StopsInTime(c, [], 0, quota)
  {
  }

  lemma NothingAsked<N>(c: Cache<N>, victims: seq<N>, freed: int, quota: int)
    requires StopsInTime(c, victims, freed, quota)
    ensures quota <= 0 ==> victims == []
  {
    assert victims != [] ==> Freed(c, victims[..0]) < quota;
  }

  lemma GoneIsMore<N>(c0: Cache<N>, c: Cache<N>, keys: map<N, Key>, heap: map<N, Key>, victims: seq<N>, x: N,
                      freed: nat)
    requires Progress(c0, c, keys, heap, victims) && RemoveReady(c, x)
    requires freed + RemoveNode(c, x).evictable == c.evictable
    ensures OneMore(c0, victims, victims + [x], freed)
  {
    hide Freed, RemoveReady, RemoveNode, LeastFirst, Heaped, KidsOnly;
    FreedStep(c0, c, victims, x, freed);
  }

  /** Once the leaves are gone, or the quota is met, enough has been freed. */
  lemma QuotaMet<N>(c0: Cache<N>, c: Cache<N>, freed: int, quota: int)
    requires Inv(c) && freed + c.evictable == c0.evictable
    requires freed >= quota || c.leaves == {}
    ensures freed >= Min(quota, c0.evictable)
  {
    if c.leaves == {} {
      NoLeavesNothingEvictable(c);
    }
    assert c.evictable >= 0;
  }

  /** Eviction keeps last cycle's references accounted for. */
  lemma RemoveTraced<N>(c: Cache<N>, x: N, prev: seq<N>)
    requires RemoveReady(c, x) && Chained(c) && c.path.Keys <= c.st.Keys && Traced(c, prev)
    ensures Chained(RemoveNode(c, x)) && RemoveNode(c, x).path.Keys <= RemoveNode(c, x).st.Keys
    ensures Traced(RemoveNode(c, x), prev)
  {
    RemoveChained(c, x);
    TracedSame(c, RemoveNode(c, x), prev);
  }
}
