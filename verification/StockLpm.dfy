/**
 The reference for in-batch dedup: stock LPM scheduling of schedule_policy.py, which inserts
 every cold request it does not deprioritize into an auxiliary radix tree, and the agreement
 of the three implementations.
 */
module StockPolicy {
  import opened Prelude
  import opened Demands
  import opened Sorting
  import opened InBatch
  import opened CacheStore
  import opened CacheWalk
  import opened CacheEviction
  import opened CacheTimes
  import opened KvCache
  import opened PendingRequests

  /** Request `j` was inserted into the auxiliary tree. */
  ghost predicate Inserted(q: seq<Entry>, check: int, flags: seq<bool>, j: nat) {
    j < |q| && j < |flags| && q[j].hit <= check && !flags[j]
  }

  /** The auxiliary tree holds the prefixes of the inserted prompts. */
  ghost predicate HoldsPrefix(q: seq<Entry>, check: int, flags: seq<bool>, p: seq<Token>) {
    p != [] && exists j: nat {:trigger Inserted(q, check, flags, j)} :: Inserted(q, check, flags, j) && p <= q[j].prompt
  }

  ghost predicate HoldsPrefixes(content: map<seq<Token>, int>, q: seq<Entry>, check: int, flags: seq<bool>) {
    forall p {:trigger p in content} :: p in content <==> HoldsPrefix(q, check, flags, p)
  }

  /** A match of at least `k` tokens is a match of the first `k`. */
  lemma HitReaches(content: map<seq<Token>, int>, q: seq<Entry>, check: int, flags: seq<bool>, prompt: seq<Token>,
                   hit: nat, k: nat)
    requires HoldsPrefixes(content, q, check, flags) && IsHit(content, prompt, hit) && k > 0
    ensures hit >= k <==> k <= |prompt| && HoldsPrefix(q, check, flags, prompt[..k])
  {
    if hit >= k {
      assert prompt[..hit] in content;
      var j: nat :| Inserted(q, check, flags, j) && prompt[..hit] <= q[j].prompt;
      assert prompt[..k] == prompt[..hit][..k];
      assert Inserted(q, check, flags, j) && prompt[..k] <= q[j].prompt;
    }
    if k <= |prompt| && HoldsPrefix(q, check, flags, prompt[..k]) {
      assert prompt[..k] in content;
    }
  }

  /** Some inserted prompt starts with the first tokens of request `i` exactly when an earlier cold
      request does: if that one is a sibling, its pioneer was inserted. */
  lemma HeldIffSibling(q: seq<Entry>, check: int, k: nat, i: nat, flags: seq<bool>)
    requires k > 0 && i < |q| && |flags| == i && q[i].hit <= check && k <= |q[i].prompt|
    requires forall j {:trigger flags[j]} :: 0 <= j < i ==> (flags[j] <==> Sibling(q, check, k, j))
    ensures HoldsPrefix(q, check, flags, q[i].prompt[..k]) <==> Sibling(q, check, k, i)
  {
    var p := q[i].prompt[..k];
    if HoldsPrefix(q, check, flags, p) {
      var j: nat :| Inserted(q, check, flags, j) && p <= q[j].prompt;
      assert Earlier(q, check, k, i, j);
    }
    if Sibling(q, check, k, i) {
      var j := PioneerOf(q, check, k, i);
      assert Inserted(q, check, flags, j) && p <= q[j].prompt;
    }
  }

  /** Inserting adds exactly the prefixes of the prompt. */
  lemma InsertHolds(content: map<seq<Token>, int>, content': map<seq<Token>, int>, q: seq<Entry>, check: int,
                    flags: seq<bool>, i: nat, hit: nat)
    requires i < |q| && |flags| == i && q[i].hit <= check && HoldsPrefixes(content, q, check, flags)
    requires IsHit(content, q[i].prompt, hit)
    requires forall p :: p in content' <==> p in content || (p <= q[i].prompt && hit < |p|)
    ensures HoldsPrefixes(content', q, check, flags + [false])
  {
    var prompt, more := q[i].prompt, flags + [false];
    forall p
      ensures p in content' <==> HoldsPrefix(q, check, more, p)
    {
      HoldsMore(q, check, flags, false, i, p);
      if p <= prompt && p != [] && |p| <= hit {
        assert prompt[..hit] in content;
        var j: nat :| Inserted(q, check, flags, j) && prompt[..hit] <= q[j].prompt;
        assert p <= q[j].prompt;
      }
    }
  }

  lemma HoldsMore(q: seq<Entry>, check: int, flags: seq<bool>, flag: bool, i: nat, p: seq<Token>)
    requires i < |q| && |flags| == i
    ensures HoldsPrefix(q, check, flags + [flag], p) <==>
      HoldsPrefix(q, check, flags, p) || (p != [] && q[i].hit <= check && !flag && p <= q[i].prompt)
  {
    var more := flags + [flag];
    forall j: nat
      ensures Inserted(q, check, more, j) <==> Inserted(q, check, flags, j) || (j == i && q[i].hit <= check && !flag)
    {
    }
    if p != [] && q[i].hit <= check && !flag && p <= q[i].prompt {
      assert Inserted(q, check, more, i);
    }
    if HoldsPrefix(q, check, flags, p) {
      var j: nat :| Inserted(q, check, flags, j) && p <= q[j].prompt;
      assert Inserted(q, check, more, j);
    }
  }

  lemma SkipHolds(content: map<seq<Token>, int>, q: seq<Entry>, check: int, flags: seq<bool>, flag: bool, i: nat)
    requires i < |q| && |flags| == i && HoldsPrefixes(content, q, check, flags) && (q[i].hit > check || flag)
    ensures HoldsPrefixes(content, q, check, flags + [flag])
  {
    forall p
      ensures p in content <==> HoldsPrefix(q, check, flags + [flag], p)
    {
      HoldsMore(q, check, flags, flag, i, p);
    }
  }

  /** The flags stock scheduling sets: siblings for a positive threshold, every cold request
      otherwise. */
  ghost predicate StockFlags(q: seq<Entry>, check: int, dedup: int, flags: seq<bool>) {
    && |flags| <= |q|
    && forall i {:trigger flags[i]} :: 0 <= i < |flags| ==>
      (flags[i] <==> if dedup > 0 then Sibling(q, check, dedup, i) else q[i].hit <= check)
  }

  /** The queue as the check sees it: a request matched at group level already counts as warm. */
  ghost function PassOverMatched(q: seq<Entry>, matched: seq<bool>, check: int): (r: seq<Entry>)
    requires |matched| == |q|
    ensures |r| == |q| && forall i ::
      0 <= i < |q| ==> r[i] == if matched[i] then Entry(q[i].prompt, check + 1) else q[i]
  {
    seq(|q|, i requires 0 <= i < |q| => if matched[i] then Entry(q[i].prompt, check + 1) else q[i])
  }

  /** The in-batch check.  Requests matched already are skipped; a cold request either finds enough
      of its prompt in the auxiliary tree or is inserted into it. */
  method StockSiblings(q: seq<Entry>, matched: seq<bool>, check: int, dedup: int, now: int) returns (flags: seq<bool>)
    requires |matched| == |q|
    ensures |flags| == |q| && StockFlags(PassOverMatched(q, matched, check), check, dedup, flags)
  {
    hide Good, Inv, IsHit, Reads, RadixCache.Synced, RadixCache.Valid, HoldsPrefix, HoldsPrefixes, StockFlags, Sibling,
      SameRefs, PassOverMatched, Touched, TimesKept, MadeNow, GrownAlong, OneMade, Falling, NoneLater, HasNode,
      RadixCache.AccessTimes;
    var aux := new RadixCache(LeastRecentlyUsed(), now);
    ghost var seen := PassOverMatched(q, matched, check);
    flags := [];
    NothingHeld(seen, check, dedup, aux.view.content);
    while |flags| < |q|
      invariant |flags| <= |q| && aux.Valid() && fresh(aux) && fresh(aux.all)
      invariant HoldsPrefixes(aux.view.content, seen, check, flags) && StockFlags(seen, check, dedup, flags)
    {
      var i := |flags|;
      var flag := false;
      if !matched[i] && q[i].hit <= check {
        var values, node := aux.MatchPrefix(q[i].prompt, true, now);
        ghost var content := aux.view.content;
        flag := |values| >= dedup;
        if dedup > 0 {
          StockStep(content, seen, check, dedup, i, flags, |values|);
        }
        if !flag {
          var hit := aux.Insert(q[i].prompt, seq(|q[i].prompt|, _ => 0), now);
          InsertHolds(content, aux.view.content, seen, check, flags, i, hit);
        } else {
          SkipHolds(content, seen, check, flags, true, i);
        }
      } else {
        WarmIsNoSibling(seen, check, dedup, i);
        SkipHolds(aux.view.content, seen, check, flags, false, i);
      }
      FlagsMore(seen, check, dedup, flags, flag);
      flags := flags + [flag];
    }
  }

  lemma FlagsMore(q: seq<Entry>, check: int, dedup: int, flags: seq<bool>, flag: bool)
    requires StockFlags(q, check, dedup, flags) && |flags| < |q|
    requires flag <==> if dedup > 0 then Sibling(q, check, dedup, |flags|) else q[|flags|].hit <= check
    ensures StockFlags(q, check, dedup, flags + [flag])
  {
  }

  lemma NothingHeld(q: seq<Entry>, check: int, dedup: int, content: map<seq<Token>, int>)
    requires content == map[]
    ensures HoldsPrefixes(content, q, check, []) && StockFlags(q, check, dedup, [])
  {
  }

  lemma WarmIsNoSibling(q: seq<Entry>, check: int, dedup: int, i: nat)
    requires i < |q| && q[i].hit > check
    ensures dedup >= 0 ==> !Sibling(q, check, dedup, i)
  {
  }

  lemma StockStep(content: map<seq<Token>, int>, q: seq<Entry>, check: int, k: nat, i: nat, flags: seq<bool>, hit: nat)
    requires k > 0 && i < |q| && |flags| == i && q[i].hit <= check
    requires StockFlags(q, check, k, flags) && HoldsPrefixes(content, q, check, flags)
    requires IsHit(content, q[i].prompt, hit)
    ensures hit >= k <==> Sibling(q, check, k, i)
  {
    HitReaches(content, q, check, flags, q[i].prompt, hit, k);
    if k <= |q[i].prompt| {
      HeldIffSibling(q, check, k, i, flags);
    }
  }

  // ----- the three agree -----

  /** The queue with what the pending tree stores for its requests. */
  ghost predicate InStep(paths: Pending, reqs: seq<(Rid, int)>, q: seq<Entry>) {
    |q| == |reqs| && forall i {:trigger q[i]} ::
      0 <= i < |q| ==> reqs[i].0 in paths && paths[reqs[i].0] == q[i].prompt && reqs[i].1 == q[i].hit
  }

  /** For a threshold of at least one and a tree in step with the queue, the token tuples, the tree
      positions and the auxiliary tree deprioritize the same requests, and the three final orders
      are the same. */
  method ThreeOrders(pending: PendingTree, reqs: seq<(Rid, int)>, q: seq<Entry>, check: int, dedup: nat, now: int)
    returns (stock: seq<nat>, python: seq<nat>, rust: seq<nat>)
    requires pending.Valid() && InStep(pending.paths, reqs, q) && dedup >= 1
    requires forall i {:trigger q[i]} :: 0 <= i < |q| ==> q[i].hit >= 0
    ensures stock == python == rust
    ensures Permutes(stock, |q|)
    ensures forall i, j :: 0 <= i < j < |q| && Sibling(q, check, dedup, stock[i]) ==>
      Sibling(q, check, dedup, stock[j]) && stock[i] < stock[j]
    ensures forall i, j ::
      0 <= i < j < |q| && !Sibling(q, check, dedup, stock[j]) ==> q[stock[i]].hit >= q[stock[j]].hit
  {
    var flags := StockSiblings(q, seq(|q|, _ => false), check, dedup, now);
    assert PassOverMatched(q, seq(|q|, _ => false), check) == q;
    var tuples := TupleClaims(q, check, dedup);
    InStepKnown(pending.paths, reqs, q);
    rust := pending.LpmOrder(reqs, check, dedup);
    ThreeAgree(q, check, dedup, flags, tuples);
    stock := StableSort(LpmKeys(CacheHits(reqs), flags));
    python := StableSort(LpmKeys(CacheHits(reqs), tuples));
    StableSortOrdered(LpmKeys(CacheHits(reqs), flags));
    SiblingsLast(q, check, dedup, flags, CacheHits(reqs), stock);
  }

  lemma InStepKnown(paths: Pending, reqs: seq<(Rid, int)>, q: seq<Entry>)
    requires InStep(paths, reqs, q)
    ensures Known(paths, reqs) == q
  {
    forall i | 0 <= i < |q|
      ensures Known(paths, reqs)[i] == q[i]
    {
      assert q[i] == Entry(q[i].prompt, q[i].hit);
    }
  }

  /** In the LPM order siblings come last, in arrival order, and the others by descending hit. */
  lemma SiblingsLast(q: seq<Entry>, check: int, dedup: nat, flags: seq<bool>, hits: seq<int>, order: seq<nat>)
    requires |flags| == |hits| == |q| && StockFlags(q, check, dedup, flags) && dedup >= 1
    requires forall i :: 0 <= i < |q| ==> hits[i] == q[i].hit
    requires Ordered(LpmKeys(hits, flags), order) && Permutes(order, |q|)
    ensures forall i, j :: 0 <= i < j < |q| && Sibling(q, check, dedup, order[i]) ==>
      Sibling(q, check, dedup, order[j]) && order[i] < order[j]
    ensures forall i, j ::
      0 <= i < j < |q| && !Sibling(q, check, dedup, order[j]) ==> q[order[i]].hit >= q[order[j]].hit
  {
    var keys := LpmKeys(hits, flags);
    forall i, j | 0 <= i < j < |q|
      ensures Sibling(q, check, dedup, order[i]) ==> Sibling(q, check, dedup, order[j]) && order[i] < order[j]
      ensures !Sibling(q, check, dedup, order[j]) ==> q[order[i]].hit >= q[order[j]].hit
    {
      var x, y := order[i], order[j];
      assert Before(keys, x, y);
      CompareIsKeyOrder(hits[x], flags[x], hits[y], flags[y]);
      assert flags[x] <==> Sibling(q, check, dedup, x);
      assert flags[y] <==> Sibling(q, check, dedup, y);
    }
  }

  /** The tuple flags as `TupleClaims` sets them. */
  ghost predicate TupleFlags(q: seq<Entry>, check: int, dedup: int, flags: seq<bool>) {
    && |flags| == |q|
    && forall i {:trigger flags[i]} ::
      0 <= i < |q| ==> (flags[i] <==> check >= 0 && dedup >= 0 && Sibling(q, check, dedup, i))
  }

  ghost predicate Cold(e: Entry, check: int) {
    e.hit <= check
  }

  /** The auxiliary tree agrees with the tree positions, for whatever threshold, exactly when the
      threshold is at least one or no request is cold. */
  lemma StockAgrees(q: seq<Entry>, check: int, dedup: nat, stock: seq<bool>)
    requires StockFlags(q, check, dedup, stock) && |stock| == |q|
    ensures stock == SiblingFlags(q, check, dedup) <==>
      dedup >= 1 || forall i {:trigger q[i]} :: 0 <= i < |q| ==> !Cold(q[i], check)
  {
    var flags := SiblingFlags(q, check, dedup);
    if stock == flags && dedup == 0 {
      forall i | 0 <= i < |q|
        ensures !Cold(q[i], check)
      {
        assert !flags[i] && !stock[i];
      }
    }
  }

  /** The token tuples agree with the tree positions exactly when the threshold is at least one or no
      two requests are cold. */
  lemma TuplesAgreeIff(q: seq<Entry>, check: int, dedup: nat, tuples: seq<bool>)
    requires TupleFlags(q, check, dedup, tuples) && forall i {:trigger q[i]} :: 0 <= i < |q| ==> q[i].hit >= 0
    ensures tuples == SiblingFlags(q, check, dedup) <==>
      dedup >= 1 || forall i, j {:trigger q[i], q[j]} :: 0 <= i < j < |q| ==> !(Cold(q[i], check) && Cold(q[j], check))
  {
    var flags := SiblingFlags(q, check, dedup);
    if dedup == 0 {
      forall j | 0 <= j < |q|
        ensures tuples[j] <==> exists i {:trigger q[i]} :: 0 <= i < j && Cold(q[i], check) && Cold(q[j], check)
      {
        assert q[j].hit >= 0;
        ColdAtZero(q, check, j);
      }
      if tuples == flags {
        forall i, j | 0 <= i < j < |q|
          ensures !(Cold(q[i], check) && Cold(q[j], check))
        {
          assert !flags[j] && !tuples[j];
        }
      }
    } else {
      forall j | 0 <= j < |q|
        ensures tuples[j] == flags[j]
      {
        assert q[j].hit >= 0;
      }
    }
  }

  /** With threshold zero a sibling is a cold request with an earlier cold one. */
  lemma ColdAtZero(q: seq<Entry>, check: int, j: nat)
    requires j < |q|
    ensures Sibling(q, check, 0, j) <==>
      exists i {:trigger q[i]} :: 0 <= i < j && Cold(q[i], check) && Cold(q[j], check)
  {
    if i :| 0 <= i < j && Cold(q[i], check) && Cold(q[j], check) {
      assert Earlier(q, check, 0, j, i);
    }
    if Sibling(q, check, 0, j) {
      var i :| 0 <= i < |q| && Earlier(q, check, 0, j, i);
      assert Cold(q[i], check);
    }
  }

  /** All three agree exactly when the threshold is at least one or no request is cold. */
  lemma ThreeAgree(q: seq<Entry>, check: int, dedup: nat, stock: seq<bool>, tuples: seq<bool>)
    requires StockFlags(q, check, dedup, stock) && |stock| == |q| && TupleFlags(q, check, dedup, tuples)
    requires forall i {:trigger q[i]} :: 0 <= i < |q| ==> q[i].hit >= 0
    ensures stock == tuples == SiblingFlags(q, check, dedup) <==>
      dedup >= 1 || forall i {:trigger q[i]} :: 0 <= i < |q| ==> !Cold(q[i], check)
  {
    StockAgrees(q, check, dedup, stock);
    TuplesAgreeIff(q, check, dedup, tuples);
  }

  /** Any two cold requests at threshold zero: the tree positions flag neither, the tuples the
      second, the auxiliary tree both. */
  lemma TwoColdAtZero(a: Entry, b: Entry, check: int, stock: seq<bool>, tuples: seq<bool>)
    requires 0 <= a.hit <= check && 0 <= b.hit <= check
    requires StockFlags([a, b], check, 0, stock) && |stock| == 2 && TupleFlags([a, b], check, 0, tuples)
    ensures SiblingFlags([a, b], check, 0) == [false, false]
    ensures tuples == [false, true] && stock == [true, true]
  {
    var q := [a, b];
    ColdAtZero(q, check, 0);
    ColdAtZero(q, check, 1);
    assert Cold(q[0], check) && Cold(q[1], check);
    var flags := SiblingFlags(q, check, 0);
    assert !flags[0] && !flags[1] && stock[0] && stock[1] && !tuples[0] && tuples[1];
  }
}
