/**
 Two orders of the same queue merged by virtual clocks: each lane's clock advances by the
 inverse of its share at every pick, and the lane whose clock is behind picks next.
 */
module Stride {
  import opened Sorting
  import opened Grouping

  /** Picks of lane A among the first `k`. */
  ghost function PicksA(lane: seq<bool>, k: nat): (a: nat)
    requires k <= |lane|
    ensures a <= k
  {
    if k == 0 then 0 else PicksA(lane, k - 1) + if lane[k - 1] then 1 else 0
  }

  lemma {:induction false} PicksAppend(lane: seq<bool>, x: bool, k: nat)
    requires k <= |lane|
    ensures PicksA(lane + [x], k) == PicksA(lane, k)
  {
    if k > 0 {
      PicksAppend(lane, x, k - 1);
    }
  }

  /** `x` is the first entry of `sorted` that has not been picked. */
  ghost predicate IsNext(sorted: seq<nat>, picked: seq<nat>, x: nat) {
    exists p {:trigger sorted[p]} ::
      0 <= p < |sorted| && sorted[p] == x && x !in picked && forall q :: 0 <= q < p ==> sorted[q] in picked
  }

  /** The pick at index `i` is the next of the lane it was taken from. */
  ghost predicate PickedFrom(a: seq<nat>, b: seq<nat>, order: seq<nat>, lane: seq<bool>, i: nat)
    requires i < |order| && i < |lane|
  {
    IsNext(if lane[i] then a else b, order[..i], order[i])
  }

  /** After `k` picks lane A is within one pick of its share. */
  ghost predicate Proportional(lane: seq<bool>, share: real, k: nat)
    requires k <= |lane|
  {
    share * k as real - (1.0 - share) <= PicksA(lane, k) as real <= share * k as real + share
  }

  /** Pick `i` went to lane A exactly when that keeps A within its share two picks ahead. */
  ghost predicate Fair(lane: seq<bool>, share: real, i: nat)
    requires i < |lane|
  {
    lane[i] <==> AIsDue(share, i, PicksA(lane, i))
  }

  /** Lane A has had `a` of `k` picks; one more keeps it within its share two picks ahead. */
  ghost predicate AIsDue(share: real, k: nat, a: nat) {
    a as real + 1.0 <= share * (k as real + 2.0)
  }

  /** Everything the merge of `a` and `b` has done. */
  ghost predicate Merged(a: seq<nat>, b: seq<nat>, share: real, order: seq<nat>, lane: seq<bool>) {
    && |lane| == |order|
    && (forall i {:trigger PickedFrom(a, b, order, lane, i)} :: 0 <= i < |order| ==> PickedFrom(a, b, order, lane, i))
    && (forall i {:trigger Fair(lane, share, i)} :: 0 <= i < |lane| ==> Fair(lane, share, i))
  }

  // ----- the clocks -----

  /** How far a pick moves a lane's clock. */
  function StrideOf(share: real): real
    requires share > 0.0
  {
    1.0 / share
  }

  /** A lane's clock after so many picks. */
  ghost function Clock(share: real, picks: nat): real
    requires share > 0.0
  {
    (picks as real + 1.0) / share
  }

  /** The clocks compare as the shares do: `a` and `b` picks so far. */
  lemma ClocksAgree(share: real, a: nat, b: nat)
    requires 0.0 < share < 1.0
    ensures Clock(share, a) <= Clock(1.0 - share, b) <==> AIsDue(share, a + b, a)
  {
    var x, y := a as real + 1.0, b as real + 1.0;
    CrossMultiply(x, share, y, 1.0 - share);
    assert x * (1.0 - share) <= y * share <==> x <= share * (x + y);
    assert x + y == (a + b) as real + 2.0;
  }

  lemma CrossMultiply(x: real, p: real, y: real, q: real)
    requires p > 0.0 && q > 0.0
    ensures x / p <= y / q <==> x * q <= y * p
  {
    var u, v := x / p, y / q;
    assert x == u * p && y == v * q;
    assert x * q == u * (p * q) && y * p == v * (p * q);
    assert p * q > 0.0;
    if u <= v {
      assert u * (p * q) <= v * (p * q);
    } else {
      assert v * (p * q) < u * (p * q);
    }
  }

  lemma ClockRuns(share: real, n: nat)
    requires share > 0.0
    ensures Clock(share, 0) == StrideOf(share)
    ensures Clock(share, n) + StrideOf(share) == Clock(share, n + 1)
  {
  }

  /** A fair lane sequence is proportional at every point. */
  lemma {:induction false} FairIsProportional(lane: seq<bool>, share: real, k: nat)
    requires 0.0 < share < 1.0 && k <= |lane|
    requires forall i {:trigger Fair(lane, share, i)} :: 0 <= i < |lane| ==> Fair(lane, share, i)
    ensures Proportional(lane, share, k)
  {
    if k > 0 {
      FairIsProportional(lane, share, k - 1);
      assert Fair(lane, share, k - 1);
      var j := k - 1;
      assert share * k as real == share * j as real + share;
      assert share * (j as real + 2.0) == share * k as real + share;
    }
  }

  // ----- the merge -----

  /** The prefix of `sorted` before `ptr` is picked. */
  ghost predicate Passed(sorted: seq<nat>, picked: seq<nat>, ptr: nat) {
    ptr <= |sorted| && forall q :: 0 <= q < ptr ==> sorted[q] in picked
  }

  /** So many different positions below `n` have been picked, and `picked` knows which. */
  ghost predicate Picking(order: seq<nat>, picked: set<nat>, n: nat) {
    && |order| <= n && NoDup(order) && (forall x :: x in order ==> x < n)
    && forall x :: x in picked <==> x in order
  }

  /** Move a lane's pointer to its first unpicked entry. */
  method SkipPicked(sorted: seq<nat>, picked: set<nat>, from: nat, ghost order: seq<nat>, ghost n: nat)
    returns (ptr: nat)
    requires Passed(sorted, order, from) && Picking(order, picked, n)
    ensures from <= ptr && Passed(sorted, order, ptr) && (ptr < |sorted| ==> sorted[ptr] !in order)
  {
    ptr := from;
    while ptr < |sorted| && sorted[ptr] in picked
      invariant from <= ptr && Passed(sorted, order, ptr)
    {
      ptr := ptr + 1;
    }
  }

  /** While picks are missing, neither lane is exhausted. */
  lemma NotExhausted(sorted: seq<nat>, order: seq<nat>, picked: set<nat>, n: nat)
    requires Permutes(sorted, n) && |order| < n && Picking(order, picked, n)
    ensures !Passed(sorted, order, n)
  {
    if Passed(sorted, order, n) {
      forall x: nat
        ensures x in order <==> x < n
      {
        if x < n {
          assert x in sorted;
          var q :| 0 <= q < |sorted| && sorted[q] == x;
        }
      }
      ListsAll(order, n);
    }
  }

  method Interleave(a: seq<nat>, b: seq<nat>, share: real) returns (order: seq<nat>, ghost lane: seq<bool>)
    requires 0.0 < share < 1.0 && Permutes(a, |a|) && Permutes(b, |a|)
    ensures Permutes(order, |a|) && Merged(a, b, share, order, lane)
  {
    hide StrideOf, Picking, Permutes, PicksA, PickedFrom, Fair, Clock, AIsDue, Merged, Passed, IsNext;
    var n := |a|;
    var aStride, bStride := StrideOf(share), StrideOf(1.0 - share);
    var aClock, bClock := aStride, bStride;
    var aPtr, bPtr := 0, 0;
    var picked: set<nat> := {};
    order, lane := [], [];
    ghost var aCount, bCount: nat := 0, 0;
    NothingMerged(a, b, share);
    ClockRuns(share, 0);
    ClockRuns(1.0 - share, 0);
    while |order| < n
      invariant |order| <= n && Picking(order, picked, n)
      invariant Passed(a, order, aPtr) && Passed(b, order, bPtr)
      invariant Merged(a, b, share, order, lane) && aCount == PicksA(lane, |lane|) && aCount + bCount == |lane|
      invariant |lane| == |order| && aClock == Clock(share, aCount) && bClock == Clock(1.0 - share, bCount)
    {
      ghost var before, lanes := order, lane;
      ClocksAgree(share, aCount, bCount);
      ClockRuns(share, aCount);
      ClockRuns(1.0 - share, bCount);
      NotExhausted(a, order, picked, n);
      NotExhausted(b, order, picked, n);
      PermutesFacts(a, n);
      PermutesFacts(b, n);
      if aClock <= bClock {
        aPtr := SkipPicked(a, picked, aPtr, order, n);
        if aPtr < n {
          PassedNext(a, order, aPtr);
          PickFresh(order, picked, a[aPtr], n);
          PassedMore(b, order, bPtr, a[aPtr]);
          order, picked := order + [a[aPtr]], picked + {a[aPtr]};
          lane := lane + [true];
          aPtr := aPtr + 1;
          aClock := aClock + aStride;
          aCount := aCount + 1;
        } else {
          assert false;
        }
      } else {
        bPtr := SkipPicked(b, picked, bPtr, order, n);
        if bPtr < n {
          PassedNext(b, order, bPtr);
          PickFresh(order, picked, b[bPtr], n);
          PassedMore(a, order, aPtr, b[bPtr]);
          order, picked := order + [b[bPtr]], picked + {b[bPtr]};
          lane := lane + [false];
          bPtr := bPtr + 1;
          bClock := bClock + bStride;
          bCount := bCount + 1;
        } else {
          assert false;
        }
      }
      MergeStep(a, b, share, before, lanes, order[|before|], lane[|before|]);
    }
    AllPicked(order, picked, n);
  }

  lemma NothingMerged(a: seq<nat>, b: seq<nat>, share: real)
    ensures Picking([], {}, |a|) && PicksA([], 0) == 0 && Merged(a, b, share, [], []) && Passed(a, [], 0)
    ensures Passed(b, [], 0)
  {
  }

  lemma PassedNext(s: seq<nat>, order: seq<nat>, ptr: nat)
    requires Passed(s, order, ptr) && ptr < |s| && s[ptr] !in order
    ensures IsNext(s, order, s[ptr])
    ensures Passed(s, order + [s[ptr]], ptr + 1)
  {
  }

  lemma PickFresh(order: seq<nat>, picked: set<nat>, x: nat, n: nat)
    requires Picking(order, picked, n) && |order| < n && x !in order && x < n
    ensures Picking(order + [x], picked + {x}, n)
  {
  }

  lemma PassedMore(s: seq<nat>, order: seq<nat>, ptr: nat, x: nat)
    requires Passed(s, order, ptr)
    ensures Passed(s, order + [x], ptr)
  {
  }

  lemma PermutesFacts(s: seq<nat>, n: nat)
    requires Permutes(s, n)
    ensures |s| == n && forall i :: 0 <= i < n ==> s[i] < n
  {
  }

  /** One more pick keeps the account of the merge. */
  lemma MergeStep(a: seq<nat>, b: seq<nat>, share: real, order: seq<nat>, lane: seq<bool>, x: nat, toA: bool)
    requires Merged(a, b, share, order, lane) && IsNext(if toA then a else b, order, x)
    requires toA <==> AIsDue(share, |lane|, PicksA(lane, |lane|))
    ensures Merged(a, b, share, order + [x], lane + [toA])
    ensures PicksA(lane + [toA], |lane| + 1) == PicksA(lane, |lane|) + if toA then 1 else 0
  {
    var o, l := order + [x], lane + [toA];
    forall i | 0 <= i < |o|
      ensures PickedFrom(a, b, o, l, i)
    {
      if i < |order| {
        assert PickedFrom(a, b, order, lane, i) && o[..i] == order[..i];
      } else {
        assert o[..i] == order;
      }
    }
    forall i | 0 <= i < |l|
      ensures Fair(l, share, i)
    {
      PicksAppend(lane, toA, i);
      if i < |lane| {
        assert Fair(lane, share, i);
      }
    }
    PicksAppend(lane, toA, |lane|);
  }

  lemma AllPicked(order: seq<nat>, picked: set<nat>, n: nat)
    requires |order| == n && Picking(order, picked, n)
    ensures Permutes(order, n)
  {
    forall i | 0 <= i < n
      ensures order[i] < n
    {
      assert order[i] in order;
    }
    forall x: nat | x < n
      ensures x in order
    {
      if x !in order {
        TooMany(order + [x], n);
      }
    }
  }

  lemma {:induction false} TooMany(s: seq<nat>, n: nat)
    requires NoDup(s) && (s == [] || n > 0) && forall x :: x in s ==> x < n
    ensures |s| <= n
    decreases n
  {
    if last: nat :| last in s && last == n - 1 {
      var i :| 0 <= i < |s| && s[i] == last;
      var t := s[..i] + s[i + 1..];
      forall x | x in t
        ensures x < n - 1
      {
        assert x in s && x != last;
      }
      HeadIn(t);
      if t != [] {
        TooMany(t, n - 1);
      }
    } else if s != [] {
      HeadIn(s);
      TooMany(s, n - 1);
    }
  }

  // ----- bounded starvation -----

  lemma NextBefore(s: seq<nat>, picked: seq<nat>, x: nat, j: nat) returns (p: nat)
    requires IsNext(s, picked, x) && j < |s| && s[j] !in picked && s[j] != x
    ensures p < j && s[p] == x && s[p] !in picked
  {
    p :| 0 <= p < |s| && s[p] == x && forall q :: 0 <= q < p ==> s[q] in picked;
  }

  ghost function Picks(lane: seq<bool>, k: nat, inA: bool): nat
    requires k <= |lane|
  {
    if inA then PicksA(lane, k) else k - PicksA(lane, k)
  }

  /** A lane picks its entries in order, so while rank `j` still waits the lane has picked at most
      `j` times. */
  lemma {:induction false} PicksBeforeRank(s: seq<nat>, order: seq<nat>, lane: seq<bool>, i: nat, j: nat, inA: bool)
    requires |lane| == |order| && i <= |order|
    requires forall k {:trigger lane[k]} :: 0 <= k < |order| && lane[k] == inA ==> IsNext(s, order[..k], order[k])
    requires j < |s| && s[j] !in order[..i]
    ensures Picks(lane, i, inA) <= j
    decreases i
  {
    hide IsNext;
    if i > 0 {
      assert order[..i] == order[..i - 1] + [order[i - 1]];
      PicksBeforeRank(s, order, lane, i - 1, j, inA);
      if lane[i - 1] == inA {
        var p := NextBefore(s, order[..i - 1], order[i - 1], j);
        PicksBeforeRank(s, order, lane, i - 1, p, inA);
      }
    }
  }

  lemma LanePicks(a: seq<nat>, b: seq<nat>, share: real, order: seq<nat>, lane: seq<bool>, inA: bool)
    requires Merged(a, b, share, order, lane)
    ensures |lane| == |order|
    ensures forall k {:trigger lane[k]} ::
      0 <= k < |order| && lane[k] == inA ==> IsNext(if inA then a else b, order[..k], order[k])
  {
    hide IsNext, Fair;
    forall k | 0 <= k < |order| && lane[k] == inA
      ensures IsNext(if inA then a else b, order[..k], order[k])
    {
      assert PickedFrom(a, b, order, lane, k);
    }
  }

  /** Bounded starvation, before division: rank `j` of a lane waits for at most so many picks. */
  lemma RankWait(a: seq<nat>, b: seq<nat>, share: real, order: seq<nat>, lane: seq<bool>, i: nat, j: nat, inA: bool)
    requires 0.0 < share < 1.0 && Merged(a, b, share, order, lane) && NoDup(order) && i < |order|
    requires j < |if inA then a else b| && order[i] == (if inA then a else b)[j]
    ensures inA ==> i as real * share <= j as real + 1.0 - share
    ensures !inA ==> i as real * (1.0 - share) <= j as real + share
  {
    hide Fair, PickedFrom, IsNext, PicksA;
    assert order[i] !in order[..i];
    FairIsProportional(lane, share, i);
    LanePicks(a, b, share, order, lane, inA);
    PicksBeforeRank(if inA then a else b, order, lane, i, j, inA);
    var n := i as real;
    assert n * (1.0 - share) == n - share * n;
  }

  /** Rank `j` of lane B is out by index `(j + s) / (1 - s)`, rank `j` of lane A by index
      `(j + 1 - s) / s`. */
  lemma RankBound(a: seq<nat>, b: seq<nat>, share: real, order: seq<nat>, lane: seq<bool>, i: nat, j: nat)
    requires 0.0 < share < 1.0 && Merged(a, b, share, order, lane) && NoDup(order) && i < |order|
    ensures j < |b| && order[i] == b[j] ==> i <= ((j as real + share) / (1.0 - share)).Floor
    ensures j < |a| && order[i] == a[j] ==> i <= ((j as real + 1.0 - share) / share).Floor
  {
    hide Merged;
    if j < |b| && order[i] == b[j] {
      RankWait(a, b, share, order, lane, i, j, false);
      FloorBound(i, j as real + share, 1.0 - share);
    }
    if j < |a| && order[i] == a[j] {
      RankWait(a, b, share, order, lane, i, j, true);
      FloorBound(i, j as real + 1.0 - share, share);
    }
  }

  lemma FloorBound(i: nat, x: real, y: real)
    requires y > 0.0 && i as real * y <= x
    ensures i <= (x / y).Floor
  {
    assert (x - i as real * y) / y >= 0.0;
    assert (x - i as real * y) / y == x / y - i as real;
  }

  // ----- sections survive the merge -----

  ghost predicate Ascending(sections: seq<int>, s: seq<nat>) {
    && (forall i :: 0 <= i < |s| ==> s[i] < |sections|)
    && forall i, j :: 0 <= i < j < |s| ==> sections[s[i]] <= sections[s[j]]
  }

  /** Two orders sorted by section merge into one sorted by section, at any share. */
  lemma MergeAscending(sections: seq<int>, a: seq<nat>, b: seq<nat>, share: real, order: seq<nat>, lane: seq<bool>)
    requires Ascending(sections, a) && Ascending(sections, b) && Merged(a, b, share, order, lane)
    requires Permutes(a, |order|) && Permutes(b, |order|) && Permutes(order, |order|)
    ensures Ascending(sections, order)
  {
    forall i | 0 <= i < |order|
      ensures order[i] < |sections|
    {
      assert order[i] in a;
    }
    forall i, j | 0 <= i < j < |order|
      ensures sections[order[i]] <= sections[order[j]]
    {
      var s := if lane[i] then a else b;
      assert PickedFrom(a, b, order, lane, i);
      assert order[j] in s;
      NextIsFirst(sections, s, order, i, j);
    }
  }

  lemma NextIsFirst(sections: seq<int>, s: seq<nat>, order: seq<nat>, i: nat, j: nat)
    requires Ascending(sections, s) && NoDup(order) && i < j < |order|
    requires IsNext(s, order[..i], order[i]) && order[j] in s
    ensures order[i] < |sections| && order[j] < |sections| && sections[order[i]] <= sections[order[j]]
  {
    var p :| 0 <= p < |s| && s[p] == order[i] && forall q :: 0 <= q < p ==> s[q] in order[..i];
    var r :| 0 <= r < |s| && s[r] == order[j];
    assert order[j] !in order[..i];
  }
}
