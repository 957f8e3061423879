/**
 In-batch deduplication: which waiting requests are siblings of an earlier one, and the order
 stock LPM scheduling gives the queue once they are known.
 */
module InBatch {
  import opened Prelude
  import opened Sorting

  /** A waiting request as the dedup sees it: its prompt, and how much of it is cached. */
  datatype Entry = Entry(prompt: seq<Token>, hit: int)

  /** Cold and long enough to claim its first `k` tokens. */
  ghost predicate Claims(e: Entry, check: int, k: nat) {
    e.hit <= check && k <= |e.prompt|
  }

  ghost predicate Earlier(q: seq<Entry>, check: int, k: nat, i: nat, j: nat)
    requires i < |q| && j < |q|
  {
    j < i && Claims(q[j], check, k) && k <= |q[i].prompt| && q[j].prompt[..k] == q[i].prompt[..k]
  }

  /** A cold request whose first `k` tokens an earlier cold request has as well. */
  ghost predicate Sibling(q: seq<Entry>, check: int, k: nat, i: nat)
    requires i < |q|
  {
    Claims(q[i], check, k) && exists j {:trigger Earlier(q, check, k, i, j)} ::
      0 <= j < |q| && Earlier(q, check, k, i, j)
  }

  /** The siblings of a queue; a threshold of zero makes none. */
  ghost function SiblingFlags(q: seq<Entry>, check: int, k: nat): (flags: seq<bool>)
    ensures |flags| == |q|
    ensures forall i {:trigger flags[i]} :: 0 <= i < |q| ==> (flags[i] <==> k > 0 && Sibling(q, check, k, i))
  {
    seq(|q|, i requires 0 <= i < |q| => k > 0 && Sibling(q, check, k, i))
  }

  /** The first request with a sibling's first tokens is not a sibling itself, and is the only such
      request: the pioneer. */
  lemma {:induction false} PioneerOf(q: seq<Entry>, check: int, k: nat, i: nat) returns (p: nat)
    requires i < |q| && Sibling(q, check, k, i)
    ensures p < i && Earlier(q, check, k, i, p) && !Sibling(q, check, k, p)
    ensures forall r: nat {:trigger Earlier(q, check, k, i, r)} :: r < |q| && Earlier(q, check, k, i, r) ==>
      p <= r && (r == p || Sibling(q, check, k, r))
  {
    var j: nat :| j < |q| && Earlier(q, check, k, i, j);
    p := j;
    if Sibling(q, check, k, j) {
      p := PioneerOf(q, check, k, j);
    }
    assert Earlier(q, check, k, i, p);
    forall r: nat | r < |q| && Earlier(q, check, k, i, r)
      ensures p <= r && (r == p || Sibling(q, check, k, r))
    {
      assert Earlier(q, check, k, j, r) <==> r < j;
      assert Earlier(q, check, k, r, p) <==> p < r;
    }
  }

  /** The claimed prefixes after the first `n` requests. */
  ghost predicate Claimed(q: seq<Entry>, check: int, k: nat, n: nat, p: seq<Token>) {
    exists j {:trigger q[j]} :: 0 <= j < n && j < |q| && Claims(q[j], check, k) && q[j].prompt[..k] == p
  }

  lemma SiblingIffClaimed(q: seq<Entry>, check: int, k: nat, i: nat)
    requires i < |q| && Claims(q[i], check, k)
    ensures Sibling(q, check, k, i) <==> Claimed(q, check, k, i, q[i].prompt[..k])
  {
    if Sibling(q, check, k, i) {
      var j :| 0 <= j < |q| && Earlier(q, check, k, i, j);
      assert q[j].prompt[..k] == q[i].prompt[..k];
    }
    if Claimed(q, check, k, i, q[i].prompt[..k]) {
      var j :| 0 <= j < i && Claims(q[j], check, k) && q[j].prompt[..k] == q[i].prompt[..k];
      assert Earlier(q, check, k, i, j);
    }
  }

  lemma ClaimStep(q: seq<Entry>, check: int, k: nat, n: nat, p: seq<Token>)
    requires n < |q|
    ensures Claimed(q, check, k, n + 1, p) <==>
      Claimed(q, check, k, n, p) || (Claims(q[n], check, k) && q[n].prompt[..k] == p)
  {
    if Claimed(q, check, k, n + 1, p) {
      var j :| 0 <= j < n + 1 && Claims(q[j], check, k) && q[j].prompt[..k] == p;
      assert j < n || j == n;
    }
  }

  /** The token-tuple claims: siblings exactly, unless a negative threshold turns the check off. */
  method TupleClaims(q: seq<Entry>, check: int, dedup: int) returns (siblings: seq<bool>)
    ensures |siblings| == |q|
    ensures forall i {:trigger siblings[i]} :: 0 <= i < |q| ==>
      (siblings[i] <==> check >= 0 && dedup >= 0 && Sibling(q, check, dedup, i))
  {
    siblings := [];
    if check < 0 || dedup < 0 {
      siblings := seq(|q|, _ => false);
      return;
    }
    var seenPrefixes: set<seq<Token>> := {};
    while |siblings| < |q|
      invariant |siblings| <= |q|
      invariant forall p {:trigger p in seenPrefixes} :: p in seenPrefixes <==> Claimed(q, check, dedup, |siblings|, p)
      invariant forall i {:trigger siblings[i]} ::
        0 <= i < |siblings| ==> (siblings[i] <==> Sibling(q, check, dedup, i))
    {
      var i := |siblings|;
      forall p
        ensures Claimed(q, check, dedup, i + 1, p) <==>
          Claimed(q, check, dedup, i, p) || (Claims(q[i], check, dedup) && q[i].prompt[..dedup] == p)
      {
        ClaimStep(q, check, dedup, i, p);
      }
      if q[i].hit <= check && dedup <= |q[i].prompt| {
        SiblingIffClaimed(q, check, dedup, i);
        var prefixKey := q[i].prompt[..dedup];
        siblings := siblings + [prefixKey in seenPrefixes];
        seenPrefixes := seenPrefixes + {prefixKey};
      } else {
        siblings := siblings + [false];
      }
    }
  }

  // ----- the final order -----

  /** The sort key of `_sort_by_longest_prefix`: the negated hit, or infinity for a sibling. */
  function LpmKey(hit: int, sibling: bool): Key {
    if sibling then [1.0, 0.0] else [0.0, -(hit as real)]
  }

  function LpmKeys(hits: seq<int>, siblings: seq<bool>): (keys: seq<Key>)
    requires |hits| == |siblings|
    ensures |keys| == |hits| && forall i :: 0 <= i < |hits| ==> keys[i] == LpmKey(hits[i], siblings[i])
  {
    seq(|hits|, i requires 0 <= i < |hits| => LpmKey(hits[i], siblings[i]))
  }

  datatype Comparison = Less | Equal | Greater

  /** The comparator of `lpm_sort_order`. */
  function Compare(hitA: int, siblingA: bool, hitB: int, siblingB: bool): Comparison {
    match (siblingA, siblingB)
    case (false, true) => Less
    case (true, false) => Greater
    case (true, true) => Equal
    case (false, false) => if hitB < hitA then Less else if hitB == hitA then Equal else Greater
  }

  lemma CompareIsKeyOrder(hitA: int, siblingA: bool, hitB: int, siblingB: bool)
    ensures Compare(hitA, siblingA, hitB, siblingB) == Less <==> LexLess(LpmKey(hitA, siblingA), LpmKey(hitB, siblingB))
    ensures Compare(hitA, siblingA, hitB, siblingB) == Greater <==>
      LexLess(LpmKey(hitB, siblingB), LpmKey(hitA, siblingA))
  {
    var a, b := LpmKey(hitA, siblingA), LpmKey(hitB, siblingB);
    LexPair(a[0], a[1], b[0], b[1]);
    LexPair(b[0], b[1], a[0], a[1]);
    assert a == [a[0], a[1]] && b == [b[0], b[1]];
  }

  /** What is not greater stays in front. */
  lemma PassOver(keys: seq<Key>, s: seq<nat>, x: nat, p: nat)
    requires x < |keys| && (forall i :: 0 <= i < |s| ==> s[i] < |keys|) && p < |s|
    requires !LexLess(keys[x], keys[s[p]])
    ensures s[..p] + InsertSorted(keys, s[p..], x) == s[..p + 1] + InsertSorted(keys, s[p + 1..], x)
  {
    assert s[p..][1..] == s[p + 1..];
    assert InsertSorted(keys, s[p..], x) == [s[p]] + InsertSorted(keys, s[p + 1..], x);
    assert s[..p + 1] == s[..p] + [s[p]];
  }

  lemma StopHere(keys: seq<Key>, s: seq<nat>, x: nat)
    requires x < |keys| && (forall i :: 0 <= i < |s| ==> s[i] < |keys|)
    requires s != [] ==> LexLess(keys[x], keys[s[0]])
    ensures InsertSorted(keys, s, x) == [x] + s
  {
  }

  lemma {:induction false} SortListStep(keys: seq<Key>, s: seq<nat>, x: nat)
    requires x < |keys| && forall i :: 0 <= i < |s| ==> s[i] < |keys|
    ensures SortList(keys, s + [x]) == InsertSorted(keys, SortList(keys, s), x)
  {
    assert (s + [x])[..|s|] == s;
  }

  lemma SortListNone(keys: seq<Key>)
    ensures SortList(keys, []) == []
  {
  }

  /** Sorting by the comparator gives the order of the Python key, ties in arrival order. */
  method LpmSortOrder(hits: seq<int>, siblings: seq<bool>) returns (idx: seq<nat>)
    requires |hits| == |siblings|
    ensures idx == StableSort(LpmKeys(hits, siblings))
  {
    hide LexLess, SortList, InsertSorted, LpmKey, Compare;
    ghost var keys := LpmKeys(hits, siblings);
    SortListNone(keys);
    idx := [];
    var i := 0;
    while i < |hits|
      invariant i <= |hits| && (forall j :: 0 <= j < |idx| ==> idx[j] < |hits|)
      invariant idx == SortList(keys, Positions(|hits|)[..i])
    {
      var p := 0;
      while p < |idx| && Compare(hits[i], siblings[i], hits[idx[p]], siblings[idx[p]]) != Less
        invariant p <= |idx| && idx[..p] + InsertSorted(keys, idx[p..], i) == InsertSorted(keys, idx, i)
      {
        CompareIsKeyOrder(hits[i], siblings[i], hits[idx[p]], siblings[idx[p]]);
        PassOver(keys, idx, i, p);
        p := p + 1;
      }
      if p < |idx| {
        CompareIsKeyOrder(hits[i], siblings[i], hits[idx[p]], siblings[idx[p]]);
      }
      StopHere(keys, idx[p..], i);
      assert idx[..p] + ([i] + idx[p..]) == idx[..p] + [i] + idx[p..];
      SortListStep(keys, Positions(|hits|)[..i], i);
      assert Positions(|hits|)[..i] + [i] == Positions(|hits|)[..i + 1];
      idx := idx[..p] + [i] + idx[p..];
      i := i + 1;
    }
    assert Positions(|hits|)[..i] == Positions(|hits|);
  }
}
