/**
 Vocabulary shared by every component: tokens, request ids, the common prefix of
 two token sequences, and the number of pending sequences that share a prefix.
 */
module Prelude {

  type Token = nat
  type Rid = nat

  datatype Option<+T> = None | Some(value: T)

  function Min(a: int, b: int): int {
    if a < b then a else b
  }

  function Max(a: int, b: int): int {
    if a < b then b else a
  }

  function SaturatingSub(a: nat, b: nat): nat {
    if a < b then 0 else a - b
  }

  /** Conversion to an integer, toward zero. */
  function Truncate(x: real): int {
    if x >= 0.0 then x.Floor else -(-x).Floor
  }

  /** `p` is `x` without its fraction. */
  ghost predicate WholePart(p: int, x: real) {
    if x >= 0.0 then p as real <= x < p as real + 1.0 else p as real - 1.0 < x <= p as real
  }

  lemma TruncateIsWhole(x: real)
    ensures WholePart(Truncate(x), x)
  {
  }

  lemma WholeMonotone(p: int, x: real, q: int, y: real)
    requires WholePart(p, x) && WholePart(q, y) && x <= y
    ensures p <= q
  {
  }

  /** Number of leading tokens on which the two sequences agree. */
  function CommonPrefix(a: seq<Token>, b: seq<Token>): (k: nat)
    ensures k <= |a| && k <= |b|
    ensures a[..k] == b[..k]
    ensures k < |a| && k < |b| ==> a[k] != b[k]
  {
    if a == [] || b == [] || a[0] != b[0] then 0
    else
      var k := CommonPrefix(a[1..], b[1..]);
      assert a[..k + 1] == [a[0]] + a[1..][..k];
      assert b[..k + 1] == [b[0]] + b[1..][..k];
      k + 1
  }

  /** The first `k` tokens of `a` start `b` exactly when `k` is at most the common prefix. */
  lemma PrefixIffCommon(a: seq<Token>, b: seq<Token>, k: nat)
    requires k <= |a|
    ensures a[..k] <= b <==> k <= CommonPrefix(a, b)
  {
    var c := CommonPrefix(a, b);
    if k <= c {
      assert a[..k] == a[..c][..k] == b[..c][..k] == b[..k];
    } else {
      assert a[..k][c] == a[c];
    }
  }

  /** Extending by one token. */
  lemma PrefixStep(p: seq<Token>, q: seq<Token>, t: seq<Token>)
    requires p <= t && q <= t && |p| <= |q|
    ensures p <= q
  {
    assert p == t[..|p|] == t[..|q|][..|p|];
  }
}

/**
 The abstract pending state is a map from request id to token sequence.  The demand
 of a prefix is the number of pending sequences that start with it.
 */
module Demands {
  import opened Prelude

  type Pending = map<Rid, seq<Token>>

  ghost function Sharers(m: Pending, p: seq<Token>): set<Rid> {
    set r | r in m && p <= m[r]
  }

  ghost function Demand(m: Pending, p: seq<Token>): nat {
    |Sharers(m, p)|
  }

  ghost function EndingAt(m: Pending, p: seq<Token>): set<Rid> {
    set r | r in m && m[r] == p
  }

  lemma SubsetCard<T>(a: set<T>, b: set<T>)
    requires a <= b
    ensures |a| <= |b|
    ensures |a| == |b| ==> a == b
  {
    assert b == a + (b - a);
  }

  /** A longer prefix is never in higher demand. */
  lemma DemandAntitone(m: Pending, p: seq<Token>, q: seq<Token>)
    requires p <= q
    ensures Demand(m, q) <= Demand(m, p)
  {
    SubsetCard(Sharers(m, q), Sharers(m, p));
  }

  lemma DemandAdd(m: Pending, r: Rid, t: seq<Token>, p: seq<Token>)
    requires r !in m
    ensures Demand(m[r := t], p) == Demand(m, p) + if p <= t then 1 else 0
    ensures EndingAt(m[r := t], p) == EndingAt(m, p) + if p == t then {r} else {}
  {
    var m' := m[r := t];
    var s, s' := Sharers(m, p), Sharers(m', p);
    assert forall x :: x in s' <==> x in s || (x == r && p <= t);
    assert r !in s;
    if p <= t {
      assert s' == s + {r};
    } else {
      assert s' == s;
    }
    var e, e' := EndingAt(m, p), EndingAt(m', p);
    assert forall x :: x in e' <==> x in e || (x == r && p == t);
  }

  lemma DemandRemove(m: Pending, r: Rid, p: seq<Token>)
    requires r in m
    ensures Demand(m - {r}, p) == Demand(m, p) - if p <= m[r] then 1 else 0
    ensures EndingAt(m - {r}, p) == EndingAt(m, p) - {r}
  {
    var m' := m - {r};
    assert m'[r := m[r]] == m;
    DemandAdd(m', r, m[r], p);
  }

  lemma DemandWitness(m: Pending, p: seq<Token>, r: Rid)
    requires r in m && p <= m[r]
    ensures Demand(m, p) >= 1
  {
    assert r in Sharers(m, p);
  }

  lemma DemandZero(m: Pending, p: seq<Token>)
    requires forall r :: r in m ==> !(p <= m[r])
    ensures Demand(m, p) == 0
  {
    assert Sharers(m, p) == {};
  }

  /** If every sharer of `p` is a sharer of the longer `q`, both have the same demand. */
  lemma DemandSame(m: Pending, p: seq<Token>, q: seq<Token>)
    requires p <= q
    requires forall r :: r in m && p <= m[r] ==> q <= m[r]
    ensures Demand(m, p) == Demand(m, q)
  {
    assert Sharers(m, p) == Sharers(m, q);
  }
}
