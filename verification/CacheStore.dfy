/**
 The KV radix cache of radix_cache.py as a value: the records of every node ever created,
 the root path of the live ones, the lock holders, the sizes, the evictable leaves, and the
 map from cached prefixes to KV indices that all of it stands for.
 */
module CacheStore {
  import opened Prelude
  import opened Demands
  import opened Radix
  import opened Sums

  datatype Rec<N> = Rec(
    parent: Option<N>, kids: map<Token, N>, key: seq<Token>, value: seq<int>,
    lock: nat, refs: nat, depth: nat)

  datatype Cache<N> = Cache(
    st: map<N, Rec<N>>, root: N, path: map<N, seq<Token>>, holders: map<Rid, N>,
    content: map<seq<Token>, int>, evictable: int, shielded: int, leaves: set<N>)

  ghost function Sh<N>(c: Cache<N>): Shape<N>
    requires c.path.Keys <= c.st.Keys
  {
    map n | n in c.path :: Link(c.path[n], if c.st[n].parent.Some? then c.st[n].parent.value else c.root, c.st[n].kids)
  }

  // ----- the invariant -----

  /** The key is the last segment of the path, the values are parallel to it and the cached
      depth is the path length. */
  ghost predicate NodeFits<N>(c: Cache<N>, n: N) {
    && n in c.path && n in c.st && c.st[n].parent.Some? && c.st[n].parent.value in c.path
    && c.path[n] == c.path[c.st[n].parent.value] + c.st[n].key
    && |c.st[n].value| == |c.st[n].key|
    && c.st[n].depth == |c.path[n]|
  }

  ghost predicate RootFits<N>(c: Cache<N>) {
    && c.root in c.st && c.root in c.path && c.path[c.root] == []
    && c.st[c.root].parent == None && c.st[c.root].key == [] && c.st[c.root].value == []
    && c.st[c.root].lock == 1 && c.st[c.root].refs == 0 && c.st[c.root].depth == 0
  }

  ghost predicate Built<N>(c: Cache<N>) {
    && c.path.Keys <= c.st.Keys
    && RootFits(c)
    && Valid(Sh(c), c.root)
    && forall n {:trigger NodeFits(c, n)} :: n in c.path && n != c.root ==> NodeFits(c, n)
  }

  /** Parent pointers of all nodes, deleted ones included, lead up to the root. */
  ghost predicate Climbs<N>(c: Cache<N>, n: N)
    requires n in c.st
  {
    n != c.root ==>
      && c.st[n].parent.Some? && c.st[n].parent.value in c.st
      && c.st[c.st[n].parent.value].depth < c.st[n].depth
  }

  ghost predicate Chained<N>(c: Cache<N>) {
    c.root in c.st && forall n {:trigger Climbs(c, n)} :: n in c.st ==> Climbs(c, n)
  }

  ghost function HeldPaths<N>(c: Cache<N>): Pending {
    map h | h in c.holders && c.holders[h] in c.path :: c.path[c.holders[h]]
  }

  /** Every holder holds a live node. */
  ghost predicate HoldersLive<N>(c: Cache<N>) {
    forall h {:trigger c.holders[h]} :: h in c.holders ==> c.holders[h] in c.path
  }

  /** The lock count is the number of holders at or below, give or take `delta` on the part of
      the root path of `tokens` deeper than `d` (the part a lock walk has already visited). */
  ghost predicate LockFits<N>(c: Cache<N>, tokens: seq<Token>, d: nat, delta: int, n: N)
    requires n in c.path && n in c.st
  {
    c.st[n].lock == Demand(HeldPaths(c), c.path[n]) + if c.path[n] <= tokens && d < |c.path[n]| then delta else 0
  }

  ghost predicate LocksUpTo<N>(c: Cache<N>, tokens: seq<Token>, d: nat, delta: int)
    requires c.path.Keys <= c.st.Keys
  {
    && HoldersLive(c)
    && forall n {:trigger LockFits(c, tokens, d, delta, n)} ::
      n in c.path && n != c.root ==> LockFits(c, tokens, d, delta, n)
  }

  ghost predicate Locked<N>(c: Cache<N>)
    requires c.path.Keys <= c.st.Keys
  {
    LocksUpTo(c, [], 0, 0)
  }

  ghost function Weights<N>(c: Cache<N>): map<N, nat> {
    map n | n in c.st :: |c.st[n].key|
  }

  ghost function Unlocked<N>(c: Cache<N>): set<N>
    requires c.path.Keys <= c.st.Keys
  {
    set n | n in c.path && n != c.root && c.st[n].lock == 0
  }

  ghost function Shielded<N>(c: Cache<N>): set<N>
    requires c.path.Keys <= c.st.Keys
  {
    set n | n in c.path && n != c.root && c.st[n].lock > 0
  }

  ghost predicate Sized<N>(c: Cache<N>)
    requires c.path.Keys <= c.st.Keys
  {
    && c.evictable == Sum(Weights(c), Unlocked(c))
    && c.shielded == Sum(Weights(c), Shielded(c))
  }

  ghost predicate Leaved<N>(c: Cache<N>)
    requires c.path.Keys <= c.st.Keys
  {
    c.leaves == set n | n in Unlocked(c) && c.st[n].kids == map[]
  }

  /** Queue references never grow downward. */
  ghost predicate RefFits<N>(c: Cache<N>, n: N)
    requires n in c.st && c.st[n].parent.Some? && c.st[n].parent.value in c.st
  {
    c.st[n].parent.value == c.root || c.st[n].refs <= c.st[c.st[n].parent.value].refs
  }

  ghost predicate Referenced<N>(c: Cache<N>)
    requires c.path.Keys <= c.st.Keys
  {
    forall n {:trigger NodeFits(c, n)} :: n in c.path && n != c.root && NodeFits(c, n) ==> RefFits(c, n)
  }

  /** The index cached for the last token of `p`, which ends on the edge into `n`. */
  ghost function IndexAt<N>(c: Cache<N>, n: N, p: seq<Token>): int
    requires n in c.st && n in c.path && 0 < |p| <= |c.path[n]| && |c.path[n]| < |p| + |c.st[n].value|
  {
    c.st[n].value[|p| + |c.st[n].value| - |c.path[n]| - 1]
  }

  ghost predicate Maps<N>(c: Cache<N>, n: N, p: seq<Token>)
    requires n in c.path && n in c.st
  {
    && p in c.content
    && 0 < |p| <= |c.path[n]| < |p| + |c.st[n].value|
    && c.content[p] == IndexAt(c, n, p)
  }

  ghost predicate Covered<N>(c: Cache<N>, p: seq<Token>)
    requires c.path.Keys <= c.st.Keys
  {
    exists n :: n in c.path && OnEdge(Sh(c), c.root, n, p)
  }

  ghost predicate Mapped<N>(c: Cache<N>)
    requires c.path.Keys <= c.st.Keys
  {
    && (forall n, p {:trigger OnEdge(Sh(c), c.root, n, p)} ::
      n in c.path && OnEdge(Sh(c), c.root, n, p) ==> Maps(c, n, p))
    && forall p {:trigger Covered(c, p)} :: p in c.content ==> Covered(c, p)
  }

  ghost predicate Inv<N>(c: Cache<N>) {
    Built(c) && Chained(c) && Locked(c) && Sized(c) && Leaved(c) && Referenced(c) && Mapped(c)
  }

  // ----- basic facts -----

  lemma Fits<N>(c: Cache<N>, n: N)
    requires Built(c) && n in c.path && n != c.root
    ensures NodeFits(c, n) && |c.st[n].key| > 0
    ensures ParentLink(Sh(c), n) && Above(Sh(c), n) == c.path[c.st[n].parent.value]
  {
    assert NodeFits(c, n);
    assert ParentLink(Sh(c), n);
  }

  lemma KidFits<N>(c: Cache<N>, n: N, t: Token)
    requires Built(c) && n in c.path && t in c.st[n].kids
    ensures var k := c.st[n].kids[t];
      && k in c.path && k != c.root && NodeFits(c, k) && c.st[k].parent == Some(n)
      && |c.st[k].key| > 0 && c.st[k].key[0] == t
  {
    var sh := Sh(c);
    assert KidLink(sh, c.root, n, t, sh[n].kids[t]);
    Fits(c, c.st[n].kids[t]);
  }

  lemma InParent<N>(c: Cache<N>, n: N)
    requires Built(c) && n in c.path && n != c.root
    ensures NodeFits(c, n) && |c.st[n].key| > 0
    ensures c.st[n].key[0] in c.st[c.st[n].parent.value].kids
    ensures c.st[c.st[n].parent.value].kids[c.st[n].key[0]] == n
  {
    Fits(c, n);
  }

  /** Lock counts never grow downward, so the nodes below an unlocked one are unlocked. */
  lemma LockMonotone<N>(c: Cache<N>, n: N, m: N)
    requires c.path.Keys <= c.st.Keys && Locked(c)
    requires n in c.path && n != c.root && m in c.path && m != c.root && c.path[n] <= c.path[m]
    ensures c.st[m].lock <= c.st[n].lock
  {
    assert LockFits(c, [], 0, 0, n) && LockFits(c, [], 0, 0, m);
    DemandAntitone(HeldPaths(c), c.path[n], c.path[m]);
  }

  /** Below every unlocked node there is an evictable leaf, and its references are no more. */
  lemma {:induction false} LeafBelow<N>(c: Cache<N>, n: N) returns (leaf: N)
    requires Built(c) && Locked(c) && Leaved(c) && Referenced(c) && n in Unlocked(c)
    ensures leaf in c.leaves && c.st[leaf].refs <= c.st[n].refs && c.path[n] <= c.path[leaf]
    decreases Deeper(Sh(c), n)
  {
    if c.st[n].kids == map[] {
      leaf := n;
    } else {
      var t :| t in c.st[n].kids;
      KidFits(c, n, t);
      var k := c.st[n].kids[t];
      LockMonotone(c, n, k);
      assert RefFits(c, k);
      DeeperShrinks(Sh(c), n, k);
      leaf := LeafBelow(c, k);
      assert c.path[n] <= c.path[k];
    }
  }

  /** Without evictable leaves nothing is evictable. */
  lemma NoLeavesNothingEvictable<N>(c: Cache<N>)
    requires Built(c) && Locked(c) && Leaved(c) && Referenced(c) && Sized(c) && c.leaves == {}
    ensures Unlocked(c) == {} && c.evictable == 0
  {
    if n :| n in Unlocked(c) {
      var leaf := LeafBelow(c, n);
      assert false;
    }
  }
}
