/**
 When the nodes of the KV cache were last accessed: what one match or insert changes, and the order
 it keeps along every root path, on which eviction of the least recently used rests.
 */
module CacheTimes {
  import opened Prelude
  import opened Radix
  import opened CacheStore
  import opened CacheWalk

  // ----- which nodes a match passes -----

  /** The way along `way` enters the key of `n`: it has at least its first token. */
  ghost predicate OnWay<N>(c: Cache<N>, way: seq<Token>, n: N) {
    && n in c.path && n in c.st && n != c.root && c.st[n].parent.Some? && c.st[n].parent.value in c.path
    && |c.path[c.st[n].parent.value]| < |c.path[n]|
    && c.path[n][..|c.path[c.st[n].parent.value]| + 1] <= way
  }

  /** Where the way enters the key of `n`. */
  lemma OnWayEdge<N>(c: Cache<N>, way: seq<Token>, n: N) returns (p: seq<Token>)
    requires Inv(c) && OnWay(c, way, n)
    ensures p <= way && OnEdge(Sh(c), c.root, n, p) && p <= c.path[n] && |p| == |c.path[c.st[n].parent.value]| + 1
  {
    p := c.path[n][..|c.path[c.st[n].parent.value]| + 1];
  }

  lemma OnWayFar<N>(c: Cache<N>, way: seq<Token>, more: seq<Token>, n: N)
    requires way <= more
    ensures OnWay(c, way, n) ==> OnWay(c, more, n)
    ensures OnWay(c, more, n) && |c.path[c.st[n].parent.value]| < |way| ==> OnWay(c, way, n)
  {
    if OnWay(c, more, n) && |c.path[c.st[n].parent.value]| < |way| {
      var p := c.path[n][..|c.path[c.st[n].parent.value]| + 1];
      PrefixStep(p, way, more);
    }
  }

  /** Going down passes one node more, however far into its key. */
  lemma OnWayStep<N>(c: Cache<N>, node: N, key: seq<Token>, at: nat, kid: N, k: nat, n: N)
    requires Inv(c) && node in c.path && node in c.st
    requires at < |key| && c.path[node] == key[..at] && key[at] in c.st[node].kids
    requires kid == c.st[node].kids[key[at]] && kid in c.st
    requires 0 < k <= CommonPrefix(c.st[kid].key, key[at..]) && at + k <= |key|
    ensures OnWay(c, key[..at + k], n) <==> OnWay(c, key[..at], n) || n == kid
  {
    hide Inv;
    KeyStep(c, node, key, at);
    var most := CommonPrefix(c.st[kid].key, key[at..]);
    assert key[..at] <= key[..at + k] <= key[..at + most] && key[..at + most] <= c.path[kid];
    OnWayFar(c, key[..at], key[..at + k], n);
    if OnWay(c, key[..at + k], n) && !OnWay(c, key[..at], n) {
      var p := OnWayEdge(c, key[..at + k], n);
      InvValid(c);
      assert OnEdge(Sh(c), c.root, kid, p);
      OnEdgeUnique(Sh(c), c.root, n, kid, p);
    }
    if n == kid {
      assert c.path[kid][..at + 1] == key[..at + 1] <= key[..at + k];
    }
  }

  lemma InvValid<N>(c: Cache<N>)
    requires Inv(c)
    ensures c.path.Keys <= c.st.Keys && Valid(Sh(c), c.root)
  {
  }

  /** Past a node that no child continues the way passes nothing. */
  lemma OnWayEnds<N>(c: Cache<N>, node: N, key: seq<Token>, at: nat, n: N)
    requires Inv(c) && node in c.path && node in c.st && at <= |key| && c.path[node] == key[..at]
    requires at < |key| ==> key[at] !in c.st[node].kids
    ensures OnWay(c, key, n) <==> OnWay(c, key[..at], n)
  {
    hide Inv;
    OnWayFar(c, key[..at], key, n);
    if OnWay(c, key, n) && !OnWay(c, key[..at], n) {
      var p := OnWayEdge(c, key, n);
      InvValid(c);
      LeavesAtNode(Sh(c), c.root, node, p, n);
    }
  }

  /** Past a mismatch inside a key the way passes nothing. */
  lemma OnWayEndsInside<N>(c: Cache<N>, kid: N, key: seq<Token>, at: nat, n: N)
    requires Inv(c) && kid in c.path && at <= |key| && OnEdge(Sh(c), c.root, kid, key[..at])
    requires at < |key| ==> at < |c.path[kid]| && c.path[kid][at] != key[at]
    ensures OnWay(c, key, n) <==> OnWay(c, key[..at], n)
  {
    hide Inv;
    OnWayFar(c, key[..at], key, n);
    if OnWay(c, key, n) && !OnWay(c, key[..at], n) {
      var p := OnWayEdge(c, key, n);
      InvValid(c);
      assert p[..at] == key[..at];
      LeavesOnEdge(Sh(c), c.root, kid, at, p, n);
    }
  }

  // ----- access times -----

  /** Of the nodes there were, exactly those the way passes were accessed `now`, and the root where
      it counts; the others keep their times. */
  ghost predicate Touched<N>(c: Cache<N>, way: seq<Token>, rootToo: bool, before: map<N, int>, after: map<N, int>,
                             now: int)
  {
    && before.Keys <= after.Keys
    && forall n {:trigger after[n]} :: n in before ==>
      after[n] == if (rootToo && n == c.root) || OnWay(c, way, n) then now else before[n]
  }

  /** Whatever nodes are new were made `now`. */
  ghost predicate MadeNow<N>(before: map<N, int>, after: map<N, int>, now: int) {
    forall n {:trigger after[n]} :: n in after && n !in before ==> after[n] == now
  }

  /** The nodes there were keep their times. */
  ghost predicate TimesKept<N>(before: map<N, int>, after: map<N, int>) {
    before.Keys <= after.Keys && forall n {:trigger after[n]} :: n in before ==> after[n] == before[n]
  }

  lemma NothingMade<N>(before: map<N, int>, after: map<N, int>, now: int)
    requires after.Keys <= before.Keys
    ensures MadeNow(before, after, now) && (after == before ==> TimesKept(before, after))
  {
  }

  lemma TouchedRoot<N>(c: Cache<N>, rootToo: bool, before: map<N, int>, after: map<N, int>, now: int)
    requires c.root in before && after == if rootToo then before[c.root := now] else before
    ensures Touched(c, [], rootToo, before, after, now)
  {
  }

  lemma TouchedStep<N>(c: Cache<N>, node: N, key: seq<Token>, at: nat, kid: N, k: nat, rootToo: bool,
                       before: map<N, int>, after: map<N, int>, now: int)
    requires Inv(c) && node in c.path && node in c.st
    requires at < |key| && c.path[node] == key[..at] && key[at] in c.st[node].kids
    requires kid == c.st[node].kids[key[at]] && kid in c.st && k == CommonPrefix(c.st[kid].key, key[at..])
    requires Touched(c, key[..at], rootToo, before, after, now) && kid in before
    ensures k > 0 && at + k <= |key| && Touched(c, key[..at + k], rootToo, before, after[kid := now], now)
    ensures k < |c.st[kid].key| ==> Touched(c, key, rootToo, before, after[kid := now], now)
  {
    hide Inv, OnWay;
    KeyStep(c, node, key, at);
    forall n | n in before
      ensures OnWay(c, key[..at + k], n) <==> OnWay(c, key[..at], n) || n == kid
      ensures k < |c.st[kid].key| ==> (OnWay(c, key, n) <==> OnWay(c, key[..at + k], n))
    {
      OnWayStep(c, node, key, at, kid, k, n);
      if k < |c.st[kid].key| {
        OnWayEndsInside(c, kid, key, at + k, n);
      }
    }
  }

  lemma TouchedEnds<N>(c: Cache<N>, node: N, key: seq<Token>, at: nat, rootToo: bool, before: map<N, int>,
                       after: map<N, int>, now: int)
    requires Inv(c) && node in c.path && node in c.st && at <= |key| && c.path[node] == key[..at]
    requires at < |key| ==> key[at] !in c.st[node].kids
    requires Touched(c, key[..at], rootToo, before, after, now)
    ensures Touched(c, key, rootToo, before, after, now)
  {
    hide Inv, OnWay;
    forall n | n in before
      ensures OnWay(c, key, n) <==> OnWay(c, key[..at], n)
    {
      OnWayEnds(c, node, key, at, n);
    }
  }

  /** The root accessed first, and then whatever a match accesses. */
  lemma TouchedBoth<N>(c: Cache<N>, way: seq<Token>, rootToo: bool, before: map<N, int>, after: map<N, int>, now: int)
    requires c.root in before && Touched(c, way, rootToo, before[c.root := now], after, now)
    ensures Touched(c, way, true, before, after, now)
  {
  }

  /** One node more, made now. */
  lemma TouchedMore<N>(c: Cache<N>, way: seq<Token>, rootToo: bool, before: map<N, int>, after: map<N, int>, x: N,
                       now: int)
    requires x !in before && MadeNow(before, after, now)
    ensures MadeNow(before, after[x := now], now)
    ensures TimesKept(before, after) ==> TimesKept(before, after[x := now])
    ensures Touched(c, way, rootToo, before, after, now) ==> Touched(c, way, rootToo, before, after[x := now], now)
  {
  }

  // ----- the order along root paths -----

  /** No node was accessed later than one above it, the root aside. */
  ghost predicate Falling<N>(path: map<N, seq<Token>>, times: map<N, int>) {
    && path.Keys <= times.Keys
    && forall m, n {:trigger path[m], path[n]} ::
      m in path && n in path && path[m] != [] && path[m] <= path[n] ==> times[n] <= times[m]
  }

  ghost predicate NoneLater<N>(times: map<N, int>, now: int) {
    forall n {:trigger times[n]} :: n in times ==> times[n] <= now
  }

  /** The nodes there were keep their paths, and the others, made since, end the way or its first `k`
      tokens. */
  ghost predicate GrownAlong<N>(known: set<N>, path: map<N, seq<Token>>, path': map<N, seq<Token>>, way: seq<Token>,
                                k: nat)
  {
    && k <= |way|
    && (forall n {:trigger path'[n]} {:trigger path[n]} :: n in path ==> n in path' && path'[n] == path[n])
    && forall n {:trigger path'[n]} ::
      n in path' && n !in path ==> n !in known && (path'[n] == way || path'[n] == way[..k])
  }

  ghost predicate HasNode<N>(path: map<N, seq<Token>>, p: seq<Token>) {
    exists n {:trigger path[n]} :: n in path && path[n] == p
  }

  /** Nothing but one node was made, if any. */
  ghost predicate OneMade<N>(known: set<N>, path: map<N, seq<Token>>, path': map<N, seq<Token>>, x: N,
                             at: seq<Token>)
  {
    path' == path || (x !in known && path' == path[x := at])
  }

  lemma OneMadeGrows<N>(known: set<N>, path: map<N, seq<Token>>, path': map<N, seq<Token>>, x: N, k: nat,
                        way: seq<Token>)
    requires k <= |way| && OneMade(known, path, path', x, way[..k]) && path.Keys <= known
    ensures GrownAlong(known, path, path', way, k)
  {
  }

  lemma GrowsOnce<N>(known: set<N>, path: map<N, seq<Token>>, path': map<N, seq<Token>>, x: N, way: seq<Token>,
                     k: nat)
    requires GrownAlong(known, path, path', way, k) && x !in known && x !in path' && path.Keys <= known
    ensures GrownAlong(known, path, path'[x := way], way, k) && HasNode(path'[x := way], way)
    ensures HasNode(path', way[..k]) ==> HasNode(path'[x := way], way[..k])
  {
    var more := path'[x := way];
    assert more[x] == way;
    if n :| n in path' && path'[n] == way[..k] {
      assert more[n] == way[..k];
    }
  }

  lemma NodeAtEnd<N>(path: map<N, seq<Token>>, n: N, way: seq<Token>, k: nat)
    requires n in path && k <= |way| && path[n] == way[..k]
    ensures HasNode(path, way[..k]) && (k == |way| ==> HasNode(path, way))
  {
    assert way[..|way|] == way;
  }

  /** A node whose whole path the way follows is passed. */
  lemma WholeOnWay<N>(c: Cache<N>, way: seq<Token>, m: N)
    requires Inv(c) && m in c.path && c.path[m] != [] && c.path[m] <= way
    ensures OnWay(c, way, m)
  {
    hide Referenced, Mapped, Sized, Leaved, Locked;
    Fits(c, m);
  }

  /** Whatever lies above a passed node is passed. */
  lemma OnWayAbove<N>(c: Cache<N>, way: seq<Token>, m: N, n: N)
    requires Inv(c) && OnWay(c, way, n) && m in c.path && c.path[m] != [] && c.path[m] <= c.path[n]
    ensures OnWay(c, way, m)
  {
    hide Inv;
    if m != n {
      var p := OnWayEdge(c, way, n);
      InvValid(c);
      KidToward(Sh(c), c.root, m, n);
      AboveParent(c, m, n);
      PrefixStep(c.path[m], p, c.path[n]);
      WholeOnWay(c, way, m);
    }
  }

  /** A proper ancestor is at most as deep as the parent. */
  lemma AboveParent<N>(c: Cache<N>, m: N, n: N)
    requires Inv(c) && m in c.path && n in c.path && c.path[m] <= c.path[n] && |c.path[m]| < |c.path[n]|
    ensures c.st[n].parent.Some? && c.st[n].parent.value in c.path
    ensures |c.path[m]| <= |c.path[c.st[n].parent.value]|
  {
    hide Referenced, Mapped, Sized, Leaved, Locked;
    Fits(c, n);
    var sh, q := Sh(c), c.st[n].parent.value;
    if |sh[q].path| < |sh[m].path| {
      OnEdgeBelow(sh, c.root, n, c.path[m], m);
      assert false;
    }
  }

  /** A match that updates the times, and an insert, keep the order along root paths. */
  lemma FallingKept<N>(c: Cache<N>, path': map<N, seq<Token>>, way: seq<Token>, k: nat, rootToo: bool,
                       before: map<N, int>, after: map<N, int>, now: int)
    requires Inv(c) && GrownAlong(before.Keys, c.path, path', way, k)
    requires path'.Keys <= after.Keys && before.Keys == c.st.Keys
    requires Touched(c, way, rootToo, before, after, now) && MadeNow(before, after, now)
    requires Falling(c.path, before) && NoneLater(before, now)
    ensures Falling(path', after) && NoneLater(after, now)
  {
    hide Inv, OnWay;
    forall m, n | m in path' && n in path' && path'[m] != [] && path'[m] <= path'[n]
      ensures after[n] <= after[m]
    {
      assert after[n] <= now;
      if m in c.path && m in before {
        NotRoot(c, m);
        if n !in c.path {
          WholeOnWay(c, way, m);
        } else {
          NotRoot(c, n);
          if OnWay(c, way, n) {
            OnWayAbove(c, way, m, n);
          }
        }
      }
    }
  }

  lemma NotRoot<N>(c: Cache<N>, m: N)
    requires Inv(c) && m in c.path
    ensures m in c.st && (m == c.root <==> c.path[m] == [])
  {
    if m != c.root {
      Fits(c, m);
    }
  }

  /** A match that only reads keeps the order exactly if it makes no node, or made it below nodes all
      accessed at this very time: the upper half of a split counts as accessed now. */
  lemma ReadOnlyKeeps<N>(path: map<N, seq<Token>>, before: map<N, int>, after: map<N, int>, x: N, at: seq<Token>,
                         now: int)
    requires Falling(path, before) && NoneLater(before, now) && x !in before
    requires TimesKept(before, after) && x in after && after[x] == now && at != []
    ensures Falling(path[x := at], after) <==>
      forall m {:trigger path[m]} :: m in path && path[m] != [] && path[m] <= at ==> before[m] == now
  {
    var path' := path[x := at];
    if Falling(path', after) {
      forall m | m in path && path[m] != [] && path[m] <= at
        ensures before[m] == now
      {
        assert path'[m] == path[m] && path'[x] == at;
      }
    }
  }

  /** With nodes gone the order along the remaining paths stays. */
  lemma FallingOnPart<N>(path: map<N, seq<Token>>, path': map<N, seq<Token>>, times: map<N, int>)
    requires Falling(path, times) && forall n {:trigger path'[n]} :: n in path' ==> n in path && path'[n] == path[n]
    ensures Falling(path', times)
  {
  }
}
