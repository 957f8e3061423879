/**
 The link structure common to the pending tree and to the KV cache: every node has a
 root path, a parent and a child table keyed by the first token of the child's edge.
 `N` is whatever names a node (an arena slot, a node object).
 */
module Radix {
  import opened Prelude

  datatype Link<N> = Link(path: seq<Token>, parent: N, kids: map<Token, N>)
  type Shape<N> = map<N, Link<N>>

  /** Every entry of a child table points at a node whose parent pointer points back. */
  ghost predicate KidsAgree<N>(sh: Shape<N>, root: N) {
    forall n, t {:trigger KidLink(sh, root, n, t, sh[n].kids[t])} ::
      n in sh && t in sh[n].kids ==> KidLink(sh, root, n, t, sh[n].kids[t])
  }

  ghost predicate KidLink<N>(sh: Shape<N>, root: N, n: N, t: Token, c: N)
    requires n in sh
  {
    && c in sh && c != root && sh[c].parent == n
    && |sh[n].path| < |sh[c].path|
    && sh[c].path[|sh[n].path|] == t
  }

  /** Every node but the root extends its parent's path and sits in its child table. */
  ghost predicate ParentLink<N>(sh: Shape<N>, c: N)
    requires c in sh
  {
    var q := sh[c].parent;
    && q in sh
    && sh[q].path <= sh[c].path
    && |sh[q].path| < |sh[c].path|
    && sh[c].path[|sh[q].path|] in sh[q].kids
    && sh[q].kids[sh[c].path[|sh[q].path|]] == c
  }

  ghost predicate ParentsAgree<N>(sh: Shape<N>, root: N) {
    forall c {:trigger ParentLink(sh, c)} :: c in sh && c != root ==> ParentLink(sh, c)
  }

  ghost predicate Valid<N>(sh: Shape<N>, root: N) {
    && root in sh && sh[root].path == [] && sh[root].parent == root
    && KidsAgree(sh, root)
    && ParentsAgree(sh, root)
  }

  /** The path to the parent of `c`; the tokens after it are the edge into `c`. */
  ghost function Above<N>(sh: Shape<N>, c: N): seq<Token>
    requires c in sh && sh[c].parent in sh
  {
    sh[sh[c].parent].path
  }

  /** `p` is a non-empty sequence that ends on the edge into `c` (its lower end included). */
  ghost predicate OnEdge<N>(sh: Shape<N>, root: N, c: N, p: seq<Token>) {
    && c in sh && c != root && sh[c].parent in sh
    && |sh[sh[c].parent].path| < |p|
    && p <= sh[c].path
  }

  /** A node whose path enters the edge into `c` lies below `c`. */
  lemma {:induction false} Covers<N>(sh: Shape<N>, root: N, c: N, h: N)
    requires Valid(sh, root)
    requires c in sh && c != root && h in sh
    requires ParentLink(sh, c)
    requires sh[c].path[..|Above(sh, c)| + 1] <= sh[h].path
    ensures sh[c].path <= sh[h].path
    decreases |sh[c].path| + |sh[h].path|
  {
    var pc := sh[c].parent;
    var pp := sh[pc].path;
    assert h != root;
    assert ParentLink(sh, h);
    var q := sh[h].parent;
    var first := sh[c].path[..|pp| + 1];
    assert pp <= first;
    if |sh[q].path| > |pp| {
      PrefixStep(first, sh[q].path, sh[h].path);
      Covers(sh, root, c, q);
    } else if |sh[q].path| == |pp| {
      PrefixStep(sh[q].path, pp, sh[h].path);
      SamePath(sh, root, q, pc);
      assert sh[h].path[|pp|] == first[|pp|] == sh[c].path[|pp|];
    } else {
      var step := sh[h].path[..|sh[q].path| + 1];
      PrefixStep(step, pp, sh[h].path);
      assert ParentLink(sh, pc) by { assert pc != root; }
      Covers(sh, root, h, pc);
      assert false;
    }
  }

  /** A path names at most one node. */
  lemma {:induction false} SamePath<N>(sh: Shape<N>, root: N, a: N, b: N)
    requires Valid(sh, root)
    requires a in sh && b in sh
    requires sh[a].path == sh[b].path
    ensures a == b
    decreases |sh[a].path| + |sh[b].path|
  {
    if a != root {
      assert ParentLink(sh, a);
    }
    if b != root {
      assert ParentLink(sh, b);
    }
    if a != root && b != root {
      var pa, pb := sh[a].parent, sh[b].parent;
      if |sh[pa].path| == |sh[pb].path| {
        PrefixStep(sh[pa].path, sh[pb].path, sh[a].path);
        SamePath(sh, root, pa, pb);
      } else if |sh[pa].path| < |sh[pb].path| {
        PrefixStep(sh[a].path[..|sh[pa].path| + 1], sh[pb].path, sh[a].path);
        Covers(sh, root, a, pb);
        assert false;
      } else {
        PrefixStep(sh[b].path[..|sh[pb].path| + 1], sh[pa].path, sh[a].path);
        Covers(sh, root, b, pa);
        assert false;
      }
    }
  }

  /** Everything that shares a point of the edge into `c` lies below `c`. */
  lemma OnEdgeBelow<N>(sh: Shape<N>, root: N, c: N, p: seq<Token>, h: N)
    requires Valid(sh, root)
    requires OnEdge(sh, root, c, p)
    requires h in sh && p <= sh[h].path
    ensures sh[c].path <= sh[h].path
  {
    assert ParentLink(sh, c);
    var first := sh[c].path[..|Above(sh, c)| + 1];
    PrefixStep(first, p, sh[c].path);
    assert first <= sh[h].path;
    Covers(sh, root, c, h);
  }

  /** Edges are disjoint. */
  lemma OnEdgeUnique<N>(sh: Shape<N>, root: N, c: N, d: N, p: seq<Token>)
    requires Valid(sh, root)
    requires OnEdge(sh, root, c, p) && OnEdge(sh, root, d, p)
    ensures c == d
  {
    OnEdgeBelow(sh, root, c, p, d);
    OnEdgeBelow(sh, root, d, p, c);
    SamePath(sh, root, c, d);
  }

  /** Every non-empty prefix of a path ends on exactly one edge above it. */
  lemma {:induction false} FindEdge<N>(sh: Shape<N>, root: N, h: N, p: seq<Token>) returns (c: N)
    requires Valid(sh, root)
    requires h in sh && p != [] && p <= sh[h].path
    ensures OnEdge(sh, root, c, p)
    ensures sh[c].path <= sh[h].path
    decreases |sh[h].path|
  {
    assert h != root;
    assert ParentLink(sh, h);
    var q := sh[h].parent;
    if |p| <= |sh[q].path| {
      PrefixStep(p, sh[q].path, sh[h].path);
      c := FindEdge(sh, root, q, p);
    } else {
      c := h;
    }
  }

  /** A proper descendant lies below exactly one child. */
  lemma KidToward<N>(sh: Shape<N>, root: N, n: N, h: N)
    requires Valid(sh, root)
    requires n in sh && h in sh && n != h
    requires sh[n].path <= sh[h].path
    ensures |sh[n].path| < |sh[h].path|
    ensures sh[h].path[|sh[n].path|] in sh[n].kids
    ensures var c := sh[n].kids[sh[h].path[|sh[n].path|]];
      c in sh && c != root && sh[c].parent == n && sh[n].path <= sh[c].path <= sh[h].path
  {
    var d := |sh[n].path|;
    if d == |sh[h].path| {
      SamePath(sh, root, n, h);
      assert false;
    }
    var p := sh[h].path[..d + 1];
    var c := FindEdge(sh, root, h, p);
    assert ParentLink(sh, c);
    if |Above(sh, c)| < d {
      PrefixStep(sh[c].path[..|Above(sh, c)| + 1], sh[n].path, sh[h].path);
      Covers(sh, root, c, n);
      assert false;
    }
    PrefixStep(Above(sh, c), sh[n].path, sh[h].path);
    SamePath(sh, root, n, sh[c].parent);
    assert sh[c].path[d] == p[d] == sh[h].path[d];
  }

  /** A child's path extends its parent's. */
  lemma KidExtends<N>(sh: Shape<N>, root: N, n: N, t: Token)
    requires Valid(sh, root)
    requires n in sh && t in sh[n].kids
    ensures KidLink(sh, root, n, t, sh[n].kids[t])
    ensures sh[n].path <= sh[sh[n].kids[t]].path
    ensures ParentLink(sh, sh[n].kids[t])
  {
    assert KidLink(sh, root, n, t, sh[n].kids[t]);
    assert ParentLink(sh, sh[n].kids[t]);
  }

  /** Different children have incomparable paths. */
  lemma KidsApart<N>(sh: Shape<N>, root: N, n: N, s: Token, t: Token)
    requires Valid(sh, root)
    requires n in sh && s in sh[n].kids && t in sh[n].kids && s != t
    ensures sh[n].kids[s] in sh && sh[n].kids[t] in sh
    ensures !(sh[sh[n].kids[s]].path <= sh[sh[n].kids[t]].path)
  {
    KidExtends(sh, root, n, s);
    KidExtends(sh, root, n, t);
    var d := |sh[n].path|;
    var a, b := sh[sh[n].kids[s]].path, sh[sh[n].kids[t]].path;
    assert a[d] == s && b[d] == t;
  }

  /** The sequence `p` continued by a token that no child starts with leaves the tree. */
  lemma LeavesAtNode<N>(sh: Shape<N>, root: N, n: N, p: seq<Token>, h: N)
    requires Valid(sh, root)
    requires n in sh && h in sh
    requires sh[n].path <= p && |sh[n].path| < |p|
    requires p[|sh[n].path|] !in sh[n].kids
    ensures !(p <= sh[h].path)
  {
    if p <= sh[h].path {
      assert sh[h].path[|sh[n].path|] == p[|sh[n].path|];
      KidToward(sh, root, n, h);
    }
  }

  /** The sequence `p` that enters the edge into `c` and then differs from it leaves the tree. */
  lemma LeavesOnEdge<N>(sh: Shape<N>, root: N, c: N, k: nat, p: seq<Token>, h: N)
    requires Valid(sh, root)
    requires k < |p| && OnEdge(sh, root, c, p[..k])
    requires k < |sh[c].path| && p[k] != sh[c].path[k]
    requires h in sh
    ensures !(p <= sh[h].path)
  {
    if p[..k] <= sh[h].path {
      OnEdgeBelow(sh, root, c, p[..k], h);
      assert sh[h].path[k] == sh[c].path[k];
    }
  }

  /** The nodes at or below `n`. */
  ghost function Below<N>(sh: Shape<N>, n: N): set<N>
    requires n in sh
  {
    set x | x in sh && sh[n].path <= sh[x].path
  }

  /** Nodes strictly deeper than `n`: the measure of every downward induction. */
  ghost function Deeper<N>(sh: Shape<N>, n: N): set<N>
    requires n in sh
  {
    set x | x in sh && |sh[n].path| < |sh[x].path|
  }

  lemma DeeperShrinks<N>(sh: Shape<N>, n: N, c: N)
    requires n in sh && c in sh && |sh[n].path| < |sh[c].path|
    ensures Deeper(sh, c) < Deeper(sh, n)
  {
    assert c in Deeper(sh, n) && c !in Deeper(sh, c);
  }
}
