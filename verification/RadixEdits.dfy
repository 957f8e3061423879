/**
 The five ways the two trees change their links, as functions on shapes, each with the
 proof that a valid shape stays valid.
 */
module RadixEdits {
  import opened Prelude
  import opened Radix

  /** A new leaf `x` at path `q` below `n`. */
  ghost function AddLeaf<N>(sh: Shape<N>, n: N, q: seq<Token>, x: N): Shape<N>
    requires n in sh && |sh[n].path| < |q|
  {
    sh[n := sh[n].(kids := sh[n].kids[q[|sh[n].path|] := x])][x := Link(q, n, map[])]
  }

  /** Split the edge into `c` after the first `k` tokens of its path; `c` keeps the upper
      half and the new node `x` takes the lower half with the children. */
  ghost function SplitLower<N>(sh: Shape<N>, c: N, k: nat, x: N): Shape<N>
    requires c in sh && k < |sh[c].path|
  {
    map n | n in sh.Keys + {x} ::
      if n == x then Link(sh[c].path, c, sh[c].kids)
      else if n == c then Link(sh[c].path[..k], sh[c].parent, map[sh[c].path[k] := x])
      else if sh[n].parent == c then sh[n].(parent := x)
      else sh[n]
  }

  /** The same split, but `c` keeps the lower half and the new node `x` is put above it. */
  ghost function SplitUpper<N>(sh: Shape<N>, c: N, k: nat, x: N): Shape<N>
    requires c in sh && k < |sh[c].path|
    requires sh[c].parent in sh && |Above(sh, c)| < |sh[c].path|
  {
    map n | n in sh.Keys + {x} ::
      if n == x then Link(sh[c].path[..k], sh[c].parent, map[sh[c].path[k] := c])
      else if n == c then sh[c].(parent := x)
      else if n == sh[c].parent then sh[n].(kids := sh[n].kids[sh[c].path[|Above(sh, c)|] := x])
      else sh[n]
  }

  /** Unlink the childless node `c`. */
  ghost function DropLeaf<N>(sh: Shape<N>, c: N): Shape<N>
    requires c in sh && sh[c].parent in sh && |Above(sh, c)| < |sh[c].path|
  {
    var q := sh[c].parent;
    map n | n in sh.Keys - {c} ::
      if n == q then sh[q].(kids := sh[q].kids - {sh[c].path[|sh[q].path|]}) else sh[n]
  }

  /** Merge the only child `c` of `n` into `n`. */
  ghost function Fuse<N>(sh: Shape<N>, n: N, c: N): Shape<N>
    requires n in sh && c in sh
  {
    map x | x in sh.Keys - {c} ::
      if x == n then Link(sh[c].path, sh[n].parent, sh[c].kids)
      else if sh[x].parent == c then sh[x].(parent := n)
      else sh[x]
  }

  ghost predicate SplitPoint<N>(sh: Shape<N>, root: N, c: N, k: nat) {
    && c in sh && c != root && sh[c].parent in sh
    && |Above(sh, c)| < k < |sh[c].path|
  }

  lemma AddLeafKid<N>(sh: Shape<N>, root: N, n: N, q: seq<Token>, x: N, m: N, t: Token)
    requires n in sh && x !in sh && root in sh
    requires sh[n].path <= q && |sh[n].path| < |q|
    requires m in sh && t in sh[m].kids && KidLink(sh, root, m, t, sh[m].kids[t])
    ensures KidLink(AddLeaf(sh, n, q, x), root, m, t, sh[m].kids[t])
  {
  }

  lemma AddLeafParent<N>(sh: Shape<N>, n: N, q: seq<Token>, x: N, d: N)
    requires n in sh && x !in sh
    requires sh[n].path <= q && |sh[n].path| < |q|
    requires q[|sh[n].path|] !in sh[n].kids
    requires d in sh && ParentLink(sh, d)
    ensures ParentLink(AddLeaf(sh, n, q, x), d)
  {
  }

  lemma AddLeafValid<N>(sh: Shape<N>, root: N, n: N, q: seq<Token>, x: N)
    requires Valid(sh, root) && n in sh && x !in sh
    requires sh[n].path <= q && |sh[n].path| < |q|
    requires q[|sh[n].path|] !in sh[n].kids
    ensures Valid(AddLeaf(sh, n, q, x), root)
  {
    var s := AddLeaf(sh, n, q, x);
    forall m, t | m in s && t in s[m].kids
      ensures KidLink(s, root, m, t, s[m].kids[t])
    {
      if m in sh && t in sh[m].kids {
        AddLeafKid(sh, root, n, q, x, m, t);
      }
    }
    forall c | c in s && c != root
      ensures ParentLink(s, c)
    {
      if c in sh {
        AddLeafParent(sh, n, q, x, c);
      }
    }
  }

  lemma SplitLowerKid<N>(sh: Shape<N>, root: N, c: N, k: nat, x: N, m: N, t: Token)
    requires SplitPoint(sh, root, c, k) && x !in sh && root in sh
    requires sh[c].path[..k] <= sh[c].path
    requires m in sh && t in sh[m].kids && KidLink(sh, root, m, t, sh[m].kids[t])
    ensures m == c ==> KidLink(SplitLower(sh, c, k, x), root, x, t, sh[m].kids[t])
    ensures m != c ==> KidLink(SplitLower(sh, c, k, x), root, m, t, sh[m].kids[t])
  {
  }

  lemma SplitLowerParent<N>(sh: Shape<N>, root: N, c: N, k: nat, x: N, d: N)
    requires SplitPoint(sh, root, c, k) && x !in sh && sh[c].parent != c
    requires d in sh && ParentLink(sh, d)
    ensures ParentLink(SplitLower(sh, c, k, x), d)
  {
  }

  lemma SplitLowerValid<N>(sh: Shape<N>, root: N, c: N, k: nat, x: N)
    requires Valid(sh, root) && SplitPoint(sh, root, c, k) && x !in sh
    ensures Valid(SplitLower(sh, c, k, x), root)
  {
    var s := SplitLower(sh, c, k, x);
    assert ParentLink(sh, c);
    forall m, t | m in s && t in s[m].kids
      ensures KidLink(s, root, m, t, s[m].kids[t])
    {
      if m == x {
        SplitLowerKid(sh, root, c, k, x, c, t);
      } else if m != c {
        SplitLowerKid(sh, root, c, k, x, m, t);
      }
    }
    forall d | d in s && d != root
      ensures ParentLink(s, d)
    {
      if d in sh {
        SplitLowerParent(sh, root, c, k, x, d);
      }
    }
  }

  lemma SplitUpperKid<N>(sh: Shape<N>, root: N, c: N, k: nat, x: N, m: N, t: Token)
    requires SplitPoint(sh, root, c, k) && x !in sh && root in sh && ParentLink(sh, c)
    requires m in SplitUpper(sh, c, k, x) && t in SplitUpper(sh, c, k, x)[m].kids
    requires m in sh && t in sh[m].kids ==> KidLink(sh, root, m, t, sh[m].kids[t])
    ensures KidLink(SplitUpper(sh, c, k, x), root, m, t, SplitUpper(sh, c, k, x)[m].kids[t])
  {
  }

  lemma SplitUpperParent<N>(sh: Shape<N>, root: N, c: N, k: nat, x: N, d: N)
    requires SplitPoint(sh, root, c, k) && x !in sh && ParentLink(sh, c)
    requires d in sh ==> ParentLink(sh, d)
    requires d in sh || d == x
    ensures ParentLink(SplitUpper(sh, c, k, x), d)
  {
  }

  lemma SplitUpperValid<N>(sh: Shape<N>, root: N, c: N, k: nat, x: N)
    requires Valid(sh, root) && SplitPoint(sh, root, c, k) && x !in sh
    requires ParentLink(sh, c)
    ensures Valid(SplitUpper(sh, c, k, x), root)
  {
    var s := SplitUpper(sh, c, k, x);
    forall m, t | m in s && t in s[m].kids
      ensures KidLink(s, root, m, t, s[m].kids[t])
    {
      assert m in sh && t in sh[m].kids ==> KidLink(sh, root, m, t, sh[m].kids[t]);
      SplitUpperKid(sh, root, c, k, x, m, t);
    }
    forall d | d in s && d != root
      ensures ParentLink(s, d)
    {
      assert d in sh ==> ParentLink(sh, d);
      SplitUpperParent(sh, root, c, k, x, d);
    }
  }

  lemma DropLeafKid<N>(sh: Shape<N>, root: N, c: N, m: N, t: Token)
    requires c in sh && c != root && root in sh && ParentLink(sh, c)
    requires m in sh && m != c && t in sh[m].kids && KidLink(sh, root, m, t, sh[m].kids[t])
    requires sh[m].kids[t] != c
    ensures KidLink(DropLeaf(sh, c), root, m, t, sh[m].kids[t])
  {
  }

  lemma DropLeafParent<N>(sh: Shape<N>, c: N, d: N)
    requires c in sh && sh[c].kids == map[] && ParentLink(sh, c)
    requires d in sh && d != c && ParentLink(sh, d)
    ensures ParentLink(DropLeaf(sh, c), d)
  {
  }

  lemma DropLeafValid<N>(sh: Shape<N>, root: N, c: N)
    requires Valid(sh, root) && c in sh && c != root && sh[c].kids == map[]
    requires ParentLink(sh, c)
    ensures Valid(DropLeaf(sh, c), root)
  {
    var s := DropLeaf(sh, c);
    forall m, t | m in s && t in s[m].kids
      ensures KidLink(s, root, m, t, s[m].kids[t])
    {
      assert KidLink(sh, root, m, t, sh[m].kids[t]);
      DropLeafKid(sh, root, c, m, t);
    }
    forall d | d in s && d != root
      ensures ParentLink(s, d)
    {
      DropLeafParent(sh, c, d);
    }
  }

  lemma FuseKid<N>(sh: Shape<N>, root: N, n: N, t: Token, c: N, m: N, u: Token)
    requires n in sh && n != root && sh[n].kids == map[t := c] && root in sh
    requires KidLink(sh, root, n, t, c) && sh[n].path <= sh[c].path
    requires m in sh && m != n && u in sh[m].kids && KidLink(sh, root, m, u, sh[m].kids[u])
    ensures KidLink(Fuse(sh, n, c), root, if m == c then n else m, u, sh[m].kids[u])
  {
  }

  lemma FuseParent<N>(sh: Shape<N>, root: N, n: N, t: Token, c: N, d: N)
    requires n in sh && n != root && sh[n].kids == map[t := c]
    requires c in sh && KidLink(sh, root, n, t, c) && ParentLink(sh, c) && ParentLink(sh, n)
    requires d in sh && d != c && ParentLink(sh, d)
    ensures ParentLink(Fuse(sh, n, c), d)
  {
  }

  lemma FuseValid<N>(sh: Shape<N>, root: N, n: N, t: Token, c: N)
    requires Valid(sh, root) && n in sh && n != root && sh[n].kids == map[t := c]
    ensures c in sh && Valid(Fuse(sh, n, c), root)
  {
    assert KidLink(sh, root, n, t, sh[n].kids[t]);
    var s := Fuse(sh, n, c);
    assert ParentLink(sh, n) && ParentLink(sh, c);
    forall m, u | m in s && u in s[m].kids
      ensures KidLink(s, root, m, u, s[m].kids[u])
    {
      var o := if m == n then c else m;
      assert KidLink(sh, root, o, u, sh[o].kids[u]);
      FuseKid(sh, root, n, t, c, o, u);
    }
    forall d | d in s && d != root
      ensures ParentLink(s, d)
    {
      FuseParent(sh, root, n, t, c, d);
    }
  }
}
