/**
 Explicit-stack traversals.  The nodes a stack still has to visit are the nodes at or
 below its entries; popping an entry and pushing its children visits exactly that entry.
 */
module Frontier {
  import opened Prelude
  import opened Radix

  ghost predicate Apart<N>(sh: Shape<N>, a: N, b: N) {
    && a in sh && b in sh
    && !(sh[a].path <= sh[b].path) && !(sh[b].path <= sh[a].path)
  }

  /** Entries of the stack are nodes with disjoint subtrees. */
  ghost predicate Antichain<N>(sh: Shape<N>, stack: seq<N>) {
    && (forall i {:trigger stack[i]} :: 0 <= i < |stack| ==> stack[i] in sh)
    && forall i, j {:trigger Apart(sh, stack[i], stack[j])} :: 0 <= i < j < |stack| ==> Apart(sh, stack[i], stack[j])
  }

  ghost predicate Under<N>(sh: Shape<N>, stack: seq<N>, x: N)
    requires x in sh
  {
    exists i :: 0 <= i < |stack| && stack[i] in sh && sh[stack[i]].path <= sh[x].path
  }

  /** The nodes the stack still has to visit. */
  ghost function Waiting<N>(sh: Shape<N>, stack: seq<N>): set<N> {
    set x | x in sh && Under(sh, stack, x)
  }

  ghost predicate IsKid<N>(kids: map<Token, N>, c: N) {
    exists t :: t in kids && kids[t] == c
  }

  /** `s` lists the children of a node, each once, in some order. */
  ghost predicate Lists<N>(s: seq<N>, kids: map<Token, N>) {
    && (forall i {:trigger s[i]} :: 0 <= i < |s| ==> IsKid(kids, s[i]))
    && (forall t {:trigger kids[t]} :: t in kids ==> kids[t] in s)
    && forall i, j :: 0 <= i < j < |s| ==> s[i] != s[j]
  }

  ghost predicate KidsDiffer<N>(kids: map<Token, N>) {
    forall t, u {:trigger kids[t], kids[u]} :: t in kids && u in kids && t != u ==> kids[t] != kids[u]
  }

  /** The children of a node, each once, in some order. */
  method ListKids<N(==)>(children: map<Token, N>) returns (kids: seq<N>)
    requires KidsDiffer(children)
    ensures Lists(kids, children)
  {
    var todo := children.Keys;
    kids := [];
    while todo != {}
      invariant todo <= children.Keys
      invariant forall i {:trigger kids[i]} :: 0 <= i < |kids| ==> IsKid(children - todo, kids[i])
      invariant forall t {:trigger children[t]} :: t in children && t !in todo ==> children[t] in kids
      invariant forall i, j :: 0 <= i < j < |kids| ==> kids[i] != kids[j]
      decreases todo
    {
      var t :| t in todo;
      ghost var was, before := kids, todo;
      kids := kids + [children[t]];
      todo := todo - {t};
      assert kids[|was|] == children[t] && t in children - todo;
      forall c | IsKid(children - before, c)
        ensures IsKid(children - todo, c)
      {
        var u :| u in children - before && children[u] == c;
        assert u in children - todo;
      }
      assert forall c :: c in was ==> c in kids;
    }
  }

  lemma KidsAntichain<N>(sh: Shape<N>, root: N, n: N, s: seq<N>)
    requires Valid(sh, root) && n in sh && Lists(s, sh[n].kids)
    ensures Antichain(sh, s)
    ensures Waiting(sh, s) == Below(sh, n) - {n}
  {
    forall i | 0 <= i < |s|
      ensures s[i] in sh && sh[s[i]].parent == n && sh[n].path <= sh[s[i]].path
    {
      assert IsKid(sh[n].kids, s[i]);
      var t :| t in sh[n].kids && sh[n].kids[t] == s[i];
      KidExtends(sh, root, n, t);
    }
    forall i, j | 0 <= i < j < |s|
      ensures Apart(sh, s[i], s[j])
    {
      assert IsKid(sh[n].kids, s[i]);
      var t :| t in sh[n].kids && sh[n].kids[t] == s[i];
      assert IsKid(sh[n].kids, s[j]);
      var u :| u in sh[n].kids && sh[n].kids[u] == s[j];
      KidsApart(sh, root, n, t, u);
      KidsApart(sh, root, n, u, t);
    }
    forall x | x in sh
      ensures Under(sh, s, x) <==> x in Below(sh, n) && x != n
    {
      if x in Below(sh, n) && x != n {
        KidToward(sh, root, n, x);
        var c := sh[n].kids[sh[x].path[|sh[n].path|]];
        assert c in s;
        var i :| 0 <= i < |s| && s[i] == c;
      }
      if Under(sh, s, x) {
        var i :| 0 <= i < |s| && s[i] in sh && sh[s[i]].path <= sh[x].path;
        assert IsKid(sh[n].kids, s[i]);
        var t :| t in sh[n].kids && sh[n].kids[t] == s[i];
        KidExtends(sh, root, n, t);
      }
    }
  }

  lemma ApartBelow<N>(sh: Shape<N>, a: N, n: N, c: N)
    requires Apart(sh, a, n) && c in sh && sh[n].path <= sh[c].path
    ensures Apart(sh, a, c)
  {
    var pa, pn, pc := sh[a].path, sh[n].path, sh[c].path;
    if pa <= pc {
      if |pa| <= |pn| {
        PrefixStep(pa, pn, pc);
      } else {
        PrefixStep(pn, pa, pc);
      }
    }
  }

  /** One step of a depth-first walk: the popped node is done, its children take its place. */
  lemma PopPush<N>(sh: Shape<N>, root: N, stack: seq<N>, s: seq<N>)
    requires Valid(sh, root) && stack != [] && Antichain(sh, stack)
    requires stack[|stack| - 1] in sh && Lists(s, sh[stack[|stack| - 1]].kids)
    ensures var n, rest := stack[|stack| - 1], stack[..|stack| - 1];
      && Antichain(sh, rest + s)
      && n in Waiting(sh, stack)
      && Waiting(sh, rest + s) == Waiting(sh, stack) - {n}
  {
    var k := |stack| - 1;
    var n, rest := stack[k], stack[..k];
    KidsAntichain(sh, root, n, s);
    var next := rest + s;
    forall i, j | 0 <= i < j < |next|
      ensures Apart(sh, next[i], next[j])
    {
      if j < k {
        assert Apart(sh, stack[i], stack[j]);
      } else if i < k {
        assert Apart(sh, stack[i], stack[k]);
        assert s[j - k] in Waiting(sh, s) by { assert sh[s[j - k]].path <= sh[s[j - k]].path; }
        ApartBelow(sh, stack[i], n, s[j - k]);
      } else {
        assert Apart(sh, s[i - k], s[j - k]);
      }
    }
    WaitingConcat(sh, rest, s);
    WaitingConcat(sh, rest, [n]);
    assert stack == rest + [n];
    WaitingOne(sh, n);
    forall i | 0 <= i < k
      ensures !(sh[rest[i]].path <= sh[n].path)
    {
      assert Apart(sh, stack[i], stack[k]);
    }
    assert n !in Waiting(sh, rest);
  }

  lemma WaitingOne<N>(sh: Shape<N>, n: N)
    requires n in sh
    ensures Waiting(sh, [n]) == Below(sh, n)
  {
    forall x | x in sh
      ensures Under(sh, [n], x) <==> sh[n].path <= sh[x].path
    {
      if sh[n].path <= sh[x].path {
        assert [n][0] == n;
      }
    }
  }

  lemma WaitingConcat<N>(sh: Shape<N>, a: seq<N>, b: seq<N>)
    ensures Waiting(sh, a + b) == Waiting(sh, a) + Waiting(sh, b)
  {
    forall x | x in sh
      ensures Under(sh, a + b, x) <==> Under(sh, a, x) || Under(sh, b, x)
    {
      if Under(sh, a, x) {
        var i :| 0 <= i < |a| && a[i] in sh && sh[a[i]].path <= sh[x].path;
        assert (a + b)[i] == a[i];
      }
      if Under(sh, b, x) {
        var i :| 0 <= i < |b| && b[i] in sh && sh[b[i]].path <= sh[x].path;
        assert (a + b)[|a| + i] == b[i];
      }
    }
  }

  lemma WaitingEmpty<N>(sh: Shape<N>)
    ensures Waiting<N>(sh, []) == {}
  {
  }
}
