/**
 Grouping queue positions by a key in one pass, as a dictionary of lists does, and laying
 whole groups out one after another.  Positions without a key belong to no group.
 */
module Grouping {
  import opened Prelude
  import opened Sorting

  /** The positions with key `k`, in queue order. */
  function Members<K(==, !new)>(keys: seq<Option<K>>, k: K): (s: seq<nat>)
    ensures forall x {:trigger x in s} :: x in s <==> 0 <= x < |keys| && keys[x] == Some(k)
    ensures forall i :: 0 <= i < |s| ==> 0 <= s[i] < |keys|
  {
    if keys == [] then []
    else
      var n := |keys| - 1;
      Members(keys[..n], k) + if keys[n] == Some(k) then [n] else []
  }

  /** The keys in order of first appearance. */
  function FirstSeen<K(==, !new)>(keys: seq<Option<K>>): (ks: seq<K>)
    ensures forall k {:trigger k in ks} :: k in ks <==> Some(k) in keys
    ensures NoDup(ks)
  {
    if keys == [] then []
    else
      var n := |keys| - 1;
      var ks := FirstSeen(keys[..n]);
      assert keys == keys[..n] + [keys[n]];
      if keys[n].Some? && keys[n].value !in ks then ks + [keys[n].value] else ks
  }

  lemma {:induction false} MembersIncrease<K(!new)>(keys: seq<Option<K>>, k: K)
    ensures forall i, j :: 0 <= i < j < |Members(keys, k)| ==> Members(keys, k)[i] < Members(keys, k)[j]
  {
    if keys != [] {
      MembersIncrease(keys[..|keys| - 1], k);
    }
  }

  /** One pass over the queue. */
  method GroupBy<K(==, !new)>(keys: seq<Option<K>>) returns (groups: map<K, seq<nat>>, order: seq<K>)
    ensures order == FirstSeen(keys)
    ensures forall k {:trigger k in groups} :: k in groups <==> k in order
    ensures forall k {:trigger groups[k]} :: k in groups ==> groups[k] == Members(keys, k)
  {
    hide Members;
    groups, order := map[], [];
    var i := 0;
    while i < |keys|
      invariant i <= |keys| && order == FirstSeen(keys[..i])
      invariant forall k {:trigger k in groups} :: k in groups <==> k in order
      invariant TableFits(keys[..i], groups)
    {
      assert keys[..i + 1][..i] == keys[..i];
      TableStep(keys[..i + 1], groups);
      if keys[i].Some? {
        var k := keys[i].value;
        if k in groups {
          groups := groups[k := groups[k] + [i]];
        } else {
          groups, order := groups[k := [i]], order + [k];
        }
      }
      i := i + 1;
    }
    assert keys[..i] == keys;
  }

  ghost predicate TableFits<K(!new)>(keys: seq<Option<K>>, groups: map<K, seq<nat>>) {
    forall k {:trigger groups[k]} :: k in groups ==> groups[k] == Members(keys, k)
  }

  lemma TableStep<K(!new)>(keys: seq<Option<K>>, groups: map<K, seq<nat>>)
    requires keys != [] && TableFits(keys[..|keys| - 1], groups)
    ensures var n := |keys| - 1;
      match keys[n]
      case None => TableFits(keys, groups)
      case Some(k) =>
        if k in groups then TableFits(keys, groups[k := groups[k] + [n]])
        else Some(k) !in keys[..n] ==> TableFits(keys, groups[k := [n]])
  {
    var n := |keys| - 1;
    if keys[n].Some? && Some(keys[n].value) !in keys[..n] {
      NoMembers(keys[..n], keys[n].value);
    }
  }

  lemma NoMembers<K(!new)>(keys: seq<Option<K>>, k: K)
    requires Some(k) !in keys
    ensures Members(keys, k) == []
  {
    if Members(keys, k) != [] {
      assert Members(keys, k)[0] in Members(keys, k);
    }
  }

  lemma SeenHaveMembers<K(!new)>(keys: seq<Option<K>>)
    ensures forall g {:trigger FirstSeen(keys)[g]} ::
      0 <= g < |FirstSeen(keys)| ==> Members(keys, FirstSeen(keys)[g]) != []
  {
    forall g | 0 <= g < |FirstSeen(keys)|
      ensures Members(keys, FirstSeen(keys)[g]) != []
    {
      var k := FirstSeen(keys)[g];
      assert k in FirstSeen(keys);
      var x :| 0 <= x < |keys| && keys[x] == Some(k);
      assert x in Members(keys, k);
    }
  }

  /** A key seen earlier has the earlier first member. */
  lemma {:induction false} SeenEarlier<K(!new)>(keys: seq<Option<K>>, g: nat, h: nat)
    requires g < h < |FirstSeen(keys)|
    ensures var a, b := Members(keys, FirstSeen(keys)[g]), Members(keys, FirstSeen(keys)[h]);
      a != [] && b != [] && a[0] < b[0]
  {
    var n := |keys| - 1;
    var front := keys[..n];
    SeenHaveMembers(front);
    if h < |FirstSeen(front)| {
      SeenEarlier(front, g, h);
    } else {
      NoMembers(front, FirstSeen(keys)[h]);
      assert Members(front, FirstSeen(keys)[g])[0] < n;
    }
  }

  /** Where position `i` of the layout comes from: element `k` of group `g`. */
  ghost predicate Located(gs: seq<seq<nat>>, i: nat, g: nat, k: nat) {
    && g < |gs| && k < |gs[g]| && |Flatten(gs[..g])| + k == i < |Flatten(gs)| && Flatten(gs)[i] == gs[g][k]
  }

  lemma {:induction false} Locate(gs: seq<seq<nat>>, i: nat) returns (g: nat, k: nat)
    requires i < |Flatten(gs)|
    ensures Located(gs, i, g, k)
  {
    var n := |gs| - 1;
    if i < |Flatten(gs[..n])| {
      g, k := Locate(gs[..n], i);
      assert gs[..n][..g] == gs[..g];
    } else {
      g, k := n, i - |Flatten(gs[..n])|;
    }
  }

  lemma {:induction false} FlattenGrows(gs: seq<seq<nat>>, g: nat, h: nat)
    requires g < h <= |gs|
    ensures |Flatten(gs[..g])| + |gs[g]| <= |Flatten(gs[..h])|
    decreases h
  {
    assert gs[..h][..h - 1] == gs[..h - 1];
    if g < h - 1 {
      FlattenGrows(gs, g, h - 1);
    }
  }

  /** Later positions come from later groups, or from later in the same group. */
  lemma LocatedInOrder(gs: seq<seq<nat>>, i: nat, g: nat, k: nat, j: nat, h: nat, l: nat)
    requires Located(gs, i, g, k) && Located(gs, j, h, l) && i < j
    ensures g < h || (g == h && k < l)
  {
    if h < g {
      FlattenGrows(gs, h, g);
    }
  }

  ghost function Flatten(gs: seq<seq<nat>>): seq<nat> {
    if gs == [] then [] else Flatten(gs[..|gs| - 1]) + gs[|gs| - 1]
  }

  /** The groups in the given order, one after another. */
  method LayOut(gs: seq<seq<nat>>, order: seq<nat>) returns (queue: seq<nat>)
    requires forall i :: 0 <= i < |order| ==> order[i] < |gs|
    ensures queue == Flatten(Pick(gs, order))
  {
    queue := [];
    var i := 0;
    while i < |order|
      invariant i <= |order| && queue == Flatten(Pick(gs, order)[..i])
    {
      assert Pick(gs, order)[..i + 1][..i] == Pick(gs, order)[..i];
      queue := queue + gs[order[i]];
      i := i + 1;
    }
    assert Pick(gs, order)[..i] == Pick(gs, order);
  }

  function Pick<T>(s: seq<T>, order: seq<nat>): (r: seq<T>)
    requires forall i :: 0 <= i < |order| ==> order[i] < |s|
    ensures |r| == |order| && forall i :: 0 <= i < |r| ==> r[i] == s[order[i]]
  {
    seq(|order|, i requires 0 <= i < |order| => s[order[i]])
  }

  /** `gs` holds the positions of each key of `ks`, each group in any order. */
  ghost predicate Sorts<K(!new)>(keys: seq<Option<K>>, ks: seq<K>, gs: seq<seq<nat>>) {
    && |gs| == |ks| && NoDup(ks)
    && forall i {:trigger gs[i]} :: 0 <= i < |gs| ==> multiset(gs[i]) == multiset(Members(keys, ks[i]))
  }

  lemma SortsIn<K(!new)>(keys: seq<Option<K>>, ks: seq<K>, gs: seq<seq<nat>>, i: nat, x: nat)
    requires Sorts(keys, ks, gs) && i < |gs|
    ensures x in gs[i] <==> x < |keys| && keys[x] == Some(ks[i])
  {
    assert x in gs[i] <==> x in multiset(gs[i]);
    assert x in Members(keys, ks[i]) <==> x in multiset(Members(keys, ks[i]));
  }

  lemma HeadIn<T>(s: seq<T>)
    ensures s != [] ==> s[0] in s
  {
  }

  lemma SameBagNoDup(s: seq<nat>, t: seq<nat>)
    requires multiset(s) == multiset(t) && NoDup(t)
    ensures NoDup(s)
  {
    forall i, j | 0 <= i < j < |s|
      ensures s[i] != s[j]
    {
      if s[i] == s[j] {
        TwiceCounts(s, i, j);
        OnceCounts(t, s[i]);
      }
    }
  }

  lemma TwiceCounts(s: seq<nat>, i: nat, j: nat)
    requires i < j < |s| && s[i] == s[j]
    ensures multiset(s)[s[i]] >= 2
  {
    assert s == s[..j] + s[j..];
    assert s[..j][i] in multiset(s[..j]) && s[j..][0] in multiset(s[j..]);
  }

  lemma {:induction false} OnceCounts(t: seq<nat>, x: nat)
    requires NoDup(t)
    ensures multiset(t)[x] <= 1
  {
    if t != [] {
      var n := |t| - 1;
      assert t == t[..n] + [t[n]];
      OnceCounts(t[..n], x);
      if t[n] == x {
        assert x !in t[..n];
      }
    }
  }

  /** Whatever the order of the groups and within the groups, every keyed position appears
      exactly once. */
  lemma {:induction false} FlattenGroups<K(!new)>(keys: seq<Option<K>>, ks: seq<K>, gs: seq<seq<nat>>)
    requires Sorts(keys, ks, gs)
    ensures NoDup(Flatten(gs))
    ensures forall x {:trigger x in Flatten(gs)} ::
      x in Flatten(gs) <==> 0 <= x < |keys| && keys[x].Some? && keys[x].value in ks
    decreases |gs|
  {
    if gs != [] {
      var n := |gs| - 1;
      FlattenGroups(keys, ks[..n], gs[..n]);
      MembersIncrease(keys, ks[n]);
      SameBagNoDup(gs[n], Members(keys, ks[n]));
      forall x
        ensures x in Flatten(gs) <==> 0 <= x < |keys| && keys[x].Some? && keys[x].value in ks
        ensures !(x in Flatten(gs[..n]) && x in gs[n])
      {
        if 0 <= x {
          SortsIn(keys, ks, gs, n, x);
        }
        assert ks == ks[..n] + [ks[n]];
      }
      NoDupConcat(Flatten(gs[..n]), gs[n]);
    }
  }

  lemma NoDupConcat<T>(s: seq<T>, t: seq<T>)
    requires NoDup(s) && NoDup(t) && forall x :: !(x in s && x in t)
    ensures NoDup(s + t)
  {
    var r := s + t;
    forall i, j | 0 <= i < j < |r|
      ensures r[i] != r[j]
    {
      if i < |s| <= j {
        assert r[i] in s && r[j] in t;
      }
    }
  }

  /** Groups may be laid out in any order. */
  lemma PickSorts<K(!new)>(keys: seq<Option<K>>, ks: seq<K>, gs: seq<seq<nat>>, order: seq<nat>)
    requires Sorts(keys, ks, gs) && NoDup(order) && forall i :: 0 <= i < |order| ==> order[i] < |gs|
    ensures Sorts(keys, Pick(ks, order), Pick(gs, order))
  {
  }

  /** A listing without repetition of exactly the positions below `n` has length `n`. */
  lemma {:induction false} ListsAll(s: seq<nat>, n: nat)
    requires NoDup(s) && forall x: nat :: x in s <==> x < n
    ensures Permutes(s, n)
    decreases n
  {
    if n == 0 {
      HeadIn(s);
    } else {
      var last: nat := n - 1;
      assert last in s;
      var i :| 0 <= i < |s| && s[i] == last;
      var t := s[..i] + s[i + 1..];
      forall x: nat
        ensures x in t <==> x < n - 1
      {
        if x in s && x != n - 1 {
          var j :| 0 <= j < |s| && s[j] == x;
          assert t[if j < i then j else j - 1] == x;
        }
      }
      ListsAll(t, n - 1);
    }
    forall i | 0 <= i < |s|
      ensures s[i] < n
    {
      assert s[i] in s;
    }
  }

  lemma PickKeeps<T>(s: seq<T>, order: seq<nat>, k: T)
    requires Permutes(order, |s|) && k in s
    ensures k in Pick(s, order)
  {
    var g :| 0 <= g < |s| && s[g] == k;
    assert g in order;
    var i :| 0 <= i < |order| && order[i] == g;
    assert Pick(s, order)[i] == s[g];
  }

  /** Laying out all groups reorders the whole queue exactly when every position has a key. */
  lemma LayOutPermutes<K(!new)>(keys: seq<Option<K>>, gs: seq<seq<nat>>, order: seq<nat>)
    requires Sorts(keys, FirstSeen(keys), gs) && Permutes(order, |gs|)
    ensures NoDup(Flatten(Pick(gs, order)))
    ensures forall x: nat {:trigger x in Flatten(Pick(gs, order))} ::
      x in Flatten(Pick(gs, order)) <==> x < |keys| && keys[x].Some?
    ensures Permutes(Flatten(Pick(gs, order)), |keys|) <==> forall x :: 0 <= x < |keys| ==> keys[x].Some?
  {
    var ks := FirstSeen(keys);
    var q := Flatten(Pick(gs, order));
    hide Permutes, Flatten, Pick;
    PickSorts(keys, ks, gs, order);
    FlattenGroups(keys, Pick(ks, order), Pick(gs, order));
    forall x: nat
      ensures x in q <==> x < |keys| && keys[x].Some?
    {
      if x < |keys| && keys[x].Some? {
        assert keys[x].value in ks;
        PickKeeps(ks, order, keys[x].value);
      }
    }
    KeyedPermutes(keys, q);
  }

  lemma KeyedPermutes<K(!new)>(keys: seq<Option<K>>, q: seq<nat>)
    requires NoDup(q) && forall x: nat {:trigger x in q} :: x in q <==> x < |keys| && keys[x].Some?
    ensures Permutes(q, |keys|) <==> forall x :: 0 <= x < |keys| ==> keys[x].Some?
  {
    if forall x :: 0 <= x < |keys| ==> keys[x].Some? {
      ListsAll(q, |keys|);
    }
    if Permutes(q, |keys|) {
      forall x: nat | x < |keys|
        ensures keys[x].Some?
      {
        assert x in q;
      }
    }
  }
}
