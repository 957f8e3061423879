/**
 How much the prompts of a trie share: the fraction of prompts with a neighbour at least so many
 tokens deep, the largest such group, and how deep the groups reach on average.
 */
module TrieScores {
  import opened Prelude
  import opened Demands
  import opened Radix
  import opened Frontier
  import opened Sums
  import opened Tries
  import TrieOrder
  import TrieWalks

  // ----- what the score means -----

  /** Some other prompt has the first `m` tokens in common with prompt `x`. */
  ghost predicate HasNeighbour(held: Pending, m: nat, x: nat)
    requires x in held
  {
    exists y :: y in held && y != x && m <= CommonPrefix(held[x], held[y])
  }

  ghost function Neighbours(held: Pending, m: nat): set<nat> {
    set x | x in held && HasNeighbour(held, m, x)
  }

  /** The tokens that all prompts starting with `p` have in common. */
  ghost predicate IsCommonDepth(held: Pending, p: Path, d: nat) {
    && (forall x, y :: x in Sharers(held, p) && y in Sharers(held, p) ==> d <= CommonPrefix(held[x], held[y]))
    && exists x, y :: x in Sharers(held, p) && y in Sharers(held, p) && CommonPrefix(held[x], held[y]) == d
  }

  ghost function CommonDepth(held: Pending, p: Path): (d: nat)
    ensures Sharers(held, p) != {} ==> IsCommonDepth(held, p, d)
  {
    if Sharers(held, p) == {} then 0
    else
      CommonDepthExists(held, p);
      var d: nat :| IsCommonDepth(held, p, d);
      d
  }

  lemma CommonDepthExists(held: Pending, p: Path)
    requires Sharers(held, p) != {}
    ensures exists d: nat :: IsCommonDepth(held, p, d)
  {
    var z :| z in Sharers(held, p);
    var d := 0;
    while forall x, y :: x in Sharers(held, p) && y in Sharers(held, p) ==> d + 1 <= CommonPrefix(held[x], held[y])
      invariant forall x, y :: x in Sharers(held, p) && y in Sharers(held, p) ==> d <= CommonPrefix(held[x], held[y])
      decreases |held[z]| - d
    {
      assert d + 1 <= CommonPrefix(held[z], held[z]);
      d := d + 1;
    }
    assert IsCommonDepth(held, p, d);
  }

  /** For each prompt with a neighbour, how far the group at depth `m` reaches. */
  ghost function CommonDepths(held: Pending, m: nat): map<nat, nat> {
    map x | x in Neighbours(held, m) :: CommonDepth(held, Truncated(held[x], m))
  }

  ghost function Coverage(held: Pending, m: nat): real {
    if held == map[] then 0.0 else |Neighbours(held, m)| as real / |held| as real
  }

  ghost function AverageDepth(held: Pending, m: nat): real {
    var all := Neighbours(held, m);
    if all == {} then 0.0 else Sum(CommonDepths(held, m), all) as real / |all| as real
  }

  /** The most prompts that have one prefix of `m` tokens in common, if more than one has. */
  ghost predicate IsLargest(held: Pending, m: nat, among: set<nat>, size: nat) {
    && (forall x {:trigger x in among} :: x in among && x in held ==> Demand(held, Truncated(held[x], m)) <= size)
    && (size > 0 ==> exists x :: x in among && x in held && Demand(held, Truncated(held[x], m)) == size)
  }

  /** A prompt has a neighbour exactly when its first `m` tokens are in demand twice. */
  lemma NeighbourIffDemand(held: Pending, m: nat, x: nat)
    requires x in held
    ensures HasNeighbour(held, m, x) <==> m <= |held[x]| && Demand(held, held[x][..m]) >= 2
  {
    if m <= |held[x]| {
      var p := held[x][..m];
      assert x in Sharers(held, p);
      forall y | y in held
        ensures y in Sharers(held, p) <==> m <= CommonPrefix(held[x], held[y])
      {
        PrefixIffCommon(held[x], held[y], m);
      }
      if HasNeighbour(held, m, x) {
        var y :| y in held && y != x && m <= CommonPrefix(held[x], held[y]);
        SubsetCard({x, y}, Sharers(held, p));
      }
      var others := Sharers(held, p) - {x};
      assert Demand(held, p) == |others| + 1;
      if others != {} {
        var y :| y in others;
        assert y in held && y != x && m <= CommonPrefix(held[x], held[y]);
      }
    }
  }

  // ----- the trie as a shape -----

  ghost function TrieShape<N>(recs: map<Path, Rec<N>>): Shape<Path> {
    map p | p in recs :: Link(p, if p == [] then [] else p[..|p| - 1], map t | t in recs[p].children :: p + [t])
  }

  lemma TrieShapeValid<N>(at: map<Path, N>, recs: map<Path, Rec<N>>)
    requires Wired(at, recs)
    ensures Radix.Valid(TrieShape(recs), [])
  {
    hide KidLink, ParentLink, Wired;
    var sh := TrieShape(recs);
    RootInTrie(at, recs);
    forall p, t | p in sh && t in sh[p].kids
      ensures KidLink(sh, [], p, t, sh[p].kids[t])
    {
      TrieKid(at, recs, p, t);
    }
    forall c | c in sh && c != []
      ensures ParentLink(sh, c)
    {
      TrieParent(at, recs, c);
    }
  }

  lemma RootInTrie<N>(at: map<Path, N>, recs: map<Path, Rec<N>>)
    requires Wired(at, recs)
    ensures [] in recs
  {
  }

  lemma TrieKid<N>(at: map<Path, N>, recs: map<Path, Rec<N>>, p: Path, t: Token)
    requires Wired(at, recs) && p in recs && t in recs[p].children
    ensures KidLink(TrieShape(recs), [], p, t, p + [t])
  {
    hide TrieShape;
    assert KidsAt(at, p, recs[p].children);
    assert p + [t] in recs && (p + [t])[..|p|] == p;
    ShapeAt(recs, p + [t]);
    ShapeAt(recs, p);
  }

  lemma TrieParent<N>(at: map<Path, N>, recs: map<Path, Rec<N>>, c: Path)
    requires Wired(at, recs) && c in recs && c != []
    ensures ParentLink(TrieShape(recs), c)
  {
    hide TrieShape, Wired;
    var q := c[..|c| - 1];
    assert q + [c[|q|]] == c;
    TrieStep(at, recs, q, c[|q|]);
    ShapeAt(recs, c);
    ShapeAt(recs, q);
  }

  lemma TrieStep<N>(at: map<Path, N>, recs: map<Path, Rec<N>>, q: Path, t: Token)
    requires Wired(at, recs) && q + [t] in recs
    ensures q in recs && t in recs[q].children
  {
    assert (q + [t])[..|q|] == q && q in recs;
    assert KidsAt(at, q, recs[q].children);
  }

  lemma ShapeAt<N>(recs: map<Path, Rec<N>>, p: Path)
    requires p in recs
    ensures var sh := TrieShape(recs);
      && p in sh && sh[p].path == p && (p != [] ==> sh[p].parent == p[..|p| - 1])
      && sh[p].kids.Keys == recs[p].children.Keys
      && forall t {:trigger sh[p].kids[t]} :: t in recs[p].children ==> sh[p].kids[t] == p + [t]
  {
  }

  // ----- the traversal -----

  /** The prompts that no entry of the stack covers. */
  ghost function PassedBy(held: Pending, sh: Shape<Path>, line: seq<Path>): set<nat> {
    set x | x in held && held[x] !in Waiting(sh, line)
  }

  /** An entry below depth `m` comes from a prefix of `m` tokens that is no group. */
  ghost predicate Ungrouped(held: Pending, m: nat, p: Path) {
    |p| > m ==> Demand(held, p[..m]) < 2
  }

  ghost predicate AllUngrouped(held: Pending, m: nat, line: seq<Path>) {
    forall i {:trigger line[i]} :: 0 <= i < |line| ==> Ungrouped(held, m, line[i])
  }

  ghost predicate CountedGroups(held: Pending, m: nat, done: set<nat>, grouped: nat, largest: nat, depthSum: nat) {
    && done <= Neighbours(held, m) && grouped == |done| && depthSum == Sum(CommonDepths(held, m), done)
    && IsLargest(held, m, done, largest)
  }

  ghost predicate CountedPast(held: Pending, sh: Shape<Path>, m: nat, line: seq<Path>,
                             grouped: nat, largest: nat, depthSum: nat)
  {
    CountedGroups(held, m, Neighbours(held, m) * PassedBy(held, sh, line), grouped, largest, depthSum)
  }

  ghost predicate Stacked<N>(at: map<Path, N>, stack: seq<(N, nat)>, line: seq<Path>) {
    |stack| == |line| && forall i {:trigger StackedAt(at, stack, line, i)} ::
      0 <= i < |stack| ==> StackedAt(at, stack, line, i)
  }

  ghost predicate StackedAt<N>(at: map<Path, N>, stack: seq<(N, nat)>, line: seq<Path>, i: nat)
    requires i < |stack| == |line|
  {
    line[i] in at && stack[i] == (at[line[i]], |line[i]|)
  }

  lemma {:induction false} SumConst(w: map<nat, nat>, s: set<nat>, c: nat)
    requires s <= w.Keys && forall x :: x in s ==> w[x] == c
    ensures Sum(w, s) == c * |s|
    decreases s
  {
    if s != {} {
      var x :| x in s;
      SumRemove(w, s, x);
      SumConst(w, s - {x}, c);
      assert |s| == |s - {x}| + 1;
      assert c * (|s - {x}| + 1) == c * |s - {x}| + c;
    }
  }

  /** How deep the prompts that start with `p` go together, added up. */
  ghost function TotalDepth(held: Pending, p: Path): nat {
    Product(CommonDepth(held, p), Demand(held, p))
  }

  ghost function Product(a: nat, b: nat): nat {
    a * b
  }

  /** Nobody at the prefix `p` of `m` tokens is counted yet; the whole group is counted in. */
  lemma GroupIn(held: Pending, m: nat, done: set<nat>, p: Path, grouped: nat, largest: nat, depthSum: nat)
    requires CountedGroups(held, m, done, grouped, largest, depthSum) && |p| == m && Demand(held, p) >= 2
    requires done * Sharers(held, p) == {}
    ensures var n := Demand(held, p);
      var most := if largest < n then n else largest;
      CountedGroups(held, m, done + Sharers(held, p), grouped + n, most, depthSum + TotalDepth(held, p))
  {
    hide CommonDepth, IsCommonDepth, IsLargest, HasNeighbour;
    var s := Sharers(held, p);
    forall x | x in s
      ensures x in Neighbours(held, m) && Truncated(held[x], m) == p
    {
      NeighbourIffDemand(held, m, x);
      assert held[x][..m] == p;
    }
    SumConst(CommonDepths(held, m), s, CommonDepth(held, p));
    SumUnion(CommonDepths(held, m), done, s);
    LargestIn(held, m, done, p, largest);
  }

  lemma LargestIn(held: Pending, m: nat, done: set<nat>, p: Path, largest: nat)
    requires IsLargest(held, m, done, largest) && Demand(held, p) >= 2
    requires forall x :: x in Sharers(held, p) ==> Truncated(held[x], m) == p
    ensures IsLargest(held, m, done + Sharers(held, p), if largest < Demand(held, p) then Demand(held, p) else largest)
  {
    hide Truncated;
    var all, n := done + Sharers(held, p), Demand(held, p);
    var z :| z in Sharers(held, p);
    assert z in all && Demand(held, Truncated(held[z], m)) == n;
    if largest > 0 {
      var x :| x in done && x in held && Demand(held, Truncated(held[x], m)) == largest;
      assert x in all;
    }
  }

  lemma AllHeld<N>(recs: map<Path, Rec<N>>, held: Pending)
    requires Represents(recs, held)
    ensures forall x :: x in held ==> held[x] in recs
  {
    forall x | x in held
      ensures held[x] in recs
    {
      DemandWitness(held, held[x], x);
    }
  }

  /** Dropping the top entry gives up everything below it and nothing else. */
  lemma DropTop(sh: Shape<Path>, line: seq<Path>)
    requires line != [] && Antichain(sh, line)
    ensures var p, rest := line[|line| - 1], line[..|line| - 1];
      && Antichain(sh, rest) && p in Waiting(sh, line) && Below(sh, p) <= Waiting(sh, line)
      && Waiting(sh, rest) == Waiting(sh, line) - Below(sh, p) && Waiting(sh, rest) < Waiting(sh, line)
  {
    var k := |line| - 1;
    var p, rest := line[k], line[..k];
    assert line == rest + [p];
    WaitingConcat(sh, rest, [p]);
    WaitingOne(sh, p);
    forall i, j | 0 <= i < j < |rest|
      ensures Apart(sh, rest[i], rest[j])
    {
      assert Apart(sh, line[i], line[j]);
    }
    forall x | x in Waiting(sh, rest)
      ensures x !in Below(sh, p)
    {
      var i :| 0 <= i < |rest| && rest[i] in sh && sh[rest[i]].path <= sh[x].path;
      assert Apart(sh, line[i], line[k]);
      if x in Below(sh, p) {
        ApartBelow(sh, line[i], p, x);
      }
    }
  }

  lemma ChildUngrouped(held: Pending, m: nat, p: Path, t: Token)
    requires Ungrouped(held, m, p) && !(m <= |p| && Demand(held, p) >= 2)
    ensures Ungrouped(held, m, p + [t])
  {
    if |p| >= m {
      assert (p + [t])[..m] == p[..m];
      assert p[..|p|] == p;
    }
  }

  /** Nobody ends at an ungrouped node and has a neighbour. */
  lemma NoneEnds(held: Pending, m: nat, p: Path)
    requires Ungrouped(held, m, p) && !(m <= |p| && Demand(held, p) >= 2)
    ensures Neighbours(held, m) * EndingAt(held, p) == {}
  {
    forall x | x in EndingAt(held, p)
      ensures x !in Neighbours(held, m)
    {
      NeighbourIffDemand(held, m, x);
      assert p[..|p|] == p;
    }
  }

  /** A node that is no group makes way for its children. */
  lemma SkipStep<N>(at: map<Path, N>, recs: map<Path, Rec<N>>, held: Pending, m: nat, line: seq<Path>, s: seq<Path>,
                    grouped: nat, largest: nat, depthSum: nat)
    requires Wired(at, recs) && Represents(recs, held) && line != [] && Antichain(TrieShape(recs), line)
    requires line[|line| - 1] in recs && Lists(s, TrieShape(recs)[line[|line| - 1]].kids)
    requires AllUngrouped(held, m, line) && !(m <= |line[|line| - 1]| && Demand(held, line[|line| - 1]) >= 2)
    requires CountedPast(held, TrieShape(recs), m, line, grouped, largest, depthSum)
    ensures var next := line[..|line| - 1] + s;
      && Antichain(TrieShape(recs), next) && AllUngrouped(held, m, next)
      && CountedPast(held, TrieShape(recs), m, next, grouped, largest, depthSum)
      && Waiting(TrieShape(recs), next) < Waiting(TrieShape(recs), line)
  {
    hide CountedGroups, Represents, Wired, HasNeighbour, Ungrouped, TrieShape, Waiting, PassedBy;
    var sh := TrieShape(recs);
    var p, rest := line[|line| - 1], line[..|line| - 1];
    TrieShapeValid(at, recs);
    TrieShapeHas(recs, p);
    PopPush(sh, [], line, s);
    assert Ungrouped(held, m, line[|line| - 1]);
    KidsUngrouped(recs, held, m, p, s);
    forall i | 0 <= i < |rest + s|
      ensures Ungrouped(held, m, (rest + s)[i])
    {
      assert i < |rest| ==> (rest + s)[i] == line[i];
    }
    AllHeld(recs, held);
    NoneEnds(held, m, p);
    PassedOne(held, sh, line, rest + s, p);
    MeetUnion(Neighbours(held, m), PassedBy(held, sh, line), EndingAt(held, p));
  }

  lemma MeetUnion(a: set<nat>, b: set<nat>, c: set<nat>)
    ensures a * c == {} ==> a * (b + c) == a * b
    ensures c <= a ==> a * (b + c) == a * b + c
  {
    assert a * (b + c) == a * b + a * c;
    assert c <= a ==> a * c == c;
  }

  lemma PassedOne(held: Pending, sh: Shape<Path>, line: seq<Path>, next: seq<Path>, p: Path)
    requires Waiting(sh, next) == Waiting(sh, line) - {p} && p in Waiting(sh, line)
    ensures PassedBy(held, sh, next) == PassedBy(held, sh, line) + EndingAt(held, p)
  {
  }

  lemma PassedGroup<N>(recs: map<Path, Rec<N>>, held: Pending, line: seq<Path>, next: seq<Path>, p: Path)
    requires p in recs && Waiting(TrieShape(recs), next) == Waiting(TrieShape(recs), line) - Below(TrieShape(recs), p)
    requires Below(TrieShape(recs), p) <= Waiting(TrieShape(recs), line) && forall x :: x in held ==> held[x] in recs
    ensures PassedBy(held, TrieShape(recs), next) == PassedBy(held, TrieShape(recs), line) + Sharers(held, p)
    ensures PassedBy(held, TrieShape(recs), line) * Sharers(held, p) == {}
  {
    hide TrieShape, Waiting;
    TrieShapeHas(recs, p);
    forall x | x in held
      ensures p <= held[x] <==> held[x] in Below(TrieShape(recs), p)
    {
      TrieShapeHas(recs, held[x]);
    }
  }

  lemma TrieShapeHas<N>(recs: map<Path, Rec<N>>, p: Path)
    ensures p in recs <==> p in TrieShape(recs)
    ensures p in recs ==> TrieShape(recs)[p].path == p
  {
  }

  lemma KidsUngrouped<N>(recs: map<Path, Rec<N>>, held: Pending, m: nat, p: Path, s: seq<Path>)
    requires p in recs && Lists(s, TrieShape(recs)[p].kids)
    requires Ungrouped(held, m, p) && !(m <= |p| && Demand(held, p) >= 2)
    ensures forall i {:trigger s[i]} :: 0 <= i < |s| ==> Ungrouped(held, m, s[i])
  {
    forall i | 0 <= i < |s|
      ensures Ungrouped(held, m, s[i])
    {
      assert IsKid(TrieShape(recs)[p].kids, s[i]);
      var t :| t in TrieShape(recs)[p].kids && TrieShape(recs)[p].kids[t] == s[i];
      ChildUngrouped(held, m, p, t);
    }
  }

  /** A group is counted in whole and not entered. */
  lemma GroupStep<N>(recs: map<Path, Rec<N>>, held: Pending, m: nat, line: seq<Path>,
                     grouped: nat, largest: nat, depthSum: nat)
    requires Represents(recs, held) && line != [] && Antichain(TrieShape(recs), line) && line[|line| - 1] in recs
    requires AllUngrouped(held, m, line) && m <= |line[|line| - 1]| && Demand(held, line[|line| - 1]) >= 2
    requires CountedPast(held, TrieShape(recs), m, line, grouped, largest, depthSum)
    ensures var p, next := line[|line| - 1], line[..|line| - 1];
      var n := Demand(held, p);
      var most := if largest < n then n else largest;
      && Antichain(TrieShape(recs), next) && AllUngrouped(held, m, next)
      && CountedPast(held, TrieShape(recs), m, next, grouped + n, most, depthSum + TotalDepth(held, p))
      && Waiting(TrieShape(recs), next) < Waiting(TrieShape(recs), line)
  {
    hide CountedGroups, Represents, HasNeighbour, TrieShape, TotalDepth, Waiting, PassedBy, Neighbours, Below;
    var sh := TrieShape(recs);
    var p, rest := line[|line| - 1], line[..|line| - 1];
    DropTop(sh, line);
    assert Ungrouped(held, m, p);
    DemandAntitone(held, p[..m], p);
    AllHeld(recs, held);
    TrieShapeHas(recs, p);
    assert p[..|p|] == p;
    PassedGroup(recs, held, line, rest, p);
    GroupHasNeighbours(held, m, p);
    var done := Neighbours(held, m) * PassedBy(held, sh, line);
    GroupIn(held, m, done, p, grouped, largest, depthSum);
    MeetUnion(Neighbours(held, m), PassedBy(held, sh, line), Sharers(held, p));
    forall i | 0 <= i < |rest|
      ensures Ungrouped(held, m, rest[i])
    {
      assert rest[i] == line[i];
    }
  }

  lemma GroupHasNeighbours(held: Pending, m: nat, p: Path)
    requires |p| == m && Demand(held, p) >= 2
    ensures Sharers(held, p) <= Neighbours(held, m)
  {
    forall x | x in Sharers(held, p)
      ensures x in Neighbours(held, m)
    {
      NeighbourIffDemand(held, m, x);
      assert held[x][..m] == p;
    }
  }

  // ----- how deep a group goes together -----

  /** Everyone who starts with `p` starts with `q`. */
  ghost predicate Together(held: Pending, p: Path, q: Path) {
    p <= q && Sharers(held, p) == Sharers(held, q)
  }

  lemma NobodyEnds<N>(recs: map<Path, Rec<N>>, held: Pending, q: Path, x: nat)
    requires Represents(recs, held) && q in recs && x in held
    ensures recs[q].list == [] ==> held[x] != q
  {
    assert ListFits(held, q, recs[q].list);
    assert x in recs[q].list <==> held[x] == q;
  }

  lemma NextKid<N>(at: map<Path, N>, recs: map<Path, Rec<N>>, held: Pending, q: Path, x: nat)
    requires Wired(at, recs) && Represents(recs, held) && q in recs && x in held && q <= held[x] && held[x] != q
    ensures held[x][|q|] in recs[q].children && q + [held[x][|q|]] <= held[x]
  {
    var r := q + [held[x][|q|]];
    assert KidsAt(at, q, recs[q].children);
    DemandWitness(held, r, x);
    assert r in recs;
  }

  /** With one child and no prompt here, everyone goes on to the child. */
  lemma OneWayOn<N>(at: map<Path, N>, recs: map<Path, Rec<N>>, held: Pending, p: Path, q: Path, t: Token)
    requires Wired(at, recs) && Represents(recs, held) && q in recs && Together(held, p, q)
    requires recs[q].list == [] && recs[q].children.Keys == {t}
    ensures Together(held, p, q + [t])
  {
    hide Wired, Represents;
    forall x | x in held && q <= held[x]
      ensures q + [t] <= held[x]
    {
      NobodyEnds(recs, held, q, x);
      NextKid(at, recs, held, q, x);
    }
    DemandSame(held, q, q + [t]);
    forall x | x in held
      ensures q <= held[x] <==> q + [t] <= held[x]
    {
      if q + [t] <= held[x] {
        assert q == (q + [t])[..|q|];
      }
    }
  }

  /** Where the way ends or forks, two of the group part. */
  lemma WaysPart<N>(at: map<Path, N>, recs: map<Path, Rec<N>>, held: Pending, p: Path, q: Path)
    requires Wired(at, recs) && Represents(recs, held) && q in recs && Together(held, p, q) && Sharers(held, p) != {}
    requires recs[q].list != [] || |recs[q].children| != 1
    ensures IsCommonDepth(held, p, |q|)
  {
    hide Wired, Represents;
    forall x, y | x in Sharers(held, p) && y in Sharers(held, p)
      ensures |q| <= CommonPrefix(held[x], held[y])
    {
      assert x in Sharers(held, q) && y in Sharers(held, q) && held[x][..|q|] == q;
      PrefixIffCommon(held[x], held[y], |q|);
    }
    var x, y := Parting(at, recs, held, q);
    assert x in Sharers(held, q) && y in Sharers(held, q);
  }

  lemma Parting<N>(at: map<Path, N>, recs: map<Path, Rec<N>>, held: Pending, q: Path) returns (x: nat, y: nat)
    requires Wired(at, recs) && Represents(recs, held) && q in recs && Sharers(held, q) != {}
    requires recs[q].list != [] || |recs[q].children| != 1
    ensures x in held && y in held && q <= held[x] && q <= held[y] && CommonPrefix(held[x], held[y]) == |q|
  {
    hide Wired, Represents;
    x := Someone(held, q);
    if recs[q].list != [] {
      x := EndsHere(recs, held, q);
      y := x;
      TrieOrder.CommonIs(q, q, |q|);
    } else {
      NobodyEnds(recs, held, q, x);
      NextKid(at, recs, held, q, x);
      var t := held[x][|q|];
      var u := OtherKey(recs[q].children.Keys, t);
      y := KidSharer(at, recs, held, q, u);
      TrieOrder.PartAt(q, t, u, held[x], held[y]);
      assert q == (q + [u])[..|q|];
    }
  }

  lemma EndsHere<N>(recs: map<Path, Rec<N>>, held: Pending, q: Path) returns (e: nat)
    requires Represents(recs, held) && q in recs && recs[q].list != []
    ensures e in held && held[e] == q
  {
    assert ListFits(held, q, recs[q].list);
    e := recs[q].list[0];
    assert e in recs[q].list;
  }

  lemma OtherKey(s: set<Token>, t: Token) returns (u: Token)
    requires t in s && |s| != 1
    ensures u in s && u != t
  {
    assert |s - {t}| == |s| - 1;
    u :| u in s - {t};
  }

  lemma KidSharer<N>(at: map<Path, N>, recs: map<Path, Rec<N>>, held: Pending, q: Path, u: Token) returns (y: nat)
    requires Wired(at, recs) && Represents(recs, held) && q in recs && u in recs[q].children
    ensures y in held && q + [u] <= held[y]
  {
    assert KidsAt(at, q, recs[q].children);
    var r := q + [u];
    assert CountFits(held, [], 0, 0, r, recs[r].count);
    y :| y in Sharers(held, r);
  }

  lemma CommonDepthUnique(held: Pending, p: Path, d: nat)
    requires IsCommonDepth(held, p, d)
    ensures CommonDepth(held, p) == d
  {
  }

  /** Go down while there is one way on and no prompt ends. */
  method SharedDepth(trie: PrefixTrie, node: TrieNode, ghost p: Path, depth: nat) returns (realDepth: nat)
    requires trie.Valid() && p in trie.at && node == trie.at[p] && depth == |p| && Demand(trie.held, p) >= 1
    ensures realDepth == CommonDepth(trie.held, p)
  {
    hide Represents, Wired, Short, PrefixTrie.Synced, IsCommonDepth, CommonDepth;
    var walk := node;
    realDepth := depth;
    ghost var q := p;
    ghost var z := Someone(trie.held, p);
    trie.RootIs();
    trie.NodeIs(q);
    while |walk.children| == 1 && walk.promptIndices == []
      invariant q in trie.at && q in trie.recs && walk == trie.at[q] && realDepth == |q| && Together(trie.held, p, q)
      invariant z in trie.held && q <= trie.held[z]
      invariant walk.children == trie.recs[q].children && |walk.promptIndices| == |trie.recs[q].list|
      decreases |trie.held[z]| - |q|
    {
      var t :| t in walk.children.Keys;
      OneKey(walk.children.Keys, t);
      OneWayOn(trie.at, trie.recs, trie.held, p, q, t);
      trie.KidIs(q, t);
      walk := walk.children[t];
      realDepth := realDepth + 1;
      q := q + [t];
      assert z in Sharers(trie.held, p);
      trie.NodeIs(q);
    }
    WaysPart(trie.at, trie.recs, trie.held, p, q);
    CommonDepthUnique(trie.held, p, |q|);
  }

  lemma OneKey(s: set<Token>, t: Token)
    requires t in s && |s| == 1
    ensures s == {t}
  {
    assert |s - {t}| == 0;
  }

  lemma Someone(held: Pending, p: Path) returns (z: nat)
    requires Sharers(held, p) != {}
    ensures z in held && p <= held[z]
  {
    z :| z in Sharers(held, p);
  }

  // ----- the score -----

  ghost predicate Scoring(trie: PrefixTrie, m: nat, stack: seq<(TrieNode, nat)>, line: seq<Path>,
                          grouped: nat, largest: nat, depthSum: nat)
    reads trie
  {
    && Stacked(trie.at, stack, line) && Antichain(TrieShape(trie.recs), line) && AllUngrouped(trie.held, m, line)
    && CountedPast(trie.held, TrieShape(trie.recs), m, line, grouped, largest, depthSum)
  }

  lemma ScoringStarts(trie: PrefixTrie, m: nat)
    requires trie.Valid()
    ensures Scoring(trie, m, [(trie.root, 0)], [[]], 0, 0, 0)
  {
    hide PrefixTrie.Synced, Wired, Represents, Short, TrieShape, CountedGroups;
    var sh, line: seq<Path> := TrieShape(trie.recs), [[]];
    trie.RootIs();
    TrieShapeHas(trie.recs, []);
    NonePassed(trie.recs, trie.held);
    CountedNone(trie.held, m);
    assert Neighbours(trie.held, m) * {} == {};
  }

  lemma NonePassed<N>(recs: map<Path, Rec<N>>, held: Pending)
    requires Represents(recs, held) && [] in recs
    ensures PassedBy(held, TrieShape(recs), [[]]) == {}
  {
    hide TrieShape, Represents;
    var sh, line: seq<Path> := TrieShape(recs), [[]];
    AllHeld(recs, held);
    TrieShapeHas(recs, []);
    forall x | x in held
      ensures held[x] in Waiting(sh, line)
    {
      TrieShapeHas(recs, held[x]);
      assert sh[line[0]].path <= sh[held[x]].path;
    }
  }

  lemma CountedNone(held: Pending, m: nat)
    ensures CountedGroups(held, m, {}, 0, 0, 0)
  {
  }

  /** What the traversal sees at the top of the stack. */
  lemma ScoringTop(trie: PrefixTrie, m: nat, stack: seq<(TrieNode, nat)>, line: seq<Path>,
                   grouped: nat, largest: nat, depthSum: nat)
    requires trie.Valid() && Scoring(trie, m, stack, line, grouped, largest, depthSum) && stack != []
    ensures |line| == |stack| && line[|line| - 1] in trie.at && line[|line| - 1] in trie.recs
    ensures var p := line[|line| - 1];
      && stack[|stack| - 1] == (trie.at[p], |p|)
      && trie.at[p].count == if p == [] then 0 else Demand(trie.held, p)
  {
    var p := line[|line| - 1];
    assert StackedAt(trie.at, stack, line, |line| - 1);
    trie.NodeIs(p);
    assert CountFits(trie.held, [], 0, 0, p, trie.recs[p].count);
  }

  lemma ScoringGroup(trie: PrefixTrie, m: nat, stack: seq<(TrieNode, nat)>, line: seq<Path>,
                     grouped: nat, largest: nat, depthSum: nat)
    requires trie.Valid() && Scoring(trie, m, stack, line, grouped, largest, depthSum) && stack != []
    requires |line| == |stack| && line[|line| - 1] in trie.recs
    requires m <= |line[|line| - 1]| && Demand(trie.held, line[|line| - 1]) >= 2
    ensures var p, next := line[|line| - 1], line[..|line| - 1];
      var n := Demand(trie.held, p);
      var most := if largest < n then n else largest;
      && Scoring(trie, m, stack[..|stack| - 1], next, grouped + n, most, depthSum + TotalDepth(trie.held, p))
      && Waiting(TrieShape(trie.recs), next) < Waiting(TrieShape(trie.recs), line)
  {
    hide PrefixTrie.Synced, Wired, Represents, Short, CountedPast, Antichain, Waiting, AllUngrouped, TrieShape,
      TotalDepth;
    GroupStep(trie.recs, trie.held, m, line, grouped, largest, depthSum);
    var rest, next := stack[..|stack| - 1], line[..|line| - 1];
    forall i | 0 <= i < |rest|
      ensures StackedAt(trie.at, rest, next, i)
    {
      assert StackedAt(trie.at, stack, line, i);
    }
  }

  ghost function KidPaths(p: Path, tokens: seq<Token>): (s: seq<Path>)
    ensures |s| == |tokens| && forall i :: 0 <= i < |s| ==> s[i] == p + [tokens[i]]
  {
    seq(|tokens|, i requires 0 <= i < |tokens| => p + [tokens[i]])
  }

  lemma ListsKids<N>(recs: map<Path, Rec<N>>, p: Path, tokens: seq<Token>)
    requires p in recs && forall t {:trigger t in tokens} :: t in tokens <==> t in recs[p].children
    requires forall i, j :: 0 <= i < j < |tokens| ==> tokens[i] != tokens[j]
    ensures Lists(KidPaths(p, tokens), TrieShape(recs)[p].kids)
  {
    var s, kids := KidPaths(p, tokens), TrieShape(recs)[p].kids;
    forall i | 0 <= i < |s|
      ensures IsKid(kids, s[i])
    {
      assert tokens[i] in tokens;
      assert kids[tokens[i]] == s[i];
    }
    forall t | t in kids
      ensures kids[t] in s
    {
      assert t in tokens;
      var i :| 0 <= i < |tokens| && tokens[i] == t;
      assert s[i] == kids[t];
    }
    forall i, j | 0 <= i < j < |s|
      ensures s[i] != s[j]
    {
      assert s[i][|p|] == tokens[i] && s[j][|p|] == tokens[j];
    }
  }

  lemma ScoringSkip(trie: PrefixTrie, m: nat, stack: seq<(TrieNode, nat)>, line: seq<Path>,
                    grouped: nat, largest: nat, depthSum: nat,
                    tokens: seq<Token>, kids: seq<TrieNode>, pushed: seq<(TrieNode, nat)>)
    requires trie.Valid() && Scoring(trie, m, stack, line, grouped, largest, depthSum) && stack != []
    requires |line| == |stack| && line[|line| - 1] in trie.recs && line[|line| - 1] in trie.at
    requires !(m <= |line[|line| - 1]| && Demand(trie.held, line[|line| - 1]) >= 2)
    requires forall t {:trigger t in tokens} :: t in tokens <==> t in trie.at[line[|line| - 1]].children
    requires forall i, j :: 0 <= i < j < |tokens| ==> tokens[i] != tokens[j]
    requires |kids| == |tokens| && TrieWalks.KidsFor(trie.at[line[|line| - 1]].children, tokens, kids)
    requires |pushed| == |kids|
    requires forall i {:trigger pushed[i]} :: 0 <= i < |pushed| ==> pushed[i] == (kids[i], |line[|line| - 1]| + 1)
    ensures var next := line[..|line| - 1] + KidPaths(line[|line| - 1], tokens);
      && Scoring(trie, m, stack[..|stack| - 1] + pushed, next, grouped, largest, depthSum)
      && Waiting(TrieShape(trie.recs), next) < Waiting(TrieShape(trie.recs), line)
  {
    hide PrefixTrie.Synced, Wired, Represents, Short, CountedPast, Antichain, Waiting, AllUngrouped, TrieShape;
    var p := line[|line| - 1];
    trie.NodeIs(p);
    ListsKids(trie.recs, p, tokens);
    SkipStep(trie.at, trie.recs, trie.held, m, line, KidPaths(p, tokens), grouped, largest, depthSum);
    var above, next := stack[..|stack| - 1] + pushed, line[..|line| - 1] + KidPaths(p, tokens);
    forall i | 0 <= i < |above|
      ensures StackedAt(trie.at, above, next, i)
    {
      if i < |stack| - 1 {
        assert StackedAt(trie.at, stack, line, i);
      } else {
        var j := i - (|stack| - 1);
        assert TrieWalks.KidFor(trie.at[p].children, tokens, kids, j);
        trie.KidIs(p, tokens[j]);
        assert above[i] == pushed[j];
      }
    }
  }

  lemma ScoringEnds(trie: PrefixTrie, m: nat, line: seq<Path>, grouped: nat, largest: nat, depthSum: nat)
    requires trie.Valid() && Scoring(trie, m, [], line, grouped, largest, depthSum)
    ensures var all := Neighbours(trie.held, m);
      grouped == |all| && depthSum == Sum(CommonDepths(trie.held, m), all) && IsLargest(trie.held, m, all, largest)
  {
    WaitingEmpty(TrieShape(trie.recs));
    assert Neighbours(trie.held, m) * PassedBy(trie.held, TrieShape(trie.recs), []) == Neighbours(trie.held, m);
  }

  /** The fraction of prompts with a neighbour at least `minDepth` tokens deep, the largest group at
      that depth, and the tokens the groups have in common, averaged over the prompts in them. */
  method SharingScore(trie: PrefixTrie, minDepth: int) returns (coverage: real, maxGroup: nat, avgDepth: real)
    requires trie.Valid()
    ensures coverage == Coverage(trie.held, Max(minDepth, 1))
    ensures IsLargest(trie.held, Max(minDepth, 1), Neighbours(trie.held, Max(minDepth, 1)), maxGroup)
    ensures avgDepth == AverageDepth(trie.held, Max(minDepth, 1))
  {
    hide PrefixTrie.Valid, Scoring, CommonDepth, IsLargest, Waiting, Demand, TrieShape, Sharers;
    ghost var m: nat := Max(minDepth, 1);
    PromptCount(trie, m);
    if trie.numPrompts == 0 {
      return 0.0, 0, 0.0;
    }
    var grouped: nat, depthSum: nat := 0, 0;
    maxGroup := 0;
    var stack: seq<(TrieNode, nat)> := [(trie.root, 0)];
    ghost var line: seq<Path> := [[]];
    ScoringStarts(trie, m);
    while stack != []
      invariant Scoring(trie, m, stack, line, grouped, maxGroup, depthSum)
      decreases Waiting(TrieShape(trie.recs), line)
    {
      ScoringTop(trie, m, stack, line, grouped, maxGroup, depthSum);
      ghost var p, rest := line[|line| - 1], line[..|line| - 1];
      var (node, depth) := stack[|stack| - 1];
      if depth >= minDepth && node.count >= 2 {
        ScoringGroup(trie, m, stack, line, grouped, maxGroup, depthSum);
        var realDepth := SharedDepth(trie, node, p, depth);
        grouped := grouped + node.count;
        depthSum := depthSum + realDepth * node.count;
        if node.count > maxGroup {
          maxGroup := node.count;
        }
        stack, line := stack[..|stack| - 1], rest;
      } else {
        var tokens := TrieWalks.ListTokens(node.children.Keys);
        var kids := TrieWalks.KidNodes(node, tokens);
        var pushed: seq<(TrieNode, nat)> :=
          seq(|tokens|, i requires 0 <= i < |tokens| && i < |kids| => (kids[i], depth + 1));
        ScoringSkip(trie, m, stack, line, grouped, maxGroup, depthSum, tokens, kids, pushed);
        stack, line := stack[..|stack| - 1] + pushed, rest + KidPaths(p, tokens);
      }
    }
    ScoringEnds(trie, m, line, grouped, maxGroup, depthSum);
    coverage := grouped as real / trie.numPrompts as real;
    avgDepth := if grouped > 0 then depthSum as real / grouped as real else 0.0;
  }

  lemma PromptCount(trie: PrefixTrie, m: nat)
    requires trie.Valid()
    ensures trie.numPrompts == |trie.held|
    ensures trie.held == map[] ==> Neighbours(trie.held, m) == {} && IsLargest(trie.held, m, {}, 0)
  {
  }
}
