/** Sums of weights over finite sets. */
module Sums {

  ghost function Sum<N>(w: map<N, nat>, s: set<N>): nat
    requires s <= w.Keys
    decreases s
  {
    if s == {} then 0
    else
      var x :| x in s;
      w[x] + Sum(w, s - {x})
  }

  /** The order in which the elements are added up does not matter. */
  lemma {:induction false} SumRemove<N>(w: map<N, nat>, s: set<N>, x: N)
    requires s <= w.Keys && x in s
    ensures Sum(w, s) == w[x] + Sum(w, s - {x})
    decreases s
  {
    var y :| y in s && Sum(w, s) == w[y] + Sum(w, s - {y});
    if y != x {
      SumRemove(w, s - {y}, x);
      SumRemove(w, s - {x}, y);
      assert s - {y} - {x} == s - {x} - {y};
    }
  }

  lemma SumAdd<N>(w: map<N, nat>, s: set<N>, x: N)
    requires s <= w.Keys && x in w && x !in s
    ensures Sum(w, s + {x}) == Sum(w, s) + w[x]
  {
    SumRemove(w, s + {x}, x);
    assert s + {x} - {x} == s;
  }

  lemma {:induction false} SumSame<N>(w: map<N, nat>, v: map<N, nat>, s: set<N>)
    requires s <= w.Keys && s <= v.Keys
    requires forall x :: x in s ==> w[x] == v[x]
    ensures Sum(w, s) == Sum(v, s)
    decreases s
  {
    if s != {} {
      var x :| x in s;
      SumRemove(w, s, x);
      SumRemove(v, s, x);
      SumSame(w, v, s - {x});
    }
  }

  lemma {:induction false} SumUnion<N>(w: map<N, nat>, s: set<N>, t: set<N>)
    requires s <= w.Keys && t <= w.Keys && s * t == {}
    ensures Sum(w, s + t) == Sum(w, s) + Sum(w, t)
    decreases s
  {
    if s == {} {
      assert s + t == t;
    } else {
      var x :| x in s;
      SumRemove(w, s, x);
      SumRemove(w, s + t, x);
      SumUnion(w, s - {x}, t);
      assert s + t - {x} == (s - {x}) + t;
    }
  }

  /** Splitting the weight of `n` between `n` and a new element leaves the sum unchanged. */
  lemma SumSplit<N>(w: map<N, nat>, v: map<N, nat>, s: set<N>, n: N, x: N)
    requires n in s && x !in s && s <= w.Keys && s + {x} <= v.Keys
    requires w[n] == v[n] + v[x]
    requires forall m :: m in s && m != n ==> w[m] == v[m]
    ensures Sum(v, s + {x}) == Sum(w, s)
  {
    SumRemove(w, s, n);
    SumAdd(v, s, x);
    SumRemove(v, s, n);
    SumSame(w, v, s - {n});
  }
}
