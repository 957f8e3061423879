/** What a downward match along a key learns about the cached prefixes of that key. */
module CacheWalk {
  import opened Prelude
  import opened Radix
  import opened CacheStore

  /** `k` is the length of the longest cached prefix of `key`. */
  ghost predicate IsHit(content: map<seq<Token>, int>, key: seq<Token>, k: nat) {
    && k <= |key|
    && (k > 0 ==> key[..k] in content)
    && forall j :: k < j <= |key| ==> key[..j] !in content
  }

  /** The first `|values|` prefixes of `key` are cached, with these indices. */
  ghost predicate Reads(content: map<seq<Token>, int>, key: seq<Token>, values: seq<int>) {
    && |values| <= |key|
    && forall i {:trigger ReadsAt(content, key, values, i)} :: 0 <= i < |values| ==> ReadsAt(content, key, values, i)
  }

  ghost predicate ReadsAt(content: map<seq<Token>, int>, key: seq<Token>, values: seq<int>, i: nat)
    requires i < |values| <= |key|
  {
    key[..i + 1] in content && content[key[..i + 1]] == values[i]
  }

  /** One step down: how far the key of the child goes along, and what is cached up to there. */
  lemma KeyStep<N>(c: Cache<N>, node: N, key: seq<Token>, at: nat)
    requires Inv(c) && node in c.path && node in c.st
    requires at < |key| && c.path[node] == key[..at] && key[at] in c.st[node].kids
    ensures var n := c.st[node].kids[key[at]];
      && n in c.path && n != c.root && n in c.st && NodeFits(c, n) && c.st[n].parent == Some(node)
      && var k := CommonPrefix(c.st[n].key, key[at..]);
      && 0 < k <= |c.st[n].key| && at + k <= |key| && |c.path[n]| == at + |c.st[n].key|
      && OnEdge(Sh(c), c.root, n, key[..at + k])
      && (k == |c.st[n].key| ==> c.path[n] == key[..at + k])
      && (k < |c.st[n].key| && at + k < |key| ==> c.path[n][at + k] != key[at + k] && c.st[n].key[k] != key[at + k])
  {
    KidFits(c, node, key[at]);
    var n := c.st[node].kids[key[at]];
    var k := CommonPrefix(c.st[n].key, key[at..]);
    assert key[at..][0] == key[at];
    if k == 0 {
      assert false;
    }
    assert key[..at + k] == key[..at] + key[at..][..k];
    assert c.path[n][..at + k] == c.path[node] + c.st[n].key[..k];
    Fits(c, n);
  }

  /** The tokens matched along the child's key are cached with the child's values. */
  lemma ReadStep<N>(c: Cache<N>, node: N, key: seq<Token>, at: nat, n: N, k: nat, values: seq<int>)
    requires Inv(c) && n in c.path && n != c.root && NodeFits(c, n) && c.st[n].parent == Some(node)
    requires node in c.path && |c.path[node]| == at && 0 < k <= |c.st[n].key| && at + k <= |key|
    requires OnEdge(Sh(c), c.root, n, key[..at + k])
    requires |values| == at && Reads(c.content, key, values)
    ensures Reads(c.content, key, values + c.st[n].value[..k])
  {
    var more := values + c.st[n].value[..k];
    forall i | 0 <= i < |more|
      ensures ReadsAt(c.content, key, more, i)
    {
      if i < at {
        assert ReadsAt(c.content, key, values, i);
      } else {
        assert key[..i + 1] == key[..at + k][..i + 1];
        assert OnEdge(Sh(c), c.root, n, key[..i + 1]);
        assert Maps(c, n, key[..i + 1]);
      }
    }
  }

  /** Nothing is cached past a node that no child continues. */
  lemma HitAtNode<N>(c: Cache<N>, node: N, key: seq<Token>, at: nat)
    requires Inv(c) && node in c.path && node in c.st && at <= |key| && c.path[node] == key[..at]
    requires at < |key| ==> key[at] !in c.st[node].kids
    ensures IsHit(c.content, key, at)
  {
    forall j | at < j <= |key|
      ensures key[..j] !in c.content
    {
      var p := key[..j];
      assert c.path[node] == p[..at];
      if p in c.content {
        assert Covered(c, p);
        var m :| m in c.path && OnEdge(Sh(c), c.root, m, p);
        LeavesAtNode(Sh(c), c.root, node, p, m);
      }
    }
    if at > 0 {
      assert node != c.root;
      Fits(c, node);
      assert OnEdge(Sh(c), c.root, node, key[..at]);
      assert Maps(c, node, key[..at]);
    }
  }

  /** Nothing is cached past a mismatch inside a key. */
  lemma HitOnEdge<N>(c: Cache<N>, n: N, key: seq<Token>, at: nat)
    requires Inv(c) && n in c.path && at <= |key| && OnEdge(Sh(c), c.root, n, key[..at])
    requires at < |key| ==> at < |c.path[n]| && c.path[n][at] != key[at]
    ensures IsHit(c.content, key, at)
  {
    assert Maps(c, n, key[..at]);
    forall j | at < j <= |key|
      ensures key[..j] !in c.content
    {
      var p := key[..j];
      assert p[..at] == key[..at];
      if p in c.content {
        assert Covered(c, p);
        var m :| m in c.path && OnEdge(Sh(c), c.root, m, p);
        LeavesOnEdge(Sh(c), c.root, n, at, p, m);
      }
    }
  }

  /** A match standing at `node`, having read `values`. */
  ghost predicate Stands<N>(c: Cache<N>, key: seq<Token>, values: seq<int>, node: N) {
    && node in c.path && node in c.st && Reads(c.content, key, values)
    && c.path[node] == key[..|values|]
  }

  /** The match is over, at a node. */
  ghost predicate Stopped<N>(c: Cache<N>, key: seq<Token>, values: seq<int>, node: N) {
    && Stands(c, key, values, node) && IsHit(c.content, key, |values|)
    && (|values| < |key| ==> key[|values|] !in c.st[node].kids)
  }

  /** The match is over, `k` tokens into the key of `n`. */
  ghost predicate StoppedInside<N>(c: Cache<N>, key: seq<Token>, values: seq<int>, n: N, k: nat) {
    && n in c.path && n in c.st && n != c.root && 0 < k < |c.st[n].key| && k <= |c.st[n].value|
    && |values| + k <= |key| && key[..|values| + k] <= c.path[n] && |c.path[n]| == |values| + |c.st[n].key|
    && IsHit(c.content, key, |values| + k) && Reads(c.content, key, values + c.st[n].value[..k])
    && (|values| + k < |key| ==> key[|values| + k] != c.st[n].key[k])
  }

  lemma StandsPath<N>(c: Cache<N>, key: seq<Token>, values: seq<int>, node: N)
    requires Stands(c, key, values, node)
    ensures node in c.path && node in c.st && |values| <= |key| && c.path[node] == key[..|values|]
  {
  }

  lemma StandsAtRoot<N>(c: Cache<N>, key: seq<Token>)
    requires Inv(c)
    ensures Stands(c, key, [], c.root) && c.root in c.path && c.root in c.st
  {
  }

  lemma StopsHere<N>(c: Cache<N>, node: N, key: seq<Token>, values: seq<int>)
    requires Inv(c) && Stands(c, key, values, node)
    requires |values| < |key| ==> key[|values|] !in c.st[node].kids
    ensures Stopped(c, key, values, node)
  {
    HitAtNode(c, node, key, |values|);
  }

  /** Going down one child either ends inside its key or stands at it. */
  lemma DownStep<N>(c: Cache<N>, node: N, key: seq<Token>, values: seq<int>)
    requires Inv(c) && Stands(c, key, values, node)
    requires |values| < |key| && key[|values|] in c.st[node].kids
    ensures var n := c.st[node].kids[key[|values|]];
      && n in c.path && n in c.st
      && var k := CommonPrefix(c.st[n].key, key[|values|..]);
      && k > 0
      && (k < |c.st[n].key| ==> StoppedInside(c, key, values, n, k))
      && (k == |c.st[n].key| ==>
        Stands(c, key, values + c.st[n].value, n) && k == |c.st[n].value| && |values| + k <= |key|)
  {
    hide Inv, IsHit, Reads, OnEdge;
    var at := |values|;
    KeyStep(c, node, key, at);
    var n := c.st[node].kids[key[at]];
    var k := CommonPrefix(c.st[n].key, key[at..]);
    ReadStep(c, node, key, at, n, k, values);
    if k < |c.st[n].key| {
      HitOnEdge(c, n, key, at + k);
    } else {
      assert c.st[n].value[..k] == c.st[n].value;
    }
  }
}
