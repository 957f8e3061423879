/**
 Depth-first order, seen as one line of paths: what has been emitted, then what the stack still
 holds, topmost first.  Visiting a node replaces it in the line by itself and its children.
 */
module TrieOrder {
  import opened Prelude
  import opened Demands

  /** Whatever two entries of the line have in common, everything between them has too. */
  ghost predicate Nested(line: seq<seq<Token>>) {
    forall i, j, k {:trigger CommonPrefix(line[i], line[j]), CommonPrefix(line[i], line[k])} ::
      0 <= i < j < k < |line| ==> CommonPrefix(line[i], line[k]) <= CommonPrefix(line[i], line[j])
  }

  /** Where `a` and `b` part, the branch of `a` is in no lower demand. */
  ghost predicate Outranks(held: Pending, a: seq<Token>, b: seq<Token>) {
    var k := CommonPrefix(a, b);
    k < |a| && k < |b| ==> Demand(held, a[..k + 1]) >= Demand(held, b[..k + 1])
  }

  ghost predicate Ranked(held: Pending, line: seq<seq<Token>>) {
    forall i, j {:trigger Outranks(held, line[i], line[j])} :: 0 <= i < j < |line| ==> Outranks(held, line[i], line[j])
  }

  /** For every prefix, the entries that start with it are one contiguous block. */
  lemma NestedIsContiguous(line: seq<seq<Token>>, p: seq<Token>, i: nat, j: nat, k: nat)
    requires Nested(line) && i < j < k < |line| && p <= line[i] && p <= line[k]
    ensures p <= line[j]
  {
    PrefixIffCommon(line[i], line[k], |p|);
    PrefixIffCommon(line[i], line[j], |p|);
    var c := CommonPrefix(line[i], line[j]);
    assert CommonPrefix(line[i], line[k]) <= c;
  }

  /** Of two sibling blocks the earlier one is no smaller. */
  lemma RankedSiblings(held: Pending, line: seq<seq<Token>>, p: seq<Token>, t: Token, u: Token, i: nat, j: nat)
    requires Ranked(held, line) && i < j < |line| && t != u && p + [t] <= line[i] && p + [u] <= line[j]
    ensures Demand(held, p + [t]) >= Demand(held, p + [u])
  {
    var a, b := line[i], line[j];
    assert Outranks(held, a, b);
    PartAt(p, t, u, a, b);
  }

  lemma PartAt(p: seq<Token>, t: Token, u: Token, a: seq<Token>, b: seq<Token>)
    requires t != u && p + [t] <= a && p + [u] <= b
    ensures CommonPrefix(a, b) == |p| && a[..|p| + 1] == p + [t] && b[..|p| + 1] == p + [u]
  {
    assert a[..|p|] == p && b[..|p|] == p && a[|p|] == t && b[|p|] == u;
    CommonIs(a, b, |p|);
  }

  lemma {:induction false} CommonIs(a: seq<Token>, b: seq<Token>, k: nat)
    requires k <= |a| && k <= |b| && a[..k] == b[..k]
    requires k == |a| || k == |b| || a[k] != b[k]
    ensures CommonPrefix(a, b) == k
  {
    if k > 0 {
      assert a[0] == a[..k][0] && b[0] == b[..k][0];
      assert a[1..][..k - 1] == a[..k][1..] && b[1..][..k - 1] == b[..k][1..];
      CommonIs(a[1..], b[1..], k - 1);
    }
  }

  // ----- common prefixes under extension -----

  /** Extending one of two sequences beyond where they part changes nothing. */
  lemma CommonExtends(a: seq<Token>, b: seq<Token>, b': seq<Token>)
    requires b <= b'
    ensures CommonPrefix(a, b) <= CommonPrefix(a, b')
    ensures !(b <= a) ==> CommonPrefix(a, b) == CommonPrefix(a, b')
  {
    var c := CommonPrefix(a, b);
    PrefixIffCommon(a, b', c);
    assert a[..c] == b[..c] == b'[..c];
    if !(b <= a) {
      WholeIsPrefix(b, a);
      CommonIs(a, b', c);
    }
  }

  lemma WholeIsPrefix(a: seq<Token>, b: seq<Token>)
    ensures a <= b <==> CommonPrefix(b, a) == |a|
    ensures a <= b <==> CommonPrefix(a, b) == |a|
  {
    CommonSymmetric(a, b);
    PrefixIffCommon(a, b, |a|);
    assert a[..|a|] == a;
  }

  lemma CommonSymmetric(a: seq<Token>, b: seq<Token>)
    ensures CommonPrefix(a, b) == CommonPrefix(b, a)
  {
    var c, d := CommonPrefix(a, b), CommonPrefix(b, a);
    PrefixIffCommon(a, b, d);
    PrefixIffCommon(b, a, c);
    assert a[..d] == b[..d] && a[..c] == b[..c];
  }

  // ----- visiting one node -----

  /** `line[k]` starts no other entry: its subtree is still to be visited. */
  ghost predicate Tip(line: seq<seq<Token>>, k: nat)
    requires k < |line|
  {
    forall i {:trigger line[i]} :: 0 <= i < |line| && i != k ==> !(line[k] <= line[i])
  }

  /** What a visited node leaves in the line: itself, some number of times, then its children. */
  ghost predicate Leaves(n: seq<Token>, block: seq<seq<Token>>, copies: nat, tokens: seq<Token>) {
    && |block| == copies + |tokens|
    && (forall i {:trigger block[i]} :: 0 <= i < copies ==> block[i] == n)
    && (forall i {:trigger tokens[i]} :: 0 <= i < |tokens| ==> block[copies + i] == n + [tokens[i]])
    && forall i, j :: 0 <= i < j < |tokens| ==> tokens[i] != tokens[j]
  }

  ghost function Visited(line: seq<seq<Token>>, k: nat, block: seq<seq<Token>>): seq<seq<Token>>
    requires k < |line|
  {
    line[..k] + block + line[k + 1..]
  }

  /** The entry of the old line that position `i` of the new one stands for. */
  ghost function Source(k: nat, size: nat, i: nat): int {
    if i < k then i else if i < k + size then k else i - size + 1
  }

  ghost predicate Expands(line: seq<seq<Token>>, k: nat, size: nat, after: seq<seq<Token>>) {
    && k < |line| && |after| == |line| - 1 + size
    && forall i {:trigger after[i]} :: 0 <= i < |after| ==>
      && 0 <= Source(k, size, i) < |line| && line[Source(k, size, i)] <= after[i]
      && (Source(k, size, i) != k ==> after[i] == line[Source(k, size, i)])
  }

  lemma VisitExpands(line: seq<seq<Token>>, k: nat, block: seq<seq<Token>>, copies: nat, tokens: seq<Token>)
    requires k < |line| && Leaves(line[k], block, copies, tokens)
    ensures Expands(line, k, |block|, Visited(line, k, block))
    ensures forall i {:trigger Visited(line, k, block)[i]} ::
      k <= i < k + |block| ==> Visited(line, k, block)[i] == block[i - k]
  {
    var after := Visited(line, k, block);
    forall i | 0 <= i < |after|
      ensures 0 <= Source(k, |block|, i) < |line| && line[Source(k, |block|, i)] <= after[i]
      ensures Source(k, |block|, i) != k ==> after[i] == line[Source(k, |block|, i)]
    {
      if k <= i < k + |block| {
        assert after[i] == block[i - k];
        if i - k >= copies {
          assert block[copies + (i - k - copies)] == line[k] + [tokens[i - k - copies]];
        }
      }
    }
  }

  /** Two entries of the block have the node in common and no more, unless they are equal. */
  lemma InBlock(n: seq<Token>, block: seq<seq<Token>>, copies: nat, tokens: seq<Token>, i: nat, j: nat)
    requires Leaves(n, block, copies, tokens) && i < j < |block|
    ensures CommonPrefix(block[i], block[j]) == |n|
  {
    if i < copies {
      assert block[i] == n;
      if j >= copies {
        assert block[copies + (j - copies)] == n + [tokens[j - copies]];
      }
      PrefixIffCommon(block[i], block[j], |n|);
    } else {
      var t, u := tokens[i - copies], tokens[j - copies];
      assert block[copies + (i - copies)] == n + [t] && block[copies + (j - copies)] == n + [u];
      PartAt(n, t, u, block[i], block[j]);
    }
  }

  /** Entries of different old positions have in common what their sources had. */
  lemma CommonOfSources(line: seq<seq<Token>>, k: nat, size: nat, after: seq<seq<Token>>, i: nat, j: nat)
    requires Expands(line, k, size, after) && Tip(line, k) && i < |after| && j < |after|
    requires Source(k, size, i) != Source(k, size, j)
    ensures 0 <= Source(k, size, i) < |line| && 0 <= Source(k, size, j) < |line|
    ensures CommonPrefix(after[i], after[j]) == CommonPrefix(line[Source(k, size, i)], line[Source(k, size, j)])
  {
    var x, y := line[Source(k, size, i)], line[Source(k, size, j)];
    assert x <= after[i] && y <= after[j];
    CommonSymmetric(x, y);
    CommonSymmetric(after[i], after[j]);
    if Source(k, size, j) == k {
      CommonExtends(x, y, after[j]);
    } else {
      CommonExtends(y, x, after[i]);
    }
  }

  lemma VisitKeepsTriple(line: seq<seq<Token>>, k: nat, block: seq<seq<Token>>, copies: nat, tokens: seq<Token>,
                         a: nat, b: nat, c: nat)
    requires k < |line| && Nested(line) && Tip(line, k) && Leaves(line[k], block, copies, tokens)
    requires a < b < c < |Visited(line, k, block)|
    ensures var after := Visited(line, k, block);
      CommonPrefix(after[a], after[c]) <= CommonPrefix(after[a], after[b])
  {
    hide Nested, Tip, Leaves, CommonPrefix;
    var after, size := Visited(line, k, block), |block|;
    VisitExpands(line, k, block, copies, tokens);
    var x, y, z := Source(k, size, a), Source(k, size, b), Source(k, size, c);
    if x == y {
      InBlock(line[k], block, copies, tokens, a - k, b - k);
      if y == z {
        InBlock(line[k], block, copies, tokens, a - k, c - k);
      } else {
        CommonOfSources(line, k, size, after, a, c);
        CommonShort(line[k], line[z]);
      }
    } else {
      CommonOfSources(line, k, size, after, a, b);
      CommonOfSources(line, k, size, after, a, c);
      if y != z {
        NestedAt(line, x, y, z);
      }
    }
  }

  lemma CommonShort(a: seq<Token>, b: seq<Token>)
    ensures CommonPrefix(a, b) <= |a|
  {
  }

  lemma NestedAt(line: seq<seq<Token>>, i: nat, j: nat, k: nat)
    requires Nested(line) && i < j < k < |line|
    ensures CommonPrefix(line[i], line[k]) <= CommonPrefix(line[i], line[j])
  {
    var x, y := CommonPrefix(line[i], line[j]), CommonPrefix(line[i], line[k]);
  }

  /** Visiting a node keeps the line nested. */
  lemma VisitNested(line: seq<seq<Token>>, k: nat, block: seq<seq<Token>>, copies: nat, tokens: seq<Token>)
    requires k < |line| && Nested(line) && Tip(line, k) && Leaves(line[k], block, copies, tokens)
    ensures Nested(Visited(line, k, block))
  {
    hide Leaves, Tip, CommonPrefix;
    var after := Visited(line, k, block);
    forall a, b, c | 0 <= a < b < c < |after|
      ensures CommonPrefix(after[a], after[c]) <= CommonPrefix(after[a], after[b])
    {
      VisitKeepsTriple(line, k, block, copies, tokens, a, b, c);
    }
  }

  /** Visiting a node whose children come in descending demand keeps the line ranked. */
  lemma VisitRanked(held: Pending, line: seq<seq<Token>>, k: nat, block: seq<seq<Token>>, copies: nat,
                    tokens: seq<Token>)
    requires k < |line| && Ranked(held, line) && Tip(line, k) && Leaves(line[k], block, copies, tokens)
    requires forall i, j {:trigger tokens[i], tokens[j]} :: 0 <= i < j < |tokens| ==>
      Demand(held, line[k] + [tokens[i]]) >= Demand(held, line[k] + [tokens[j]])
    ensures Ranked(held, Visited(line, k, block))
  {
    hide CommonPrefix, Demand;
    var after, size := Visited(line, k, block), |block|;
    VisitExpands(line, k, block, copies, tokens);
    forall a, b | 0 <= a < b < |after|
      ensures Outranks(held, after[a], after[b])
    {
      if Source(k, size, a) == Source(k, size, b) {
        BlockRanked(held, line[k], block, copies, tokens, a - k, b - k);
      } else {
        CommonOfSources(line, k, size, after, a, b);
        OutranksExtends(held, line[Source(k, size, a)], line[Source(k, size, b)], after[a], after[b]);
      }
    }
  }

  lemma BlockRanked(held: Pending, n: seq<Token>, block: seq<seq<Token>>, copies: nat, tokens: seq<Token>, i: nat,
                    j: nat)
    requires Leaves(n, block, copies, tokens) && i < j < |block|
    requires forall i, j {:trigger tokens[i], tokens[j]} :: 0 <= i < j < |tokens| ==>
      Demand(held, n + [tokens[i]]) >= Demand(held, n + [tokens[j]])
    ensures Outranks(held, block[i], block[j])
  {
    hide Demand, CommonPrefix;
    InBlock(n, block, copies, tokens, i, j);
    if i >= copies {
      var t, u := tokens[i - copies], tokens[j - copies];
      assert block[copies + (i - copies)] == n + [t] && block[copies + (j - copies)] == n + [u];
      assert block[i][..|n| + 1] == n + [t] && block[j][..|n| + 1] == n + [u];
    }
  }

  lemma OutranksExtends(held: Pending, a: seq<Token>, b: seq<Token>, a': seq<Token>, b': seq<Token>)
    requires Outranks(held, a, b) && a <= a' && b <= b' && CommonPrefix(a', b') == CommonPrefix(a, b)
    requires !(a <= b) || a == a'
    requires !(b <= a) || b == b'
    ensures Outranks(held, a', b')
  {
    hide Demand;
    var k := CommonPrefix(a, b);
    if k < |a'| && k < |b'| {
      WholeIsPrefix(a, b);
      WholeIsPrefix(b, a);
      assert a'[..k + 1] == a[..k + 1] && b'[..k + 1] == b[..k + 1];
    }
  }
}
