/** Depth-first traversals of the trie: what has been emitted and what the stack still covers. */
module TrieWalks {
  import opened Prelude
  import opened Demands
  import opened Sorting
  import opened Grouping
  import opened TrieOrder
  import opened Tries

  /** Some entry from position `k` on is at or above `p`. */
  ghost predicate Ahead(line: seq<Path>, k: nat, p: Path) {
    exists m {:trigger line[m]} :: k <= m < |line| && line[m] <= p
  }

  ghost predicate Tips(line: seq<Path>, k: nat) {
    k <= |line| && forall m {:trigger Tip(line, m)} :: k <= m < |line| ==> Tip(line, m)
  }

  /** The first `k` entries of the line are emitted: the prompts that no waiting entry covers. */
  ghost predicate Walked<N>(recs: map<Path, Rec<N>>, line: seq<Path>, k: nat) {
    && Nested(line) && Tips(line, k)
    && (forall m {:trigger line[m]} :: k <= m < |line| ==> line[m] in recs)
    && forall p {:trigger p in line[..k]} :: p in line[..k] <==> Emitted(recs, line, k, p)
  }

  ghost predicate Emitted<N>(recs: map<Path, Rec<N>>, line: seq<Path>, k: nat, p: Path) {
    p in recs && recs[p].list != [] && !Ahead(line, k, p)
  }

  ghost function Unvisited<N>(recs: map<Path, Rec<N>>, line: seq<Path>, k: nat): set<Path> {
    set p | p in recs && Ahead(line, k, p)
  }

  lemma WalkStarts<N>(recs: map<Path, Rec<N>>)
    requires [] in recs
    ensures Walked(recs, [[]], 0)
  {
    var line: seq<Path> := [[]];
    forall p
      ensures Ahead(line, 0, p)
    {
      assert line[0] <= p;
    }
  }

  ghost predicate Steps<N>(recs: map<Path, Rec<N>>, line: seq<Path>, k: nat, block: seq<Path>, copies: nat,
                           tokens: seq<Token>)
  {
    && k < |line| && Walked(recs, line, k) && Leaves(line[k], block, copies, tokens)
    && (copies > 0 <==> line[k] in recs && recs[line[k]].list != [])
    && forall t {:trigger t in tokens} :: t in tokens <==> line[k] + [t] in recs
  }

  /** Positions from `k + copies` on stand for the children and for what was waiting above. */
  lemma AfterAt(line: seq<Path>, k: nat, block: seq<Path>, copies: nat, tokens: seq<Token>, m: nat)
    requires k < |line| && Leaves(line[k], block, copies, tokens) && m < |Visited(line, k, block)|
    ensures var after := Visited(line, k, block);
      if m < k then after[m] == line[m]
      else if m < k + copies then after[m] == line[k]
      else if m < k + |block| then after[m] == line[k] + [tokens[m - k - copies]]
      else m - |block| + 1 < |line| && after[m] == line[m - |block| + 1]
  {
    if k + copies <= m < k + |block| {
      assert block[copies + (m - k - copies)] == line[k] + [tokens[m - k - copies]];
    }
  }

  /** A path is covered after the visit if it was before, and is not the visited one. */
  lemma AheadAfter<N>(recs: map<Path, Rec<N>>, line: seq<Path>, k: nat, block: seq<Path>, copies: nat,
                      tokens: seq<Token>, p: Path)
    requires Steps(recs, line, k, block, copies, tokens)
    requires p == line[k] || !(line[k] <= p) || line[k] + [p[|line[k]|]] in recs
    ensures Ahead(Visited(line, k, block), k + copies, p) <==> Ahead(line, k, p) && p != line[k]
  {
    var after, n := Visited(line, k, block), line[k];
    assert Tip(line, k);
    if Ahead(after, k + copies, p) {
      var m :| k + copies <= m < |after| && after[m] <= p;
      AfterAt(line, k, block, copies, tokens, m);
      if m < k + |block| {
        assert line[k] <= p;
      } else {
        assert line[m - |block| + 1] <= p;
        assert Tip(line, m - |block| + 1);
      }
    }
    if Ahead(line, k, p) && p != n {
      var m :| k <= m < |line| && line[m] <= p;
      if m == k {
        var t := p[|n|];
        assert t in tokens;
        var i :| 0 <= i < |tokens| && tokens[i] == t;
        AfterAt(line, k, block, copies, tokens, k + copies + i);
        assert after[k + copies + i] <= p;
      } else {
        AfterAt(line, k, block, copies, tokens, m + |block| - 1);
        assert after[m + |block| - 1] <= p;
      }
    }
  }

  lemma TipsAfter<N>(recs: map<Path, Rec<N>>, line: seq<Path>, k: nat, block: seq<Path>, copies: nat,
                     tokens: seq<Token>)
    requires Steps(recs, line, k, block, copies, tokens)
    ensures Tips(Visited(line, k, block), k + copies)
  {
    var after := Visited(line, k, block);
    forall m, i | k + copies <= m < |after| && 0 <= i < |after| && i != m
      ensures !(after[m] <= after[i])
    {
      TipPair(recs, line, k, block, copies, tokens, m, i);
    }
  }

  lemma TipPair<N>(recs: map<Path, Rec<N>>, line: seq<Path>, k: nat, block: seq<Path>, copies: nat, tokens: seq<Token>,
                   m: nat, i: nat)
    requires Steps(recs, line, k, block, copies, tokens)
    requires k + copies <= m < |Visited(line, k, block)| && i < |Visited(line, k, block)| && i != m
    ensures !(Visited(line, k, block)[m] <= Visited(line, k, block)[i])
  {
    hide Walked, Nested;
    var after, n, size := Visited(line, k, block), line[k], |block|;
    StepTips(recs, line, k, block, copies, tokens);
    AfterAt(line, k, block, copies, tokens, m);
    AfterAt(line, k, block, copies, tokens, i);
    assert Tip(line, k);
    if m >= k + size {
      var s := line[m - size + 1];
      assert Tip(line, m - size + 1) && !(n <= s);
      if k <= i < k + size && s <= after[i] {
        TooLong(s, n, after[i]);
      }
    } else {
      assert after[m][|n|] == tokens[m - k - copies];
      if k + copies <= i < k + size {
        assert after[i][|n|] == tokens[i - k - copies];
      } else if i < k || i >= k + size {
        assert !(n <= line[if i < k then i else i - size + 1]);
        PrefixChain(n, after[m], after[i]);
      }
    }
  }

  lemma StepTips<N>(recs: map<Path, Rec<N>>, line: seq<Path>, k: nat, block: seq<Path>, copies: nat, tokens: seq<Token>)
    requires Steps(recs, line, k, block, copies, tokens)
    ensures Tips(line, k)
  {
  }

  lemma PrefixChain(a: Path, b: Path, c: Path)
    ensures a <= b && b <= c ==> a <= c
  {
  }

  lemma TooLong(s: Path, n: Path, b: Path)
    requires s <= b && n <= b && |b| <= |n| + 1
    ensures s <= n || n <= s
  {
    if |s| <= |n| {
      PrefixStep(s, n, b);
    } else {
      PrefixStep(n, s, b);
    }
  }

  /** One pop of the traversal. */
  lemma WalkStep<N>(recs: map<Path, Rec<N>>, held: Pending, line: seq<Path>, k: nat, block: seq<Path>, copies: nat,
                    tokens: seq<Token>)
    requires Represents(recs, held) && Steps(recs, line, k, block, copies, tokens)
    ensures Walked(recs, Visited(line, k, block), k + copies)
    ensures Unvisited(recs, Visited(line, k, block), k + copies) < Unvisited(recs, line, k)
  {
    hide Nested, Tips, Tip;
    var after, n := Visited(line, k, block), line[k];
    TipsAfter(recs, line, k, block, copies, tokens);
    StepNested(recs, line, k, block, copies, tokens);
    forall p | p in recs
      ensures Ahead(after, k + copies, p) <==> Ahead(line, k, p) && p != n
    {
      NextInTrie(recs, held, n, p);
      AheadAfter(recs, line, k, block, copies, tokens, p);
    }
    assert line[k] <= n && n in Unvisited(recs, line, k);
    var next := k + copies;
    forall p
      ensures p in after[..next] <==> Emitted(recs, after, next, p)
    {
      EmittedAfter(recs, line, k, block, copies, tokens, p);
    }
    forall m | k + copies <= m < |after|
      ensures after[m] in recs
    {
      AfterAt(line, k, block, copies, tokens, m);
      if m < k + |block| {
        assert tokens[m - k - copies] in tokens;
      }
    }
  }

  lemma StepNested<N>(recs: map<Path, Rec<N>>, line: seq<Path>, k: nat, block: seq<Path>, copies: nat,
                      tokens: seq<Token>)
    requires Steps(recs, line, k, block, copies, tokens)
    ensures Nested(Visited(line, k, block))
  {
    assert Tip(line, k);
    VisitNested(line, k, block, copies, tokens);
  }

  /** The trie has a node one token below `n` toward every node under `n`. */
  lemma NextInTrie<N>(recs: map<Path, Rec<N>>, held: Pending, n: Path, p: Path)
    requires Represents(recs, held) && p in recs
    ensures p == n || !(n <= p) || n + [p[|n|]] in recs
  {
    if p != n && n <= p {
      var q := n + [p[|n|]];
      assert q <= p && CountFits(held, [], 0, 0, p, recs[p].count);
      DemandAntitone(held, q, p);
    }
  }

  lemma EmittedAfter<N>(recs: map<Path, Rec<N>>, line: seq<Path>, k: nat, block: seq<Path>, copies: nat,
                        tokens: seq<Token>, p: Path)
    requires Steps(recs, line, k, block, copies, tokens)
    requires p in recs ==> (Ahead(Visited(line, k, block), k + copies, p) <==> Ahead(line, k, p) && p != line[k])
    ensures p in Visited(line, k, block)[..k + copies] <==> Emitted(recs, Visited(line, k, block), k + copies, p)
  {
    hide Nested, Tips, Ahead;
    var after, n := Visited(line, k, block), line[k];
    assert after[..k + copies] == line[..k] + block[..copies];
    assert p in line[..k] <==> Emitted(recs, line, k, p);
    assert p in block[..copies] <==> copies > 0 && p == n by {
      if copies > 0 {
        assert block[..copies][0] == n;
      }
    }
    TopIsAhead(line, k);
  }

  lemma TopIsAhead(line: seq<Path>, k: nat)
    requires k < |line|
    ensures Ahead(line, k, line[k])
  {
  }

  /** Nothing waits any more. */
  lemma WalkEnds<N>(recs: map<Path, Rec<N>>, line: seq<Path>)
    requires Walked(recs, line, |line|)
    ensures Nested(line) && forall p {:trigger p in line} :: p in line <==> p in recs && recs[p].list != []
  {
    assert line[..|line|] == line;
    forall p
      ensures p in line <==> p in recs && recs[p].list != []
    {
      assert p in line[..|line|] <==> Emitted(recs, line, |line|, p);
    }
  }

  // ----- the traversals -----

  method ListTokens(keys: set<Token>) returns (tokens: seq<Token>)
    ensures NoDup(tokens) && forall t {:trigger t in tokens} :: t in tokens <==> t in keys
  {
    var todo := keys;
    tokens := [];
    while todo != {}
      invariant todo <= keys && NoDup(tokens)
      invariant forall t {:trigger t in tokens} :: t in tokens <==> t in keys && t !in todo
      decreases todo
    {
      var t :| t in todo;
      assert t !in tokens;
      NoDupConcat(tokens, [t]);
      todo := todo - {t};
      tokens := tokens + [t];
    }
  }

  /** Ascending order of the counts. */
  ghost predicate Ascends(counts: seq<nat>) {
    forall i, j :: 0 <= i < j < |counts| ==> counts[i] <= counts[j]
  }

  function CountKeys(counts: seq<nat>): (keys: seq<Key>)
    ensures |keys| == |counts| && forall i :: 0 <= i < |keys| ==> keys[i] == [counts[i] as real]
  {
    seq(|counts|, i requires 0 <= i < |counts| => [counts[i] as real])
  }

  lemma SortedAscends(counts: seq<nat>)
    ensures Ascends(Pick(counts, StableSort(CountKeys(counts))))
    ensures Permutes(StableSort(CountKeys(counts)), |counts|)
  {
    var keys := CountKeys(counts);
    var order := StableSort(keys);
    StableSortOrdered(keys);
    forall i, j | 0 <= i < j < |order|
      ensures counts[order[i]] <= counts[order[j]]
    {
      assert Before(keys, order[i], order[j]);
      LexHead(keys[order[j]], keys[order[i]]);
    }
  }

  /** The children of a node in the order they go on the stack: the most demanded last when counts
      matter, any order otherwise. */
  method PushOrder(trie: PrefixTrie, node: TrieNode, ghost p: Path, countAware: bool) returns (tokens: seq<Token>)
    requires trie.Valid() && p in trie.at && node == trie.at[p]
    ensures NoDup(tokens)
    ensures forall t {:trigger t in tokens} :: t in tokens <==> t in node.children
    ensures countAware ==> forall i, j :: 0 <= i < j < |tokens| ==>
      Demand(trie.held, p + [tokens[i]]) <= Demand(trie.held, p + [tokens[j]])
  {
    hide Represents, Wired, Short, PrefixTrie.Synced, Demand, Permutes;
    tokens := ListTokens(node.children.Keys);
    forall t | t in tokens
      ensures t in node.children && node.children[t].count == Demand(trie.held, p + [t])
    {
      ChildCount(trie, p, t);
    }
    if countAware && |tokens| > 1 {
      var listed := tokens;
      var counts := seq(|listed|,
        i requires 0 <= i < |listed| && listed[i] in node.children reads node, node.children.Values =>
          node.children[listed[i]].count);
      var order := StableSort(CountKeys(counts));
      SortedAscends(counts);
      tokens := Pick(listed, order);
      PickAll(listed, order);
      forall i, j | 0 <= i < j < |tokens|
        ensures Demand(trie.held, p + [tokens[i]]) <= Demand(trie.held, p + [tokens[j]])
      {
        assert Pick(counts, order)[i] <= Pick(counts, order)[j];
        assert listed[order[i]] in listed && listed[order[j]] in listed;
      }
    }
  }

  lemma PickAll<T>(s: seq<T>, order: seq<nat>)
    requires Permutes(order, |s|) && NoDup(s)
    ensures NoDup(Pick(s, order)) && forall x {:trigger x in Pick(s, order)} :: x in Pick(s, order) <==> x in s
  {
    forall x
      ensures x in Pick(s, order) <==> x in s
    {
      if x in s {
        PickKeeps(s, order, x);
      }
    }
  }

  lemma ChildCount(trie: PrefixTrie, p: Path, t: Token)
    requires trie.Valid() && p in trie.at && t in trie.at[p].children
    ensures p + [t] in trie.at && trie.at[p].children[t].count == Demand(trie.held, p + [t])
  {
    trie.KidIs(p, t);
    trie.NodeIs(p + [t]);
    assert CountFits(trie.held, [], 0, 0, p + [t], trie.recs[p + [t]].count);
  }

  /** The stack, seen from the line: its top is the first entry that is not emitted. */
  ghost predicate OnStack<N>(at: map<Path, N>, stack: seq<N>, line: seq<Path>, k: nat) {
    |line| == k + |stack| && forall i {:trigger Spot(at, stack, line, i)} ::
      0 <= i < |stack| ==> Spot(at, stack, line, i)
  }

  ghost predicate Spot<N>(at: map<Path, N>, stack: seq<N>, line: seq<Path>, i: nat)
    requires i < |stack| <= |line|
  {
    var p := line[|line| - 1 - i];
    p in at && stack[i] == at[p]
  }

  /** The children popped in the reverse of the order they were pushed in. */
  ghost function Popped(n: Path, copies: nat, tokens: seq<Token>): (block: seq<Path>)
    ensures |block| == copies + |tokens|
    ensures forall i :: 0 <= i < |block| ==>
      block[i] == if i < copies then n else n + [tokens[|block| - 1 - i]]
  {
    seq(copies + |tokens|, i requires 0 <= i < copies + |tokens| =>
      if i < copies then n else n + [tokens[copies + |tokens| - 1 - i]])
  }

  ghost function Backward<T>(s: seq<T>): (r: seq<T>)
    ensures |r| == |s| && forall i :: 0 <= i < |r| ==> r[i] == s[|s| - 1 - i]
  {
    seq(|s|, i requires 0 <= i < |s| => s[|s| - 1 - i])
  }

  lemma PoppedLeaves(n: Path, copies: nat, tokens: seq<Token>)
    requires NoDup(tokens)
    ensures Leaves(n, Popped(n, copies, tokens), copies, Backward(tokens))
    ensures forall t {:trigger t in Backward(tokens)} :: t in Backward(tokens) <==> t in tokens
  {
    var back := Backward(tokens);
    forall t
      ensures t in back <==> t in tokens
    {
      if t in tokens {
        var i :| 0 <= i < |tokens| && tokens[i] == t;
        assert back[|tokens| - 1 - i] == t;
      }
    }
  }

  ghost predicate KidsFor<N>(children: map<Token, N>, tokens: seq<Token>, kids: seq<N>) {
    |kids| <= |tokens| && forall i {:trigger KidFor(children, tokens, kids, i)} ::
      0 <= i < |kids| ==> KidFor(children, tokens, kids, i)
  }

  ghost predicate KidFor<N>(children: map<Token, N>, tokens: seq<Token>, kids: seq<N>, i: nat)
    requires i < |kids| <= |tokens|
  {
    tokens[i] in children && kids[i] == children[tokens[i]]
  }

  method KidNodes(node: TrieNode, tokens: seq<Token>) returns (kids: seq<TrieNode>)
    requires forall t {:trigger t in tokens} :: t in tokens ==> t in node.children
    ensures |kids| == |tokens| && KidsFor(node.children, tokens, kids)
  {
    kids := [];
    while |kids| < |tokens|
      invariant KidsFor(node.children, tokens, kids)
    {
      ghost var was := kids;
      assert tokens[|kids|] in tokens;
      kids := kids + [node.children[tokens[|kids|]]];
      forall i | 0 <= i < |kids|
        ensures KidFor(node.children, tokens, kids, i)
      {
        if i < |was| {
          assert KidFor(node.children, tokens, was, i);
        }
      }
    }
  }

  lemma StackAfter<N>(at: map<Path, N>, children: map<Token, N>, stack: seq<N>, line: seq<Path>, k: nat, copies: nat,
                      tokens: seq<Token>, kids: seq<N>)
    requires OnStack(at, stack, line, k) && stack != [] && |kids| == |tokens| && KidsFor(children, tokens, kids)
    requires forall t {:trigger t in tokens} ::
      t in tokens ==> t in children && line[k] + [t] in at && children[t] == at[line[k] + [t]]
    ensures OnStack(at, stack[..|stack| - 1] + kids, Visited(line, k, Popped(line[k], copies, tokens)), k + copies)
  {
    var block := Popped(line[k], copies, tokens);
    var next, after := stack[..|stack| - 1] + kids, Visited(line, k, block);
    forall i | 0 <= i < |next|
      ensures Spot(at, next, after, i)
    {
      if i < |stack| - 1 {
        assert Spot(at, stack, line, i);
      } else {
        var j := i - (|stack| - 1);
        assert tokens[j] in tokens && KidFor(children, tokens, kids, j);
        assert |after| - 1 - i == k + (|block| - 1 - j);
        assert after[k + (|block| - 1 - j)] == block[|block| - 1 - j] == line[k] + [tokens[j]];
      }
    }
  }

  /** A stack of nodes with their paths. */
  ghost predicate Paired<N>(stack: seq<(N, Path)>, nodes: seq<N>, line: seq<Path>) {
    |stack| == |nodes| <= |line| && forall i {:trigger PairAt(stack, nodes, line, i)} ::
      0 <= i < |stack| ==> PairAt(stack, nodes, line, i)
  }

  ghost predicate PairAt<N>(stack: seq<(N, Path)>, nodes: seq<N>, line: seq<Path>, i: nat)
    requires i < |stack| == |nodes| <= |line|
  {
    stack[i].0 == nodes[i] && stack[i].1 == line[|line| - 1 - i]
  }

  lemma PairsAfter<N>(stack: seq<(N, Path)>, nodes: seq<N>, line: seq<Path>, k: nat, copies: nat, tokens: seq<Token>,
                      kids: seq<N>, pushed: seq<(N, Path)>)
    requires Paired(stack, nodes, line) && stack != [] && |line| == k + |stack| && |kids| == |tokens| == |pushed|
    requires forall i {:trigger pushed[i]} :: 0 <= i < |pushed| ==> pushed[i] == (kids[i], line[k] + [tokens[i]])
    ensures Paired(stack[..|stack| - 1] + pushed, nodes[..|nodes| - 1] + kids,
      Visited(line, k, Popped(line[k], copies, tokens)))
  {
    var block := Popped(line[k], copies, tokens);
    var next, more, after := stack[..|stack| - 1] + pushed, nodes[..|nodes| - 1] + kids, Visited(line, k, block);
    forall i | 0 <= i < |next|
      ensures PairAt(next, more, after, i)
    {
      if i < |stack| - 1 {
        assert PairAt(stack, nodes, line, i);
      } else {
        var j := i - (|stack| - 1);
        assert next[i] == pushed[j];
        assert |after| - 1 - i == k + (|block| - 1 - j);
        assert after[k + (|block| - 1 - j)] == block[|block| - 1 - j] == line[k] + [tokens[j]];
      }
    }
  }

  lemma PairedTop<N>(stack: seq<(N, Path)>, nodes: seq<N>, line: seq<Path>, k: nat)
    requires Paired(stack, nodes, line) && stack != [] && |line| == k + |stack|
    ensures |nodes| == |stack| && stack[|stack| - 1] == (nodes[|nodes| - 1], line[k])
  {
    assert PairAt(stack, nodes, line, |stack| - 1);
  }

  /** The emitted prompts, one for each emitted entry of the line. */
  ghost predicate Emits(held: Pending, line: seq<Path>, order: seq<nat>) {
    && NoDup(order) && |order| <= |line|
    && (forall i {:trigger order[i]} :: 0 <= i < |order| ==> order[i] in held && held[order[i]] == line[i])
    && forall x {:trigger x in order} :: x in held && held[x] in line[..|order|] ==> x in order
  }

  lemma EmitMore<N>(recs: map<Path, Rec<N>>, held: Pending, line: seq<Path>, order: seq<nat>, list: seq<nat>,
                    tokens: seq<Token>)
    requires |order| < |line| && Emits(held, line, order) && Walked(recs, line, |order|)
    requires ListFits(held, line[|order|], list)
    ensures Emits(held, Visited(line, |order|, Popped(line[|order|], |list|, tokens)), order + list)
  {
    hide Nested, Tips;
    var k := |order|;
    var n, block := line[k], Popped(line[k], |list|, tokens);
    var after, more := Visited(line, k, block), order + list;
    assert n in line[..k] <==> Emitted(recs, line, k, n);
    TopIsAhead(line, k);
    forall x | x in order
      ensures x !in list
    {
      var i :| 0 <= i < k && order[i] == x;
      assert line[..k][i] == held[x];
    }
    NoDupConcat(order, list);
    forall i | 0 <= i < |more|
      ensures more[i] in held && held[more[i]] == after[i]
    {
      if i < k {
        assert more[i] == order[i] && after[i] == line[i];
      } else {
        assert more[i] == list[i - k] && list[i - k] in list;
        assert after[i] == block[i - k];
      }
    }
    forall x | x in held && held[x] in after[..|more|]
      ensures x in more
    {
      var i :| 0 <= i < |more| && after[..|more|][i] == held[x];
      if i < k {
        assert line[..k][i] == held[x];
        assert x in order;
      } else {
        assert after[i] == block[i - k];
      }
    }
  }

  /** What one pop leaves: the walk goes on from the visited line. */
  lemma PopKeeps(trie: PrefixTrie, stack: seq<TrieNode>, line: seq<Path>, k: nat, copies: nat, tokens: seq<Token>,
                 kids: seq<TrieNode>, countAware: bool)
    requires trie.Valid() && OnStack(trie.at, stack, line, k) && stack != [] && Walked(trie.recs, line, k)
    requires NoDup(tokens)
    requires line[k] in trie.at && line[k] in trie.recs && (copies > 0 <==> trie.recs[line[k]].list != [])
    requires forall t {:trigger t in tokens} :: t in tokens <==> t in trie.at[line[k]].children
    requires |kids| == |tokens| && KidsFor(trie.at[line[k]].children, tokens, kids)
    requires countAware ==> Ranked(trie.held, line) && forall i, j :: 0 <= i < j < |tokens| ==>
      Demand(trie.held, line[k] + [tokens[i]]) <= Demand(trie.held, line[k] + [tokens[j]])
    ensures var after := Visited(line, k, Popped(line[k], copies, tokens));
      && OnStack(trie.at, stack[..|stack| - 1] + kids, after, k + copies) && Walked(trie.recs, after, k + copies)
      && (countAware ==> Ranked(trie.held, after))
      && Unvisited(trie.recs, after, k + copies) < Unvisited(trie.recs, line, k)
  {
    hide Represents, Wired, Short, PrefixTrie.Synced, Demand, Nested, Tips, Emitted, Ranked;
    var n := line[k];
    trie.RootIs();
    forall t
      ensures t in tokens <==> n + [t] in trie.recs
      ensures t in tokens ==> trie.at[n].children[t] == trie.at[n + [t]]
    {
      trie.KidIs(n, t);
    }
    PoppedLeaves(n, copies, tokens);
    StackAfter(trie.at, trie.at[n].children, stack, line, k, copies, tokens, kids);
    WalkStep(trie.recs, trie.held, line, k, Popped(n, copies, tokens), copies, Backward(tokens));
    if countAware {
      TipsAt(trie.recs, line, k);
      VisitRanked(trie.held, line, k, Popped(n, copies, tokens), copies, Backward(tokens));
    }
  }

  lemma TipsAt<N>(recs: map<Path, Rec<N>>, line: seq<Path>, k: nat)
    requires Walked(recs, line, k) && k < |line|
    ensures Tip(line, k)
  {
  }

  lemma TopOf(trie: PrefixTrie, stack: seq<TrieNode>, line: seq<Path>, k: nat)
    requires trie.Valid() && OnStack(trie.at, stack, line, k) && stack != []
    ensures line[k] in trie.at && stack[|stack| - 1] == trie.at[line[k]] && line[k] in trie.recs
    ensures stack[|stack| - 1].promptIndices == Indices(trie.index, trie.recs[line[k]].list)
    ensures ListFits(trie.held, line[k], trie.recs[line[k]].list)
  {
    assert Spot(trie.at, stack, line, |stack| - 1);
    trie.NodeIs(line[k]);
  }

  ghost function PromptPaths(held: Pending, order: seq<nat>): (line: seq<Path>)
    requires forall i :: 0 <= i < |order| ==> order[i] in held
    ensures |line| == |order| && forall i :: 0 <= i < |line| ==> line[i] == held[order[i]]
  {
    seq(|order|, i requires 0 <= i < |order| => held[order[i]])
  }

  /** The index of every stored prompt, once for each time it was inserted, prompts with a common
      prefix together, and where counts matter the larger of two sibling groups first. */
  method DfsOrder(trie: PrefixTrie, countAware: bool) returns (order: seq<nat>, ghost entries: seq<nat>)
    requires trie.Valid()
    ensures order == Indices(trie.index, entries)
    ensures NoDup(entries) && forall x {:trigger x in entries} :: x in entries <==> x in trie.held
    ensures (forall i :: 0 <= i < |entries| ==> entries[i] in trie.held) && Nested(PromptPaths(trie.held, entries))
    ensures countAware ==> Ranked(trie.held, PromptPaths(trie.held, entries))
    ensures trie.FreshIndices() ==> order == entries
  {
    hide Represents, Wired, Short, PrefixTrie.Synced, Demand, Walked, Unvisited, OnStack, Ranked, Emits;
    var stack := [trie.root];
    order, entries := [], [];
    ghost var line: seq<Path> := [[]];
    TraversalStarts(trie);
    while stack != []
      invariant OnStack(trie.at, stack, line, |entries|) && Walked(trie.recs, line, |entries|)
      invariant Emits(trie.held, line, entries) && order == Indices(trie.index, entries)
      invariant countAware ==> Ranked(trie.held, line)
      decreases Unvisited(trie.recs, line, |entries|)
    {
      ghost var p := line[|entries|] by { LineHasTop(trie, stack, line, |entries|); }
      TopOf(trie, stack, line, |entries|) by { LineHasTop(trie, stack, line, |entries|); }
      var n := stack[|stack| - 1];
      var tokens := PushOrder(trie, n, p, countAware);
      var kids := KidNodes(n, tokens);
      ghost var list := trie.recs[p].list;
      PopKeeps(trie, stack, line, |entries|, |list|, tokens, kids, countAware);
      EmitMore(trie.recs, trie.held, line, entries, list, tokens);
      line := Visited(line, |entries|, Popped(p, |list|, tokens));
      order := order + n.promptIndices;
      IndicesConcat(trie.index, entries, list);
      entries := entries + list;
      stack := stack[..|stack| - 1] + kids;
    }
    TraversalEnds(trie, line, entries);
    if trie.FreshIndices() {
      OwnIndices(trie.index, entries);
    }
  }

  /** The path of every non-empty group once, in the same order. */
  method DfsGroupKeys(trie: PrefixTrie, countAware: bool) returns (keys: seq<Path>)
    requires trie.Valid()
    ensures NoDup(keys) && forall p {:trigger p in keys} :: p in keys <==> EndingAt(trie.held, p) != {}
    ensures Nested(keys) && (countAware ==> Ranked(trie.held, keys))
  {
    hide Represents, Wired, Short, PrefixTrie.Synced, PrefixTrie.Valid, Demand, Walked, Unvisited, OnStack, Ranked,
      Paired, Visited, Popped, KidsFor, NoDup, Nested;
    var stack := [(trie.root, [])];
    keys := [];
    ghost var line: seq<Path> := [[]];
    ghost var nodes: seq<TrieNode> := [trie.root];
    TraversalStarts(trie);
    while stack != []
      invariant Paired(stack, nodes, line) && |line| == |keys| + |stack|
      invariant OnStack(trie.at, nodes, line, |keys|) && Walked(trie.recs, line, |keys|)
      invariant keys == line[..|keys|] && NoDup(keys)
      invariant countAware ==> Ranked(trie.held, line)
      decreases Unvisited(trie.recs, line, |keys|)
    {
      PairedTop(stack, nodes, line, |keys|);
      TopOf(trie, nodes, line, |keys|);
      var (n, path) := stack[|stack| - 1];
      var tokens := PushOrder(trie, n, path, countAware);
      var kids := KidNodes(n, tokens);
      var copies := if n.promptIndices != [] then 1 else 0;
      PopKeeps(trie, nodes, line, |keys|, copies, tokens, kids, countAware);
      KeyIsNew(trie.recs, line, |keys|);
      VisitedFront(line, |keys|, copies, tokens);
      ghost var k := |keys|;
      if n.promptIndices != [] {
        NoDupConcat(keys, [path]);
        keys := keys + [path];
      }
      var pushed := seq(|tokens|, i requires 0 <= i < |tokens| && i < |kids| => (kids[i], path + [tokens[i]]));
      PairsAfter(stack, nodes, line, k, copies, tokens, kids, pushed);
      stack := stack[..|stack| - 1] + pushed;
      nodes := nodes[..|nodes| - 1] + kids;
      line := Visited(line, k, Popped(path, copies, tokens));
    }
    assert line[..|keys|] == line;
    KeysEnd(trie, line);
  }

  lemma TraversalStarts(trie: PrefixTrie)
    requires trie.Valid()
    ensures Paired([(trie.root, [])], [trie.root], [[]]) && NoDup<Path>([])
    ensures OnStack(trie.at, [trie.root], [[]], 0) && Walked(trie.recs, [[]], 0) && Emits(trie.held, [[]], [])
    ensures Ranked(trie.held, [[]])
  {
    WalkStarts(trie.recs);
  }

  lemma LineHasTop(trie: PrefixTrie, stack: seq<TrieNode>, line: seq<Path>, k: nat)
    requires OnStack(trie.at, stack, line, k) && stack != []
    ensures k < |line|
  {
  }

  lemma VisitedFront(line: seq<Path>, k: nat, copies: nat, tokens: seq<Token>)
    requires k < |line| && copies <= 1
    ensures Visited(line, k, Popped(line[k], copies, tokens))[..k + copies] ==
      if copies == 1 then line[..k] + [line[k]] else line[..k]
    ensures |Visited(line, k, Popped(line[k], copies, tokens))| == |line| - 1 + copies + |tokens|
  {
    var after := Visited(line, k, Popped(line[k], copies, tokens));
    if copies == 1 {
      assert after[k] == Popped(line[k], copies, tokens)[0];
    }
  }

  lemma KeyIsNew<N>(recs: map<Path, Rec<N>>, line: seq<Path>, k: nat)
    requires Walked(recs, line, k) && k < |line|
    ensures line[k] !in line[..k]
  {
    TopIsAhead(line, k);
    assert line[k] in line[..k] <==> Emitted(recs, line, k, line[k]);
  }

  lemma TraversalEnds(trie: PrefixTrie, line: seq<Path>, order: seq<nat>)
    requires trie.Valid() && OnStack(trie.at, [], line, |order|) && Walked(trie.recs, line, |order|)
    requires Emits(trie.held, line, order)
    ensures NoDup(order) && forall x {:trigger x in order} :: x in order <==> x in trie.held
    ensures (forall i :: 0 <= i < |order| ==> order[i] in trie.held) && PromptPaths(trie.held, order) == line
    ensures Nested(line)
  {
    WalkEnds(trie.recs, line);
    assert line[..|order|] == line;
    forall x | x in trie.held
      ensures x in order
    {
      PromptListed(trie, x);
      assert trie.held[x] in line;
    }
  }

  lemma PromptListed(trie: PrefixTrie, x: nat)
    requires trie.Valid() && x in trie.held
    ensures trie.held[x] in trie.recs && x in trie.recs[trie.held[x]].list
  {
    var p := trie.held[x];
    DemandWitness(trie.held, p, x);
    assert p in trie.recs;
    assert ListFits(trie.held, p, trie.recs[p].list);
  }

  lemma KeysEnd(trie: PrefixTrie, line: seq<Path>)
    requires trie.Valid() && Walked(trie.recs, line, |line|)
    ensures Nested(line) && forall p {:trigger p in line} :: p in line <==> EndingAt(trie.held, p) != {}
  {
    WalkEnds(trie.recs, line);
    forall p
      ensures p in line <==> EndingAt(trie.held, p) != {}
    {
      if x :| x in EndingAt(trie.held, p) {
        PromptListed(trie, x);
      }
      if p in line {
        assert ListFits(trie.held, p, trie.recs[p].list);
        HeadIn(trie.recs[p].list);
        assert trie.recs[p].list[0] in EndingAt(trie.held, p);
      }
    }
  }
}
