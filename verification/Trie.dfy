/**
 The offline prefix trie of trie.py: one node object per token, updated in place.  `at` names
 the node of every path, `held` the prompts the trie stands for, cut at the maximum depth, one
 entry for every insert: a prompt index may be inserted again, and `index` says which one an
 entry came with.
 */
module Tries {
  import opened Prelude
  import opened Demands
  import opened Sorting
  import opened Grouping

  type Path = seq<Token>

  /** The child table of the node at `p` leads to the nodes one token below. */
  ghost predicate KidsAt<N>(at: map<Path, N>, p: Path, children: map<Token, N>) {
    && (forall t {:trigger children[t]} :: t in children ==> p + [t] in at && children[t] == at[p + [t]])
    && forall t {:trigger p + [t]} :: p + [t] in at ==> t in children
  }

  ghost predicate Closed(keys: set<Path>) {
    [] in keys && forall p {:trigger p in keys} :: p in keys && p != [] ==> p[..|p| - 1] in keys
  }

  datatype Step<N> = Step(parent: N, token: Token, child: N)

  /** The contents of a node. */
  datatype Rec<N> = Rec(children: map<Token, N>, list: seq<nat>, count: nat)

  /** Every node is where its parent's child table says. */
  ghost predicate Wired<N>(at: map<Path, N>, recs: map<Path, Rec<N>>) {
    && Closed(at.Keys) && recs.Keys == at.Keys
    && forall p {:trigger recs[p]} :: p in recs ==> KidsAt(at, p, recs[p].children)
  }

  class TrieNode {
    var children: map<Token, TrieNode>
    var promptIndices: seq<nat>
    var count: nat

    constructor ()
      ensures children == map[] && promptIndices == [] && count == 0
    {
      children, promptIndices, count := map[], [], 0;
    }

    ghost function Record(): Rec<TrieNode>
      reads this
    {
      Rec<TrieNode>.Rec(children, promptIndices, count)
    }
  }

  /** The prompt indices the entries came with. */
  ghost function Indices(index: map<nat, nat>, entries: seq<nat>): (list: seq<nat>)
    ensures |list| == |entries|
    ensures forall i :: 0 <= i < |entries| ==> list[i] == IndexOf(index, entries[i])
  {
    seq(|entries|, i requires 0 <= i < |entries| => IndexOf(index, entries[i]))
  }

  /** The node holds the record, with prompt indices for entries. */
  ghost predicate Shows<N>(shown: Rec<N>, rec: Rec<N>, index: map<nat, nat>) {
    shown == rec.(list := Indices(index, rec.list))
  }

  class PrefixTrie {
    const maxDepth: nat
    var root: TrieNode
    var numPrompts: nat
    ghost var at: map<Path, TrieNode>
    ghost var recs: map<Path, Rec<TrieNode>>
    ghost var held: Pending
    ghost var index: map<nat, nat>

    /** Different paths have different nodes, and these hold what `recs` says. */
    ghost predicate Synced()
      reads this`at, this`recs, this`root, this`index, at.Values
    {
      && [] in at && at[[]] == root && recs.Keys == at.Keys
      && (forall p, q {:trigger at[p], at[q]} :: p in at && q in at && p != q ==> at[p] != at[q])
      && forall p {:trigger at[p]} :: p in at ==> Shows(at[p].Record(), recs[p], index)
    }

    ghost predicate Valid()
      reads this, at.Values
    {
      && Synced() && Wired(at, recs) && Represents(recs, held) && numPrompts == |held| && Short(held, maxDepth)
      && held.Keys <= index.Keys
    }

    /** Every prompt index was new when it was inserted, and names its entry. */
    ghost predicate FreshIndices()
      reads this`held, this`index
    {
      OwnNames(held, index)
    }

    constructor (maxDepth: nat)
      ensures Valid() && FreshIndices() && held == map[] && this.maxDepth == maxDepth && fresh(at.Values)
    {
      this.maxDepth := maxDepth;
      root := new TrieNode();
      numPrompts := 0;
      at, recs, held, index := map[], map[], map[], map[];
      new;
      at, recs := map[[] := root], map[[] := root.Record()];
      EmptyTrie(at, recs);
    }

    // ----- one write at a time -----

    method WriteNode(ghost p: Path, node: TrieNode, children: map<Token, TrieNode>,
                     list: seq<nat>, ghost entries: seq<nat>, count: nat)
      requires Synced() && p in at && node == at[p] && list == Indices(index, entries)
      modifies this`recs, node
      ensures Synced() && recs == old(recs)[p := Rec<TrieNode>.Rec(children, entries, count)]
    {
      node.children := children;
      node.promptIndices := list;
      node.count := count;
      recs := recs[p := Rec<TrieNode>.Rec(children, entries, count)];
      forall q | q in at
        ensures Shows(at[q].Record(), recs[q], index)
      {
        if q != p {
          assert at[q].Record() == old(at[q].Record());
        }
      }
    }

    /** A new, empty node at `p`. */
    method NewNode(ghost p: Path) returns (child: TrieNode)
      requires Synced() && p !in at
      modifies this`at, this`recs
      ensures Synced() && fresh(child) && at == old(at)[p := child]
      ensures recs == old(recs)[p := Rec<TrieNode>.Rec(map[], [], 0)]
    {
      child := new TrieNode();
      at, recs := at[p := child], recs[p := Rec<TrieNode>.Rec(map[], [], 0)];
      forall q | q in at
        ensures Shows(at[q].Record(), recs[q], index)
      {
        if q != p {
          assert at[q].Record() == old(at[q].Record());
        }
      }
    }

    /** Note the prompt index of an entry that nothing lists yet. */
    ghost method Name(entry: nat, promptIndex: nat)
      requires Synced() && Listed(recs, held) && entry !in held
      modifies this`index
      ensures Synced() && index == old(index)[entry := promptIndex]
    {
      index := index[entry := promptIndex];
      forall q | q in at
        ensures Shows(at[q].Record(), recs[q], index)
      {
        assert Shows(at[q].Record(), recs[q], old(index)) && ListFits(held, q, recs[q].list);
        assert entry !in recs[q].list;
        assert Indices(index, recs[q].list) == Indices(old(index), recs[q].list);
      }
    }

    ghost method Forget(p: Path)
      requires Synced() && p in at && p != []
      modifies this`at, this`recs
      ensures Synced() && at == old(at) - {p} && recs == old(recs) - {p}
    {
      at, recs := at - {p}, recs - {p};
    }

    lemma NodeIs(p: Path)
      requires Synced() && p in at
      ensures p in recs && at[p].children == recs[p].children && at[p].count == recs[p].count
      ensures at[p].promptIndices == Indices(index, recs[p].list)
      ensures [] in at && at[[]] == root
    {
      assert Shows(at[p].Record(), recs[p], index);
    }

    method AddChild(ghost p: Path, node: TrieNode, t: Token)
      requires Synced() && Wired(at, recs) && p in at && node == at[p] && p + [t] !in at
      modifies this`at, this`recs, node
      ensures Synced() && Wired(at, recs) && p + [t] in at && fresh(at[p + [t]])
      ensures at == old(at)[p + [t] := at[p + [t]]]
      ensures SameData(old(recs), recs) && recs.Keys == old(recs).Keys + {p + [t]} && recs[p + [t]].list == []
      ensures recs[p + [t]].count == 0
    {
      hide Wired, Synced, KidsAt;
      PathLonger(p, t);
      var child := NewNode(p + [t]);
      NodeIs(p);
      WriteNode(p, node, node.children[t := child], node.promptIndices, recs[p].list, node.count);
      WiredGrows(old(at), old(recs), p, t, child);
    }

    method DropChild(ghost p: Path, node: TrieNode, t: Token)
      requires Synced() && Wired(at, recs) && p in at && node == at[p] && p + [t] in at && at[p + [t]].children == map[]
      modifies this`at, this`recs, node
      ensures Synced() && Wired(at, recs) && at == old(at) - {p + [t]}
      ensures SameData(recs, old(recs)) && recs.Keys == old(recs).Keys - {p + [t]}
    {
      hide Wired, Synced, KidsAt;
      PathLonger(p, t);
      NodeIs(p);
      NodeIs(p + [t]);
      WriteNode(p, node, node.children - {t}, node.promptIndices, recs[p].list, node.count);
      Forget(p + [t]);
      WiredShrinks(old(at), old(recs), p, t);
    }

    // ----- insert -----

    /** The node one token below, made if it is missing; nobody is counted in yet. */
    method EnsureChild(ghost tokens: Path, ghost i: nat, node: TrieNode, t: Token) returns (child: TrieNode)
      requires Synced() && Wired(at, recs) && i < |tokens| && tokens[i] == t && tokens[..i] in at
      requires node == at[tokens[..i]]
      requires PassCounts(recs, held, tokens, i, 1) && Listed(recs, held)
      modifies this`at, this`recs, node
      ensures Synced() && Wired(at, recs) && tokens[..i + 1] in at && child == at[tokens[..i + 1]]
      ensures recs.Keys == at.Keys
      ensures PassCountsBut(recs, held, tokens, i, tokens[..i + 1]) && Listed(recs, held)
      ensures recs[tokens[..i + 1]].count == Demand(held, tokens[..i + 1])
      ensures fresh(at.Values - old(at.Values))
    {
      hide Synced, Wired, PassCounts, PassCountsBut, Listed, KidsAt, Demand;
      ghost var p := tokens[..i];
      assert tokens[..i + 1] == p + [t];
      KidIs(p, t);
      RootIs();
      if t !in node.children {
        AddChild(p, node, t);
        NewNodeFits(old(recs), recs, held, tokens, i, p + [t]);
      } else {
        OldNodeFits(recs, held, tokens, i, p + [t]);
      }
      KidIs(p, t);
      RootIs();
      child := node.children[t];
    }

    /** Go down by one token and count one more prompt in. */
    method Enter(ghost tokens: Path, ghost i: nat, node: TrieNode, t: Token) returns (child: TrieNode)
      requires Synced() && Wired(at, recs) && i < |tokens| && tokens[i] == t && tokens[..i] in at
      requires node == at[tokens[..i]]
      requires PassCounts(recs, held, tokens, i, 1) && Listed(recs, held)
      modifies this`at, this`recs, at.Values
      ensures Synced() && Wired(at, recs) && tokens[..i + 1] in at && child == at[tokens[..i + 1]]
      ensures PassCounts(recs, held, tokens, i + 1, 1) && Listed(recs, held)
      ensures fresh(at.Values - old(at.Values))
    {
      hide Synced, Wired, PassCounts, PassCountsBut, Listed, KidsAt, Demand;
      child := EnsureChild(tokens, i, node, t);
      ghost var was := recs;
      NodeIs(tokens[..i + 1]);
      ghost var q := tokens[..i + 1];
      WriteNode(q, child, child.children, child.promptIndices, recs[q].list, child.count + 1);
      WiredData(at, was, recs);
      CountUp(was, recs, held, tokens, i);
    }

    lemma KidIs(p: Path, t: Token)
      requires Synced() && Wired(at, recs) && p in at
      ensures t in at[p].children <==> p + [t] in at
      ensures t in at[p].children ==> at[p].children[t] == at[p + [t]]
    {
      NodeIs(p);
      assert KidsAt(at, p, recs[p].children);
    }

    /** Go down the whole path, counting one more prompt in all the way. */
    method CountIn(tokens: Path) returns (node: TrieNode)
      requires Synced() && Wired(at, recs) && PassCounts(recs, held, tokens, 0, 1) && Listed(recs, held)
      modifies this`at, this`recs, at.Values
      ensures Synced() && Wired(at, recs) && tokens in at && node == at[tokens]
      ensures PassCounts(recs, held, tokens, |tokens|, 1) && Listed(recs, held)
      ensures fresh(at.Values - old(at.Values))
    {
      hide Synced, Wired, PassCounts, Listed;
      node := root;
      RootIs();
      var i := 0;
      while i < |tokens|
        invariant i <= |tokens| && Synced() && Wired(at, recs) && tokens[..i] in at && node == at[tokens[..i]]
        invariant PassCounts(recs, held, tokens, i, 1) && Listed(recs, held)
        invariant fresh(at.Values - old(at.Values))
      {
        node := Enter(tokens, i, node, tokens[i]);
        i := i + 1;
      }
      assert tokens[..i] == tokens;
    }

    /** Add a prompt, by its first `maxDepth` tokens; an entry of its own, even for an index that is
        already there. */
    method Insert(tokens: Path, promptIndex: nat) returns (ghost entry: nat)
      requires Valid()
      modifies this, at.Values
      ensures Valid() && entry !in old(held) && (promptIndex !in old(held) ==> entry == promptIndex)
      ensures held == old(held)[entry := Truncated(tokens, maxDepth)] && index == old(index)[entry := promptIndex]
      ensures fresh(at.Values - old(at.Values))
    {
      hide Synced, Wired, PassCounts, Listed, Short;
      entry := NewEntry(held, promptIndex);
      var cut := Truncated(tokens, maxDepth);
      InsertStarts(recs, held, cut);
      var node := CountIn(cut);
      Append(cut, node, promptIndex, entry);
      ShortGrows(held, maxDepth, entry, cut);
      Settle(numPrompts + 1, held[entry := cut]);
    }

    /** List the prompt at the node its path leads to. */
    method Append(ghost cut: Path, node: TrieNode, promptIndex: nat, ghost entry: nat)
      requires Synced() && Wired(at, recs) && cut in at && node == at[cut] && entry !in held
      requires PassCounts(recs, held, cut, |cut|, 1) && Listed(recs, held)
      modifies this`recs, this`index, node
      ensures Synced() && Wired(at, recs) && Represents(recs, held[entry := cut])
      ensures index == old(index)[entry := promptIndex]
    {
      hide Synced, Wired, PassCounts, Listed, Represents;
      NodeIs(cut);
      RootIs();
      ClosedAbove(at.Keys, cut) by { WiredClosed(at, recs); }
      ghost var was := recs;
      Name(entry, promptIndex);
      NodeIs(cut);
      IndicesMore(index, recs[cut].list, entry);
      WriteNode(cut, node, node.children, node.promptIndices + [promptIndex], recs[cut].list + [entry], node.count);
      WiredData(at, was, recs);
      InsertEnds(was, recs, held, cut, entry);
    }

    method Settle(count: nat, ghost prompts: Pending)
      requires Synced() && Wired(at, recs) && Represents(recs, prompts) && count == |prompts|
      requires Short(prompts, maxDepth)
      requires prompts.Keys <= index.Keys
      modifies this`numPrompts, this`held
      ensures Valid() && held == prompts
    {
      hide Synced, Wired, Represents, Short;
      numPrompts := count;
      held := prompts;
    }

    lemma RootIs()
      requires Synced()
      ensures [] in at && at[[]] == root && recs.Keys == at.Keys
    {
    }

    // ----- remove -----

    /** The steps down to the node at `cut`, if it exists. */
    method WalkDown(cut: Path) returns (found: bool, node: TrieNode, path: seq<Step<TrieNode>>)
      requires Valid()
      ensures found ==> cut in at && node == at[cut] && Along(at, cut, path) && |path| == |cut|
      ensures !found ==> forall x :: x in held ==> held[x] != cut
    {
      hide Synced, Wired, Represents, Short;
      path, node := [], root;
      RootIs();
      while |path| < |cut|
        invariant |path| <= |cut| && cut[..|path|] in at && node == at[cut[..|path|]]
        invariant Along(at, cut, path)
      {
        var token := cut[|path|];
        KidIs(cut[..|path|], token);
        RootIs();
        assert cut[..|path| + 1] == cut[..|path|] + [token];
        if token !in node.children {
          NoNodeNoPrompt(recs, held, cut, cut[..|path| + 1]);
          return false, node, path;
        }
        var child := node.children[token];
        AlongStep(at, cut, path, Step(node, token, child));
        path := path + [Step(node, token, child)];
        node := child;
      }
      assert cut[..|path|] == cut;
      found := true;
    }

    /** Undo one insert.  Nothing changes unless exactly this prompt is stored. */
    method Remove(tokens: Path, promptIndex: nat) returns (found: bool, ghost entry: nat)
      requires Valid()
      modifies this`recs, this`at, this`held, this`numPrompts, at.Values
      ensures Valid() && at.Values <= old(at.Values)
      ensures found <==>
        exists e :: e in old(held) && IsEntry(old(held), old(index), e, Truncated(tokens, maxDepth), promptIndex)
      ensures found ==> IsEntry(old(held), old(index), entry, Truncated(tokens, maxDepth), promptIndex)
      ensures held == if found then old(held) - {entry} else old(held)
    {
      hide Synced, Wired, PassCounts, Listed, Short, Represents;
      var cut := Truncated(tokens, maxDepth);
      var node, path;
      found, node, path := WalkDown(cut);
      entry := 0;
      if !found {
        return;
      }
      NodeIs(cut);
      ListIs(recs, held, cut);
      EntryListed(held, index, cut, recs[cut].list, promptIndex);
      if promptIndex !in node.promptIndices {
        found := false;
        return;
      }
      entry := FirstEntry(index, recs[cut].list, promptIndex);
      Detach(cut, node, path, promptIndex, entry);
    }

    method Detach(ghost cut: Path, node: TrieNode, path: seq<Step<TrieNode>>, promptIndex: nat, ghost entry: nat)
      requires Valid() && cut in at && node == at[cut] && Along(at, cut, path) && |path| == |cut|
      requires entry in held && held[entry] == cut
      requires cut in recs
      requires Indices(index, Without1(recs[cut].list, entry)) == Without1(Indices(index, recs[cut].list), promptIndex)
      modifies this`recs, this`at, this`held, this`numPrompts, at.Values
      ensures Valid() && at.Values <= old(at.Values) && held == old(held) - {entry}
    {
      hide Synced, Wired, PassCounts, Listed, Short, Represents, Along;
      ghost var was, less := recs, held - {entry};
      NodeIs(cut);
      ghost var rest := Without1(recs[cut].list, entry);
      WriteNode(cut, node, node.children, Without1(node.promptIndices, promptIndex), rest, node.count);
      WiredData(at, was, recs);
      RemoveStarts(was, recs, held, cut, entry);
      CountOut(cut, path, entry);
      ShortShrinks(held, maxDepth, entry);
      Prune(cut, path, less);
      Settle(numPrompts - 1, less);
    }

    /** Decrement the counts along the path. */
    method CountOut(ghost cut: Path, path: seq<Step<TrieNode>>, ghost idx: nat)
      requires Synced() && Wired(at, recs) && Along(at, cut, path) && |path| == |cut|
      requires PassCounts(recs, held, cut, 0, -1) && Listed(recs, held - {idx}) && idx in held && held[idx] == cut
      modifies this`recs, at.Values
      ensures Synced() && Wired(at, recs)
      ensures PassCounts(recs, held - {idx}, cut, |cut|, 0) && Listed(recs, held - {idx})
    {
      hide Synced, Wired, PassCounts, Listed;
      var i := 0;
      while i < |path|
        invariant i <= |path| && Synced() && Wired(at, recs)
        invariant PassCounts(recs, held, cut, i, -1) && Listed(recs, held - {idx})
      {
        AlongAt(at, cut, path, i);
        var child := path[i].child;
        NodeIs(cut[..i + 1]);
        ghost var was := recs;
        CountPositive(was, held, cut, i, idx);
        WriteNode(cut[..i + 1], child, child.children, child.promptIndices, recs[cut[..i + 1]].list, child.count - 1);
        WiredData(at, was, recs);
        CountDown(was, recs, held, cut, i, idx);
        i := i + 1;
      }
      CountedOut(recs, held, cut, idx);
    }

    /** Drop the nodes nobody passes any more, deepest first. */
    method Prune(ghost cut: Path, path: seq<Step<TrieNode>>, ghost prompts: Pending)
      requires Synced() && Wired(at, recs) && Along(at, cut, path) && |path| == |cut|
      requires PassCounts(recs, prompts, cut, |cut|, 0) && Listed(recs, prompts)
      modifies this`recs, this`at, at.Values
      ensures Synced() && Wired(at, recs) && Represents(recs, prompts) && at.Values <= old(at.Values)
    {
      hide Synced, Wired, PassCounts, Listed, Represents;
      var i: nat := |path|;
      ghost var nodes := at;
      AllAlong(at, recs, cut, path);
      while i > 0
        invariant i <= |path| && Synced() && Wired(at, recs) && at.Values <= old(at.Values)
        invariant forall j {:trigger cut[..j]} ::
          0 <= j <= i ==> cut[..j] in at && cut[..j] in nodes && at[cut[..j]] == nodes[cut[..j]]
        invariant PassCounts(recs, prompts, cut, i, 0) && Listed(recs, prompts)
      {
        AlongAt(nodes, cut, path, i - 1);
        var parent, token, child := path[i - 1].parent, path[i - 1].token, path[i - 1].child;
        assert cut[..i - 1] + [token] == cut[..i];
        NodeIs(cut[..i]);
        RootIs();
        LastUser(at, recs, prompts, cut, i);
        if child.count == 0 && child.children == map[] && child.promptIndices == [] {
          ghost var was := recs;
          DropChild(cut[..i - 1], parent, token);
          Dropped(was, recs, prompts, cut, i);
        } else {
          StillUsed(recs, prompts, cut, i);
          return;
        }
        i := i - 1;
      }
      AllPruned(recs, prompts, cut);
    }
  }

  ghost predicate OwnNames(held: Pending, index: map<nat, nat>) {
    forall e {:trigger e in held} :: e in held ==> e in index && index[e] == e
  }

  lemma OwnNamesGrow(held: Pending, index: map<nat, nat>, e: nat, p: Path)
    requires OwnNames(held, index)
    ensures OwnNames(held[e := p], index[e := e])
  {
  }

  /** The entry is this prompt, inserted with this index. */
  ghost predicate IsEntry(held: Pending, index: map<nat, nat>, e: nat, cut: Path, promptIndex: nat) {
    e in held && held[e] == cut && e in index && index[e] == promptIndex
  }

  /** The prompt index itself, unless another insert has used it. */
  lemma NewEntry(held: Pending, promptIndex: nat) returns (entry: nat)
    ensures entry !in held && (promptIndex !in held ==> entry == promptIndex)
  {
    entry := promptIndex;
    var below: set<nat> := {};
    while entry in held
      invariant below <= held.Keys && (promptIndex in held || entry == promptIndex)
      invariant forall x {:trigger x in below} :: x in below ==> x < entry
      decreases held.Keys - below
    {
      below := below + {entry};
      entry := entry + 1;
    }
  }

  /** Where every entry is named by its own index, the list shows the entries. */
  lemma OwnIndices(index: map<nat, nat>, entries: seq<nat>)
    requires forall e {:trigger e in entries} :: e in entries ==> e in index && index[e] == e
    ensures Indices(index, entries) == entries
  {
    forall i | 0 <= i < |entries|
      ensures Indices(index, entries)[i] == entries[i]
    {
      assert entries[i] in entries;
    }
  }

  lemma IndicesConcat(index: map<nat, nat>, a: seq<nat>, b: seq<nat>)
    ensures Indices(index, a + b) == Indices(index, a) + Indices(index, b)
  {
  }

  lemma IndicesMore(index: map<nat, nat>, entries: seq<nat>, entry: nat)
    requires entry in index
    ensures Indices(index, entries + [entry]) == Indices(index, entries) + [index[entry]]
  {
  }

  /** The node lists the prompt index exactly when an entry for it ends there. */
  lemma EntryListed(held: Pending, index: map<nat, nat>, cut: Path, list: seq<nat>, promptIndex: nat)
    requires ListFits(held, cut, list) && held.Keys <= index.Keys
    ensures promptIndex in Indices(index, list) <==>
      exists e :: e in held && IsEntry(held, index, e, cut, promptIndex)
  {
    if promptIndex in Indices(index, list) {
      var i :| 0 <= i < |list| && Indices(index, list)[i] == promptIndex;
      assert list[i] in list;
      assert IsEntry(held, index, list[i], cut, promptIndex);
    }
    if e :| e in held && IsEntry(held, index, e, cut, promptIndex) {
      assert e in list;
      var i :| 0 <= i < |list| && list[i] == e;
      assert Indices(index, list)[i] == promptIndex;
    }
  }

  ghost function IndexOf(index: map<nat, nat>, e: nat): nat {
    if e in index then index[e] else 0
  }

  lemma IndicesHead(index: map<nat, nat>, e: nat, rest: seq<nat>)
    ensures Indices(index, [e] + rest) == [IndexOf(index, e)] + Indices(index, rest)
  {
  }

  lemma Without1Head(x: nat, rest: seq<nat>, y: nat)
    ensures Without1([x] + rest, y) == if x == y then rest else [x] + Without1(rest, y)
  {
    assert ([x] + rest)[1..] == rest;
  }

  /** The entry whose index is the first occurrence in the list. */
  lemma {:induction false} FirstEntry(index: map<nat, nat>, list: seq<nat>, promptIndex: nat) returns (entry: nat)
    requires promptIndex in Indices(index, list)
    ensures entry in list && IndexOf(index, entry) == promptIndex
    ensures Indices(index, Without1(list, entry)) == Without1(Indices(index, list), promptIndex)
  {
    hide Without1;
    var e, rest := list[0], list[1..];
    assert list == [e] + rest;
    IndicesHead(index, e, rest);
    Without1Head(IndexOf(index, e), Indices(index, rest), promptIndex);
    if IndexOf(index, e) == promptIndex {
      entry := e;
      Without1Head(e, rest, e);
    } else {
      entry := FirstEntry(index, rest, promptIndex);
      Without1Head(e, rest, entry);
      IndicesHead(index, e, Without1(rest, entry));
    }
  }

  lemma WiredClosed<N>(at: map<Path, N>, recs: map<Path, Rec<N>>)
    requires Wired(at, recs)
    ensures Closed(at.Keys)
  {
  }

  lemma {:induction false} ClosedAbove(keys: set<Path>, p: Path)
    requires Closed(keys) && p in keys
    ensures forall j :: 0 <= j <= |p| ==> p[..j] in keys
  {
    assert p[..|p|] == p;
    if p != [] {
      ClosedAbove(keys, p[..|p| - 1]);
      assert forall j :: 0 <= j < |p| ==> p[..|p| - 1][..j] == p[..j];
    }
  }

  /** The steps of a walk down from the root. */
  ghost predicate Along<N>(at: map<Path, N>, cut: Path, path: seq<Step<N>>) {
    && |path| <= |cut|
    && forall i {:trigger StepIs(at, cut, path, i)} :: 0 <= i < |path| ==> StepIs(at, cut, path, i)
  }

  ghost predicate StepIs<N>(at: map<Path, N>, cut: Path, path: seq<Step<N>>, i: nat)
    requires i < |path| <= |cut|
  {
    && cut[..i] in at && cut[..i + 1] in at
    && path[i].parent == at[cut[..i]] && path[i].token == cut[i] && path[i].child == at[cut[..i + 1]]
  }

  lemma AllAlong<N>(at: map<Path, N>, recs: map<Path, Rec<N>>, cut: Path, path: seq<Step<N>>)
    requires Along(at, cut, path) && |path| == |cut| && Wired(at, recs)
    ensures forall j {:trigger cut[..j]} :: 0 <= j <= |cut| ==> cut[..j] in at
  {
    forall j | 0 <= j <= |cut|
      ensures cut[..j] in at
    {
      if j > 0 {
        assert StepIs(at, cut, path, j - 1);
      }
    }
  }

  lemma AlongStep<N>(at: map<Path, N>, cut: Path, path: seq<Step<N>>, step: Step<N>)
    requires Along(at, cut, path) && |path| < |cut| && cut[..|path|] in at && cut[..|path| + 1] in at
    requires step == Step(at[cut[..|path|]], cut[|path|], at[cut[..|path| + 1]])
    ensures Along(at, cut, path + [step])
  {
    forall i | 0 <= i <= |path|
      ensures StepIs(at, cut, path + [step], i)
    {
      if i < |path| {
        assert StepIs(at, cut, path, i);
      }
    }
  }

  lemma AlongAt<N>(at: map<Path, N>, cut: Path, path: seq<Step<N>>, i: nat)
    requires Along(at, cut, path) && i < |path|
    ensures StepIs(at, cut, path, i)
  {
  }

  lemma WiredData<N>(at: map<Path, N>, was: map<Path, Rec<N>>, recs: map<Path, Rec<N>>)
    requires Wired(at, was) && recs.Keys == was.Keys
    requires forall p {:trigger recs[p]} :: p in recs ==> recs[p].children == was[p].children
    ensures Wired(at, recs)
  {
  }

  lemma NewNodeFits<N>(was: map<Path, Rec<N>>, recs: map<Path, Rec<N>>, held: Pending, tokens: Path, i: nat, p: Path)
    requires PassCounts(was, held, tokens, i, 1) && Listed(was, held) && p !in was && i < |tokens|
    requires p == tokens[..i + 1]
    requires SameData(was, recs) && recs.Keys == was.Keys + {p} && recs[p].list == [] && recs[p].count == 0
    ensures recs[p].count == Demand(held, p) && Listed(recs, held)
    ensures PassCountsBut(recs, held, tokens, i, p)
  {
    forall x | x in held
      ensures held[x] != p
    {
      if held[x] == p {
        DemandWitness(held, p, x);
      }
    }
    forall q | q in recs
      ensures ListFits(held, q, recs[q].list)
      ensures q != p ==> CountFits(held, tokens, i, 1, q, recs[q].count)
    {
      if q != p {
        assert q in was && was[q].list == recs[q].list;
      }
    }
  }

  /** PassCounts, but for `p`, which is not counted in yet. */
  ghost predicate PassCountsBut<N>(recs: map<Path, Rec<N>>, held: Pending, tokens: Path, i: nat, p: Path) {
    && (forall q {:trigger q in recs} :: q == [] || Demand(held, q) >= 1 ==> q in recs)
    && forall q {:trigger recs[q]} :: q in recs && q != p ==> CountFits(held, tokens, i, 1, q, recs[q].count)
  }

  /** Every node of `a` is in `b` with the same list and count. */
  ghost predicate SameData<N>(a: map<Path, Rec<N>>, b: map<Path, Rec<N>>) {
    forall p {:trigger a[p]} {:trigger b[p]} :: p in a ==> p in b && b[p].list == a[p].list && b[p].count == a[p].count
  }

  lemma WiredGrows<N>(at: map<Path, N>, recs: map<Path, Rec<N>>, p: Path, t: Token, child: N)
    requires Wired(at, recs) && p in at && p + [t] !in at
    ensures p in recs
    ensures var more := recs[p + [t] := Rec(map[], [], 0)][p := recs[p].(children := recs[p].children[t := child])];
      && Wired(at[p + [t] := child], more) && SameData(recs, more) && more.Keys == recs.Keys + {p + [t]}
      && more[p + [t]] == Rec(map[], [], 0)
  {
    var q := p + [t];
    PathLonger(p, t);
    ClosedGrows(at.Keys, p, t);
    var wider := at[q := child];
    var more := recs[q := Rec(map[], [], 0)][p := recs[p].(children := recs[p].children[t := child])];
    assert wider.Keys == at.Keys + {q};
    hide Closed, KidsAt;
    forall r | r in more
      ensures KidsAt(wider, r, more[r].children)
    {
      NothingAbove(at, p, t);
      KidsGrow(at, p, t, child, r, if r == q then map[] else recs[r].children);
    }
  }

  lemma NothingAbove<N>(at: map<Path, N>, p: Path, t: Token)
    requires Closed(at.Keys) && p + [t] !in at
    ensures KidsAt(at, p + [t], map[])
  {
    forall u
      ensures p + [t] + [u] !in at
    {
      var r := p + [t] + [u];
      assert r[..|r| - 1] == p + [t];
    }
  }

  lemma WiredShrinks<N>(at: map<Path, N>, recs: map<Path, Rec<N>>, p: Path, t: Token)
    requires Wired(at, recs) && p in at && p + [t] in at && recs[p + [t]].children == map[]
    ensures var less := recs[p := recs[p].(children := recs[p].children - {t})] - {p + [t]};
      Wired(at - {p + [t]}, less) && SameData(less, recs) && less.Keys == recs.Keys - {p + [t]}
  {
    var q := p + [t];
    PathLonger(p, t);
    var fewer := at - {q};
    var less := recs[p := recs[p].(children := recs[p].children - {t})] - {q};
    assert KidsAt(at, q, recs[q].children);
    ClosedShrinks(at, p, t);
    hide Closed, KidsAt;
    forall r | r in less
      ensures KidsAt(fewer, r, less[r].children)
    {
      KidsShrink(at, p, t, r, recs[r].children);
    }
  }

  lemma PathLonger(p: Path, t: Token)
    ensures p + [t] != p && p + [t] != []
  {
  }

  lemma ClosedGrows(keys: set<Path>, p: Path, t: Token)
    requires Closed(keys) && p in keys
    ensures Closed(keys + {p + [t]})
  {
    assert (p + [t])[..|p|] == p;
  }

  lemma ClosedShrinks<N>(at: map<Path, N>, p: Path, t: Token)
    requires Closed(at.Keys) && p + [t] in at && KidsAt(at, p + [t], map[])
    ensures Closed((at - {p + [t]}).Keys)
  {
    var q := p + [t];
    forall r | r in (at - {q}).Keys && r != []
      ensures r[..|r| - 1] in (at - {q}).Keys
    {
      assert r == r[..|r| - 1] + [r[|r| - 1]];
    }
  }

  lemma KidsGrow<N>(at: map<Path, N>, p: Path, t: Token, child: N, r: Path, children: map<Token, N>)
    requires Closed(at.Keys) && p + [t] !in at
    requires if r == p + [t] then children == map[] else KidsAt(at, r, children)
    ensures KidsAt(at[p + [t] := child], r, if r == p then children[t := child] else children)
  {
    var q := p + [t];
    forall u
      ensures r + [u] == q <==> r == p && u == t
      ensures r == q ==> r + [u] !in at
    {
      assert (r + [u])[..|r|] == r && (r + [u])[|r|] == u && q[..|p|] == p && q[|p|] == t;
    }
  }

  lemma KidsShrink<N>(at: map<Path, N>, p: Path, t: Token, r: Path, children: map<Token, N>)
    requires KidsAt(at, r, children)
    ensures KidsAt(at - {p + [t]}, r, if r == p then children - {t} else children)
  {
    var q := p + [t];
    forall u
      ensures r + [u] == q <==> r == p && u == t
    {
      assert (r + [u])[..|r|] == r && (r + [u])[|r|] == u && q[..|p|] == p && q[|p|] == t;
    }
  }

  // ----- what the counts and lists say -----

  /** Nodes and counts are those of the prompts, give or take `delta` on the non-empty prefixes of
      `tokens` up to length `d`; such prefixes may have nodes nobody needs. */
  ghost predicate PassCounts<N>(recs: map<Path, Rec<N>>, held: Pending, tokens: Path, d: nat, delta: int) {
    && (forall p {:trigger p in recs} :: p == [] || Demand(held, p) >= 1 ==> p in recs)
    && forall p {:trigger recs[p]} :: p in recs ==> CountFits(held, tokens, d, delta, p, recs[p].count)
  }

  ghost predicate CountFits(held: Pending, tokens: Path, d: nat, delta: int, p: Path, count: nat) {
    if p == [] then count == 0
    else if p <= tokens && |p| <= d then count == Demand(held, p) + delta
    else count == Demand(held, p) >= 1
  }

  ghost predicate ListFits(held: Pending, p: Path, list: seq<nat>) {
    NoDup(list) && forall x {:trigger x in list} :: x in list <==> x in held && held[x] == p
  }

  ghost predicate Listed<N>(recs: map<Path, Rec<N>>, held: Pending) {
    forall p {:trigger recs[p]} :: p in recs ==> ListFits(held, p, recs[p].list)
  }

  /** Exactly the prefixes of the prompts have nodes, counted and listed. */
  ghost predicate Represents<N>(recs: map<Path, Rec<N>>, held: Pending) {
    PassCounts(recs, held, [], 0, 0) && Listed(recs, held)
  }

  ghost predicate Short(held: Pending, maxDepth: nat) {
    forall x {:trigger held[x]} :: x in held ==> |held[x]| <= maxDepth
  }

  lemma EmptyTrie<N>(at: map<Path, N>, recs: map<Path, Rec<N>>)
    requires at.Keys == {[]} && recs == map[[] := Rec(map[], [], 0)]
    ensures Wired(at, recs) && Represents(recs, map[])
  {
    forall p
      ensures Demand(map[], p) == 0
    {
      DemandZero(map[], p);
    }
  }

  function Truncated(tokens: Path, maxDepth: nat): (p: Path)
    ensures p <= tokens && |p| == Min(|tokens|, maxDepth)
  {
    tokens[..Min(|tokens|, maxDepth)]
  }

  // ----- the steps of an insert -----

  lemma OldNodeFits<N>(recs: map<Path, Rec<N>>, held: Pending, tokens: Path, i: nat, p: Path)
    requires PassCounts(recs, held, tokens, i, 1) && p in recs && i < |tokens| && p == tokens[..i + 1]
    ensures recs[p].count == Demand(held, p) && PassCountsBut(recs, held, tokens, i, p)
  {
  }

  lemma CountUp<N>(was: map<Path, Rec<N>>, recs: map<Path, Rec<N>>, held: Pending, tokens: Path, i: nat)
    requires i < |tokens| && tokens[..i + 1] in was && PassCountsBut(was, held, tokens, i, tokens[..i + 1])
    requires Listed(was, held)
    requires was[tokens[..i + 1]].count == Demand(held, tokens[..i + 1])
    requires var r := was[tokens[..i + 1]]; recs == was[tokens[..i + 1] := r.(count := r.count + 1)]
    ensures PassCounts(recs, held, tokens, i + 1, 1) && Listed(recs, held)
  {
    var p := tokens[..i + 1];
    forall q | q in recs
      ensures CountFits(held, tokens, i + 1, 1, q, recs[q].count) && ListFits(held, q, recs[q].list)
    {
      assert q in was && recs[q].list == was[q].list;
      if q != p {
        assert CountFits(held, tokens, i, 1, q, was[q].count);
        assert q <= tokens && |q| == i + 1 ==> q == p;
      }
    }
  }

  lemma InsertStarts<N>(recs: map<Path, Rec<N>>, held: Pending, cut: Path)
    requires Represents(recs, held)
    ensures PassCounts(recs, held, cut, 0, 1) && Listed(recs, held)
  {
    forall q | q in recs
      ensures CountFits(held, cut, 0, 1, q, recs[q].count)
    {
      assert CountFits(held, [], 0, 0, q, recs[q].count);
    }
  }

  lemma InsertEnds<N>(was: map<Path, Rec<N>>, recs: map<Path, Rec<N>>, held: Pending, cut: Path, idx: nat)
    requires PassCounts(was, held, cut, |cut|, 1) && Listed(was, held) && idx !in held && cut in was
    requires recs == was[cut := was[cut].(list := was[cut].list + [idx])]
    requires forall j :: 0 <= j <= |cut| ==> cut[..j] in was
    ensures Represents(recs, held[idx := cut])
  {
    var more := held[idx := cut];
    forall q
      ensures Demand(more, q) == Demand(held, q) + if q <= cut then 1 else 0
    {
      DemandAdd(held, idx, cut, q);
    }
    forall q | q == [] || Demand(more, q) >= 1
      ensures q in recs
    {
      if q <= cut {
        assert cut[..|q|] == q;
      }
    }
    forall q | q in recs
      ensures CountFits(more, [], 0, 0, q, recs[q].count) && ListFits(more, q, recs[q].list)
    {
      assert CountFits(held, cut, |cut|, 1, q, was[q].count) && ListFits(held, q, was[q].list);
      if q == cut {
        NoDupConcat(was[q].list, [idx]);
      }
    }
  }

  lemma ShortGrows(held: Pending, maxDepth: nat, idx: nat, cut: Path)
    requires Short(held, maxDepth) && |cut| <= maxDepth && idx !in held
    ensures Short(held[idx := cut], maxDepth) && |held[idx := cut]| == |held| + 1
  {
  }

  lemma ShortShrinks(held: Pending, maxDepth: nat, idx: nat)
    requires Short(held, maxDepth) && idx in held
    ensures Short(held - {idx}, maxDepth) && |held - {idx}| == |held| - 1
  {
    assert held == (held - {idx})[idx := held[idx]];
  }

  // ----- the steps of a remove -----

  /** The list without the first occurrence of `x`. */
  function Without1(list: seq<nat>, x: nat): seq<nat> {
    if list == [] then [] else if list[0] == x then list[1..] else [list[0]] + Without1(list[1..], x)
  }

  lemma {:induction false} Without1Facts(list: seq<nat>, x: nat)
    requires NoDup(list)
    ensures NoDup(Without1(list, x))
    ensures forall y {:trigger y in Without1(list, x)} :: y in Without1(list, x) <==> y in list && y != x
  {
    if list != [] {
      var h, rest := list[0], list[1..];
      assert list == [h] + rest && h !in rest;
      Without1Facts(rest, x);
      if h != x {
        NoDupConcat([h], Without1(rest, x));
      }
    }
  }

  lemma ListIs<N>(recs: map<Path, Rec<N>>, held: Pending, cut: Path)
    requires Represents(recs, held) && cut in recs
    ensures ListFits(held, cut, recs[cut].list)
  {
  }

  lemma NoNodeNoPrompt<N>(recs: map<Path, Rec<N>>, held: Pending, cut: Path, p: Path)
    requires Represents(recs, held) && p <= cut && p !in recs
    ensures forall x :: x in held ==> held[x] != cut
  {
    forall x | x in held
      ensures !(p <= held[x])
    {
      if p <= held[x] {
        DemandWitness(held, p, x);
      }
    }
  }

  lemma RemoveStarts<N>(was: map<Path, Rec<N>>, recs: map<Path, Rec<N>>, held: Pending, cut: Path, idx: nat)
    requires Represents(was, held) && cut in was && idx in held && held[idx] == cut
    requires recs == was[cut := was[cut].(list := Without1(was[cut].list, idx))]
    ensures PassCounts(recs, held, cut, 0, -1) && Listed(recs, held - {idx})
  {
    forall q | q in recs
      ensures CountFits(held, cut, 0, -1, q, recs[q].count) && ListFits(held - {idx}, q, recs[q].list)
    {
      assert CountFits(held, [], 0, 0, q, was[q].count) && ListFits(held, q, was[q].list);
      if q == cut {
        Without1Facts(was[q].list, idx);
      }
    }
  }

  lemma CountPositive<N>(recs: map<Path, Rec<N>>, held: Pending, cut: Path, i: nat, idx: nat)
    requires PassCounts(recs, held, cut, i, -1) && i < |cut| && cut[..i + 1] in recs && idx in held && held[idx] == cut
    ensures recs[cut[..i + 1]].count == Demand(held, cut[..i + 1]) >= 1
  {
    assert CountFits(held, cut, i, -1, cut[..i + 1], recs[cut[..i + 1]].count);
  }

  lemma CountDown<N>(was: map<Path, Rec<N>>, recs: map<Path, Rec<N>>, held: Pending, cut: Path, i: nat, idx: nat)
    requires PassCounts(was, held, cut, i, -1) && Listed(was, held - {idx}) && i < |cut| && cut[..i + 1] in was
    requires was[cut[..i + 1]].count == Demand(held, cut[..i + 1]) >= 1
    requires var r := was[cut[..i + 1]]; recs == was[cut[..i + 1] := r.(count := r.count - 1)]
    ensures PassCounts(recs, held, cut, i + 1, -1) && Listed(recs, held - {idx})
  {
    var p := cut[..i + 1];
    forall q | q in recs
      ensures CountFits(held, cut, i + 1, -1, q, recs[q].count) && ListFits(held - {idx}, q, recs[q].list)
    {
      assert q in was && recs[q].list == was[q].list;
      if q != p {
        assert CountFits(held, cut, i, -1, q, was[q].count);
        assert q <= cut && |q| == i + 1 ==> q == p;
      }
    }
  }

  lemma CountedOut<N>(recs: map<Path, Rec<N>>, held: Pending, cut: Path, idx: nat)
    requires PassCounts(recs, held, cut, |cut|, -1) && idx in held && held[idx] == cut
    ensures PassCounts(recs, held - {idx}, cut, |cut|, 0)
  {
    forall q
      ensures Demand(held - {idx}, q) == Demand(held, q) - if q <= cut then 1 else 0
    {
      DemandRemove(held, idx, q);
    }
    forall q | q in recs
      ensures CountFits(held - {idx}, cut, |cut|, 0, q, recs[q].count)
    {
      assert CountFits(held, cut, |cut|, -1, q, recs[q].count);
    }
  }

  /** A node on the path that nobody passes has no children and no prompts. */
  lemma LastUser<N>(at: map<Path, N>, recs: map<Path, Rec<N>>, held: Pending, cut: Path, i: nat)
    requires Wired(at, recs) && PassCounts(recs, held, cut, i, 0) && Listed(recs, held) && 0 < i <= |cut|
    requires cut[..i] in recs
    ensures recs[cut[..i]].count == 0 ==> recs[cut[..i]].children == map[] && recs[cut[..i]].list == []
  {
    var p := cut[..i];
    assert CountFits(held, cut, i, 0, p, recs[p].count) && ListFits(held, p, recs[p].list)
      && KidsAt(at, p, recs[p].children);
    if recs[p].count == 0 {
      forall t | t in recs[p].children
        ensures false
      {
        assert CountFits(held, cut, i, 0, p + [t], recs[p + [t]].count);
        DemandAntitone(held, p, p + [t]);
      }
      HeadIn(recs[p].list);
      if recs[p].list != [] {
        DemandWitness(held, p, recs[p].list[0]);
      }
    }
  }

  lemma Dropped<N>(was: map<Path, Rec<N>>, recs: map<Path, Rec<N>>, held: Pending, cut: Path, i: nat)
    requires PassCounts(was, held, cut, i, 0) && Listed(was, held) && 0 < i <= |cut| && cut[..i] in was
    requires was[cut[..i]].count == 0
    requires recs.Keys == was.Keys - {cut[..i]} && SameData(recs, was)
    ensures PassCounts(recs, held, cut, i - 1, 0) && Listed(recs, held)
  {
    assert CountFits(held, cut, i, 0, cut[..i], 0);
    forall q | q in recs
      ensures CountFits(held, cut, i - 1, 0, q, recs[q].count) && ListFits(held, q, recs[q].list)
    {
      assert CountFits(held, cut, i, 0, q, was[q].count) && ListFits(held, q, was[q].list);
      assert |q| <= |cut| ==> (q <= cut <==> q == cut[..|q|]);
    }
  }

  lemma StillUsed<N>(recs: map<Path, Rec<N>>, held: Pending, cut: Path, i: nat)
    requires PassCounts(recs, held, cut, i, 0) && Listed(recs, held) && 0 < i <= |cut| && cut[..i] in recs
    requires recs[cut[..i]].count > 0
    ensures Represents(recs, held)
  {
    assert CountFits(held, cut, i, 0, cut[..i], recs[cut[..i]].count);
    forall q | q in recs
      ensures CountFits(held, [], 0, 0, q, recs[q].count)
    {
      assert CountFits(held, cut, i, 0, q, recs[q].count);
      if q <= cut && |q| <= i {
        assert q == cut[..i][..|q|];
        DemandAntitone(held, q, cut[..i]);
      }
    }
  }

  lemma AllPruned<N>(recs: map<Path, Rec<N>>, held: Pending, cut: Path)
    requires PassCounts(recs, held, cut, 0, 0) && Listed(recs, held)
    ensures Represents(recs, held)
  {
    forall q | q in recs
      ensures CountFits(held, [], 0, 0, q, recs[q].count)
    {
      assert CountFits(held, cut, 0, 0, q, recs[q].count);
    }
  }
}
