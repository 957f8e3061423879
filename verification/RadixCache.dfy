/**
 The queue-aware KV radix cache of radix_cache.py, on node objects updated in place.
 `view` is the cache value the objects stand for; `all` holds every node ever created,
 because deleted nodes keep their parent pointers and are walked again later.
 */
module KvCache {
  import opened Prelude
  import opened Radix
  import opened CacheStore
  import opened CacheEdits
  import opened CacheLeaves
  import opened CacheRefs
  import opened CacheTimes
  import opened CacheWalk
  import opened CacheEviction
  import opened CacheSweeps
  import opened Frontier
  import opened Sorting

  ghost function The<N>(n: N): Option<N> {
    Some(n)
  }

  class TreeNode {
    var children: map<Token, TreeNode>
    var parent: TreeNode?
    var key: seq<Token>
    var value: seq<int>
    var lockRef: nat
    var queueRefCount: nat
    var lastAccessTime: int
    var depth: nat

    constructor (now: int)
      ensures children == map[] && parent == null && key == [] && value == []
      ensures lockRef == 0 && queueRefCount == 0 && lastAccessTime == now && depth == 0
    {
      children, parent, key, value := map[], null, [], [];
      lockRef, queueRefCount, lastAccessTime, depth := 0, 0, now, 0;
    }

    /** Hand the first `k` tokens to `upper`, which moves in between this node and `above`. */
    method TakeUpper(above: TreeNode, upper: TreeNode, k: nat)
      requires this != above && this != upper && above != upper
      requires 0 < k < |key| && k <= |value| && parent == above
      modifies upper, this`parent, this`key, this`value, above`children
      ensures upper.Record() == Rec<TreeNode>.Rec(
        The<TreeNode>(above), map[old(key)[k] := this], old(key)[..k], old(value)[..k],
        old(lockRef), old(queueRefCount), old(above.depth) + k)
      ensures upper.lastAccessTime == old(upper.lastAccessTime)
      ensures Record() == old(Record()).(parent := The<TreeNode>(upper), key := old(key)[k..], value := old(value)[k..])
      ensures above.Record() == old(above.Record()).(kids := old(above.children)[old(key)[0] := upper])
    {
      upper.children := map[key[k] := this];
      upper.parent := above;
      upper.lockRef := lockRef;
      upper.queueRefCount := queueRefCount;
      upper.key := key[..k];
      upper.value := value[..k];
      upper.depth := above.depth + k;
      above.children := above.children[key[0] := upper];
      parent := upper;
      key := key[k..];
      value := value[k..];
    }

    /** A new child of `above`, for `key`. */
    constructor Below(above: TreeNode, key: seq<Token>, value: seq<int>, now: int)
      requires key != []
      modifies above`children
      ensures Record() == Rec<TreeNode>.Rec(The<TreeNode>(above), map[], key, value, 0, 0, old(above.depth) + |key|)
      ensures above.Record() == old(above.Record()).(kids := old(above.children)[key[0] := this])
      ensures lastAccessTime == now
    {
      children, parent := map[], above;
      this.key, this.value := key, value;
      lockRef, queueRefCount, lastAccessTime, depth := 0, 0, now, above.depth + |key|;
      new;
      above.children := above.children[key[0] := this];
    }

    /** The fields the cache invariant speaks of: all but the access time. */
    ghost function Record(): Rec<TreeNode>
      reads this`children, this`parent, this`key, this`value, this`lockRef, this`queueRefCount, this`depth
    {
      Rec(Up(), children, key, value, lockRef, queueRefCount, depth)
    }

    ghost function Up(): Option<TreeNode>
      reads this`parent
    {
      if parent == null then None
      else
        var p: TreeNode := parent;
        Some(p)
    }
  }

  class RadixCache {
    var rootNode: TreeNode
    var evictableSize: int
    var protectedSize: int
    var evictableLeaves: set<TreeNode>
    var peekPrevProtected: Option<seq<TreeNode>>
    const strategy: Strategy
    ghost var all: set<TreeNode>
    ghost var view: Cache<TreeNode>

    /** The objects hold what `view` says. */
    ghost predicate Synced()
      reads this, all
    {
      && view.root == rootNode && view.evictable == evictableSize && view.shielded == protectedSize
      && view.leaves == evictableLeaves && view.st.Keys == all
      && forall n {:trigger n.Record()} :: n in all ==> n.Record() == view.st[n]
    }

    ghost predicate Valid()
      reads this, all
    {
      Synced() && Good(view, peekPrevProtected)
    }

    constructor (strategy: Strategy, now: int)
      ensures Valid() && fresh(all) && this.strategy == strategy
      ensures view.content == map[] && view.holders == map[] && evictableSize == 0 && protectedSize == 0
      ensures peekPrevProtected == None && all == {rootNode} && rootNode.lastAccessTime == now
    {
      this.strategy := strategy;
      rootNode := new TreeNode(now);
      evictableSize, protectedSize, evictableLeaves, peekPrevProtected := 0, 0, {}, None;
      view := Cache(map[], rootNode, map[], map[], map[], 0, 0, {});
      new;
      rootNode.lockRef := 1;
      all := {rootNode};
      view := Cache(map[rootNode := rootNode.Record()], rootNode, map[rootNode := []], map[], map[], 0, 0, {});
      EmptyInv(view);
    }

    /** A node object holds its record. */
    lemma RecordIs(n: TreeNode)
      requires Synced() && n in view.st
      ensures n in all && n.Record() == view.st[n]
    {
    }

    /** Split `child` after `splitLen` tokens of its key; the new node becomes its parent. */
    method SplitChild(child: TreeNode, splitLen: nat, now: int) returns (newNode: TreeNode)
      requires Valid() && child in view.path && child != rootNode && child in all && 0 < splitLen < |child.key|
      modifies this`all, this`view, all`children, all`parent, all`key, all`value
      ensures Synced() && fresh(newNode) && all == old(all) + {newNode}
      ensures SplitReady(old(view), child, splitLen, newNode)
      ensures view == SplitNode(old(view), child, splitLen, newNode)
      ensures newNode.lastAccessTime == now
    {
      hide Good, SplitNode, SplitReady;
      ghost var c := view;
      assert child.Record() == c.st[child];
      SplitStart(c, peekPrevProtected, child, splitLen);
      newNode := Lift(child, splitLen, now);
      SplitResult(c, peekPrevProtected, child, splitLen, newNode);
      ghost var c' := SplitNode(c, child, splitLen, newNode);
      forall n | n in all && n != child && n != c.st[child].parent.value
        ensures n.Record() == c'.st[n]
      {
        assert n.Record() == c.st[n];
      }
      Adopt(all + {newNode}, c');
    }

    /** Make the node object that takes over the first tokens of `child`, below its parent. */
    method Lift(child: TreeNode, splitLen: nat, now: int) returns (newNode: TreeNode)
      requires Synced() && child in all && child.parent != null && child.parent in all && child.parent != child
      requires 0 < splitLen < |child.key| && splitLen <= |child.value|
      modifies child`parent, child`key, child`value, child.parent`children
      ensures fresh(newNode) && newNode.lastAccessTime == now
      ensures view.st[child].parent.Some? && view.st[child].parent.value == old(child.parent)
      ensures splitLen < |view.st[child].key| && splitLen <= |view.st[child].value|
      ensures var r, up := view.st[child], view.st[child].parent.value;
        && newNode.Record() == Rec<TreeNode>.Rec(
          The<TreeNode>(up), map[r.key[splitLen] := child], r.key[..splitLen], r.value[..splitLen],
          r.lock, r.refs, view.st[up].depth + splitLen)
        && child.Record() ==
          r.(parent := The<TreeNode>(newNode), key := r.key[splitLen..], value := r.value[splitLen..])
        && up.Record() == view.st[up].(kids := view.st[up].kids[r.key[0] := newNode])
      ensures forall n {:trigger n.Record()} ::
        n in all && n != child && n != old(child.parent) ==> n.Record() == view.st[n]
    {
      var parent: TreeNode := child.parent;
      assert child.Record() == view.st[child] && parent.Record() == view.st[parent];
      newNode := new TreeNode(now);
      child.TakeUpper(parent, newNode, splitLen);
      forall n | n in all && n != child && n != parent
        ensures n.Record() == view.st[n]
      {
        assert n.Record() == old(n.Record());
      }
    }

    /** Number of leading tokens on which the two keys agree. */
    method KeyMatch(key0: seq<Token>, key1: seq<Token>) returns (i: nat)
      ensures i == CommonPrefix(key0, key1)
    {
      i := 0;
      while i < |key0| && i < |key1| && key0[i] == key1[i]
        invariant i <= |key0| && i <= |key1| && key0[..i] == key1[..i]
      {
        i := i + 1;
      }
      PrefixIffCommon(key0, key1, i);
      if i < CommonPrefix(key0, key1) {
        PrefixIffCommon(key0, key1, i + 1);
      }
    }

    /** The split of a match that stopped `k` tokens into the key of `child`: the tree gains one
        node, at the matched prefix, and caches what it did. */
    method SplitHere(child: TreeNode, k: nat, now: int, ghost key: seq<Token>, ghost at: nat)
      returns (newNode: TreeNode)
      requires Valid() && child in view.path && child in all && child != rootNode && 0 < k < |child.key|
      requires at + k <= |key| && key[..at + k] <= view.path[child] && |view.path[child]| == at + |child.key|
      modifies this`all, this`view, all`children, all`parent, all`key, all`value
      ensures Valid() && fresh(newNode) && all == old(all) + {newNode}
      ensures view.path == old(view.path)[newNode := key[..at + k]] && newNode !in old(view.path)
      ensures SameOutside(old(view), view) && SameRefs(old(view), view)
      ensures k <= |old(child.value)| && newNode.value == old(child.value)[..k]
      ensures newNode.children == map[old(child.key)[k] := child] && newNode.lastAccessTime == now
      ensures AccessTimes() == old(AccessTimes())[newNode := now]
    {
      hide Good, Inv, SplitNode, SplitReady;
      ghost var c := view;
      assert child.Record() == c.st[child];
      SplitStart(c, peekPrevProtected, child, k);
      newNode := SplitChild(child, k, now);
      SplitResult(c, peekPrevProtected, child, k, newNode);
      SplitGood(c, peekPrevProtected, child, k, newNode);
      SplitLands(c, child, k, newNode, key, at);
      SplitSameRefs(c, child, k, newNode);
      assert newNode.Record() == view.st[newNode];
    }

    method Touch(node: TreeNode, now: int)
      requires Synced() && node in all
      modifies node`lastAccessTime
      ensures Synced() && node.lastAccessTime == now
      ensures AccessTimes() == old(AccessTimes())[node := now]
    {
      node.lastAccessTime := now;
    }

    /** Come to the child of `node` that continues the way along `rest`: note the access and compare
        the keys. */
    method Visit(node: TreeNode, rest: seq<Token>, updateLru: bool, now: int, ghost key: seq<Token>,
                 ghost values: seq<int>, ghost before: map<TreeNode, int>)
      returns (child: TreeNode, prefixLen: nat)
      requires Synced() && Inv(view) && node in all && Stands(view, key, values, node) && rest != []
      requires |values| <= |key| && rest == key[|values|..] && rest[0] in node.children && before.Keys == all
      requires updateLru ==> Touched(view, key[..|values|], key != [], before, AccessTimes(), now)
      modifies (if updateLru then all else {})`lastAccessTime
      ensures Synced() && child in all && child in view.st && child in view.path
      ensures 0 < prefixLen <= |child.key| && |values| + prefixLen <= |key|
      ensures prefixLen < |child.key| ==> StoppedInside(view, key, values, child, prefixLen)
      ensures prefixLen == |child.key| ==>
        prefixLen == |child.value| && Stands(view, key, values + child.value, child)
      ensures updateLru ==> child.lastAccessTime == now
      ensures updateLru ==> Touched(view, if prefixLen < |child.key| then key else key[..|values| + prefixLen],
        key != [], before, AccessTimes(), now)
    {
      hide Inv, Synced, Stands, StoppedInside, Touched, AccessTimes;
      RecordIs(node) by { StandsPath(view, key, values, node); }
      child := node.children[rest[0]];
      DownStep(view, node, key, values);
      StandsPath(view, key, values, node);
      RecordIs(child);
      ghost var times := AccessTimes();
      if updateLru {
        Touch(child, now);
      }
      RecordIs(child);
      prefixLen := KeyMatch(child.key, rest);
      if updateLru {
        TouchedStep(view, node, key, |values|, child, prefixLen, key != [], before, times, now);
      }
    }

    /** Follow `key` down.  The match ends at `node`, or `k` tokens into the key of `stop`. */
    method MatchDown(key: seq<Token>, updateLru: bool, now: int)
      returns (values: seq<int>, node: TreeNode, stop: TreeNode?, k: nat)
      requires Valid()
      modifies (if updateLru then all else {})`lastAccessTime
      ensures Valid() && node in view.path
      ensures stop == null ==> Stopped(view, key, values, node)
      ensures stop != null ==> StoppedInside(view, key, values, stop, k)
      ensures updateLru && stop == null && values != [] ==> node.lastAccessTime == now
      ensures updateLru ==> Touched(view, key, key != [], old(AccessTimes()), AccessTimes(), now)
    {
      hide Good, Inv, Stands, Stopped, StoppedInside, Synced, Touched, AccessTimes;
      ghost var c, before := view, AccessTimes();
      TimesKnown();
      GoodParts(c, peekPrevProtected);
      node := rootNode;
      FieldsAre();
      RecordIs(node);
      values, stop, k := [], null, 0;
      var rest := key;
      if updateLru && key != [] {
        Touch(node, now);
      }
      TouchedRoot(c, updateLru && key != [], before, AccessTimes(), now);
      assert key[..0] == [];
      StandsAtRoot(c, key);
      while |rest| > 0 && rest[0] in node.children
        invariant Synced() && Stands(c, key, values, node)
        invariant node in c.path && node in c.st && node in all && |values| <= |key| && rest == key[|values|..]
        invariant updateLru && values != [] ==> node.lastAccessTime == now
        invariant updateLru ==> Touched(c, key[..|values|], key != [], before, AccessTimes(), now)
        decreases |rest|
      {
        var child, prefixLen := Visit(node, rest, updateLru, now, key, values, before);
        if prefixLen < |child.key| {
          stop, k := child, prefixLen;
          return;
        }
        DropTwice(key, |values|, prefixLen);
        values := values + child.value;
        node := child;
        rest := rest[prefixLen..];
      }
      RecordIs(node);
      StandsPath(c, key, values, node);
      if updateLru {
        TouchedEnds(c, node, key, |values|, key != [], before, AccessTimes(), now);
      }
      StopsHere(c, node, key, values);
    }

    lemma TimesKnown()
      requires Valid()
      ensures AccessTimes().Keys == all == view.st.Keys && rootNode in all && view.root == rootNode
      ensures view.path.Keys <= all
    {
    }

    lemma FreshFalls(now: int)
      requires Valid() && all == {rootNode} && rootNode.lastAccessTime == now
      ensures view.path == map[rootNode := []] && Falling(view.path, AccessTimes()) && NoneLater(AccessTimes(), now)
    {
      GoodParts(view, peekPrevProtected);
    }

    /** The order of the access times along root paths survives what a match or insert did to `c`. */
    lemma StillFalling(c: Cache<TreeNode>, key: seq<Token>, k: nat, rootToo: bool, before: map<TreeNode, int>, now: int)
      requires Valid() && Inv(c) && before.Keys == c.st.Keys
      requires GrownAlong(before.Keys, c.path, view.path, key, k)
      requires Touched(c, key, rootToo, before, AccessTimes(), now) && MadeNow(before, AccessTimes(), now)
      ensures Falling(c.path, before) && NoneLater(before, now) ==>
        Falling(view.path, AccessTimes()) && NoneLater(AccessTimes(), now)
    {
      hide Good, Inv, Synced, Touched, MadeNow, Falling, NoneLater, GrownAlong;
      TimesKnown();
      if Falling(c.path, before) && NoneLater(before, now) {
        FallingKept(c, view.path, key, k, rootToo, before, AccessTimes(), now);
      }
    }

    lemma DropTwice(key: seq<Token>, n: nat, k: nat)
      requires n + k <= |key|
      ensures key[n..][k..] == key[n + k..]
    {
    }

    lemma ValidParts()
      requires Valid()
      ensures Synced() && Inv(view) && view.path.Keys <= view.st.Keys
    {
    }

    lemma FieldsAre()
      requires Synced()
      ensures rootNode == view.root && evictableSize == view.evictable && protectedSize == view.shielded
      ensures evictableLeaves == view.leaves && all == view.st.Keys
    {
    }

    /** The longest cached prefix of `key`: its indices and the node it ends at, which a split
        may have to make now.  What is cached, locked and referenced does not change, nor do the access
        times of the nodes there were without `updateLru`; with it, exactly those that the way along
        `key` passes have just been accessed, and the root unless the key is empty. */
    method MatchPrefix(key: seq<Token>, updateLru: bool, now: int) returns (values: seq<int>, node: TreeNode)
      requires Valid()
      modifies this`all, this`view, all`children, all`parent, all`key, all`value
      modifies (if updateLru then all else {})`lastAccessTime
      ensures Valid() && IsHit(view.content, key, |values|) && Reads(view.content, key, values)
      ensures node in view.path && view.path[node] == key[..|values|]
      ensures SameOutside(old(view), view) && SameRefs(old(view), view)
      ensures updateLru && values != [] ==> node.lastAccessTime == now
      ensures if updateLru then Touched(old(view), key, key != [], old(AccessTimes()), AccessTimes(), now)
        else TimesKept(old(AccessTimes()), AccessTimes())
      ensures MadeNow(old(AccessTimes()), AccessTimes(), now)
      ensures old(all) <= all && fresh(all - old(all))
      ensures OneMade(old(all), old(view).path, view.path, node, key[..|values|])
      ensures forall n :: n in old(view.path) ==> n in view.path && view.path[n] == old(view.path)[n]
      ensures updateLru && Falling(old(view.path), old(AccessTimes())) && NoneLater(old(AccessTimes()), now) ==>
        Falling(view.path, AccessTimes()) && NoneLater(AccessTimes(), now)
    {
      hide Good, Inv, IsHit, SameRefs, Synced, Touched, TimesKept, MadeNow, AccessTimes, Falling, NoneLater,
        GrownAlong;
      ghost var c, before := view, AccessTimes();
      GoodParts(view, peekPrevProtected);
      NothingSameRefs(view);
      TimesKnown();
      var stop: TreeNode?, k: nat;
      values, node, stop, k := MatchDown(key, updateLru, now);
      ghost var times := AccessTimes();
      TimesKnown();
      NothingMade(before, times, now);
      if stop != null {
        RecordIs(stop);
        FieldsAre();
        node := SplitHere(stop, k, now, key, |values|);
        TouchedMore(c, key, key != [], before, times, node, now);
        values := values + node.value;
      }
      if updateLru {
        OneMadeGrows(before.Keys, c.path, view.path, node, |values|, key);
        StillFalling(c, key, |values|, key != [], before, now);
      }
    }

    /** The evictable leaves once the status of `node` has been recomputed. */
    function UpdateLeafStatus(leaves: set<TreeNode>, node: TreeNode): (after: set<TreeNode>)
      reads node
      ensures after == LeafStatus(leaves, node, node.Record())
    {
      if node.lockRef > 0 || node.children != map[] then leaves - {node} else leaves + {node}
    }

    /** Hang a new node for `key` below `node`. */
    method AddChild(node: TreeNode, key: seq<Token>, value: seq<int>, now: int) returns (newNode: TreeNode)
      requires Valid() && node in view.path && key != [] && |value| == |key| && node in all && key[0] !in node.children
      modifies this`all, this`view, this`evictableSize, this`evictableLeaves, node`children
      ensures Synced() && fresh(newNode) && all == old(all) + {newNode}
      ensures AddReady(old(view), node, key, value, newNode)
      ensures view == AddNode(old(view), node, key, value, newNode)
      ensures AccessTimes() == old(AccessTimes())[newNode := now]
    {
      hide Good, AddReady, Extend, LeafStatus, AddNode;
      ghost var c := view;
      assert node.Record() == c.st[node];
      newNode := Hang(node, key, value, now);
      AddResult(c, peekPrevProtected, node, key, value, newNode);
      ghost var c' := AddNode(c, node, key, value, newNode);
      assert node.Record() == c'.st[node] && newNode.Record() == c'.st[newNode];
      var leaves := UpdateLeafStatus(UpdateLeafStatus(evictableLeaves, node), newNode);
      forall n | n in all && n != node
        ensures n.Record() == c'.st[n]
      {
        assert n.Record() == c.st[n];
      }
      Resize(all + {newNode}, c', evictableSize + |key|, leaves);
    }

    method Resize(ghost nodes: set<TreeNode>, ghost c: Cache<TreeNode>, size: int, leaves: set<TreeNode>)
      requires c.st.Keys == nodes && forall n {:trigger n.Record()} :: n in nodes ==> n.Record() == c.st[n]
      requires c.root == rootNode && c.evictable == size && c.shielded == protectedSize && c.leaves == leaves
      modifies this`all, this`view, this`evictableSize, this`evictableLeaves
      ensures Synced() && all == nodes && view == c
    {
      evictableSize, evictableLeaves := size, leaves;
      Adopt(nodes, c);
    }

    /** From now on the objects stand for `c`. */
    ghost method Adopt(nodes: set<TreeNode>, c: Cache<TreeNode>)
      requires c.st.Keys == nodes && forall n {:trigger n.Record()} :: n in nodes ==> n.Record() == c.st[n]
      requires c.root == rootNode && c.evictable == evictableSize && c.shielded == protectedSize
      requires c.leaves == evictableLeaves
      modifies this`all, this`view
      ensures Synced() && all == nodes && view == c
    {
      all, view := nodes, c;
    }

    /** Make the node object and put it into the table of `node`; nobody else changes. */
    method Hang(node: TreeNode, key: seq<Token>, value: seq<int>, now: int) returns (newNode: TreeNode)
      requires Synced() && node in all && key != []
      modifies node`children
      ensures fresh(newNode) && newNode.lastAccessTime == now
      ensures newNode.Record() ==
        Rec<TreeNode>.Rec(The<TreeNode>(node), map[], key, value, 0, 0, view.st[node].depth + |key|)
      ensures node.Record() == view.st[node].(kids := view.st[node].kids[key[0] := newNode])
      ensures forall n {:trigger n.Record()} :: n in all && n != node ==> n.Record() == view.st[n]
    {
      assert node.Record() == view.st[node];
      newNode := new TreeNode.Below(node, key, value, now);
      forall n | n in all && n != node
        ensures n.Record() == view.st[n]
      {
        assert n.Record() == old(n.Record());
      }
    }

    /** Follow `key` down for an insert, which accesses the root even for the empty key. */
    method TouchDown(key: seq<Token>, now: int) returns (values: seq<int>, node: TreeNode, stop: TreeNode?, k: nat)
      requires Valid()
      modifies all`lastAccessTime
      ensures Valid() && node in view.path
      ensures stop == null ==> Stopped(view, key, values, node)
      ensures stop != null ==> StoppedInside(view, key, values, stop, k)
      ensures Touched(view, key, true, old(AccessTimes()), AccessTimes(), now)
    {
      hide Good, Inv, Synced, Stopped, StoppedInside, Touched, AccessTimes;
      ghost var c, before := view, AccessTimes();
      TimesKnown();
      FieldsAre();
      RecordIs(rootNode) by { GoodParts(view, peekPrevProtected); }
      Touch(rootNode, now);
      values, node, stop, k := MatchDown(key, true, now);
      TouchedBoth(c, key, key != [], before, AccessTimes(), now);
    }

    /** Follow `key` down for an insert: a node at the end of its longest cached prefix. */
    method ReachEnd(key: seq<Token>, now: int) returns (node: TreeNode, prefixLen: nat)
      requires Valid()
      modifies this`all, this`view, all`children, all`parent, all`key, all`value, all`lastAccessTime
      ensures Valid() && IsHit(view.content, key, prefixLen) && prefixLen <= |key|
      ensures node in view.path && node in all && view.path[node] == key[..prefixLen]
      ensures prefixLen < |key| ==> key[prefixLen] !in node.children
      ensures SameOutside(old(view), view)
      ensures old(all) <= all && fresh(all - old(all))
      ensures forall n :: n in old(view.path) ==> n in view.path && view.path[n] == old(view.path)[n]
      ensures Touched(old(view), key, true, old(AccessTimes()), AccessTimes(), now)
      ensures MadeNow(old(AccessTimes()), AccessTimes(), now)
      ensures OneMade(old(all), old(view).path, view.path, node, key[..prefixLen])
    {
      hide Good, Inv, IsHit, Reads, Synced, Stopped, StoppedInside, Stands, Touched, MadeNow, AccessTimes;
      ghost var c, before := view, AccessTimes();
      TimesKnown();
      var values, stop: TreeNode?, k: nat;
      values, node, stop, k := TouchDown(key, now);
      ghost var times := AccessTimes();
      TimesKnown();
      NothingMade(before, times, now);
      prefixLen := |values|;
      if stop != null {
        InsideFacts(view, key, values, stop, k);
        RecordIs(stop);
        node := SplitHere(stop, k, now, key, |values|);
        TouchedMore(c, key, true, before, times, node, now);
        prefixLen := |values| + k;
        assert prefixLen < |key| ==> key[prefixLen] !in node.children;
      } else {
        StoppedFacts(view, key, values, node);
        RecordIs(node);
        assert node.children == view.st[node].kids;
      }
    }

    /** Cache `value` for `key`.  Returns how much of the key was cached already; only the rest is
        added, and what was cached keeps its index.  Exactly the root and the nodes that the way along
        `key` passes have just been accessed, and the nodes made now end the key and what of it was
        cached already, if no node did. */
    method Insert(key: seq<Token>, value: seq<int>, now: int) returns (prefixLen: nat)
      requires Valid() && |value| == |key|
      modifies this`all, this`view, this`evictableSize, this`evictableLeaves, all
      ensures Valid() && IsHit(old(view.content), key, prefixLen)
      ensures forall p :: p in view.content <==> p in old(view.content) || (p <= key && prefixLen < |p|)
      ensures forall p :: p in view.content ==>
        view.content[p] == if p in old(view.content) then old(view.content)[p] else value[|p| - 1]
      ensures view.holders == old(view.holders)
      ensures evictableSize == old(evictableSize) + |key| - prefixLen
      ensures old(all) <= all && fresh(all - old(all))
      ensures forall n :: n in old(view.path) ==> n in view.path && view.path[n] == old(view.path)[n]
      ensures Touched(old(view), key, true, old(AccessTimes()), AccessTimes(), now)
      ensures MadeNow(old(AccessTimes()), AccessTimes(), now)
      ensures GrownAlong(old(all), old(view).path, view.path, key, prefixLen)
      ensures HasNode(view.path, key[..prefixLen]) && HasNode(view.path, key)
      ensures Falling(old(view.path), old(AccessTimes())) && NoneLater(old(AccessTimes()), now) ==>
        Falling(view.path, AccessTimes()) && NoneLater(AccessTimes(), now)
    {
      hide Good, Inv, IsHit, AddReady, AddNode, Synced, Extend, Touched, MadeNow, AccessTimes, Falling, NoneLater,
        GrownAlong, HasNode;
      ghost var c0, before := view, AccessTimes();
      ValidParts();
      TimesKnown();
      FieldsAre();
      var node;
      node, prefixLen := ReachEnd(key, now);
      ghost var times := AccessTimes();
      OneMadeGrows(before.Keys, c0.path, view.path, node, prefixLen, key);
      NodeAtEnd(view.path, node, key, prefixLen);
      FieldsAre();
      HitIsShort(view.content, key, prefixLen);
      if prefixLen < |key| {
        ghost var c := view;
        var newNode := AddChild(node, key[prefixLen..], value[prefixLen..], now);
        AddGood(c, peekPrevProtected, node, key[prefixLen..], value[prefixLen..], newNode);
        AddLands(c, node, key, value, prefixLen, newNode);
        TouchedMore(c0, key, true, before, times, newNode, now);
        GrowsOnce(before.Keys, c0.path, c.path, newNode, key, prefixLen);
        FieldsAre();
      }
      StillFalling(c0, key, prefixLen, true, before, now);
    }

    /** One step of a lock walk: set the count of `node`, move `delta` tokens between the two sizes
        and recompute its leaf status. */
    method WriteLock(node: TreeNode, lock: nat, delta: int)
      requires Synced() && LockReady(view, node) && node in all
      requires delta == (if lock == 0 then |node.key| else 0) - (if node.lockRef == 0 then |node.key| else 0)
      modifies this`view, this`evictableSize, this`protectedSize, this`evictableLeaves, node`lockRef
      ensures Synced() && LockReady(old(view), node) && view == SetLock(old(view), node, lock)
      ensures delta == evictableSize - old(evictableSize) == old(protectedSize) - protectedSize
    {
      hide LockReady, LeafStatus, SetLock;
      ghost var c := view;
      LockStart(c, node);
      assert node.Record() == c.st[node];
      node.lockRef := lock;
      evictableSize, protectedSize := evictableSize + delta, protectedSize - delta;
      evictableLeaves := UpdateLeafStatus(evictableLeaves, node);
      SetLockResult(c, node, lock);
      view := SetLock(c, node, lock);
      forall n | n in all
        ensures n.Record() == view.st[n]
      {
        if n != node {
          assert n.Record() == old(n.Record()) == c.st[n];
        }
      }
      assert view.root == rootNode;
      assert view.evictable == evictableSize;
      assert view.shielded == protectedSize;
      assert view.leaves == evictableLeaves;
      assert view.st.Keys == all;
    }

    /** Lock the path to `node` for one more holder. */
    method IncLockRef(node: TreeNode, ghost holder: Rid) returns (delta: int)
      requires Valid() && node in view.path && holder !in view.holders
      modifies this`view, this`evictableSize, this`protectedSize, this`evictableLeaves, all`lockRef
      ensures Valid() && view.holders == old(view.holders)[holder := node]
      ensures view.path == old(view.path) && view.content == old(view.content)
      ensures delta == evictableSize - old(evictableSize) == old(protectedSize) - protectedSize
    {
      hide Good, Inv, Synced, SetLock, LockReady, GoodButLocks, LocksUpTo;
      ghost var c, tokens := view, view.path[node];
      LockWalkStart(c, peekPrevProtected, node, 1);
      FieldsAre();
      delta := 0;
      var cur := node;
      while cur != rootNode
        invariant Synced() && cur in view.path && cur in view.st && view.path[cur] <= tokens
        invariant GoodButLocks(view, peekPrevProtected) && view.path.Keys <= view.st.Keys
        invariant LocksUpTo(view, tokens, |view.path[cur]|, 1)
        invariant SameForLocks(c, view)
        invariant delta == evictableSize - old(evictableSize) == old(protectedSize) - protectedSize
        decreases |view.path[cur]|
      {
        FieldsAre();
        RecordIs(cur);
        ghost var was := view;
        LockWalkStep(was, peekPrevProtected, cur, tokens, 1, view.st[cur].lock + 1);
        var d := if cur.lockRef == 0 then -|cur.key| else 0;
        delta := delta + d;
        WriteLock(cur, cur.lockRef + 1, d);
        RecordIs(cur);
        cur := cur.parent;
        FieldsAre();
      }
      FieldsAre();
      LockWalkGained(view, peekPrevProtected, node, holder);
      SetHolders(view.holders[holder := node]);
    }

    /** Unlock the path to `node` for the holder that held it. */
    method DecLockRef(node: TreeNode, ghost holder: Rid) returns (delta: int)
      requires Valid() && node in view.path && holder in view.holders && view.holders[holder] == node
      modifies this`view, this`evictableSize, this`protectedSize, this`evictableLeaves, all`lockRef
      ensures Valid() && view.holders == old(view.holders) - {holder}
      ensures view.path == old(view.path) && view.content == old(view.content)
      ensures delta == evictableSize - old(evictableSize) == old(protectedSize) - protectedSize
    {
      hide Good, Inv, Synced, SetLock, LockReady, GoodButLocks, LocksUpTo;
      ghost var c, tokens := view, view.path[node];
      LockWalkStart(c, peekPrevProtected, node, -1);
      FieldsAre();
      delta := 0;
      var cur := node;
      while cur != rootNode
        invariant Synced() && cur in view.path && cur in view.st && view.path[cur] <= tokens
        invariant GoodButLocks(view, peekPrevProtected) && view.path.Keys <= view.st.Keys
        invariant LocksUpTo(view, tokens, |view.path[cur]|, -1)
        invariant SameForLocks(c, view)
        invariant delta == evictableSize - old(evictableSize) == old(protectedSize) - protectedSize
        decreases |view.path[cur]|
      {
        FieldsAre();
        RecordIs(cur);
        ghost var was := view;
        LockWalkHeld(was, peekPrevProtected, cur, holder, tokens);
        LockWalkStep(was, peekPrevProtected, cur, tokens, -1, SaturatingSub(view.st[cur].lock, 1));
        var d := if cur.lockRef == 1 then |cur.key| else 0;
        delta := delta + d;
        WriteLock(cur, SaturatingSub(cur.lockRef, 1), d);
        RecordIs(cur);
        cur := cur.parent;
        FieldsAre();
      }
      FieldsAre();
      LockWalkLost(view, peekPrevProtected, node, holder);
      SetHolders(view.holders - {holder});
    }

    ghost method SetHolders(holders: map<Rid, TreeNode>)
      requires Synced()
      modifies this`view
      ensures Synced() && view == old(view).(holders := holders)
    {
      view := view.(holders := holders);
    }

    /** Unlink an evictable leaf.  The object keeps its parent pointer. */
    method DeleteLeaf(x: TreeNode)
      requires Synced() && RemoveReady(view, x) && x in all && Inv(view)
      modifies this`view, this`evictableSize, this`evictableLeaves, all`children
      ensures Synced() && RemoveReady(old(view), x) && view == RemoveNode(old(view), x)
    {
      hide RemoveReady, LeafStatus, RemoveNode, Inv;
      ghost var c := view;
      LeafParent(c, x);
      assert x.Record() == c.st[x];
      var parent: TreeNode := x.parent;
      assert parent.Record() == c.st[parent];
      parent.children := parent.children - {x.key[0]};
      evictableSize := evictableSize - |x.key|;
      evictableLeaves := UpdateLeafStatus(evictableLeaves - {x}, parent);
      RemoveResult(c, x);
      view := RemoveNode(c, x);
      forall n | n in all
        ensures n.Record() == view.st[n]
      {
        if n != parent {
          assert n.Record() == old(n.Record()) == c.st[n];
        }
      }
      assert view.root == rootNode;
      assert view.evictable == evictableSize;
      assert view.shielded == protectedSize;
      assert view.leaves == evictableLeaves;
      assert view.st.Keys == all;
    }

    function Priority(n: TreeNode): Key
      reads n`queueRefCount, n`depth, n`lastAccessTime
    {
      strategy(n.queueRefCount, n.depth, n.lastAccessTime)
    }

    /** Delete an evictable leaf.  Its parent may be one now. */
    method TakeLeaf(x: TreeNode) returns (freed: nat, bared: Option<TreeNode>)
      requires Valid() && x in view.leaves
      modifies this`view, this`evictableSize, this`evictableLeaves, all`children
      ensures Valid() && RemoveReady(old(view), x) && view == RemoveNode(old(view), x)
      ensures freed + view.evictable == old(view).evictable && view.shielded == old(view).shielded
      ensures view.path.Keys < old(view).path.Keys && view.leaves == old(view).leaves - {x} + Bared(bared)
      ensures bared.Some? ==> bared.value in all && bared.value in view.path
      ensures bared.Some? ==> bared.value in old(view).path && bared.value !in old(view).leaves
    {
      hide Good, Inv, Synced, RemoveReady, RemoveNode;
      ghost var was := view;
      GoodParts(was, peekPrevProtected);
      LeafReady(was, x);
      RecordIs(x);
      freed := |x.value|;
      var parent: TreeNode := x.parent;
      RecordIs(parent);
      DeleteLeaf(x);
      RemoveResult(was, x);
      RemoveGood(was, peekPrevProtected, x);
      RecordIs(parent);
      bared := if parent.children == map[] && parent.lockRef == 0 then Some(parent) else None;
    }

    /** When each node was last accessed. */
    ghost function AccessTimes(): map<TreeNode, int>
      reads this`all, all`lastAccessTime
    {
      map n | n in all :: n.lastAccessTime
    }

    /** Free at least `numTokens` tokens, or everything evictable. */
    method Evict(numTokens: int) returns (numEvicted: int, ghost victims: seq<TreeNode>, ghost keys: map<TreeNode, Key>)
      requires Valid()
      modifies this`view, this`evictableSize, this`evictableLeaves, all`children
      ensures Valid() && Evicted(old(view), view, victims)
      ensures numEvicted >= Min(numTokens, old(evictableSize))
      ensures numEvicted + evictableSize == old(evictableSize) && protectedSize == old(protectedSize)
      ensures StopsInTime(old(view), victims, numEvicted, numTokens) && (numTokens <= 0 ==> victims == [])
      ensures LeastFirst(old(view), keys, victims) && KeysOf(old(view), strategy, old(AccessTimes()), keys)
      ensures HardPartition(strategy) ==> Partitioned(old(view), Wanted(old(view)), victims)
    {
      hide Valid, AccessTimes, LeastFirst, Good, Inv, Synced, Progress, KeysOf, Evicted, Partitioned, HardPartition,
        RemoveReady, RemoveNode, StopsInTime, OneMore;
      ghost var c, access := view, AccessTimes();
      ValidParts();
      FieldsAre();
      victims := [];
      var heap := FirstHeap();
      keys := heap;
      ProgressStarts(c, heap);
      numEvicted := 0;
      StopsStarts(c, numTokens);
      while numEvicted < numTokens && heap != map[]
        invariant Valid() && Progress(c, view, keys, heap, victims)
        invariant access == AccessTimes() && KeysOf(c, strategy, access, keys)
        invariant numEvicted + view.evictable == c.evictable && view.shielded == c.shielded
        invariant StopsInTime(c, victims, numEvicted, numTokens)
        invariant heap.Keys == view.leaves
        decreases view.path.Keys
      {
        var freed;
        ghost var before := victims;
        freed, heap, keys, victims := TakeLeast(heap, c, keys, victims);
        StopsStep(c, before, victims, numEvicted, freed, numTokens);
        numEvicted := numEvicted + freed;
      }
      ValidParts();
      FieldsAre();
      QuotaMet(c, view, numEvicted, numTokens);
      NothingAsked(c, victims, numEvicted, numTokens);
      ProgressParts(c, view, keys, heap, victims);
      if HardPartition(strategy) {
        HardPartitions(c, strategy, access, keys, victims);
      }
    }

    /** One victim: a least entry of the heap goes, and the parent it leaves bare may come in. */
    method TakeLeast(heap: map<TreeNode, Key>, ghost c0: Cache<TreeNode>, ghost keys: map<TreeNode, Key>,
                     ghost victims: seq<TreeNode>)
      returns (freed: nat, rest: map<TreeNode, Key>, ghost more: map<TreeNode, Key>, ghost gone: seq<TreeNode>)
      requires Valid() && heap.Keys == view.leaves && heap != map[] && Progress(c0, view, keys, heap, victims)
      requires KeysOf(c0, strategy, AccessTimes(), keys)
      modifies this`view, this`evictableSize, this`evictableLeaves, all`children
      ensures Valid() && rest.Keys == view.leaves && Progress(c0, view, more, rest, gone)
      ensures AccessTimes() == old(AccessTimes()) && KeysOf(c0, strategy, AccessTimes(), more)
      ensures freed + view.evictable == old(view).evictable && view.shielded == old(view).shielded
      ensures view.path.Keys < old(view).path.Keys && OneMore(c0, victims, gone, freed)
    {
      hide Valid, AccessTimes, Good, Inv, Synced, Progress, KeysOf, RemoveReady, RemoveNode, Evicted, LeastFirst,
        OneMore;
      ghost var was := view;
      ValidParts();
      var x := PopMin(heap);
      var bared;
      freed, bared := TakeLeaf(x);
      var key := if bared.Some? then Priority(bared.value) else [];
      ProgressStep(c0, was, keys, heap, victims, x, bared, key);
      rest, more, gone := With(heap - {x}, bared, key), With(keys, bared, key), victims + [x];
      GoneIsMore(c0, was, keys, heap, victims, x, freed);
      ProgressParts(c0, view, more, rest, gone);
      KeysMore(c0, gone, keys, bared, key);
    }

    /** With the queue-aware strategy no node that waiting requests reference goes while an unlocked
        one without references is left, at whatever cost. */
    method EvictQueueAware(numTokens: int, ghost cost: (nat, nat) -> real)
      returns (numEvicted: int, ghost victims: seq<TreeNode>)
      requires Valid() && strategy == QueueAware(cost)
      modifies this`view, this`evictableSize, this`evictableLeaves, all`children
      ensures Valid() && Evicted(old(view), view, victims) && numEvicted >= Min(numTokens, old(evictableSize))
      ensures Partitioned(old(view), Wanted(old(view)), victims)
      ensures StopsInTime(old(view), victims, numEvicted, numTokens) && (numTokens <= 0 ==> victims == [])
      ensures CheapestFirst(old(view), cost, old(AccessTimes()), victims)
    {
      hide Valid, Evicted, Partitioned, LeastFirst, KeysOf, HardPartition, StopsInTime, AccessTimes, CheapestFirst;
      ghost var c, access := view, AccessTimes();
      QueueAwareIsHard(cost);
      ghost var keys;
      numEvicted, victims, keys := Evict(numTokens);
      EvictedParts(c, view, victims);
      CheapestGoFirst(c, cost, access, keys, victims);
    }

    lemma KeysMore(c0: Cache<TreeNode>, victims: seq<TreeNode>, keys: map<TreeNode, Key>, bared: Option<TreeNode>,
                   key: Key)
      requires Valid() && Evicted(c0, view, victims) && KeysOf(c0, strategy, AccessTimes(), keys)
      requires bared.Some? ==> bared.value in all && key == Priority(bared.value)
      ensures KeysOf(c0, strategy, AccessTimes(), With(keys, bared, key))
    {
      hide Good, Evicted;
      EvictedParts(c0, view, victims);
      if bared.Some? {
        RecordIs(bared.value);
      }
    }

    method FirstHeap() returns (heap: map<TreeNode, Key>)
      requires Valid()
      ensures heap.Keys == view.leaves && KeysOf(view, strategy, AccessTimes(), heap)
    {
      hide Good, Inv, Built, Chained, Locked, Sized, Referenced, Mapped;
      heap := map n | n in evictableLeaves :: Priority(n);
      GoodParts(view, peekPrevProtected);
      LeavesKnown(view);
      forall n | n in heap
        ensures n in all && heap[n] == strategy(view.st[n].refs, view.st[n].depth, n.lastAccessTime)
      {
        RecordIs(n);
      }
    }

    lemma LeavesKnown(c: Cache<TreeNode>)
      requires Inv(c)
      ensures c.leaves <= c.st.Keys
    {
    }

    /** Number of cached tokens, counted node by node. */
    method TotalSize() returns (total: nat)
      requires Synced() && Inv(view)
      ensures total == evictableSize + protectedSize
    {
      hide Inv, Synced, Totalled, Waiting;
      TotalStart(view);
      FieldsAre();
      total := 0;
      var stack: seq<TreeNode> := [rootNode];
      while stack != []
        invariant Synced() && Totalled(view, stack, total)
        decreases Waiting(Sh(view), stack)
      {
        var n := stack[|stack| - 1];
        TotalTop(view, stack, total);
        RecordIs(n);
        var kids := ListKids(n.children);
        TotalStep(view, stack, total, n, kids);
        total := total + |n.value|;
        stack := stack[..|stack| - 1] + kids;
      }
      FieldsAre();
      TotalEnd(view, total);
    }

    // ----- queue references -----

    method SetRef(node: TreeNode, refs: nat)
      requires Synced() && node in all
      modifies this`view, node`queueRefCount
      ensures Synced() && node in old(view.st)
      ensures view == old(view).(st := old(view).st[node := old(view).st[node].(refs := refs)])
    {
      ghost var c := view;
      assert node.Record() == c.st[node];
      node.queueRefCount := refs;
      view := c.(st := c.st[node := c.st[node].(refs := refs)]);
      forall n | n in all
        ensures n.Record() == view.st[n]
      {
        if n != node {
          assert n.Record() == old(n.Record()) == c.st[n];
        }
      }
    }

    /** One more waiting request needs everything from `node` up to the root. */
    method IncQueueRef(node: TreeNode)
      requires Synced() && Inv(view) && node in all
      modifies this`view, all`queueRefCount
      ensures Synced() && Inv(view) && Raised(old(view), view, node)
    {
      hide Inv, Synced, WalkUp, RaisedTo, RefsOnly;
      ghost var c := view;
      var cur := node;
      InvChain(c);
      FieldsAre();
      RaiseStart(c, node);
      while cur != rootNode
        invariant Synced() && cur in c.st && RaisedTo(c, view, node, cur) && view.root == c.root
        invariant view.st.Keys == c.st.Keys
        decreases c.st[cur].depth
      {
        FieldsAre();
        RecordIs(cur);
        RaiseStep(c, view, node, cur);
        SetRef(cur, cur.queueRefCount + 1);
        RecordIs(cur);
        cur := cur.parent;
      }
      FieldsAre();
      RaiseEnd(c, view, node);
    }

    /** Remember which nodes this cycle has protected. */
    method SetPrev(nodes: seq<TreeNode>)
      requires Synced() && Inv(view) && Traced(view, nodes)
      modifies this`peekPrevProtected
      ensures Valid() && peekPrevProtected == Some(nodes)
    {
      peekPrevProtected := Some(nodes);
    }

    /** Set every reference count in the tree to zero. */
    method ResetAllQueueRefs()
      requires Synced() && Inv(view)
      modifies this`view, all`queueRefCount
      ensures Synced() && Inv(view) && RefsOnly(old(view), view) && AllClear(view)
    {
      hide Inv, Synced, ClearedBut, Waiting;
      ghost var c := view;
      ResetStart(c);
      FieldsAre();
      var stack: seq<TreeNode> := [rootNode];
      while stack != []
        invariant Synced() && c.path.Keys <= c.st.Keys && view.st.Keys == c.st.Keys && ClearedBut(c, view, stack)
        decreases Waiting(Sh(c), stack)
      {
        var n := stack[|stack| - 1];
        ghost var was := view;
        ResetTop(c, was, stack);
        FieldsAre();
        SetRef(n, 0);
        RecordIs(n);
        var kids := ListKids(n.children);
        ResetStep(c, was, stack, n, kids);
        stack := stack[..|stack| - 1] + kids;
      }
      ResetEnd(c, view);
    }

    /** Set the reference counts to zero from `node` up to the root. */
    method ClearWalk(node: TreeNode, ghost c: Cache<TreeNode>)
      requires Synced() && Inv(c) && RefsOnly(c, view) && node in all
      modifies this`view, all`queueRefCount
      ensures Synced() && RefsOnly(c, view) && Cleared(c, old(view), view, node)
    {
      hide Inv, Synced, WalkUp, ClearedTo, RefsOnly;
      ghost var was := view;
      var walk: TreeNode? := node;
      InvChain(c);
      FieldsAre();
      ClearStart(c, was, node);
      while walk != null && walk != rootNode
        invariant Synced() && walk != null && walk in c.st && ClearedTo(c, was, view, node, walk)
        invariant view.root == c.root && view.st.Keys == c.st.Keys
        decreases c.st[walk].depth
      {
        FieldsAre();
        RecordIs(walk);
        ClearStep(c, was, view, node, walk);
        SetRef(walk, 0);
        RecordIs(walk);
        walk := walk.parent;
      }
      FieldsAre();
      ClearEnd(c, was, view, node);
    }
  }

  /** Two prompts cached at `early`, one the start of the other; a read-only match that stops inside the
      key of the longer one puts a node accessed `late` below one accessed `early`. */
  method ReadOnlyDisorders(early: int, late: int)
    returns (cache: RadixCache, ghost path: map<TreeNode, seq<Token>>, ghost times: map<TreeNode, int>)
    requires early < late
    ensures fresh(cache) && cache.Valid() && Falling(path, times) && path.Keys < cache.view.path.Keys
    ensures TimesKept(times, cache.AccessTimes()) && !Falling(cache.view.path, cache.AccessTimes())
  {
    hide RadixCache.Valid, RadixCache.AccessTimes, Falling, NoneLater, Touched, TimesKept, MadeNow, GrownAlong, OneMade,
      HasNode, IsHit, Reads, LeastRecentlyUsed, SameRefs;
    cache := new RadixCache(LeastRecentlyUsed(), early);
    cache.FreshFalls(early);
    ghost var known := cache.all;
    var first := cache.Insert([1], [10], early);
    ghost var one, content, more := cache.view, cache.view.content, cache.all;
    var second := cache.Insert([1, 2, 3], [10, 11, 12], early);
    ghost var two := cache.view.content;
    path, times := cache.view.path, cache.AccessTimes();
    cache.TimesKnown();
    var values, node := cache.MatchPrefix([1, 2], false, late);
    cache.TimesKnown();
    TwoCached(content, two, first, second, |values|);
    ghost var short := ShortNode(one.path, path, cache.rootNode, known, more);
    Disordered(path, cache.view.path, times, cache.AccessTimes(), short, node, early, late);
  }

  lemma TwoCached(one: map<seq<Token>, int>, two: map<seq<Token>, int>, first: nat, second: nat, hit: nat)
    requires IsHit(map[], [1], first) && IsHit(one, [1, 2, 3], second) && IsHit(two, [1, 2], hit)
    requires forall p :: p in one <==> p <= [1] && first < |p|
    requires forall p :: p in two <==> p in one || (p <= [1, 2, 3] && second < |p|)
    ensures first == 0 && second == 1 && hit == 2
  {
    var key: seq<Token> := [1, 2, 3];
    assert key[..1] == [1] && key[..1] in one;
    assert key[..2] == [1, 2] && key[..2] !in one;
    assert key[..3] == [1, 2, 3] && key[..3] !in one;
    assert [1, 2][..2] == key[..2] && key[..2] <= key;
  }

  /** Nothing ends at `[1, 2]` yet, and something ends at `[1]`. */
  lemma ShortNode<N>(one: map<N, seq<Token>>, two: map<N, seq<Token>>, root: N, known: set<N>, more: set<N>)
    returns (short: N)
    requires HasNode(one, [1]) && GrownAlong(known, map[root := []], one, [1], 0)
    requires GrownAlong(more, one, two, [1, 2, 3], 1)
    ensures short in two && two[short] == [1]
    ensures forall n :: n in two ==> two[n] != [1, 2]
  {
    short :| short in one && one[short] == [1];
    assert [1, 2, 3][..1] == [1] && [1][..0] == [];
  }

  lemma Disordered<N>(path: map<N, seq<Token>>, path': map<N, seq<Token>>, times: map<N, int>, times': map<N, int>,
                      short: N, node: N, early: int, late: int)
    requires early < late && NoneLater(times, early) && TimesKept(times, times') && MadeNow(times, times', late)
    requires path.Keys <= times.Keys && path'.Keys <= times'.Keys && short in path && path[short] == [1]
    requires node in path' && path'[node] == [1, 2] && (forall n :: n in path ==> path[n] != [1, 2])
    requires OneMade(times.Keys, path, path', node, [1, 2])
    ensures !Falling(path', times') && path.Keys < path'.Keys
  {
    assert path'[short] == [1] && path'[short] <= path'[node];
    assert node in path'.Keys && node !in path.Keys;
    assert times'[node] == late && times'[short] == times[short];
  }

  /** The cache invariant, and last cycle's protected nodes account for every queue reference. */
  ghost predicate Good<N>(c: Cache<N>, prev: Option<seq<N>>) {
    Inv(c) && (prev.Some? ==> Traced(c, prev.value))
  }

  lemma GoodParts<N>(c: Cache<N>, prev: Option<seq<N>>)
    requires Good(c, prev)
    ensures Inv(c) && c.path.Keys <= c.st.Keys && c.root in c.path && c.path[c.root] == []
  {
  }

  lemma SplitStart<N>(c: Cache<N>, prev: Option<seq<N>>, n: N, k: nat)
    requires Good(c, prev) && n in c.path && n != c.root && n in c.st && 0 < k < |c.st[n].key|
    ensures c.st[n].parent.Some? && c.st[n].parent.value in c.st && c.st[n].parent.value in c.path
    ensures c.st[n].parent.value != n && |c.st[n].value| == |c.st[n].key|
  {
    Fits(c, n);
  }

  /** What a split leaves behind, record by record. */
  lemma SplitResult<N>(c: Cache<N>, prev: Option<seq<N>>, n: N, k: nat, x: N)
    requires Good(c, prev) && n in c.path && n != c.root && n in c.st && 0 < k < |c.st[n].key| && x !in c.st
    ensures SplitReady(c, n, k, x)
    ensures var r, c' := c.st[n], SplitNode(c, n, k, x);
      && r.parent.Some? && r.parent.value in c.st && k <= |r.value|
      && var q := r.parent.value;
      && c'.st.Keys == c.st.Keys + {x}
      && c'.st[x] == Rec(Some(q), map[r.key[k] := n], r.key[..k], r.value[..k], r.lock, r.refs, c.st[q].depth + k)
      && c'.st[n] == r.(parent := Some(x), key := r.key[k..], value := r.value[k..])
      && c'.st[q] == c.st[q].(kids := c.st[q].kids[r.key[0] := x])
      && (forall m {:trigger c'.st[m]} :: m in c.st && m != n && m != q ==> c'.st[m] == c.st[m])
      && SameOutside(c, c')
  {
    Fits(c, n);
  }

  /** The parts of the cache that only locks, inserts and evictions change. */
  ghost predicate SameOutside<N>(c: Cache<N>, c': Cache<N>) {
    && c'.root == c.root && c'.holders == c.holders && c'.content == c.content
    && c'.evictable == c.evictable && c'.shielded == c.shielded && c'.leaves == c.leaves
  }

  /** No node of the tree gains or loses references, and a clear tree stays clear. */
  ghost predicate SameRefs<N>(c: Cache<N>, c': Cache<N>) {
    && c.path.Keys <= c.st.Keys && c'.path.Keys <= c'.st.Keys && c.path.Keys <= c'.path.Keys
    && (forall n {:trigger c'.st[n]} :: n in c.path ==> c'.st[n].refs == c.st[n].refs)
    && (AllClear(c) ==> AllClear(c'))
  }

  lemma NothingSameRefs<N>(c: Cache<N>)
    requires c.path.Keys <= c.st.Keys
    ensures SameRefs(c, c)
  {
  }

  lemma SplitSameRefs<N>(c: Cache<N>, n: N, k: nat, x: N)
    requires SplitReady(c, n, k, x)
    ensures SameRefs(c, SplitNode(c, n, k, x))
  {
    SplitFacts(c, n, k, x);
    assert n in c.path;
  }

  lemma SplitGood<N>(c: Cache<N>, prev: Option<seq<N>>, n: N, k: nat, x: N)
    requires Good(c, prev) && SplitReady(c, n, k, x)
    ensures Good(SplitNode(c, n, k, x), prev)
  {
    SplitInv(c, n, k, x);
    if prev.Some? {
      SplitTraced(c, n, k, x, prev.value);
    }
  }

  /** The upper half of a split ends where the match stopped and holds the matched values. */
  lemma SplitLands<N>(c: Cache<N>, n: N, k: nat, x: N, key: seq<Token>, at: nat)
    requires SplitReady(c, n, k, x) && at + k <= |key|
    requires key[..at + k] <= c.path[n] && |c.path[n]| == at + |c.st[n].key|
    ensures SplitNode(c, n, k, x).path == c.path[x := key[..at + k]] && x !in c.path
  {
    SplitFacts(c, n, k, x);
    assert c.path[n][..at + k] == key[..at + k];
  }

  lemma AddResult<N>(c: Cache<N>, prev: Option<seq<N>>, n: N, key: seq<Token>, value: seq<int>, x: N)
    requires Good(c, prev) && n in c.path && n in c.st && x !in c.st
    requires key != [] && |value| == |key| && key[0] !in c.st[n].kids
    ensures AddReady(c, n, key, value, x) && x !in c.path
    ensures var c' := AddNode(c, n, key, value, x);
      var r := c.st[n].(kids := c.st[n].kids[key[0] := x]);
      var s := Rec(Some(n), map[], key, value, 0, 0, c.st[n].depth + |key|);
      && c'.st.Keys == c.st.Keys + {x} && c'.st[n] == r && c'.st[x] == s
      && (forall m {:trigger c'.st[m]} :: m in c.st && m != n ==> c'.st[m] == c.st[m])
      && c'.path == c.path[x := c.path[n] + key]
      && c'.content == Extend(c.content, c.path[n], key, value)
      && c'.evictable == c.evictable + |key| && c'.leaves == LeafStatus(LeafStatus(c.leaves, n, r), x, s)
      && c'.root == c.root && c'.holders == c.holders && c'.shielded == c.shielded
  {
  }

  lemma AddGood<N>(c: Cache<N>, prev: Option<seq<N>>, n: N, key: seq<Token>, value: seq<int>, x: N)
    requires Good(c, prev) && AddReady(c, n, key, value, x)
    ensures Good(AddNode(c, n, key, value, x), prev)
  {
    AddInv(c, n, key, value, x);
    if prev.Some? {
      AddTraced(c, n, key, value, x, prev.value);
    }
  }

  lemma AddTraced<N>(c: Cache<N>, n: N, key: seq<Token>, value: seq<int>, x: N, prev: seq<N>)
    requires AddReady(c, n, key, value, x) && Chained(c) && Traced(c, prev)
    requires Chained(AddNode(c, n, key, value, x))
    requires AddNode(c, n, key, value, x).path.Keys <= AddNode(c, n, key, value, x).st.Keys
    ensures Traced(AddNode(c, n, key, value, x), prev)
  {
    TracedSame(c, AddNode(c, n, key, value, x), prev);
  }

  lemma StoppedFacts<N>(c: Cache<N>, key: seq<Token>, values: seq<int>, node: N)
    requires Stopped(c, key, values, node)
    ensures node in c.path && node in c.st && |values| <= |key| && c.path[node] == key[..|values|]
    ensures IsHit(c.content, key, |values|)
    ensures |values| < |key| ==> key[|values|] !in c.st[node].kids
  {
  }

  lemma InsideFacts<N>(c: Cache<N>, key: seq<Token>, values: seq<int>, n: N, k: nat)
    requires StoppedInside(c, key, values, n, k)
    ensures n in c.path && n in c.st && n != c.root && 0 < k < |c.st[n].key|
    ensures |values| + k <= |key| && key[..|values| + k] <= c.path[n] && |c.path[n]| == |values| + |c.st[n].key|
    ensures IsHit(c.content, key, |values| + k)
    ensures |values| + k < |key| ==> key[|values| + k] != c.st[n].key[k]
  {
  }

  /** What an insert adds below the node the match ended at. */
  lemma AddLands<N>(c: Cache<N>, n: N, key: seq<Token>, value: seq<int>, at: nat, x: N)
    requires at < |key| == |value| && AddReady(c, n, key[at..], value[at..], x) && c.path[n] == key[..at]
    requires IsHit(c.content, key, at)
    ensures var c' := AddNode(c, n, key[at..], value[at..], x);
      && c'.holders == c.holders && c'.shielded == c.shielded && c'.evictable == c.evictable + |key| - at
      && (forall p :: p in c'.content <==> p in c.content || (p <= key && at < |p|))
      && (forall p :: p in c'.content ==> c'.content[p] == if p in c.content then c.content[p] else value[|p| - 1])
      && x !in c.path && c'.path == c.path[x := key]
  {
    hide IsHit, Prefixes, Radix.Valid, RootFits, NodeFits;
    assert key == key[..at] + key[at..];
    AddedAre(key, at);
    HitIsShort(c.content, key, at);
    ExtendValues(c.content, key, value, at);
  }

  lemma AddedAre(key: seq<Token>, at: nat)
    requires at <= |key|
    ensures forall p :: p in Prefixes(key[..at], key[at..]) <==> p <= key && at < |p|
  {
    forall p
      ensures p in Prefixes(key[..at], key[at..]) <==> p <= key && at < |p|
    {
      AddedIs(key, at, p);
    }
  }

  lemma AddedIs(key: seq<Token>, at: nat, p: seq<Token>)
    requires at <= |key|
    ensures p in Prefixes(key[..at], key[at..]) <==> p <= key && at < |p|
  {
    assert key == key[..at] + key[at..];
    if p in Prefixes(key[..at], key[at..]) {
      PrefixesAbove(key[..at], key[at..], p);
    }
    if p <= key && at < |p| {
      assert p == key[..at] + key[at..][..|p| - at];
    }
  }

  lemma ExtendValues(content: map<seq<Token>, int>, key: seq<Token>, value: seq<int>, at: nat)
    requires at < |key| == |value| && forall p :: p <= key && at < |p| ==> p !in content
    ensures var more := Extend(content, key[..at], key[at..], value[at..]);
      && (forall p :: p in more <==> p in content || (p <= key && at < |p|))
      && forall p :: p in more ==> more[p] == if p in content then content[p] else value[|p| - 1]
  {
    AddedAre(key, at);
  }

  lemma HitIsShort(content: map<seq<Token>, int>, key: seq<Token>, k: nat)
    requires IsHit(content, key, k)
    ensures k <= |key| && forall p :: p <= key && k < |p| ==> p !in content
  {
    forall p | p <= key && k < |p|
      ensures p !in content
    {
      assert p == key[..|p|];
    }
  }

  lemma LeafParent<N>(c: Cache<N>, x: N)
    requires Inv(c) && RemoveReady(c, x)
    ensures x in c.st && c.st[x].parent.Some? && c.st[x].parent.value in c.st && c.st[x].parent.value != x
    ensures |c.st[x].key| > 0
  {
    LeafReady(c, x);
  }

  lemma RemoveResult<N>(c: Cache<N>, x: N)
    requires Inv(c) && RemoveReady(c, x)
    ensures x in c.st && x in c.path && c.st[x].parent.Some? && c.st[x].parent.value in c.st && |c.st[x].key| > 0
    ensures |c.st[x].value| == |c.st[x].key|
    ensures var q, c' := c.st[x].parent.value, RemoveNode(c, x);
      var r := c.st[q].(kids := c.st[q].kids - {c.st[x].key[0]});
      && c'.st.Keys == c.st.Keys && c'.st[q] == r && c'.path.Keys == c.path.Keys - {x}
      && (forall m {:trigger c'.st[m]} :: m in c.st && m != q ==> c'.st[m] == c.st[m])
      && c'.root == c.root && c'.shielded == c.shielded && c'.evictable == c.evictable - |c.st[x].key|
      && c'.leaves == LeafStatus(c.leaves - {x}, q, r)
      && q !in c.leaves
  {
    LeafReady(c, x);
  }

  lemma RemoveGood<N>(c: Cache<N>, prev: Option<seq<N>>, x: N)
    requires Good(c, prev) && RemoveReady(c, x)
    ensures Good(RemoveNode(c, x), prev)
  {
    RemoveInv(c, x);
    if prev.Some? {
      RemoveTraced(c, x, prev.value);
    }
  }

  // ----- reference walks -----

  lemma InvChain<N>(c: Cache<N>)
    requires Inv(c)
    ensures Chained(c) && c.path.Keys <= c.st.Keys
  {
  }

  lemma AscendStep<N>(c: Cache<N>, n: N)
    requires Chained(c) && n in c.st && n != c.root
    ensures c.st[n].parent.Some? && c.st[n].parent.value in c.st
    ensures c.st[c.st[n].parent.value].depth < c.st[n].depth
    ensures WalkUp(c, n) == {n} + WalkUp(c, c.st[n].parent.value) && n !in WalkUp(c, c.st[n].parent.value)
  {
    assert Climbs(c, n);
    WalkUpFacts(c, c.st[n].parent.value);
  }

  /** A raising walk from `n` has got as far as `cur`. */
  ghost predicate RaisedTo<N>(c: Cache<N>, c': Cache<N>, n: N, cur: N)
    requires Chained(c)
  {
    && n in c.st && cur in c.st && RefsOnly(c, c') && WalkUp(c, cur) <= WalkUp(c, n)
    && forall m {:trigger c'.st[m]} :: m in c.st ==>
      c'.st[m].refs == c.st[m].refs + if m in WalkUp(c, n) && m !in WalkUp(c, cur) then 1 else 0
  }

  lemma RaiseStart<N>(c: Cache<N>, n: N)
    requires Chained(c) && n in c.st
    ensures RaisedTo(c, c, n, n)
  {
  }

  lemma RaiseStep<N>(c: Cache<N>, c': Cache<N>, n: N, cur: N)
    requires Chained(c) && RaisedTo(c, c', n, cur) && cur != c.root
    ensures cur in c'.st && c.st[cur].parent.Some? && c.st[cur].parent.value in c.st
    ensures c'.st[cur].parent == c.st[cur].parent
    ensures c.st[c.st[cur].parent.value].depth < c.st[cur].depth
    ensures RaisedTo(c, c'.(st := c'.st[cur := c'.st[cur].(refs := c'.st[cur].refs + 1)]), n, c.st[cur].parent.value)
  {
    AscendStep(c, cur);
  }

  lemma RaiseEnd<N>(c: Cache<N>, c': Cache<N>, n: N)
    requires Inv(c) && RaisedTo(c, c', n, c.root)
    ensures Inv(c') && Raised(c, c', n)
  {
    RaiseKeeps(c, c', n);
  }

  ghost predicate ClearedTo<N>(c: Cache<N>, was: Cache<N>, c': Cache<N>, n: N, cur: N)
    requires Chained(c)
  {
    && n in c.st && cur in c.st && RefsOnly(c, was) && RefsOnly(c, c') && WalkUp(c, cur) <= WalkUp(c, n)
    && forall m {:trigger c'.st[m]} :: m in c.st ==>
      c'.st[m].refs == if m in WalkUp(c, n) && m !in WalkUp(c, cur) then 0 else was.st[m].refs
  }

  lemma ClearStart<N>(c: Cache<N>, was: Cache<N>, n: N)
    requires Chained(c) && RefsOnly(c, was) && n in was.st
    ensures n in c.st && was.root == c.root && was.st.Keys == c.st.Keys && ClearedTo(c, was, was, n, n)
  {
  }

  lemma ClearStep<N>(c: Cache<N>, was: Cache<N>, c': Cache<N>, n: N, cur: N)
    requires Chained(c) && ClearedTo(c, was, c', n, cur) && cur != c.root
    ensures cur in c'.st && c.st[cur].parent.Some? && c.st[cur].parent.value in c.st
    ensures c'.st[cur].parent == c.st[cur].parent
    ensures c.st[c.st[cur].parent.value].depth < c.st[cur].depth
    ensures ClearedTo(c, was, c'.(st := c'.st[cur := c'.st[cur].(refs := 0)]), n, c.st[cur].parent.value)
  {
    AscendStep(c, cur);
  }

  lemma ClearEnd<N>(c: Cache<N>, was: Cache<N>, c': Cache<N>, n: N)
    requires Chained(c) && ClearedTo(c, was, c', n, c.root)
    ensures RefsOnly(c, c') && Cleared(c, was, c', n)
  {
  }

  // ----- lock walks -----

  ghost predicate GoodButLocks<N>(c: Cache<N>, prev: Option<seq<N>>) {
    AllButLocks(c) && (prev.Some? ==> Traced(c, prev.value))
  }

  /** What a lock walk leaves alone. */
  ghost predicate SameForLocks<N>(c: Cache<N>, c': Cache<N>) {
    c'.root == c.root && c'.path == c.path && c'.holders == c.holders && c'.content == c.content
      && c'.st.Keys == c.st.Keys
  }

  lemma LockStart<N>(c: Cache<N>, n: N)
    requires LockReady(c, n)
    ensures n in c.path && n in c.st && n != c.root
  {
  }

  lemma SetLockResult<N>(c: Cache<N>, n: N, lock: nat)
    requires LockReady(c, n)
    ensures n in c.st
    ensures var r, c' := c.st[n].(lock := lock), SetLock(c, n, lock);
      var gain := (if lock == 0 then |r.key| else 0) - (if c.st[n].lock == 0 then |r.key| else 0);
      && c'.st.Keys == c.st.Keys && c'.st[n] == r && c'.root == c.root
      && (forall m {:trigger c'.st[m]} :: m in c.st && m != n ==> c'.st[m] == c.st[m])
      && c'.evictable == c.evictable + gain && c'.shielded == c.shielded - gain
      && c'.leaves == LeafStatus(c.leaves, n, r)
  {
  }

  lemma LockWalkStart<N>(c: Cache<N>, prev: Option<seq<N>>, n: N, delta: int)
    requires Good(c, prev) && n in c.path
    ensures n in c.st && c.path.Keys <= c.st.Keys && c.root in c.path
    ensures GoodButLocks(c, prev) && LocksUpTo(c, c.path[n], |c.path[n]|, delta)
  {
    forall m | m in c.path && m != c.root
      ensures LockFits(c, c.path[n], |c.path[n]|, delta, m)
    {
      assert LockFits(c, [], 0, 0, m);
      Fits(c, m);
    }
  }

  lemma LockWalkStep<N>(c: Cache<N>, prev: Option<seq<N>>, n: N, tokens: seq<Token>, delta: int, lock: nat)
    requires GoodButLocks(c, prev) && n in c.path && n in c.st && n != c.root && c.path[n] <= tokens
    requires c.path.Keys <= c.st.Keys && LocksUpTo(c, tokens, |c.path[n]|, delta) && lock == c.st[n].lock + delta
    ensures LockReady(c, n) && c.st[n].parent.Some? && c.st[n].parent.value in c.path
    ensures var c', q := SetLock(c, n, lock), c.st[n].parent.value;
      && GoodButLocks(c', prev) && SameForLocks(c, c') && c'.path.Keys <= c'.st.Keys
      && c'.st[n].parent == c.st[n].parent && c'.st[n].lock == lock
      && |c.path[q]| < |c.path[n]| && c.path[q] <= tokens
      && LocksUpTo(c', tokens, |c.path[q]|, delta)
  {
    hide Built, Chained, Sized, Leaved, Referenced, Mapped, LocksUpTo, Traced, SetLock, AllButLocks;
    OneUp(c, n);
    SetLockKeeps(c, n, lock);
    SetLockOnly(c, n, lock);
    SetLockStep(c, n, tokens, delta, lock);
    SetLockTraced(c, prev, n, lock);
  }

  lemma OneUp<N>(c: Cache<N>, n: N)
    requires AllButLocks(c) && n in c.path && n in c.st && n != c.root
    ensures LockReady(c, n) && NodeFits(c, n) && c.st[n].parent.Some? && c.st[n].parent.value in c.path
    ensures var q := c.st[n].parent.value; |c.path[q]| < |c.path[n]| && c.path[q] <= c.path[n]
  {
    Fits(c, n);
  }

  lemma SetLockOnly<N>(c: Cache<N>, n: N, lock: nat)
    requires LockReady(c, n)
    ensures var c' := SetLock(c, n, lock);
      && SameForLocks(c, c') && c'.path.Keys <= c'.st.Keys && c'.st[n].parent == c.st[n].parent && c'.st[n].lock == lock
  {
  }

  lemma SetLockTraced<N>(c: Cache<N>, prev: Option<seq<N>>, n: N, lock: nat)
    requires LockReady(c, n) && GoodButLocks(c, prev) && AllButLocks(SetLock(c, n, lock))
    ensures GoodButLocks(SetLock(c, n, lock), prev)
  {
    hide Traced;
    if prev.Some? {
      TracedSame(c, SetLock(c, n, lock), prev.value);
    }
  }

  lemma LockWalkGained<N>(c: Cache<N>, prev: Option<seq<N>>, n: N, h: Rid)
    requires GoodButLocks(c, prev) && c.path.Keys <= c.st.Keys && n in c.path && h !in c.holders
    requires c.root in c.path && LocksUpTo(c, c.path[n], |c.path[c.root]|, 1)
    ensures Good(c.(holders := c.holders[h := n]), prev)
  {
    LocksGained(c, n, h);
    HoldersOnly(c, c.(holders := c.holders[h := n]), prev);
  }

  lemma LockWalkLost<N>(c: Cache<N>, prev: Option<seq<N>>, n: N, h: Rid)
    requires GoodButLocks(c, prev) && c.path.Keys <= c.st.Keys && n in c.path && h in c.holders && c.holders[h] == n
    requires c.root in c.path && LocksUpTo(c, c.path[n], |c.path[c.root]|, -1)
    ensures Good(c.(holders := c.holders - {h}), prev)
  {
    LocksLost(c, n, h);
    HoldersOnly(c, c.(holders := c.holders - {h}), prev);
  }

  /** Nothing but the lock counts depends on who the holders are. */
  lemma HoldersOnly<N>(c: Cache<N>, c': Cache<N>, prev: Option<seq<N>>)
    requires GoodButLocks(c, prev) && c' == c.(holders := c'.holders) && Locked(c')
    ensures Good(c', prev)
  {
    assert Sh(c') == Sh(c) && Weights(c') == Weights(c) && Unlocked(c') == Unlocked(c) && Shielded(c') == Shielded(c);
    forall m | m in c'.path && m != c'.root
      ensures NodeFits(c', m)
    {
      assert NodeFits(c, m);
    }
    HoldersOnlyRest(c, c', prev);
  }

  lemma HoldersOnlyRest<N>(c: Cache<N>, c': Cache<N>, prev: Option<seq<N>>)
    requires GoodButLocks(c, prev) && c' == c.(holders := c'.holders) && Built(c')
    requires Sh(c') == Sh(c) && Weights(c') == Weights(c) && Unlocked(c') == Unlocked(c) && Shielded(c') == Shielded(c)
    ensures Chained(c') && Sized(c') && Leaved(c') && Referenced(c') && Mapped(c')
    ensures prev.Some? ==> Traced(c', prev.value)
  {
    forall m | m in c'.st
      ensures Climbs(c', m)
    {
      assert Climbs(c, m);
    }
    forall m | m in c'.path && m != c'.root && NodeFits(c', m)
      ensures RefFits(c', m)
    {
      Fits(c, m);
      assert RefFits(c, m);
    }
    HoldersOnlyMapped(c, c');
    if prev.Some? {
      TracedSame(c, c', prev.value);
    }
  }

  lemma HoldersOnlyMapped<N>(c: Cache<N>, c': Cache<N>)
    requires c.path.Keys <= c.st.Keys && Mapped(c) && c' == c.(holders := c'.holders) && Sh(c') == Sh(c)
    ensures Mapped(c')
  {
    forall m, p | m in c'.path && OnEdge(Sh(c'), c'.root, m, p)
      ensures Maps(c', m, p)
    {
      assert Maps(c, m, p);
    }
    forall p | p in c'.content
      ensures Covered(c', p)
    {
      assert Covered(c, p);
    }
  }

  lemma LockWalkHeld<N>(c: Cache<N>, prev: Option<seq<N>>, n: N, h: Rid, tokens: seq<Token>)
    requires GoodButLocks(c, prev) && c.path.Keys <= c.st.Keys && n in c.path && n != c.root
    requires LocksUpTo(c, tokens, |c.path[n]|, -1)
    requires h in c.holders && c.holders[h] in c.path && c.path[c.holders[h]] == tokens && c.path[n] <= tokens
    ensures c.st[n].lock >= 1
  {
    StillLocked(c, n, h, tokens);
  }

  lemma EmptyInv<N>(c: Cache<N>)
    requires c.st.Keys == {c.root} && c.path == map[c.root := []] && c.holders == map[] && c.content == map[]
    requires c.st[c.root] == Rec(None, map[], [], [], 1, 0, 0)
    requires c.evictable == 0 && c.shielded == 0 && c.leaves == {}
    ensures Inv(c)
  {
  }
}
