/**
 * Search.java: descent from the root to a leaf with the key locator, then an
 * exact lookup in that leaf. Everything here only reads the arena.
 */
module Search {
  import opened Wrappers
  import opened KeyLocator
  import opened Nodes

  /**
   * `searchLeafNode(key, node)`: at a leaf, that leaf; at an index node, the
   * leaf reached from `children[find(keys, key)]`.
   */
  function SearchLeafNode<V>(nodes: seq<Node<V>>, ghost level: seq<nat>, key: int, h: nat): (leaf: nat)
    requires ArenaValid(nodes, level) && h < |nodes|
    ensures leaf < |nodes| && nodes[leaf].Leaf?
    ensures nodes[h].Leaf? ==> leaf == h
    ensures nodes[h].Index? ==>
      leaf == SearchLeafNode(nodes, level, key, nodes[h].children[Find(nodes[h].keys, key)])
    decreases level[h]
  {
    match nodes[h]
    case Leaf(_, _, _, _) => h
    case Index(keys, children) =>
      assert NodeOk(nodes, level, nodes[h], level[h]);
      SearchLeafNode(nodes, level, key, children[Find(keys, key)])
  }

  /**
   * `search(key)` on the tree whose root is `root`: not found on an empty tree;
   * otherwise the value stored beside `key` in the leaf the descent reaches,
   * or not found when that leaf's binary search misses.
   */
  function SearchTree<V>(nodes: seq<Node<V>>, ghost level: seq<nat>, root: Option<nat>, key: int): (r: Option<V>)
    requires ArenaValid(nodes, level)
    requires root.Some? ==> root.value < |nodes|
    ensures root.None? ==> r.None?
    ensures root.Some? ==>
      var leaf := nodes[SearchLeafNode(nodes, level, key, root.value)];
      (r.Some? ==> exists i :: 0 <= i < |leaf.keys| && leaf.keys[i] == key && leaf.values[i] == r.value) &&
      (key !in leaf.keys ==> r.None?)
  {
    if root.None? then None
    else
      var target := nodes[SearchLeafNode(nodes, level, key, root.value)];
      assert NodeOk(nodes, level, target, 0);
      var index := BinarySearch(target.keys, key);
      if index < 0 then None
      else
        assert target.keys[index] == key;
        Some(target.values[index])
  }

  /** On a strictly ascending leaf, a key the leaf holds is found with the value beside it. */
  lemma SearchFindsLeafEntry<V>(nodes: seq<Node<V>>, level: seq<nat>, root: nat, key: int, i: nat)
    requires ArenaValid(nodes, level) && root < |nodes|
    requires var leaf := nodes[SearchLeafNode(nodes, level, key, root)];
      StrictlyAscending(leaf.keys) && i < |leaf.keys| && leaf.keys[i] == key
    ensures var leaf := nodes[SearchLeafNode(nodes, level, key, root)];
      i < |leaf.values| && SearchTree(nodes, level, Some(root), key) == Some(leaf.values[i])
  {
    var leaf := nodes[SearchLeafNode(nodes, level, key, root)];
    assert NodeOk(nodes, level, leaf, 0);
    BinarySearchHit(leaf.keys, key, i);
  }

  /** `key` is stored in a leaf of the subtree rooted at `h`. */
  ghost predicate InSubtree<V>(nodes: seq<Node<V>>, level: seq<nat>, h: nat, key: int)
    requires ArenaValid(nodes, level) && h < |nodes|
    decreases level[h]
  {
    assert NodeOk(nodes, level, nodes[h], level[h]);
    match nodes[h]
    case Leaf(keys, _, _, _) => key in keys
    case Index(keys, children) =>
      exists i :: 0 <= i < |children| && InSubtree(nodes, level, children[i], key)
  }

  /**
   * The separator invariant of a subtree: keys are strictly ascending in every
   * node, and below an index node whatever `children[i]` holds is `< keys[i]`
   * and `>= keys[i - 1]`.
   */
  ghost predicate Separated<V>(nodes: seq<Node<V>>, level: seq<nat>, h: nat)
    requires ArenaValid(nodes, level) && h < |nodes|
    decreases level[h]
  {
    assert NodeOk(nodes, level, nodes[h], level[h]);
    StrictlyAscending(nodes[h].keys) &&
    (nodes[h].Index? ==>
      forall i :: 0 <= i < |nodes[h].children| ==>
        Separated(nodes, level, nodes[h].children[i]) &&
        forall k :: InSubtree(nodes, level, nodes[h].children[i], k) ==>
          (i < |nodes[h].keys| ==> k < nodes[h].keys[i]) &&
          (0 < i ==> nodes[h].keys[i - 1] <= k))
  }

  /** What the separator invariant says of one key below child `i`. */
  lemma SeparatedChild<V>(nodes: seq<Node<V>>, level: seq<nat>, h: nat, i: nat, k: int)
    requires ArenaValid(nodes, level) && h < |nodes|
    requires Separated(nodes, level, h) && nodes[h].Index? && i < |nodes[h].children|
    requires InSubtree(nodes, level, nodes[h].children[i], k)
    ensures i < |nodes[h].keys| ==> k < nodes[h].keys[i]
    ensures 0 < i ==> nodes[h].keys[i - 1] <= k
  {
  }

  /**
   * Under the separator invariant the key locator routes a key held below
   * child `i` to child `i`.
   */
  lemma FindLocatesChild<V>(nodes: seq<Node<V>>, level: seq<nat>, h: nat, i: nat, k: int)
    requires ArenaValid(nodes, level) && h < |nodes|
    requires Separated(nodes, level, h) && nodes[h].Index? && i < |nodes[h].children|
    requires InSubtree(nodes, level, nodes[h].children[i], k)
    ensures Find(nodes[h].keys, k) == i
  {
    FindRoutes(nodes[h].keys, k);
    SeparatedChild(nodes, level, h, i, k);
  }

  /** The leaf the descent reaches belongs to the subtree it started from. */
  lemma {:induction false} SearchLeafInSubtree<V>(nodes: seq<Node<V>>, level: seq<nat>, key: int, h: nat, k: int)
    requires ArenaValid(nodes, level) && h < |nodes|
    requires k in nodes[SearchLeafNode(nodes, level, key, h)].keys
    ensures InSubtree(nodes, level, h, k)
    decreases level[h]
  {
    assert NodeOk(nodes, level, nodes[h], level[h]);
    if nodes[h].Index? {
      var c := Find(nodes[h].keys, key);
      SearchLeafInSubtree(nodes, level, key, nodes[h].children[c], k);
    }
  }

  /**
   * Under the separator invariant, a key stored anywhere in the subtree is in
   * the leaf that `searchLeafNode` reaches from its root.
   */
  lemma {:induction false} SearchLeafHoldsKey<V>(nodes: seq<Node<V>>, level: seq<nat>, key: int, h: nat)
    requires ArenaValid(nodes, level) && h < |nodes|
    requires Separated(nodes, level, h)
    requires InSubtree(nodes, level, h, key)
    ensures key in nodes[SearchLeafNode(nodes, level, key, h)].keys
    decreases level[h]
  {
    assert NodeOk(nodes, level, nodes[h], level[h]);
    if nodes[h].Index? {
      var keys, children := nodes[h].keys, nodes[h].children;
      var i :| 0 <= i < |children| && InSubtree(nodes, level, children[i], key);
      FindLocatesChild(nodes, level, h, i, key);
      SearchLeafHoldsKey(nodes, level, key, children[i]);
    }
  }

  /**
   * Under the separator invariant with sorted leaves, `search` finds exactly the
   * keys the tree holds.
   */
  lemma SearchComplete<V>(nodes: seq<Node<V>>, level: seq<nat>, root: nat, key: int)
    requires ArenaValid(nodes, level) && root < |nodes|
    requires Separated(nodes, level, root)
    ensures SearchTree(nodes, level, Some(root), key).Some? <==> InSubtree(nodes, level, root, key)
  {
    var leaf := nodes[SearchLeafNode(nodes, level, key, root)];
    if InSubtree(nodes, level, root, key) {
      SearchLeafHoldsKey(nodes, level, key, root);
      SeparatedLeafAscending(nodes, level, key, root);
      var i :| 0 <= i < |leaf.keys| && leaf.keys[i] == key;
      SearchFindsLeafEntry(nodes, level, root, key, i);
    } else if key in leaf.keys {
      SearchLeafInSubtree(nodes, level, key, root, key);
    }
  }

  /** Under the separator invariant the leaf the descent reaches is sorted. */
  lemma {:induction false} SeparatedLeafAscending<V>(nodes: seq<Node<V>>, level: seq<nat>, key: int, h: nat)
    requires ArenaValid(nodes, level) && h < |nodes|
    requires Separated(nodes, level, h)
    ensures StrictlyAscending(nodes[SearchLeafNode(nodes, level, key, h)].keys)
    decreases level[h]
  {
    assert NodeOk(nodes, level, nodes[h], level[h]);
    if nodes[h].Index? {
      SeparatedLeafAscending(nodes, level, key, nodes[h].children[Find(nodes[h].keys, key)]);
    }
  }

  /** Node `n` stores `k` with value `v` side by side in its lists. */
  ghost predicate LeafHolds<V>(n: Node<V>, k: int, v: V)
  {
    n.Leaf? && exists j :: 0 <= j < |n.keys| && j < |n.values| && n.keys[j] == k && n.values[j] == v
  }

  /** On a strictly ascending leaf, storing `k` with `v` is what the leaf lookup reports. */
  lemma LeafHoldsLookup<V>(n: Node<V>, k: int, v: V)
    requires n.Leaf? && |n.keys| == |n.values| && StrictlyAscending(n.keys)
    ensures LeafHolds(n, k, v) <==> Lookup(n.keys, n.values, k) == Some(v)
  {
    if LeafHolds(n, k, v) {
      var j :| 0 <= j < |n.keys| && j < |n.values| && n.keys[j] == k && n.values[j] == v;
      LookupAt(n.keys, n.values, j);
    }
    if k in n.keys {
      var j :| 0 <= j < |n.keys| && n.keys[j] == k;
      LookupAt(n.keys, n.values, j);
    } else {
      LookupAbsent(n.keys, n.values, k);
    }
  }

  /** `k` is stored with value `v` in a leaf of the subtree rooted at `h`. */
  ghost predicate HasEntry<V>(nodes: seq<Node<V>>, level: seq<nat>, h: nat, k: int, v: V)
    requires ArenaValid(nodes, level) && h < |nodes|
    decreases level[h]
  {
    assert NodeOk(nodes, level, nodes[h], level[h]);
    match nodes[h]
    case Leaf(_, _, _, _) => LeafHolds(nodes[h], k, v)
    case Index(_, children) =>
      exists i :: 0 <= i < |children| && HasEntry(nodes, level, children[i], k, v)
  }

  /** An entry a child of an index node holds, the node holds. */
  lemma HasEntryThroughChild<V>(nodes: seq<Node<V>>, level: seq<nat>, h: nat, p: nat, k: int, v: V)
    requires ArenaValid(nodes, level) && h < |nodes| && nodes[h].Index? && p < |nodes[h].children|
    requires nodes[h].children[p] < |nodes| && HasEntry(nodes, level, nodes[h].children[p], k, v)
    ensures HasEntry(nodes, level, h, k, v)
  {
    assert NodeOk(nodes, level, nodes[h], level[h]);
  }

  /** A stored entry's key is a key of the subtree. */
  lemma {:induction false} HasEntryInSubtree<V>(nodes: seq<Node<V>>, level: seq<nat>, h: nat, k: int, v: V)
    requires ArenaValid(nodes, level) && h < |nodes|
    requires HasEntry(nodes, level, h, k, v)
    ensures InSubtree(nodes, level, h, k)
    decreases level[h]
  {
    assert NodeOk(nodes, level, nodes[h], level[h]);
    if nodes[h].Index? {
      var i :| 0 <= i < |nodes[h].children| && HasEntry(nodes, level, nodes[h].children[i], k, v);
      HasEntryInSubtree(nodes, level, nodes[h].children[i], k, v);
    }
  }

  /** Under the separator invariant, the leaf the descent for `k` reaches holds every entry of `k` in the subtree. */
  lemma {:induction false} SearchLeafHoldsEntry<V>(nodes: seq<Node<V>>, level: seq<nat>, h: nat, k: int, v: V)
    requires ArenaValid(nodes, level) && h < |nodes|
    requires Separated(nodes, level, h) && HasEntry(nodes, level, h, k, v)
    ensures LeafHolds(nodes[SearchLeafNode(nodes, level, k, h)], k, v)
    decreases level[h]
  {
    assert NodeOk(nodes, level, nodes[h], level[h]);
    if nodes[h].Index? {
      var children := nodes[h].children;
      var i :| 0 <= i < |children| && HasEntry(nodes, level, children[i], k, v);
      HasEntryInSubtree(nodes, level, children[i], k, v);
      FindLocatesChild(nodes, level, h, i, k);
      SearchLeafHoldsEntry(nodes, level, children[i], k, v);
      assert SearchLeafNode(nodes, level, k, h) == SearchLeafNode(nodes, level, k, children[i]);
    }
  }

  /** An entry of the leaf the descent reaches is an entry of the subtree it started from. */
  lemma {:induction false} SearchLeafEntryInSubtree<V>(nodes: seq<Node<V>>, level: seq<nat>, h: nat, k: int, i: nat)
    requires ArenaValid(nodes, level) && h < |nodes|
    requires var leaf := nodes[SearchLeafNode(nodes, level, k, h)];
      i < |leaf.keys| && i < |leaf.values| && leaf.keys[i] == k
    ensures HasEntry(nodes, level, h, k, nodes[SearchLeafNode(nodes, level, k, h)].values[i])
    decreases level[h]
  {
    assert NodeOk(nodes, level, nodes[h], level[h]);
    if nodes[h].Index? {
      var c := Find(nodes[h].keys, k);
      SearchLeafEntryInSubtree(nodes, level, nodes[h].children[c], k, i);
    }
  }

  /**
   * Under the separator invariant, `search` returns `v` for `k` exactly when
   * the subtree stores `k` with `v`.
   */
  lemma SearchByEntry<V>(nodes: seq<Node<V>>, level: seq<nat>, root: nat, k: int, v: V)
    requires ArenaValid(nodes, level) && root < |nodes|
    requires Separated(nodes, level, root)
    ensures SearchTree(nodes, level, Some(root), k) == Some(v) <==> HasEntry(nodes, level, root, k, v)
  {
    var leaf := nodes[SearchLeafNode(nodes, level, k, root)];
    assert NodeOk(nodes, level, leaf, 0);
    if HasEntry(nodes, level, root, k, v) {
      SearchLeafHoldsEntry(nodes, level, root, k, v);
      SeparatedLeafAscending(nodes, level, k, root);
      var i :| 0 <= i < |leaf.keys| && i < |leaf.values| && leaf.keys[i] == k && leaf.values[i] == v;
      SearchFindsLeafEntry(nodes, level, root, k, i);
    }
    if SearchTree(nodes, level, Some(root), k) == Some(v) {
      var i :| 0 <= i < |leaf.keys| && leaf.keys[i] == k && leaf.values[i] == v;
      SearchLeafEntryInSubtree(nodes, level, root, k, i);
    }
  }
}
