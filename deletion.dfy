/**
 * What a delete does when the leaf it reaches keeps at least D entries
 * (BPlusTree.java:226-227 and 265-266): `removeEntry` edits that one leaf and
 * the recursion reports -1 all the way up, so no link of the leaf chain is
 * read. On an ordered tree the key is then no longer found, every other key
 * is found as before, and order, shape and occupancy are kept.
 */
module Deletion {
  import opened Wrappers
  import opened KeyLocator
  import opened Nodes
  import opened Search
  import opened Ordering
  import opened Occupancy

  /** The arena after `removeEntry(key)` on leaf `g`. */
  ghost predicate LeafRemoved<V>(n0: seq<Node<V>>, n1: seq<Node<V>>, g: nat, key: int)
    requires g < |n0| && n0[g].Leaf? && |n0[g].keys| == |n0[g].values|
  {
    var leaf := n0[g];
    var rem := RemoveKey(leaf.keys, leaf.values, key);
    n1 == n0[g := Leaf(rem.0, rem.1, leaf.prev, leaf.next)]
  }

  /** The arena after `removeEntry(key)` on the leaf the descent for `key` from `h` reaches. */
  ghost predicate RemovedBelow<V>(n0: seq<Node<V>>, n1: seq<Node<V>>, level: seq<nat>, h: nat, key: int)
    requires ArenaValid(n0, level) && h < |n0|
  {
    var g := SearchLeafNode(n0, level, key, h);
    assert NodeOk(n0, level, n0[g], level[g]);
    LeafRemoved(n0, n1, g, key)
  }

  /** The leaf the descent for `key` from `h` reaches keeps at least D entries after `removeEntry(key)`. */
  ghost predicate NoLeafUnderflow<V>(nodes: seq<Node<V>>, level: seq<nat>, h: nat, key: int)
    requires ArenaValid(nodes, level) && h < |nodes|
  {
    var leaf := nodes[SearchLeafNode(nodes, level, key, h)];
    assert NodeOk(nodes, level, leaf, 0);
    D <= |RemoveKey(leaf.keys, leaf.values, key).0|
  }

  /** Removing an entry from a leaf keeps the arena valid. */
  lemma RemovedValid<V>(n0: seq<Node<V>>, n1: seq<Node<V>>, level: seq<nat>, g: nat, key: int)
    requires ArenaValid(n0, level) && g < |n0| && n0[g].Leaf? && |n0[g].keys| == |n0[g].values|
    requires LeafRemoved(n0, n1, g, key)
    ensures ArenaValid(n1, level) && |n1| == |n0| && n1[g].Leaf?
    ensures forall x :: 0 <= x < |n0| && x != g ==> n1[x] == n0[x]
  {
    var leaf := n0[g];
    assert NodeOk(n0, level, leaf, level[g]);
    var rem := RemoveKey(leaf.keys, leaf.values, key);
    UpdateValid(n0, level, g, Leaf(rem.0, rem.1, leaf.prev, leaf.next));
  }

  /** Replacing one leaf by another changes no descent. */
  lemma {:induction false} DescentKept<V>(n0: seq<Node<V>>, n1: seq<Node<V>>, level: seq<nat>, g: nat, h: nat, k: int)
    requires ArenaValid(n0, level) && ArenaValid(n1, level) && g < |n0| && h < |n0| && |n1| == |n0|
    requires n0[g].Leaf? && n1[g].Leaf? && forall x :: 0 <= x < |n0| && x != g ==> n1[x] == n0[x]
    ensures SearchLeafNode(n1, level, k, h) == SearchLeafNode(n0, level, k, h)
    decreases level[h]
  {
    assert NodeOk(n0, level, n0[h], level[h]);
    if n0[h].Index? {
      assert n1[h] == n0[h];
      DescentKept(n0, n1, level, g, n0[h].children[Find(n0[h].keys, k)], k);
    }
  }

  /** When the leaf a descent reaches is strictly ascending, `search` is that leaf's lookup. */
  lemma SearchIsLookup<V>(nodes: seq<Node<V>>, level: seq<nat>, r: nat, k: int)
    requires ArenaValid(nodes, level) && r < |nodes|
    requires StrictlyAscending(nodes[SearchLeafNode(nodes, level, k, r)].keys)
    ensures var leaf := nodes[SearchLeafNode(nodes, level, k, r)];
      |leaf.keys| == |leaf.values| && SearchTree(nodes, level, Some(r), k) == Lookup(leaf.keys, leaf.values, k)
  {
    var leaf := nodes[SearchLeafNode(nodes, level, k, r)];
    assert NodeOk(nodes, level, leaf, 0);
    if k in leaf.keys {
      var i :| 0 <= i < |leaf.keys| && leaf.keys[i] == k;
      SearchFindsLeafEntry(nodes, level, r, k, i);
      LookupAt(leaf.keys, leaf.values, i);
    } else {
      LookupAbsent(leaf.keys, leaf.values, key := k);
    }
  }

  /**
   * In an ordered tree, removing `key` from the leaf its descent reaches leaves
   * `key` unfound and every other key found with the value it had.
   */
  lemma RemovalSearched<V>(n0: seq<Node<V>>, n1: seq<Node<V>>, level: seq<nat>, r: nat, key: int)
    requires ArenaValid(n0, level) && r < |n0| && Ordered(n0, level, r, None, None)
    requires RemovedBelow(n0, n1, level, r, key)
    ensures ArenaValid(n1, level) && r < |n1|
    ensures SearchTree(n1, level, Some(r), key) == None
    ensures forall k :: k != key ==> SearchTree(n1, level, Some(r), k) == SearchTree(n0, level, Some(r), k)
  {
    var g := SearchLeafNode(n0, level, key, r);
    var leaf := n0[g];
    RemovedValid(n0, n1, level, g, key);
    OrderedSeparated(n0, level, r, None, None);
    SeparatedLeafAscending(n0, level, key, r);
    RemoveKeyCorrect(leaf.keys, leaf.values, key);
    forall k ensures SearchTree(n1, level, Some(r), k) == (if k == key then None else SearchTree(n0, level, Some(r), k)) {
      DescentKept(n0, n1, level, g, r, k);
      SeparatedLeafAscending(n0, level, k, r);
      SearchIsLookup(n0, level, r, k);
      SearchIsLookup(n1, level, r, k);
    }
  }

  /** Replacing one leaf by another keeps the reach and the shape of every subtree. */
  lemma {:induction false} LeafReplacedShaped<V>(n0: seq<Node<V>>, n1: seq<Node<V>>, level: seq<nat>, g: nat, h: nat)
    requires ArenaValid(n0, level) && ArenaValid(n1, level) && g < |n0| && h < |n0| && |n1| == |n0|
    requires n0[g].Leaf? && n1[g].Leaf? && forall x :: 0 <= x < |n0| && x != g ==> n1[x] == n0[x]
    ensures forall x :: InReach(n1, level, h, x) <==> InReach(n0, level, h, x)
    ensures Shaped(n1, level, h) <==> Shaped(n0, level, h)
    decreases level[h]
  {
    assert NodeOk(n0, level, n0[h], level[h]);
    if n0[h].Index? {
      assert n1[h] == n0[h];
      var cs := n0[h].children;
      forall i | 0 <= i < |cs|
        ensures forall x :: InReach(n1, level, cs[i], x) <==> InReach(n0, level, cs[i], x)
        ensures Shaped(n1, level, cs[i]) <==> Shaped(n0, level, cs[i])
      {
        LeafReplacedShaped(n0, n1, level, g, cs[i]);
      }
      assert Disjoint(n1, level, cs) <==> Disjoint(n0, level, cs);
    }
  }

  /**
   * Replacing a leaf by one that holds some of its keys, strictly ascending,
   * keeps the order of every subtree, and also its occupancy when the new
   * leaf still holds at least D keys.
   */
  lemma {:induction false} LeafShrunk<V>(n0: seq<Node<V>>, n1: seq<Node<V>>, level: seq<nat>, g: nat, h: nat)
    requires ArenaValid(n0, level) && ArenaValid(n1, level) && g < |n0| && h < |n0| && |n1| == |n0|
    requires n0[g].Leaf? && n1[g].Leaf? && forall x :: 0 <= x < |n0| && x != g ==> n1[x] == n0[x]
    requires StrictlyAscending(n1[g].keys) && forall j :: 0 <= j < |n1[g].keys| ==> n1[g].keys[j] in n0[g].keys
    ensures forall lo, hi :: Ordered(n0, level, h, lo, hi) ==> Ordered(n1, level, h, lo, hi)
    ensures D <= |n1[g].keys| <= |n0[g].keys| ==>
      forall top :: Filled(n0, level, h, top) ==> Filled(n1, level, h, top)
    decreases level[h]
  {
    assert NodeOk(n0, level, n0[h], level[h]);
    assert NodeOk(n1, level, n1[h], level[h]);
    if n0[h].Index? {
      assert n1[h] == n0[h];
      var cs := n0[h].children;
      forall i | 0 <= i < |cs|
        ensures forall lo, hi :: Ordered(n0, level, cs[i], lo, hi) ==> Ordered(n1, level, cs[i], lo, hi)
        ensures D <= |n1[g].keys| <= |n0[g].keys| ==>
          forall top :: Filled(n0, level, cs[i], top) ==> Filled(n1, level, cs[i], top)
      {
        LeafShrunk(n0, n1, level, g, cs[i]);
      }
    } else if h == g {
      forall lo, hi | Ordered(n0, level, h, lo, hi) ensures Ordered(n1, level, h, lo, hi) {
        forall j | 0 <= j < |n1[g].keys| ensures Above(lo, n1[g].keys[j]) && Below(n1[g].keys[j], hi) {
          assert n1[g].keys[j] in n0[g].keys;
          var j' :| 0 <= j' < |n0[g].keys| && n0[g].keys[j'] == n1[g].keys[j];
        }
      }
    }
  }

  /** Every key left after `removeEntry` is a key the leaf had. */
  lemma RemovedKeysKept<V>(keys: seq<int>, values: seq<V>, key: int)
    requires |keys| == |values|
    ensures var rem := RemoveKey(keys, values, key);
      forall j :: 0 <= j < |rem.0| ==> rem.0[j] in keys
  {
    var index := BinarySearch(keys, key);
    if index >= 0 {
      var rem := RemoveAt(keys, values, index);
      assert rem.0 == keys[..index] + keys[index + 1..];
      forall j | 0 <= j < |rem.0| ensures rem.0[j] in keys {
        if j < index {
          assert rem.0[j] == keys[j];
        } else {
          assert rem.0[j] == keys[j + 1];
        }
      }
    }
  }

  /**
   * In an ordered tree, removing `key` from the leaf its descent reaches,
   * when that leaf keeps at least D entries, leaves a tree that is again
   * ordered, is shaped as before and stays within the occupancy bounds.
   */
  lemma RemovalKeepsInvariants<V>(n0: seq<Node<V>>, n1: seq<Node<V>>, level: seq<nat>, r: nat, key: int)
    requires ArenaValid(n0, level) && r < |n0| && Ordered(n0, level, r, None, None)
    requires RemovedBelow(n0, n1, level, r, key) && NoLeafUnderflow(n0, level, r, key)
    ensures ArenaValid(n1, level) && r < |n1|
    ensures Ordered(n1, level, r, None, None)
    ensures Shaped(n1, level, r) <==> Shaped(n0, level, r)
    ensures Filled(n0, level, r, true) ==> Filled(n1, level, r, true)
  {
    var g := SearchLeafNode(n0, level, key, r);
    var leaf := n0[g];
    RemovedValid(n0, n1, level, g, key);
    OrderedSeparated(n0, level, r, None, None);
    SeparatedLeafAscending(n0, level, key, r);
    RemoveKeyCorrect(leaf.keys, leaf.values, key);
    RemovedKeysKept(leaf.keys, leaf.values, key);
    LeafReplacedShaped(n0, n1, level, g, r);
    LeafShrunk(n0, n1, level, g, r);
  }

  /**
   * In a tree within the occupancy bounds, the leaf a descent from an index
   * root reaches holds at least D keys.
   */
  lemma {:induction false} FilledReachedLeaf<V>(nodes: seq<Node<V>>, level: seq<nat>, h: nat, key: int, top: bool)
    requires ArenaValid(nodes, level) && h < |nodes| && Filled(nodes, level, h, top)
    requires top ==> nodes[h].Index?
    ensures D <= |nodes[SearchLeafNode(nodes, level, key, h)].keys|
    decreases level[h]
  {
    assert NodeOk(nodes, level, nodes[h], level[h]);
    if nodes[h].Index? {
      var c := nodes[h].children[Find(nodes[h].keys, key)];
      FilledReachedLeaf(nodes, level, c, key, false);
    }
  }

  /**
   * When `search` misses, `removeEntry` on the leaf it reached leaves the lists
   * as they are: both rest on the same binary search.
   */
  lemma MissRemovesNothing<V>(nodes: seq<Node<V>>, level: seq<nat>, r: nat, key: int)
    requires ArenaValid(nodes, level) && r < |nodes|
    requires SearchTree(nodes, level, Some(r), key).None?
    ensures var leaf := nodes[SearchLeafNode(nodes, level, key, r)];
      |leaf.keys| == |leaf.values| && RemoveKey(leaf.keys, leaf.values, key) == (leaf.keys, leaf.values)
  {
    var leaf := nodes[SearchLeafNode(nodes, level, key, r)];
    assert NodeOk(nodes, level, leaf, 0);
  }

  /**
   * Deleting a key that `search` does not find from a tree within the
   * occupancy bounds whose root is an index node: the reached leaf keeps its
   * D entries, and the arena after `removeEntry` is the arena before.
   */
  lemma AbsentKeyRemovesNothing<V>(nodes: seq<Node<V>>, level: seq<nat>, r: nat, key: int)
    requires ArenaValid(nodes, level) && r < |nodes| && nodes[r].Index? && Filled(nodes, level, r, true)
    requires SearchTree(nodes, level, Some(r), key).None?
    ensures NoLeafUnderflow(nodes, level, r, key)
    ensures forall n1 :: RemovedBelow(nodes, n1, level, r, key) <==> n1 == nodes
  {
    FilledReachedLeaf(nodes, level, r, key, true);
    MissRemovesNothing(nodes, level, r, key);
  }
}
