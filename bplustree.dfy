/**
 * BPlusTree.java: the tree object with its root, the recursive insertion with
 * leaf and index splits and root growth, and the recursive deletion with
 * underflow handling by merge or redistribution and root shrinkage.
 *
 * Nodes live in an arena (`nodes`), and a node reference of the Java code is a
 * handle into it; the leaf chain's `previousLeaf`/`nextLeaf` are handles too.
 * Every `new` appends to the arena; nodes that the Java code drops stay in it,
 * unreachable.
 */
module Tree {
  import opened Wrappers
  import opened KeyLocator
  import opened Nodes
  import opened Search
  import opened Ordering
  import opened Insertion
  import opened Occupancy
  import opened Deletion

  /**
   * The frame of one delete step at height `lvl` below `parent`: the arena
   * keeps its nodes; no node higher than `lvl` changes except the parent, and
   * the parent only has keys overwritten in place.
   */
  ghost predicate DeleteFrame<V>(n0: seq<Node<V>>, n1: seq<Node<V>>, level: seq<nat>, lvl: nat, parent: Option<nat>)
  {
    |n0| == |level| && |n1| == |n0| &&
    (forall x :: 0 <= x < |n0| && lvl < level[x] && Some(x) != parent ==> n1[x] == n0[x]) &&
    (parent.Some? ==>
      (parent.value < |n0| &&
       (n0[parent.value].Leaf? ==> n1[parent.value] == n0[parent.value]) &&
       (n0[parent.value].Index? ==>
         (n1[parent.value].Index? && n1[parent.value].children == n0[parent.value].children &&
          |n1[parent.value].keys| == |n0[parent.value].keys|))))
  }

  /** Two delete steps within one frame make a step within that frame. */
  lemma DeleteFrameTrans<V>(n0: seq<Node<V>>, n1: seq<Node<V>>, n2: seq<Node<V>>, level: seq<nat>, lvl: nat, parent: Option<nat>)
    requires DeleteFrame(n0, n1, level, lvl, parent) && DeleteFrame(n1, n2, level, lvl, parent)
    ensures DeleteFrame(n0, n2, level, lvl, parent)
  {
  }

  /** A step at child `c` of `h`, then a step at `h`, make a step at `h`. */
  lemma DeleteFrameChain<V>(n0: seq<Node<V>>, n1: seq<Node<V>>, n2: seq<Node<V>>, level: seq<nat>,
                            c: nat, h: nat, parent: Option<nat>)
    requires c < |level| && h < |level| && level[c] < level[h]
    requires parent.Some? ==> parent.value < |level| && level[h] < level[parent.value]
    requires DeleteFrame(n0, n1, level, level[c], Some(h)) && DeleteFrame(n1, n2, level, level[h], parent)
    ensures DeleteFrame(n0, n2, level, level[h], parent)
  {
  }

  /**
   * `handleLeafNodeUnderflowMerge` on leaves `l`, `r` below `p`
   * (BPlusTree.java:324-334): the right leaf takes the left leaf's entries in
   * front of its own and its back link; the left leaf's previous leaf, if
   * any, then links forward to the right leaf. The slot reported is where the
   * parent routes the merged leaf's first key; a merged leaf with no entries
   * makes `keys.get(0)` throw.
   */
  ghost predicate LeafMerged<V>(n0: seq<Node<V>>, n1: seq<Node<V>>, l: nat, r: nat, p: nat, o: Outcome)
    requires l < |n0| && r < |n0| && p < |n0| && n0[l].Leaf? && n0[r].Leaf?
    requires LinkOk(n0, n0[l].prev)
  {
    var L, R := n0[l], n0[r];
    var merged := n0[r := Leaf(L.keys + R.keys, L.values + R.values, L.prev, R.next)];
    var linked := if L.prev.Some? then merged[L.prev.value := merged[L.prev.value].(next := Some(r))] else merged;
    n1 == linked &&
    if |L.keys| + |R.keys| == 0 then o == Thrown(IndexOutOfBounds)
    else o == Done(MergedAt(Find(n0[p].keys, (L.keys + R.keys)[0])))
  }

  /**
   * `handleLeafNodeUnderflowRedistribution` (BPlusTree.java:336-366). When the
   * left leaf underflows, it takes the right leaf's first entry; otherwise the
   * right leaf takes the left leaf's entries after position D. The parent's
   * key at the slot it routes the left leaf's first key to becomes the right
   * leaf's first key. An empty left leaf, or a slot past the parent's keys,
   * makes the Java code throw.
   */
  ghost predicate LeafRedistributed<V>(n0: seq<Node<V>>, n1: seq<Node<V>>, l: nat, r: nat, p: nat, o: Outcome)
    requires l < |n0| && r < |n0| && p < |n0| && n0[l].Leaf? && n0[r].Leaf? && n0[p].Index?
    requires |n0[l].keys| == |n0[l].values| && |n0[r].keys| == |n0[r].values|
    requires !IsLeafMergable(n0[l], n0[r]) && (IsUnderflow(n0[l]) || IsUnderflow(n0[r]))
  {
    var L, R, P := n0[l], n0[r], n0[p];
    if |L.keys| == 0 then o == Thrown(IndexOutOfBounds) && n1 == n0
    else
      var rightIndex := Find(P.keys, L.keys[0]);
      var moved :=
        if |L.keys| < D then
          n0[l := Leaf(L.keys + [R.keys[0]], L.values + [R.values[0]], L.prev, L.next)]
            [r := Leaf(R.keys[1..], R.values[1..], R.prev, R.next)]
        else
          n0[r := Leaf(L.keys[D..] + R.keys, L.values[D..] + R.values, R.prev, R.next)]
            [l := Leaf(L.keys[..D], L.values[..D], L.prev, L.next)];
      if rightIndex < |P.keys| then
        o == Done(NoChange) && n1 == moved[p := Index(P.keys[rightIndex := moved[r].keys[0]], P.children)]
      else
        o == Thrown(IndexOutOfBounds) && n1 == moved
  }

  /**
   * A redistribution that completes keeps the two leaves' entries, in order,
   * leaves neither of them underflowing, and overwrites the parent's key at
   * the slot the left leaf's first key routes to with the right leaf's new
   * first key.
   */
  lemma LeafRedistributedKeeps<V>(n0: seq<Node<V>>, n1: seq<Node<V>>, l: nat, r: nat, p: nat, o: Outcome)
    requires l < |n0| && r < |n0| && p < |n0| && n0[l].Leaf? && n0[r].Leaf? && n0[p].Index?
    requires |n0[l].keys| == |n0[l].values| && |n0[r].keys| == |n0[r].values|
    requires !IsLeafMergable(n0[l], n0[r]) && (IsUnderflow(n0[l]) || IsUnderflow(n0[r]))
    requires LeafRedistributed(n0, n1, l, r, p, o) && o.Done?
    ensures |n1| == |n0| && |n0[l].keys| > 0
    ensures n1[l].keys + n1[r].keys == n0[l].keys + n0[r].keys
    ensures n1[l].values + n1[r].values == n0[l].values + n0[r].values
    ensures !IsUnderflow(n1[l]) && !IsUnderflow(n1[r])
    ensures var i := Find(n0[p].keys, n0[l].keys[0]);
      i < |n1[p].keys| && n1[p].keys == n0[p].keys[i := n1[r].keys[0]]
  {
    var L, R := n0[l], n0[r];
    LeafMergableMeaning(L, R);
    if |L.keys| < D {
      assert L.keys + [R.keys[0]] + R.keys[1..] == L.keys + R.keys;
      assert L.values + [R.values[0]] + R.values[1..] == L.values + R.values;
    } else {
      assert L.keys[..D] + (L.keys[D..] + R.keys) == L.keys + R.keys;
      assert L.values[..D] + (L.values[D..] + R.values) == L.values + R.values;
    }
  }

  /**
   * `handleIndexNodeUnderflowMerge` (BPlusTree.java:391-399): the right node
   * takes the left node's keys, the parent's separator at the slot the parent
   * routes the left node's first key to, and the left node's children, in
   * front of its own; that slot is reported. An empty left node, or a slot
   * past the parent's keys, makes the Java code throw.
   */
  ghost predicate IndexMerged<V>(n0: seq<Node<V>>, n1: seq<Node<V>>, l: nat, r: nat, p: nat, o: Outcome)
    requires l < |n0| && r < |n0| && p < |n0| && n0[l].Index? && n0[r].Index? && n0[p].Index?
  {
    var L, R, P := n0[l], n0[r], n0[p];
    if |L.keys| == 0 then o == Thrown(IndexOutOfBounds) && n1 == n0
    else
      var idx := Find(P.keys, L.keys[0]);
      if idx >= |P.keys| then o == Thrown(IndexOutOfBounds) && n1 == n0
      else
        o == Done(MergedAt(idx)) &&
        n1 == n0[r := Index(L.keys + [P.keys[idx]] + R.keys, L.children + R.children)]
  }

  /**
   * `handleIndexNodeUnderflowRedistribution` (BPlusTree.java:401-430). When
   * the left node underflows, the parent's separator moves down to its end
   * with the right node's first child, and the right node's first key moves
   * up in its place; otherwise the left node's keys and children after
   * position D + 1 and the separator move to the front of the right node, and
   * the left node's key at position D moves up. An empty left node, or a slot
   * past the parent's keys, makes the Java code throw.
   */
  ghost predicate IndexRedistributed<V>(n0: seq<Node<V>>, n1: seq<Node<V>>, l: nat, r: nat, p: nat, o: Outcome)
    requires l < |n0| && r < |n0| && p < |n0| && n0[l].Index? && n0[r].Index? && n0[p].Index?
    requires |n0[l].children| == |n0[l].keys| + 1 && |n0[r].children| == |n0[r].keys| + 1
    requires !IsIndexMergable(n0[l], n0[r]) && (IsUnderflow(n0[l]) || IsUnderflow(n0[r]))
  {
    var L, R, P := n0[l], n0[r], n0[p];
    if |L.keys| == 0 then o == Thrown(IndexOutOfBounds) && n1 == n0
    else
      var idx := Find(P.keys, L.keys[0]);
      if idx >= |P.keys| then o == Thrown(IndexOutOfBounds) && n1 == n0
      else
        var sep := P.keys[idx];
        o == Done(NoChange) &&
        if |L.keys| < D then
          n1 == n0[l := Index(L.keys + [sep], L.children + [R.children[0]])]
                  [p := Index(P.keys[idx := R.keys[0]], P.children)]
                  [r := Index(R.keys[1..], R.children[1..])]
        else
          n1 == n0[r := Index(L.keys[D + 1..] + [sep] + R.keys, L.children[D + 1..] + R.children)]
                  [l := Index(L.keys[..D], L.children[..D + 1])]
                  [p := Index(P.keys[idx := L.keys[D]], P.children)]
  }

  /**
   * A redistribution between index nodes keeps, read in order, the left keys,
   * the separator and the right keys, and the children of both; afterwards
   * neither node underflows.
   */
  lemma IndexRedistributedInOrder<V>(n0: seq<Node<V>>, n1: seq<Node<V>>, l: nat, r: nat, p: nat, o: Outcome)
    requires l < |n0| && r < |n0| && p < |n0| && n0[l].Index? && n0[r].Index? && n0[p].Index?
    requires l != p && r != p
    requires |n0[l].children| == |n0[l].keys| + 1 && |n0[r].children| == |n0[r].keys| + 1
    requires !IsIndexMergable(n0[l], n0[r]) && (IsUnderflow(n0[l]) || IsUnderflow(n0[r]))
    requires IndexRedistributed(n0, n1, l, r, p, o) && o.Done?
    ensures |n1| == |n0| && |n0[l].keys| > 0
    ensures var i := Find(n0[p].keys, n0[l].keys[0]);
      i < |n1[p].keys| && n1[p].keys == n0[p].keys[i := n1[p].keys[i]] &&
      n1[l].keys + [n1[p].keys[i]] + n1[r].keys == n0[l].keys + [n0[p].keys[i]] + n0[r].keys &&
      n1[l].children + n1[r].children == n0[l].children + n0[r].children &&
      !IsUnderflow(n1[l]) && !IsUnderflow(n1[r])
  {
    var L, R := n0[l], n0[r];
    IndexMergableMeaning(L, R, n0[p].keys[Find(n0[p].keys, L.keys[0])]);
    if |L.keys| < D {
      assert R.children == [R.children[0]] + R.children[1..];
      assert R.keys == [R.keys[0]] + R.keys[1..];
    } else {
      assert L.keys == L.keys[..D] + [L.keys[D]] + L.keys[D + 1..];
      assert L.children == L.children[..D + 1] + L.children[D + 1..];
    }
  }

  /**
   * `handleLeafNodeUnderflow` on leaves `l`, `r` below `p`, one of which
   * underflows: a merge when both fit in one leaf, a redistribution otherwise.
   */
  ghost predicate LeafUnderflowHandled<V>(n0: seq<Node<V>>, n1: seq<Node<V>>, l: nat, r: nat, p: nat, o: Outcome)
  {
    l < |n0| && r < |n0| && p < |n0| && n0[l].Leaf? && n0[r].Leaf? && n0[p].Index? &&
    |n0[l].keys| == |n0[l].values| && |n0[r].keys| == |n0[r].values| && LinkOk(n0, n0[l].prev) &&
    (IsUnderflow(n0[l]) || IsUnderflow(n0[r])) &&
    if IsLeafMergable(n0[l], n0[r]) then LeafMerged(n0, n1, l, r, p, o)
    else LeafRedistributed(n0, n1, l, r, p, o)
  }

  /**
   * `handleIndexNodeUnderflow` on index nodes `l`, `r` below `p`, one of which
   * underflows: a merge when both fit in one node with their separator, a
   * redistribution otherwise.
   */
  ghost predicate IndexUnderflowHandled<V>(n0: seq<Node<V>>, n1: seq<Node<V>>, l: nat, r: nat, p: nat, o: Outcome)
  {
    l < |n0| && r < |n0| && p < |n0| && n0[l].Index? && n0[r].Index? && n0[p].Index? &&
    |n0[l].children| == |n0[l].keys| + 1 && |n0[r].children| == |n0[r].keys| + 1 &&
    (IsUnderflow(n0[l]) || IsUnderflow(n0[r])) &&
    if IsIndexMergable(n0[l], n0[r]) then IndexMerged(n0, n1, l, r, p, o)
    else IndexRedistributed(n0, n1, l, r, p, o)
  }

  /**
   * Under the separator invariant of the parent, a merge of a non-empty leaf
   * reports that leaf's own slot, so the caller's removal of `keys[i]` and
   * `children[i]` unlinks the merged-away leaf.
   */
  lemma LeafMergeReportsLeftSlot<V>(n0: seq<Node<V>>, n1: seq<Node<V>>, level: seq<nat>,
                                    l: nat, r: nat, p: nat, i: nat, o: Outcome)
    requires ArenaValid(n0, level) && p < |n0| && n0[p].Index?
    requires i < |n0[p].children| && n0[p].children[i] == l
    requires r < |n0| && n0[l].Leaf? && n0[r].Leaf? && |n0[l].keys| > 0
    requires Separated(n0, level, p)
    requires LinkOk(n0, n0[l].prev) && LeafMerged(n0, n1, l, r, p, o)
    ensures o == Done(MergedAt(i))
  {
    var k := n0[l].keys[0];
    assert InSubtree(n0, level, l, k);
    FindLocatesChild(n0, level, p, i, k);
    assert (n0[l].keys + n0[r].keys)[0] == k;
  }

  /**
   * Under the ordering of the parent, a merge of a non-empty index node
   * reports that node's own slot (line 394 looks up its first key), so the
   * caller's removal of `keys[i]` and `children[i]` unlinks the merged-away
   * node; a node in the last slot has no separator to its right, and the
   * merge throws.
   */
  lemma IndexMergeReportsLeftSlot<V>(n0: seq<Node<V>>, n1: seq<Node<V>>, level: seq<nat>,
                                     l: nat, r: nat, p: nat, i: nat, o: Outcome, lo: Option<int>, hi: Option<int>)
    requires ArenaValid(n0, level) && p < |n0| && n0[p].Index?
    requires i < |n0[p].children| && n0[p].children[i] == l
    requires r < |n0| && n0[l].Index? && n0[r].Index? && |n0[l].keys| > 0
    requires Ordered(n0, level, p, lo, hi)
    requires IndexMerged(n0, n1, l, r, p, o)
    ensures i < |n0[p].keys| ==> o == Done(MergedAt(i))
    ensures i == |n0[p].keys| ==> o == Thrown(IndexOutOfBounds) && n1 == n0
  {
    var keys := n0[p].keys;
    assert NodeOk(n0, level, n0[p], level[p]);
    var k := n0[l].keys[0];
    assert Ordered(n0, level, l, LowerAt(keys, lo, i), UpperAt(keys, hi, i));
    assert Above(LowerAt(keys, lo, i), k) && Below(k, UpperAt(keys, hi, i));
    FirstAboveAt(keys, k, i);
    FirstAboveIsFind(keys, k);
  }

  /**
   * Deleting from a sorted leaf that is the root leaves the key unfindable,
   * whether the leaf stays the root or the emptied tree loses it.
   */
  lemma DeletedRootLeafIsGone<V>(n0: seq<Node<V>>, n1: seq<Node<V>>, l1: seq<nat>, r1: Option<nat>, h: nat, key: int)
    requires h < |n0| && n0[h].Leaf? && |n0[h].keys| == |n0[h].values|
    requires StrictlyAscending(n0[h].keys)
    requires ArenaValid(n1, l1) && (r1.None? || r1 == Some(h))
    requires var leaf := n0[h];
      var rem := RemoveKey(leaf.keys, leaf.values, key);
      n1 == n0[h := Leaf(rem.0, rem.1, leaf.prev, leaf.next)]
    ensures SearchTree(n1, l1, r1, key).None?
  {
    var leaf := n0[h];
    var rem := RemoveKey(leaf.keys, leaf.values, key);
    RemoveKeyCorrect(leaf.keys, leaf.values, key);
    if key in rem.0 {
      var i :| 0 <= i < |rem.0| && rem.0[i] == key;
      LookupAt(rem.0, rem.1, i);
    }
  }

  class BPlusTree<V(!new)> {
    /** The arena: every node ever created, indexed by handle. */
    var nodes: seq<Node<V>>
    /** The height of every node of the arena; it is not stored by the Java code. */
    ghost var level: seq<nat>
    /** The root (`null` for an empty tree). */
    var root: Option<nat>

    /** The arena is well formed and the root, if any, is a node of it. */
    ghost predicate Valid()
      reads this
    {
      ArenaValid(nodes, level) && (root.Some? ==> root.value < |nodes|)
    }

    /** An empty tree. */
    constructor ()
      ensures Valid() && nodes == [] && root == None
    {
      nodes := [];
      level := [];
      root := None;
    }

    /**
     * `splitLeafNode` (BPlusTree.java:147-168). The leaf keeps its first D
     * entries; a new right leaf gets the rest. The leaf now links forward to the
     * new leaf, and the new leaf links back to the leaf and forward to the
     * leaf's old next leaf. That old next leaf keeps its `previousLeaf`: line 162
     * writes the new leaf's own back link, which line 163 then overwrites.
     */
    method SplitLeafNode(h: nat) returns (e: Entry)
      requires Valid() && h < |nodes| && nodes[h].Leaf? && |nodes[h].keys| > D
      modifies this
      ensures Valid() && root == old(root) && level == old(level) + [0]
      ensures e.right == old(|nodes|)
      ensures var leaf := old(nodes[h]);
        nodes == old(nodes)[h := Leaf(leaf.keys[..D], leaf.values[..D], leaf.prev, Some(e.right))]
                 + [Leaf(leaf.keys[D..], leaf.values[D..], Some(h), leaf.next)]
      ensures nodes[h].keys + nodes[e.right].keys == old(nodes[h].keys)
      ensures e.sep == nodes[e.right].keys[0]
      ensures var old_next := old(nodes[h].next);
        old_next.Some? && old_next.value != h ==> nodes[old_next.value] == old(nodes[old_next.value])
    {
      var leaf := nodes[h];
      assert NodeOk(nodes, level, leaf, level[h]);
      var splittingKey := leaf.keys[D];
      var leftKeys, leftValues, rightKeys, rightValues := SplitLeafLists(leaf.keys, leaf.values);
      nodes := nodes[h := leaf.(keys := leftKeys, values := leftValues)];
      var rightNode := |nodes|;
      nodes := nodes + [Leaf(rightKeys, rightValues, None, None)];
      level := level + [0];
      var tmp := nodes[h].next;
      nodes := nodes[h := nodes[h].(next := Some(rightNode))];
      nodes := nodes[nodes[h].next.value := nodes[nodes[h].next.value].(prev := Some(rightNode))];
      nodes := nodes[rightNode := nodes[rightNode].(prev := Some(h))];
      nodes := nodes[rightNode := nodes[rightNode].(next := tmp)];
      e := Entry(splittingKey, rightNode);
      ghost var n0, l0 := old(nodes), old(level);
      ghost var n1 := n0[h := Leaf(leftKeys, leftValues, leaf.prev, leaf.next)];
      UpdateValid(n0, l0, h, n1[h]);
      ghost var right := Leaf(rightKeys, rightValues, Some(h), leaf.next);
      AppendValid(n1, l0, right, 0);
      ghost var n2 := n1 + [right];
      UpdateValid(n2, l0 + [0], h, Leaf(leftKeys, leftValues, leaf.prev, Some(rightNode)));
      assert nodes == n2[h := Leaf(leftKeys, leftValues, leaf.prev, Some(rightNode))];
    }

    /**
     * `splitIndexNode` (BPlusTree.java:177-197). The key at position D is
     * promoted and kept by neither half; the node keeps D keys and D + 1
     * children; a new right node gets the keys after position D and the
     * children after position D + 1.
     */
    method SplitIndexNode(h: nat) returns (e: Entry)
      requires Valid() && h < |nodes| && nodes[h].Index? && |nodes[h].keys| > D
      modifies this
      ensures Valid() && root == old(root) && level == old(level) + [old(level[h])]
      ensures e.right == old(|nodes|) && e.sep == old(nodes[h].keys[D])
      ensures var n := old(nodes[h]);
        nodes == old(nodes)[h := Index(n.keys[..D], n.children[..D + 1])]
                 + [Index(n.keys[D + 1..], n.children[D + 1..])]
      ensures nodes[h].keys + [e.sep] + nodes[e.right].keys == old(nodes[h].keys)
      ensures nodes[h].children + nodes[e.right].children == old(nodes[h].children)
      ensures |nodes[h].keys| == D && |nodes[e.right].children| == |nodes[e.right].keys| + 1
    {
      var index := nodes[h];
      assert NodeOk(nodes, level, index, level[h]);
      var leftKeys, leftChildren, splittingKey, rightKeys, rightChildren := SplitIndexLists(index.keys, index.children);
      nodes := nodes[h := Index(leftKeys, leftChildren)];
      var right := |nodes|;
      nodes := nodes + [Index(rightKeys, rightChildren)];
      level := level + [level[h]];
      e := Entry(splittingKey, right);
      ghost var n0, l0 := old(nodes), old(level);
      UpdateValid(n0, l0, h, Index(leftKeys, leftChildren));
      AppendValid(n0[h := Index(leftKeys, leftChildren)], l0, Index(rightKeys, rightChildren), l0[h]);
    }

    /**
     * Grows a new root above `h`: `new IndexNode(key, root, right)` with one key
     * and the two children (BPlusTree.java:103-104, 131-132).
     */
    method GrowRoot(h: nat, e: Entry)
      requires Valid() && h < |nodes| && e.right < |nodes| && level[e.right] == level[h]
      modifies this
      ensures Valid()
      ensures nodes == old(nodes) + [Index([e.sep], [h, e.right])]
      ensures level == old(level) + [old(level[h]) + 1]
      ensures root == Some(old(|nodes|))
    {
      var newRoot := |nodes|;
      AppendValid(nodes, level, Index([e.sep], [h, e.right]), level[h] + 1);
      nodes := nodes + [Index([e.sep], [h, e.right])];
      level := level + [level[h] + 1];
      root := Some(newRoot);
    }

    /**
     * `insertLeafNodeHelper` (BPlusTree.java:119-138): insert the entry into the
     * leaf in order, and split the leaf when it then holds more than 2D entries.
     */
    method InsertLeafNodeHelper(h: nat, key: int, value: V) returns (e: Option<Entry>)
      requires Valid() && h < |nodes| && nodes[h].Leaf?
      modifies this
      ensures Valid()
      ensures (nodes, level, root, e) == LeafInsertion(old(nodes), old(level), old(root), h, key, value)
    {
      ghost var n0 := nodes;
      var leaf := nodes[h];
      assert NodeOk(nodes, level, leaf, level[h]);
      var ins := InsertSorted(leaf.keys, leaf.values, key, value);
      UpdateValid(nodes, level, h, Leaf(ins.0, ins.1, leaf.prev, leaf.next));
      nodes := nodes[h := Leaf(ins.0, ins.1, leaf.prev, leaf.next)];
      if |nodes[h].keys| <= 2 * D {
        return None;
      }
      var entry := SplitLeafNode(h);
      assert nodes == n0[h := Leaf(ins.0[..D], ins.1[..D], leaf.prev, Some(entry.right))]
                      + [Leaf(ins.0[D..], ins.1[D..], Some(h), leaf.next)];
      if root == Some(h) {
        GrowRoot(h, entry);
        return None;
      }
      return Some(entry);
    }

    /**
     * `dealOverFlowed` (BPlusTree.java:96-110): split an index node that holds
     * more than 2D keys; when it is the root, grow a new root above it.
     */
    method DealOverFlowed(h: nat) returns (e: Option<Entry>)
      requires Valid() && h < |nodes| && nodes[h].Index?
      modifies this
      ensures Valid()
      ensures (nodes, level, root, e) == OverflowDealing(old(nodes), old(level), old(root), h)
    {
      assert NodeOk(nodes, level, nodes[h], level[h]);
      if |nodes[h].keys| <= 2 * D {
        return None;
      }
      var entry := SplitIndexNode(h);
      if root == Some(h) {
        GrowRoot(h, entry);
        return None;
      }
      return Some(entry);
    }

    /** `insertHelper` (BPlusTree.java:55-61): dispatch on the kind of node. */
    method InsertHelper(h: nat, key: int, value: V) returns (e: Option<Entry>)
      requires Valid() && h < |nodes| && root.Some?
      requires root == Some(h) || level[h] < level[root.value]
      modifies this
      decreases level[h], 1
      ensures Valid()
      ensures (nodes, level, root, e) == Insertion.Insertion(old(nodes), old(level), old(root), h, key, value)
    {
      assert NodeOk(nodes, level, nodes[h], level[h]);
      if nodes[h].Index? {
        e := InsertIndexNodeHelper(h, key, value);
      } else {
        e := InsertLeafNodeHelper(h, key, value);
      }
    }

    /**
     * `insertIndexNodeHelper` (BPlusTree.java:70-94): descend into the first
     * child whose separator is larger than the key; if that child
     * reports a split, take the reported entry in (`AddChildEntry`).
     */
    method InsertIndexNodeHelper(h: nat, key: int, value: V) returns (e: Option<Entry>)
      requires Valid() && h < |nodes| && nodes[h].Index? && root.Some?
      requires root == Some(h) || level[h] < level[root.value]
      modifies this
      decreases level[h], 0
      ensures Valid()
      ensures (nodes, level, root, e) == Insertion.Insertion(old(nodes), old(level), old(root), h, key, value)
    {
      var index := nodes[h];
      assert NodeOk(nodes, level, index, level[h]);
      var i := DescentSlot(index.keys, key);
      var child := index.children[i];
      var childEntry := InsertHelper(child, key, value);
      if childEntry.None? {
        return None;
      }
      assert level[h] == old(level[h]) && level[childEntry.value.right] + 1 == level[h] && nodes[h] == index;
      e := AddChildEntry(h, childEntry.value);
    }

    /**
     * The tail of `insertIndexNodeHelper` (BPlusTree.java:84-92): the reported
     * key and node go in at the first slot whose key is larger
     * (`IndexNode.insertSorted` puts the key at `j` and the node at `j + 1`),
     * then an overflow is dealt with. A new key that is not among the node's
     * strictly ascending keys leaves them strictly ascending, split or not.
     */
    method AddChildEntry(h: nat, entry: Entry) returns (e: Option<Entry>)
      requires Valid() && h < |nodes| && nodes[h].Index?
      requires entry.right < |nodes| && level[entry.right] + 1 == level[h]
      modifies this
      ensures Valid()
      ensures (nodes, level, root, e) == EntryAdding(old(nodes), old(level), old(root), h, entry)
      ensures StrictlyAscending(old(nodes[h].keys)) && entry.sep !in old(nodes[h].keys) ==>
        StrictlyAscending(nodes[h].keys) && (e.Some? ==> StrictlyAscending(nodes[e.value.right].keys))
    {
      var index := nodes[h];
      assert NodeOk(nodes, level, index, level[h]);
      var j := DescentSlot(index.keys, entry.sep);
      var inserted := InsertEntryAt(index, entry.sep, entry.right, j);
      if StrictlyAscending(index.keys) && entry.sep !in index.keys {
        InsertEntryAtAscending(index, entry.sep, entry.right);
      }
      InsertEntryAtOk(nodes, level, index, entry.sep, entry.right, j, level[h]);
      UpdateValid(nodes, level, h, inserted);
      nodes := nodes[h := inserted];
      ghost var n1, l1, r1 := nodes, level, root;
      e := DealOverFlowed(h);
      if StrictlyAscending(index.keys) && entry.sep !in index.keys {
        OverflowAscending(n1, l1, r1, h);
      }
    }

    /**
     * `insert(key, value)` (BPlusTree.java:32-46). An empty tree first gets a
     * one-entry leaf as its root; then the entry is inserted from the root. A
     * new root is grown inside the helpers, so the reported entry is always
     * null at this point and the root replacement of line 43 never runs.
     * On an ordered tree (or an empty one) the tree stays ordered, the key is
     * found with its new value and every other key keeps its value.
     */
    method Insert(key: int, value: V)
      requires Valid()
      modifies this
      ensures Valid() && root.Some?
      ensures var s := TreeInsertion(old(nodes), old(level), old(root), key, value);
        nodes == s.0 && level == s.1 && root == s.2
      ensures old(root).None? ==>
        nodes == old(nodes) + [Leaf([key], [value], None, None)] && root == Some(old(|nodes|))
      ensures old(root).Some? && root != old(root) ==>
        old(|nodes|) <= root.value && nodes[root.value].Index? &&
        |nodes[root.value].keys| == 1 && nodes[root.value].children[0] == old(root.value) &&
        level[root.value] == old(level[root.value]) + 1
      ensures old(root.None? || (Ordered(nodes, level, root.value, None, None) && Shaped(nodes, level, root.value))) ==>
        Ordered(nodes, level, root.value, None, None) && Shaped(nodes, level, root.value) &&
        SearchTree(nodes, level, root, key) == Some(value) &&
        forall k :: k != key ==> SearchTree(nodes, level, root, k) == old(SearchTree(nodes, level, root, k))
      ensures old(root.None? || (Ordered(nodes, level, root.value, None, None) && Shaped(nodes, level, root.value) &&
                                 Filled(nodes, level, root.value, true))) ==>
        Filled(nodes, level, root.value, true)
    {
      ghost var n0, l0, r0 := nodes, level, root;
      if root.None? {
        AppendValid(nodes, level, Leaf([key], [value], None, None), 0);
        nodes := nodes + [Leaf([key], [value], None, None)];
        level := level + [0];
        root := Some(|nodes| - 1);
        assert [value] + [value][1..] == [value];
        assert InsertSorted([key], [value], key, value) == ([key], [value] + [value][1..]);
      }
      ghost var start := nodes;
      var newChildEntry := InsertHelper(root.value, key, value);
      if newChildEntry.Some? {
        assert false;
      }
      if r0.None? {
        assert start[|start| - 1] == Leaf([key], [value], None, None);
        assert nodes == start;
      }
      if r0.None? || (Ordered(n0, l0, r0.value, None, None) && Shaped(n0, l0, r0.value)) {
        TreeInsertionCorrect(n0, l0, r0, key, value);
      }
      if r0.None? || (Ordered(n0, l0, r0.value, None, None) && Shaped(n0, l0, r0.value) && Filled(n0, l0, r0.value, true)) {
        TreeInsertionFilled(n0, l0, r0, key, value);
      }
    }

    /**
     * `removeEntry` (BPlusTree.java:287-292): the leaf's entry for `key`, if
     * the binary search finds one, is taken out. On a sorted leaf the key is
     * then gone and every other key keeps its value.
     */
    method RemoveEntry(h: nat, key: int)
      requires Valid() && h < |nodes| && nodes[h].Leaf?
      modifies this
      ensures Valid() && level == old(level) && root == old(root)
      ensures var leaf := old(nodes[h]);
        old(|nodes[h].keys| == |nodes[h].values|) &&
        var rem := RemoveKey(leaf.keys, leaf.values, key);
        nodes == old(nodes)[h := Leaf(rem.0, rem.1, leaf.prev, leaf.next)]
      ensures StrictlyAscending(old(nodes[h].keys)) ==>
        StrictlyAscending(nodes[h].keys) &&
        Lookup(nodes[h].keys, nodes[h].values, key) == None &&
        forall k :: k != key ==> Lookup(nodes[h].keys, nodes[h].values, k) == old(Lookup(nodes[h].keys, nodes[h].values, k))
    {
      var leaf := nodes[h];
      assert NodeOk(nodes, level, leaf, level[h]);
      if StrictlyAscending(leaf.keys) {
        RemoveKeyCorrect(leaf.keys, leaf.values, key);
      }
      var index := BinarySearch(leaf.keys, key);
      if index < 0 {
        return;
      }
      var rem := RemoveAt(leaf.keys, leaf.values, index);
      UpdateValid(nodes, level, h, Leaf(rem.0, rem.1, leaf.prev, leaf.next));
      nodes := nodes[h := Leaf(rem.0, rem.1, leaf.prev, leaf.next)];
    }

    /**
     * `handleLeafNodeUnderflowMerge` (BPlusTree.java:324-334), as
     * `LeafMerged` states it; the right leaf ends up with the entries of both,
     * the left leaf's first.
     */
    method HandleLeafNodeUnderflowMerge(l: nat, r: nat, p: nat) returns (o: Outcome)
      requires Valid() && l < |nodes| && r < |nodes| && p < |nodes|
      requires nodes[l].Leaf? && nodes[r].Leaf? && nodes[p].Index?
      modifies this
      ensures Valid() && level == old(level) && root == old(root)
      ensures DeleteFrame(old(nodes), nodes, level, 0, Some(p))
      ensures old(NodeOk(nodes, level, nodes[l], level[l])) && LeafMerged(old(nodes), nodes, l, r, p, o)
      ensures nodes[r].keys == old(nodes[l].keys + nodes[r].keys)
      ensures nodes[r].values == old(nodes[l].values + nodes[r].values)
    {
      var left, right := nodes[l], nodes[r];
      assert NodeOk(nodes, level, left, level[l]) && NodeOk(nodes, level, right, level[r]);
      // lines 325-329: the right leaf's keys, values and back link
      var merged := Leaf(left.keys + right.keys, left.values + right.values, left.prev, right.next);
      UpdateValid(nodes, level, r, merged);
      nodes := nodes[r := merged];
      if nodes[l].prev.Some? {
        var q := nodes[l].prev.value;
        assert NodeOk(nodes, level, nodes[q], level[q]);
        var linked := Leaf(nodes[q].keys, nodes[q].values, nodes[q].prev, Some(r));
        UpdateValid(nodes, level, q, linked);
        nodes := nodes[q := linked];
      }
      if |nodes[r].keys| == 0 {
        return Thrown(IndexOutOfBounds);
      }
      return Done(MergedAt(Find(nodes[p].keys, nodes[r].keys[0])));
    }

    /**
     * `handleLeafNodeUnderflowRedistribution` (BPlusTree.java:336-366), as
     * `LeafRedistributed` states it, for two leaves that do not fit in one and
     * one of which underflows. Entries only move between the two leaves, in
     * order; neither underflows afterwards; the parent's routing key becomes
     * the right leaf's first key.
     */
    method HandleLeafNodeUnderflowRedistribution(l: nat, r: nat, p: nat) returns (o: Outcome)
      requires Valid() && l < |nodes| && r < |nodes| && p < |nodes|
      requires nodes[l].Leaf? && nodes[r].Leaf? && nodes[p].Index?
      requires !IsLeafMergable(nodes[l], nodes[r]) && (IsUnderflow(nodes[l]) || IsUnderflow(nodes[r]))
      modifies this
      ensures Valid() && level == old(level) && root == old(root)
      ensures DeleteFrame(old(nodes), nodes, level, 0, Some(p))
      ensures old(NodeOk(nodes, level, nodes[l], level[l]) && NodeOk(nodes, level, nodes[r], level[r])) &&
        LeafRedistributed(old(nodes), nodes, l, r, p, o)
      ensures o.Done? ==>
        nodes[l].keys + nodes[r].keys == old(nodes[l].keys + nodes[r].keys) &&
        nodes[l].values + nodes[r].values == old(nodes[l].values + nodes[r].values) &&
        !IsUnderflow(nodes[l]) && !IsUnderflow(nodes[r])
      ensures o.Done? ==>
        (old(|nodes[l].keys|) > 0 &&
         var i := Find(old(nodes[p].keys), old(nodes[l].keys[0]));
         i < |nodes[p].keys| && nodes[p].keys == old(nodes[p].keys)[i := nodes[r].keys[0]])
    {
      var left, right := nodes[l], nodes[r];
      assert NodeOk(nodes, level, left, level[l]) && NodeOk(nodes, level, right, level[r]);
      var leftSize := |left.keys|;
      if leftSize == 0 {
        return Thrown(IndexOutOfBounds);
      }
      var rightIndex := Find(nodes[p].keys, left.keys[0]);
      if leftSize < D {
        var newLeft := Leaf(left.keys + [right.keys[0]], left.values + [right.values[0]], left.prev, left.next);
        UpdateValid(nodes, level, l, newLeft);
        nodes := nodes[l := newLeft];
        var newRight := Leaf(right.keys[1..], right.values[1..], right.prev, right.next);
        UpdateValid(nodes, level, r, newRight);
        nodes := nodes[r := newRight];
      } else {
        assert left.keys[D..leftSize] == left.keys[D..] && left.values[D..leftSize] == left.values[D..];
        var newRight := Leaf(left.keys[D..leftSize] + right.keys, left.values[D..leftSize] + right.values, right.prev, right.next);
        UpdateValid(nodes, level, r, newRight);
        nodes := nodes[r := newRight];
        var newLeft := Leaf(left.keys[..D], left.values[..D], left.prev, left.next);
        UpdateValid(nodes, level, l, newLeft);
        nodes := nodes[l := newLeft];
      }
      if rightIndex >= |nodes[p].keys| {
        return Thrown(IndexOutOfBounds);
      }
      var parent := nodes[p];
      assert NodeOk(nodes, level, parent, level[p]);
      var newParent := Index(parent.keys[rightIndex := nodes[r].keys[0]], parent.children);
      UpdateValid(nodes, level, p, newParent);
      nodes := nodes[p := newParent];
      o := Done(NoChange);
      LeafRedistributedKeeps(old(nodes), nodes, l, r, p, o);
    }

    /**
     * `handleLeafNodeUnderflow` (BPlusTree.java:307-315): merge two leaves
     * that fit in one, redistribute otherwise.
     */
    method HandleLeafNodeUnderflow(l: nat, r: nat, p: nat) returns (o: Outcome)
      requires Valid() && l < |nodes| && r < |nodes| && p < |nodes|
      requires nodes[l].Leaf? && nodes[r].Leaf? && nodes[p].Index?
      requires IsUnderflow(nodes[l]) || IsUnderflow(nodes[r])
      modifies this
      ensures Valid() && level == old(level) && root == old(root)
      ensures DeleteFrame(old(nodes), nodes, level, 0, Some(p))
      ensures LeafUnderflowHandled(old(nodes), nodes, l, r, p, o)
    {
      assert NodeOk(nodes, level, nodes[l], level[l]) && NodeOk(nodes, level, nodes[r], level[r]);
      if IsLeafMergable(nodes[l], nodes[r]) {
        o := HandleLeafNodeUnderflowMerge(l, r, p);
      } else {
        o := HandleLeafNodeUnderflowRedistribution(l, r, p);
      }
    }

    /**
     * `handleIndexNodeUnderflowMerge` (BPlusTree.java:391-399), as
     * `IndexMerged` states it, for two index nodes below `p`: the right node
     * ends up with the left node's keys, the separator and its own keys, in
     * that order, and the children of both. The left node is left as it was
     * (line 395 appends the separator to it first; that node is about to be
     * unlinked from the parent).
     */
    method HandleIndexNodeUnderflowMerge(l: nat, r: nat, p: nat) returns (o: Outcome)
      requires Valid() && l < |nodes| && r < |nodes| && p < |nodes|
      requires nodes[l].Index? && nodes[r].Index? && nodes[p].Index?
      requires level[l] + 1 == level[p] && level[r] + 1 == level[p]
      modifies this
      ensures Valid() && level == old(level) && root == old(root)
      ensures DeleteFrame(old(nodes), nodes, level, level[l], Some(p))
      ensures IndexMerged(old(nodes), nodes, l, r, p, o)
    {
      var left, right, parent := nodes[l], nodes[r], nodes[p];
      assert NodeOk(nodes, level, left, level[l]) && NodeOk(nodes, level, right, level[r]);
      if |left.keys| == 0 {
        return Thrown(IndexOutOfBounds);
      }
      var parentKeyIdx := Find(parent.keys, left.keys[0]);
      if parentKeyIdx >= |parent.keys| {
        return Thrown(IndexOutOfBounds);
      }
      var merged := Index(left.keys + [parent.keys[parentKeyIdx]] + right.keys, left.children + right.children);
      ChildrenAtSplice(nodes, level, left.children, right.children, level[r], 0, |left.children|);
      assert left.children[0..|left.children|] == left.children;
      UpdateValid(nodes, level, r, merged);
      nodes := nodes[r := merged];
      return Done(MergedAt(parentKeyIdx));
    }

    /**
     * `handleIndexNodeUnderflowRedistribution` (BPlusTree.java:401-430), as
     * `IndexRedistributed` states it, for two index nodes that do not fit in
     * one and one of which underflows. Read in order, the left keys, the
     * separator and the right keys stay the same sequence, and so do the
     * children of both; neither node underflows afterwards.
     */
    method HandleIndexNodeUnderflowRedistribution(l: nat, r: nat, p: nat) returns (o: Outcome)
      requires Valid() && l < |nodes| && r < |nodes| && p < |nodes|
      requires nodes[l].Index? && nodes[r].Index? && nodes[p].Index?
      requires level[l] + 1 == level[p] && level[r] + 1 == level[p]
      requires !IsIndexMergable(nodes[l], nodes[r]) && (IsUnderflow(nodes[l]) || IsUnderflow(nodes[r]))
      modifies this
      ensures Valid() && level == old(level) && root == old(root)
      ensures DeleteFrame(old(nodes), nodes, level, level[l], Some(p))
      ensures old(NodeOk(nodes, level, nodes[l], level[l]) && NodeOk(nodes, level, nodes[r], level[r])) &&
        IndexRedistributed(old(nodes), nodes, l, r, p, o)
      ensures o.Done? ==>
        (old(|nodes[l].keys|) > 0 &&
         var i := Find(old(nodes[p].keys), old(nodes[l].keys[0]));
         i < |nodes[p].keys| && nodes[p].keys == old(nodes[p].keys)[i := nodes[p].keys[i]] &&
         nodes[l].keys + [nodes[p].keys[i]] + nodes[r].keys == old(nodes[l].keys + [nodes[p].keys[i]] + nodes[r].keys) &&
         nodes[l].children + nodes[r].children == old(nodes[l].children + nodes[r].children) &&
         !IsUnderflow(nodes[l]) && !IsUnderflow(nodes[r]))
    {
      var left, right, parent := nodes[l], nodes[r], nodes[p];
      assert NodeOk(nodes, level, left, level[l]) && NodeOk(nodes, level, right, level[r]);
      assert NodeOk(nodes, level, parent, level[p]);
      var leftKeySize := |left.keys|;
      if leftKeySize == 0 {
        return Thrown(IndexOutOfBounds);
      }
      var parentKeyIndex := Find(parent.keys, left.keys[0]);
      if parentKeyIndex >= |parent.keys| {
        return Thrown(IndexOutOfBounds);
      }
      if leftKeySize < D {
        RotateFromRight(l, r, p, parentKeyIndex);
      } else {
        RotateFromLeft(l, r, p, parentKeyIndex);
      }
      o := Done(NoChange);
      IndexRedistributedInOrder(old(nodes), nodes, l, r, p, o);
    }

    /**
     * Lines 406-413 of `handleIndexNodeUnderflowRedistribution`: the separator
     * at `idx` moves down to the end of the left node together with the right
     * node's first child, and the right node's first key moves up.
     */
    method RotateFromRight(l: nat, r: nat, p: nat, idx: nat)
      requires Valid() && l < |nodes| && r < |nodes| && p < |nodes| && l != r
      requires nodes[l].Index? && nodes[r].Index? && nodes[p].Index?
      requires level[l] + 1 == level[p] && level[r] + 1 == level[p]
      requires idx < |nodes[p].keys| && |nodes[r].keys| > 0
      modifies this
      ensures Valid() && level == old(level) && root == old(root)
      ensures var L, R, P := old(nodes[l]), old(nodes[r]), old(nodes[p]);
        nodes == old(nodes)[l := Index(L.keys + [P.keys[idx]], L.children + [R.children[0]])]
                           [p := Index(P.keys[idx := R.keys[0]], P.children)]
                           [r := Index(R.keys[1..], R.children[1..])]
    {
      var left, right, parent := nodes[l], nodes[r], nodes[p];
      assert NodeOk(nodes, level, left, level[l]) && NodeOk(nodes, level, right, level[r]);
      assert NodeOk(nodes, level, parent, level[p]);
      var newLeft := Index(left.keys + [parent.keys[idx]], left.children + [right.children[0]]);
      ChildrenAtSplice(nodes, level, right.children, left.children, level[l], 0, 1);
      UpdateValid(nodes, level, l, newLeft);
      nodes := nodes[l := newLeft];
      var newParent := Index(parent.keys[idx := right.keys[0]], parent.children);
      UpdateValid(nodes, level, p, newParent);
      nodes := nodes[p := newParent];
      var newRight := Index(right.keys[1..], right.children[1..]);
      ChildrenAtSplice(nodes, level, right.children, [], level[r], 1, |right.children|);
      UpdateValid(nodes, level, r, newRight);
      nodes := nodes[r := newRight];
    }

    /**
     * Lines 419-427 of `handleIndexNodeUnderflowRedistribution`: the left
     * node's keys and children after position D + 1 and the separator at
     * `idx` move to the front of the right node, and the left node's key at
     * position D moves up.
     */
    method RotateFromLeft(l: nat, r: nat, p: nat, idx: nat)
      requires Valid() && l < |nodes| && r < |nodes| && p < |nodes| && l != r
      requires nodes[l].Index? && nodes[r].Index? && nodes[p].Index?
      requires level[l] + 1 == level[p] && level[r] + 1 == level[p]
      requires idx < |nodes[p].keys| && |nodes[l].keys| > D
      modifies this
      ensures Valid() && level == old(level) && root == old(root)
      ensures var L, R, P := old(nodes[l]), old(nodes[r]), old(nodes[p]);
        nodes == old(nodes)[r := Index(L.keys[D + 1..] + [P.keys[idx]] + R.keys, L.children[D + 1..] + R.children)]
                           [l := Index(L.keys[..D], L.children[..D + 1])]
                           [p := Index(P.keys[idx := L.keys[D]], P.children)]
    {
      var left, right, parent := nodes[l], nodes[r], nodes[p];
      assert NodeOk(nodes, level, left, level[l]) && NodeOk(nodes, level, right, level[r]);
      assert NodeOk(nodes, level, parent, level[p]);
      var newRight := Index(left.keys[D + 1..] + [parent.keys[idx]] + right.keys, left.children[D + 1..] + right.children);
      ChildrenAtSplice(nodes, level, left.children, right.children, level[r], D + 1, |left.children|);
      assert left.children[D + 1..|left.children|] == left.children[D + 1..];
      UpdateValid(nodes, level, r, newRight);
      nodes := nodes[r := newRight];
      var promoted := left.keys[D];
      var newLeft := Index(left.keys[..D], left.children[..D + 1]);
      ChildrenAtSplice(nodes, level, left.children, [], level[l], 0, D + 1);
      assert left.children[0..D + 1] + [] == left.children[..D + 1];
      UpdateValid(nodes, level, l, newLeft);
      nodes := nodes[l := newLeft];
      var newParent := Index(parent.keys[idx := promoted], parent.children);
      UpdateValid(nodes, level, p, newParent);
      nodes := nodes[p := newParent];
    }

    /**
     * `handleIndexNodeUnderflow` (BPlusTree.java:381-389): merge two index
     * nodes that fit in one with their separator, redistribute otherwise.
     */
    method HandleIndexNodeUnderflow(l: nat, r: nat, p: nat) returns (o: Outcome)
      requires Valid() && l < |nodes| && r < |nodes| && p < |nodes|
      requires nodes[l].Index? && nodes[r].Index? && nodes[p].Index?
      requires level[l] + 1 == level[p] && level[r] + 1 == level[p]
      requires IsUnderflow(nodes[l]) || IsUnderflow(nodes[r])
      modifies this
      ensures Valid() && level == old(level) && root == old(root)
      ensures DeleteFrame(old(nodes), nodes, level, level[l], Some(p))
      ensures IndexUnderflowHandled(old(nodes), nodes, l, r, p, o)
    {
      assert NodeOk(nodes, level, nodes[l], level[l]) && NodeOk(nodes, level, nodes[r], level[r]);
      if IsIndexMergable(nodes[l], nodes[r]) {
        o := HandleIndexNodeUnderflowMerge(l, r, p);
      } else {
        o := HandleIndexNodeUnderflowRedistribution(l, r, p);
      }
    }

    /** The arguments of a recursive `delete` step at `h`, below `parent` at slot `ci`. */
    ghost predicate DeleteArgs(parent: Option<nat>, h: nat, ci: nat)
      reads this
    {
      Valid() && h < |nodes| && root.Some? &&
      (parent.None? ==> root == Some(h)) &&
      (parent.Some? ==>
        (parent.value < |nodes| && nodes[parent.value].Index? &&
         level[parent.value] <= level[root.value] &&
         ci < |nodes[parent.value].children| && nodes[parent.value].children[ci] == h))
    }

    /**
     * What every delete step at `h` keeps: the arena and its heights, the
     * frame `DeleteFrame` describes, and the root, unless `h` is the root; a
     * root that changes is dropped (an emptied leaf root) or replaced by the
     * one remaining child of an index root.
     */
    ghost predicate DeleteKept(n0: seq<Node<V>>, l0: seq<nat>, r0: Option<nat>, parent: Option<nat>, h: nat)
      reads this
      requires |n0| == |l0| && h < |n0|
    {
      Valid() && level == l0 && DeleteFrame(n0, nodes, level, l0[h], parent) &&
      (parent.Some? ==> root == r0) &&
      (parent.None? && root != r0 ==>
        (root.None? && nodes[h].Leaf? && |nodes[h].keys| == 0) ||
        (root.Some? && nodes[h].Index? && nodes[h].children == [root.value]))
    }

    /**
     * `delete(parentNode, currentNode, key, currentIndex)`
     * (BPlusTree.java:213-219): dispatch on the kind of node.
     */
    method DeleteNode(parent: Option<nat>, h: nat, key: int, ci: nat) returns (o: Outcome)
      requires DeleteArgs(parent, h, ci)
      modifies this
      decreases level[h], 1
      ensures DeleteKept(old(nodes), old(level), old(root), parent, h)
      ensures old(NoLeafUnderflow(nodes, level, h, key)) ==>
        o == Done(NoChange) && root == old(root) && RemovedBelow(old(nodes), nodes, old(level), h, key)
      ensures old(nodes[h]).Leaf? && parent.None? ==>
        var leaf := old(nodes[h]);
        old(|nodes[h].keys| == |nodes[h].values|) &&
        var rem := RemoveKey(leaf.keys, leaf.values, key);
        o.Done? && nodes == old(nodes)[h := Leaf(rem.0, rem.1, leaf.prev, leaf.next)] &&
        (root.None? <==> |rem.0| == 0)
    {
      if nodes[h].Index? {
        o := DeleteIndexNode(parent, h, key, ci);
      } else {
        o := DeleteLeafNode(parent, h, key, ci);
      }
    }

    /**
     * `deleteIndexNode` (BPlusTree.java:221-258): delete below the child that
     * `find` picks; an exception or a report of no change is passed up, and a
     * merge reported at a slot is dealt with by `DropMergedChild`.
     */
    method DeleteIndexNode(parent: Option<nat>, h: nat, key: int, ci: nat) returns (o: Outcome)
      requires DeleteArgs(parent, h, ci) && nodes[h].Index?
      modifies this
      decreases level[h], 0
      ensures DeleteKept(old(nodes), old(level), old(root), parent, h)
      ensures old(NoLeafUnderflow(nodes, level, h, key)) ==>
        o == Done(NoChange) && root == old(root) && RemovedBelow(old(nodes), nodes, old(level), h, key)
    {
      ghost var n0 := nodes;
      var index := nodes[h];
      assert NodeOk(nodes, level, index, level[h]);
      assert level[h] <= level[root.value];
      var childIndex := Find(index.keys, key);
      var child := index.children[childIndex];
      var oldChildIndex := DeleteNode(Some(h), child, key, childIndex);
      ghost var n1 := nodes;
      assert DeleteFrame(n1, n1, level, level[h], parent);
      if parent.Some? {
        assert NodeOk(n0, level, n0[parent.value], level[parent.value]);
      }
      if oldChildIndex.Thrown? || oldChildIndex.signal.NoChange? {
        DeleteFrameChain(n0, n1, n1, level, child, h, parent);
        return if oldChildIndex.Thrown? then oldChildIndex else Done(NoChange);
      }
      o := DropMergedChild(parent, h, ci, oldChildIndex.signal.slot);
      DeleteFrameChain(n0, n1, nodes, level, child, h, parent);
    }

    /**
     * The tail of `deleteIndexNode` (BPlusTree.java:229-256), once the child
     * at `slot` has been merged into its right sibling: the key and the child
     * at `slot` are removed (a slot past the keys throws). An index node that
     * then underflows is the root, which gives way to its only child when it
     * has one left, or is handled with its left sibling, or with its right
     * sibling when it is the first child (a missing right sibling throws).
     */
    method DropMergedChild(parent: Option<nat>, h: nat, ci: nat, slot: nat) returns (o: Outcome)
      requires DeleteArgs(parent, h, ci) && nodes[h].Index?
      modifies this
      ensures DeleteKept(old(nodes), old(level), old(root), parent, h)
      ensures var n := old(nodes[h]);
        old(|nodes[h].children| == |nodes[h].keys| + 1) &&
        (slot >= |n.keys| ==> o == Thrown(IndexOutOfBounds) && nodes == old(nodes)) &&
        (slot < |n.keys| ==>
          var shrunk := Index(n.keys[..slot] + n.keys[slot + 1..], n.children[..slot] + n.children[slot + 1..]);
          (!IsUnderflow(shrunk) ==> o == Done(NoChange) && nodes == old(nodes)[h := shrunk]) &&
          (parent.None? ==>
            nodes == old(nodes)[h := shrunk] && o.Done? &&
            root == if IsUnderflow(shrunk) && |shrunk.children| == 1 then Some(shrunk.children[0]) else old(root)))
    {
      ghost var n0 := nodes;
      var current := nodes[h];
      assert NodeOk(nodes, level, current, level[h]);
      if parent.Some? {
        assert NodeOk(n0, level, n0[parent.value], level[parent.value]);
      }
      if slot >= |current.keys| {
        return Thrown(IndexOutOfBounds);
      }
      var shrunk := Index(current.keys[..slot] + current.keys[slot + 1..],
                          current.children[..slot] + current.children[slot + 1..]);
      ChildrenAtSplice(nodes, level, current.children, [], level[h], slot + 1, |current.children|);
      ChildrenAtSplice(nodes, level, current.children, current.children[slot + 1..|current.children|] + [], level[h], 0, slot);
      assert current.children[slot + 1..|current.children|] + [] == current.children[slot + 1..];
      assert current.children[0..slot] == current.children[..slot];
      UpdateValid(nodes, level, h, shrunk);
      nodes := nodes[h := shrunk];
      ghost var n1 := nodes;
      assert DeleteFrame(n0, n1, level, level[h], parent);
      if !IsUnderflow(shrunk) {
        return Done(NoChange);
      }
      if root == Some(h) {
        if |shrunk.children| == 1 {
          root := Some(shrunk.children[0]);
        }
        return Done(MergedAt(0));
      }
      o := HandleSiblingUnderflow(parent.value, h, ci);
      DeleteFrameTrans(n0, n1, nodes, level, level[h], parent);
    }

    /**
     * The last branch of `deleteIndexNode` (BPlusTree.java:245-255): an
     * underflowing index node `h`, child `ci` of `p`, is handled with its left
     * sibling, or with its right sibling when it is the first child (a
     * missing right sibling throws).
     */
    method HandleSiblingUnderflow(p: nat, h: nat, ci: nat) returns (o: Outcome)
      requires Valid() && p < |nodes| && nodes[p].Index? && ci < |nodes[p].children| && nodes[p].children[ci] == h
      requires nodes[h].Index? && IsUnderflow(nodes[h])
      modifies this
      ensures Valid() && level == old(level) && root == old(root)
      ensures DeleteFrame(old(nodes), nodes, level, level[h], Some(p))
      ensures var siblings := old(nodes[p].children);
        if ci != 0 then IndexUnderflowHandled(old(nodes), nodes, siblings[ci - 1], h, p, o)
        else if ci + 1 >= |siblings| then o == Thrown(IndexOutOfBounds) && nodes == old(nodes)
        else IndexUnderflowHandled(old(nodes), nodes, h, siblings[ci + 1], p, o)
    {
      var siblings := nodes[p].children;
      assert NodeOk(nodes, level, nodes[p], level[p]);
      assert NodeOk(nodes, level, nodes[h], level[h]);
      assert level[nodes[h].children[0]] + 1 == level[h];
      if ci == 0 {
        if ci + 1 >= |siblings| {
          return Thrown(IndexOutOfBounds);
        }
        var sibling := siblings[ci + 1];
        assert NodeOk(nodes, level, nodes[sibling], level[sibling]);
        o := HandleIndexNodeUnderflow(h, sibling, p);
      } else {
        var sibling := siblings[ci - 1];
        assert NodeOk(nodes, level, nodes[sibling], level[sibling]);
        o := HandleIndexNodeUnderflow(sibling, h, p);
      }
    }

    /**
     * `deleteLeafNode` (BPlusTree.java:260-285): remove the entry; a leaf that
     * then underflows is the root, which is dropped once it is empty, or is
     * handled with its previous leaf when it has one and is not the first
     * child, or else with its next leaf (a missing next leaf throws).
     */
    method DeleteLeafNode(parent: Option<nat>, h: nat, key: int, ci: nat) returns (o: Outcome)
      requires DeleteArgs(parent, h, ci) && nodes[h].Leaf?
      modifies this
      ensures DeleteKept(old(nodes), old(level), old(root), parent, h)
      ensures var leaf := old(nodes[h]);
        old(|nodes[h].keys| == |nodes[h].values|) &&
        var rem := RemoveKey(leaf.keys, leaf.values, key);
        var removed := old(nodes)[h := Leaf(rem.0, rem.1, leaf.prev, leaf.next)];
        (|rem.0| >= D ==> o == Done(NoChange) && nodes == removed) &&
        (parent.None? ==> o.Done? && nodes == removed && (root.None? <==> |rem.0| == 0)) &&
        (parent.Some? && |rem.0| < D ==>
          if leaf.prev.Some? && ci != 0 then LeafUnderflowHandled(removed, nodes, leaf.prev.value, h, parent.value, o)
          else if leaf.next.None? then o == Thrown(NullPointer) && nodes == removed
          else LeafUnderflowHandled(removed, nodes, h, leaf.next.value, parent.value, o))
    {
      ghost var n0 := nodes;
      assert NodeOk(nodes, level, nodes[h], level[h]);
      if parent.Some? {
        assert NodeOk(n0, level, n0[parent.value], level[parent.value]);
      }
      RemoveEntry(h, key);
      ghost var n1 := nodes;
      var leaf := nodes[h];
      assert NodeOk(nodes, level, leaf, level[h]);
      if !IsUnderflow(leaf) {
        return Done(NoChange);
      }
      if root == Some(h) {
        if |leaf.keys| == 0 {
          root := None;
        }
        return Done(MergedAt(0));
      }
      var p := parent.value;
      if leaf.prev.Some? && ci != 0 {
        o := HandleLeafNodeUnderflow(leaf.prev.value, h, p);
      } else {
        if leaf.next.None? {
          return Thrown(NullPointer);
        }
        o := HandleLeafNodeUnderflow(h, leaf.next.value, p);
      }
      DeleteFrameTrans(n0, n1, nodes, level, level[h], parent);
    }

    /**
     * `delete(key)` (BPlusTree.java:205-211): nothing on an empty tree,
     * otherwise a delete step from the root. The result is the exception the
     * Java code would throw, if any.
     */
    method Delete(key: int) returns (thrown: Option<JavaException>)
      requires Valid()
      modifies this
      ensures Valid() && level == old(level) && |nodes| == old(|nodes|)
      ensures old(root).None? ==> nodes == old(nodes) && root.None? && thrown.None?
      ensures old(root).Some? && root != old(root) ==>
        var h := old(root.value);
        (root.None? && nodes[h].Leaf? && |nodes[h].keys| == 0) ||
        (root.Some? && nodes[h].Index? && nodes[h].children == [root.value])
      ensures old(root).Some? && old(nodes[root.value]).Leaf? ==>
        var leaf := old(nodes[root.value]);
        old(|nodes[root.value].keys| == |nodes[root.value].values|) &&
        var rem := RemoveKey(leaf.keys, leaf.values, key);
        thrown.None? && nodes == old(nodes)[old(root.value) := Leaf(rem.0, rem.1, leaf.prev, leaf.next)] &&
        (root.None? <==> |rem.0| == 0) && (root.Some? ==> root == old(root))
      ensures old(root.Some? && NoLeafUnderflow(nodes, level, root.value, key)) ==>
        thrown.None? && root == old(root) && RemovedBelow(old(nodes), nodes, level, root.value, key)
      ensures old(root.Some? && Ordered(nodes, level, root.value, None, None) && NoLeafUnderflow(nodes, level, root.value, key)) ==>
        Ordered(nodes, level, root.value, None, None) &&
        (Shaped(nodes, level, root.value) <==> old(Shaped(nodes, level, root.value))) &&
        (old(Filled(nodes, level, root.value, true)) ==> Filled(nodes, level, root.value, true)) &&
        SearchTree(nodes, level, root, key) == None &&
        forall k :: k != key ==> SearchTree(nodes, level, root, k) == old(SearchTree(nodes, level, root, k))
      ensures old(root.Some? && Filled(nodes, level, root.value, true) && SearchTree(nodes, level, root, key).None?) ==>
        thrown.None? && nodes == old(nodes) &&
        (root == old(root) || (root.None? && old(nodes[root.value].Leaf? && |nodes[root.value].keys| == 0)))
    {
      ghost var n0, r0 := nodes, root;
      if root.None? {
        return None;
      }
      var o := DeleteNode(None, root.value, key, 0);
      thrown := if o.Thrown? then Some(o.exception) else None;
      if Ordered(n0, level, r0.value, None, None) && NoLeafUnderflow(n0, level, r0.value, key) {
        RemovalSearched(n0, nodes, level, r0.value, key);
        RemovalKeepsInvariants(n0, nodes, level, r0.value, key);
      }
      if Filled(n0, level, r0.value, true) && SearchTree(n0, level, r0, key).None? {
        MissRemovesNothing(n0, level, r0.value, key);
        if n0[r0.value].Index? {
          AbsentKeyRemovesNothing(n0, level, r0.value, key);
        }
      }
    }
  }
}
