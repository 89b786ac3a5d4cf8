/**
 * What one insertion into the arena computes, as functions of the arena
 * before it: the leaf step of `insertLeafNodeHelper`, the split of
 * `dealOverFlowed`, the entry that `insertIndexNodeHelper` takes in from a
 * split child, the recursive descent of `insertHelper` and the whole
 * `insert`. Each step's state is the tuple (arena, heights, root, reported
 * entry). The methods of `Tree.BPlusTree` compute exactly these states; the
 * second half of the module proves what they mean: the ordering and tree
 * shape are kept, the key is found with its new value, and every other key
 * keeps its value.
 */
module Insertion {
  import opened Wrappers
  import opened KeyLocator
  import opened Nodes
  import opened Search
  import opened Ordering

  /** The state after an insertion step: arena, heights, root and the entry reported upward. */
  type Step<V> = (seq<Node<V>>, seq<nat>, Option<nat>, Option<Entry>)

  /**
   * The frame of one insertion step at `h`: nodes are only appended, with the
   * old heights kept; no node higher than `h` changes; the root changes only when
   * `h` is the root, in which case nothing is reported and a grown root is a new
   * index node of `h`'s height plus one with `h` as first child; a reported
   * entry names a new node of `h`'s height.
   */
  ghost predicate InsertStep<V>(n0: seq<Node<V>>, l0: seq<nat>, r0: Option<nat>,
                                n1: seq<Node<V>>, l1: seq<nat>, r1: Option<nat>,
                                h: nat, e: Option<Entry>)
    requires h < |n0| == |l0| && |n1| == |l1|
  {
    |n0| <= |n1| && l1[..|n0|] == l0 &&
    (forall x :: 0 <= x < |n0| && l0[h] < l0[x] ==> n1[x] == n0[x]) &&
    (r0 != Some(h) ==> r1 == r0) &&
    (r0 == Some(h) ==>
      (e.None? && r1.Some? &&
       (r1 != r0 ==>
         (|n0| <= r1.value < |n1| && n1[r1.value].Index? &&
          |n1[r1.value].keys| == 1 && |n1[r1.value].children| == 2 &&
          n1[r1.value].children[0] == h && l1[r1.value] == l0[h] + 1)))) &&
    (e.Some? ==> |n0| <= e.value.right < |n1| && l1[e.value.right] == l0[h])
  }

  /** A step below `h` that reports nothing is a step at `h`. */
  lemma InsertStepWeaken<V>(n0: seq<Node<V>>, l0: seq<nat>, r0: Option<nat>,
                            n1: seq<Node<V>>, l1: seq<nat>, r1: Option<nat>,
                            c: nat, h: nat)
    requires c < |n0| == |l0| && h < |n0| && |n1| == |l1| && l0[c] < l0[h] && r0 != Some(c)
    requires InsertStep(n0, l0, r0, n1, l1, r1, c, None)
    ensures InsertStep(n0, l0, r0, n1, l1, r1, h, None)
  {
  }

  /** A step at child `c` of `h` followed by a step at `h` is a step at `h`. */
  lemma InsertStepChain<V>(n0: seq<Node<V>>, l0: seq<nat>, r0: Option<nat>,
                           n1: seq<Node<V>>, l1: seq<nat>, r1: Option<nat>,
                           n2: seq<Node<V>>, l2: seq<nat>, r2: Option<nat>,
                           c: nat, h: nat, e1: Option<Entry>, e: Option<Entry>)
    requires c < |n0| == |l0| && h < |n0| && |n1| == |l1| && |n2| == |l2| && l0[c] < l0[h]
    requires r0 != Some(c)
    requires InsertStep(n0, l0, r0, n1, l1, r1, c, e1)
    requires InsertStep(n1, l1, r1, n2, l2, r2, h, e)
    ensures InsertStep(n0, l0, r0, n2, l2, r2, h, e)
  {
    assert l1[h] == l0[h];
    forall x | 0 <= x < |n0| && l0[h] < l0[x]
      ensures n2[x] == n0[x]
    {
      assert l1[x] == l0[x];
    }
    assert l2[..|n0|] == l0 by {
      assert l2[..|n1|] == l1;
      assert l2[..|n0|] == l2[..|n1|][..|n0|];
    }
  }

  /** Splitting the entries `ks`/`vs` of leaf `h` at D, with the right half appended, keeps the arena valid. */
  lemma LeafSplitValid<V>(n0: seq<Node<V>>, l0: seq<nat>, h: nat, ks: seq<int>, vs: seq<V>)
    requires ArenaValid(n0, l0) && h < |n0| && n0[h].Leaf? && |ks| == |vs| && D <= |ks|
    ensures ArenaValid(n0[h := Leaf(ks[..D], vs[..D], n0[h].prev, Some(|n0|))]
                       + [Leaf(ks[D..], vs[D..], Some(h), n0[h].next)], l0 + [0])
  {
    var leaf := n0[h];
    assert NodeOk(n0, l0, leaf, l0[h]);
    var n1 := n0[h := Leaf(ks[..D], vs[..D], leaf.prev, leaf.next)];
    UpdateValid(n0, l0, h, n1[h]);
    var right := Leaf(ks[D..], vs[D..], Some(h), leaf.next);
    AppendValid(n1, l0, right, 0);
    var n2 := n1 + [right];
    UpdateValid(n2, l0 + [0], h, Leaf(ks[..D], vs[..D], leaf.prev, Some(|n0|)));
    assert n2[h := Leaf(ks[..D], vs[..D], leaf.prev, Some(|n0|))]
        == n0[h := Leaf(ks[..D], vs[..D], leaf.prev, Some(|n0|))] + [right];
  }

  /** Splitting index node `h` at D, with the right half appended, keeps the arena valid. */
  lemma IndexSplitValid<V>(n0: seq<Node<V>>, l0: seq<nat>, h: nat)
    requires ArenaValid(n0, l0) && h < |n0| && n0[h].Index? && D < |n0[h].keys|
    ensures |n0[h].children| == |n0[h].keys| + 1
    ensures ArenaValid(n0[h := Index(n0[h].keys[..D], n0[h].children[..D + 1])]
                       + [Index(n0[h].keys[D + 1..], n0[h].children[D + 1..])], l0 + [l0[h]])
  {
    var node := n0[h];
    assert NodeOk(n0, l0, node, l0[h]);
    var left := Index(node.keys[..D], node.children[..D + 1]);
    assert ChildrenAt(n0, l0, left.children, l0[h]) by {
      ChildrenAtSplice(n0, l0, node.children, [], l0[h], 0, D + 1);
      assert node.children[0..D + 1] + [] == left.children;
    }
    UpdateValid(n0, l0, h, left);
    var right := Index(node.keys[D + 1..], node.children[D + 1..]);
    var n1 := n0[h := left];
    assert ChildrenAt(n1 + [right], l0 + [l0[h]], right.children, l0[h]) by {
      forall i | 0 <= i < |right.children|
        ensures right.children[i] < |n1 + [right]| && (l0 + [l0[h]])[right.children[i]] + 1 == l0[h]
      {
        assert right.children[i] == node.children[D + 1 + i];
      }
    }
    AppendValid(n1, l0, right, l0[h]);
  }

  /**
   * The arena after `splitIndexNode` at `h`: `h` keeps the first D keys and
   * D + 1 children, and a new node appended at the end takes the last keys
   * and children; the middle key moves up.
   */
  ghost function IndexSplit<V>(n0: seq<Node<V>>, l0: seq<nat>, h: nat): (r: seq<Node<V>>)
    requires ArenaValid(n0, l0) && h < |n0| && n0[h].Index? && D < |n0[h].keys|
    ensures |n0[h].children| == |n0[h].keys| + 1 && |r| == |n0| + 1
    ensures ArenaValid(r, l0 + [l0[h]])
  {
    IndexSplitValid(n0, l0, h);
    n0[h := Index(n0[h].keys[..D], n0[h].children[..D + 1])] + [Index(n0[h].keys[D + 1..], n0[h].children[D + 1..])]
  }

  /**
   * `insertLeafNodeHelper` at leaf `h`: the entry is inserted in order; a leaf
   * that does not overflow reports nothing; an overflowing leaf keeps its first
   * D entries, a new right leaf takes the rest and is linked after it, and the
   * splitting key (the right leaf's first key) either grows a new root (when
   * `h` is the root) or is reported upward.
   */
  ghost function LeafInsertion<V>(n0: seq<Node<V>>, l0: seq<nat>, r0: Option<nat>, h: nat, key: int, value: V): (s: Step<V>)
    requires ArenaValid(n0, l0) && h < |n0| && n0[h].Leaf? && (r0.Some? ==> r0.value < |n0|)
    ensures ArenaValid(s.0, s.1) && (s.2.Some? ==> s.2.value < |s.0|)
    ensures InsertStep(n0, l0, r0, s.0, s.1, s.2, h, s.3)
  {
    var leaf := n0[h];
    assert NodeOk(n0, l0, leaf, l0[h]);
    var ins := InsertSorted(leaf.keys, leaf.values, key, value);
    var right := |n0|;
    if |ins.0| <= 2 * D then
      UpdateValid(n0, l0, h, Leaf(ins.0, ins.1, leaf.prev, leaf.next));
      (n0[h := Leaf(ins.0, ins.1, leaf.prev, leaf.next)], l0, r0, None)
    else
      var split := n0[h := Leaf(ins.0[..D], ins.1[..D], leaf.prev, Some(right))]
                   + [Leaf(ins.0[D..], ins.1[D..], Some(h), leaf.next)];
      LeafSplitValid(n0, l0, h, ins.0, ins.1);
      if r0 == Some(h) then
        AppendValid(split, l0 + [0], Index([ins.0[D]], [h, right]), 1);
        (split + [Index([ins.0[D]], [h, right])], l0 + [0] + [1], Some(right + 1), None)
      else
        (split, l0 + [0], r0, Some(Entry(ins.0[D], right)))
  }

  /**
   * `dealOverFlowed` at index node `h`: a node with at most 2D keys reports
   * nothing; an overflowing node keeps its first D keys and D + 1 children,
   * promotes its key at position D, and a new right node takes the keys and
   * children after it; the promoted key either grows a new root (when `h` is
   * the root) or is reported upward.
   */
  ghost function OverflowDealing<V>(n0: seq<Node<V>>, l0: seq<nat>, r0: Option<nat>, h: nat): (s: Step<V>)
    requires ArenaValid(n0, l0) && h < |n0| && n0[h].Index? && (r0.Some? ==> r0.value < |n0|)
    ensures ArenaValid(s.0, s.1) && (s.2.Some? ==> s.2.value < |s.0|)
    ensures InsertStep(n0, l0, r0, s.0, s.1, s.2, h, s.3)
  {
    var node := n0[h];
    assert NodeOk(n0, l0, node, l0[h]);
    var right := |n0|;
    if |node.keys| <= 2 * D then (n0, l0, r0, None)
    else
      var split := IndexSplit(n0, l0, h);
      if r0 == Some(h) then
        AppendValid(split, l0 + [l0[h]], Index([node.keys[D]], [h, right]), l0[h] + 1);
        (split + [Index([node.keys[D]], [h, right])], l0 + [l0[h]] + [l0[h] + 1], Some(right + 1), None)
      else
        (split, l0 + [l0[h]], r0, Some(Entry(node.keys[D], right)))
  }

  /**
   * The tail of `insertIndexNodeHelper` at index node `h`: the reported key
   * goes in at the first slot whose key is larger and the reported node right
   * of the child it split from; then an overflow is dealt with.
   */
  ghost function EntryAdding<V>(n0: seq<Node<V>>, l0: seq<nat>, r0: Option<nat>, h: nat, entry: Entry): (s: Step<V>)
    requires ArenaValid(n0, l0) && h < |n0| && n0[h].Index? && (r0.Some? ==> r0.value < |n0|)
    requires entry.right < |n0| && l0[entry.right] + 1 == l0[h]
    ensures ArenaValid(s.0, s.1) && (s.2.Some? ==> s.2.value < |s.0|)
    ensures InsertStep(n0, l0, r0, s.0, s.1, s.2, h, s.3)
  {
    var n := n0[h];
    assert NodeOk(n0, l0, n, l0[h]);
    var j := FirstAbove(n.keys, entry.sep);
    InsertEntryAtOk(n0, l0, n, entry.sep, entry.right, j, l0[h]);
    UpdateValid(n0, l0, h, InsertEntryAt(n, entry.sep, entry.right, j));
    OverflowDealing(n0[h := InsertEntryAt(n, entry.sep, entry.right, j)], l0, r0, h)
  }

  /** Dealing with an overflow keeps strictly ascending keys in `h` and in a reported new node. */
  lemma OverflowAscending<V>(n0: seq<Node<V>>, l0: seq<nat>, r0: Option<nat>, h: nat)
    requires ArenaValid(n0, l0) && h < |n0| && n0[h].Index? && (r0.Some? ==> r0.value < |n0|)
    requires StrictlyAscending(n0[h].keys)
    ensures var s := OverflowDealing(n0, l0, r0, h);
      h < |s.0| && StrictlyAscending(s.0[h].keys) &&
      (s.3.Some? ==> s.3.value.right < |s.0| && StrictlyAscending(s.0[s.3.value.right].keys))
  {
    var K := n0[h].keys;
    if 2 * D < |K| {
      var S := IndexSplit(n0, l0, h);
      assert S[h].keys == K[..D];
      var R := K[D + 1..];
      assert S[|n0|].keys == R;
      forall a, b | 0 <= a < b < |R| ensures R[a] < R[b] {
        assert R[a] == K[D + 1 + a];
      }
    }
  }

  /**
   * `insertHelper` at `h`: a leaf takes the entry; an index node passes it to
   * the first child whose separator is larger than the key and takes in the
   * entry that child reports, if any.
   */
  ghost function Insertion<V>(n0: seq<Node<V>>, l0: seq<nat>, r0: Option<nat>, h: nat, key: int, value: V): (s: Step<V>)
    requires ArenaValid(n0, l0) && h < |n0| && r0.Some? && r0.value < |n0|
    requires r0 == Some(h) || l0[h] < l0[r0.value]
    ensures ArenaValid(s.0, s.1) && s.2.Some? && s.2.value < |s.0|
    ensures InsertStep(n0, l0, r0, s.0, s.1, s.2, h, s.3)
    decreases l0[h]
  {
    assert NodeOk(n0, l0, n0[h], l0[h]);
    match n0[h]
    case Leaf(_, _, _, _) => LeafInsertion(n0, l0, r0, h, key, value)
    case Index(keys, children) =>
      var c := children[FirstAbove(keys, key)];
      var mid := Insertion(n0, l0, r0, c, key, value);
      if mid.3.None? then
        InsertStepWeaken(n0, l0, r0, mid.0, mid.1, mid.2, c, h);
        mid
      else
        assert mid.0[h] == n0[h] && mid.1[h] == l0[h];
        var s := EntryAdding(mid.0, mid.1, mid.2, h, mid.3.value);
        InsertStepChain(n0, l0, r0, mid.0, mid.1, mid.2, s.0, s.1, s.2, c, h, mid.3, s.3);
        s
  }

  /**
   * `insert(key, value)`: an empty tree first gets a one-entry leaf as its
   * root; then the entry is inserted from the root.
   */
  ghost function TreeInsertion<V>(n0: seq<Node<V>>, l0: seq<nat>, r0: Option<nat>, key: int, value: V): (s: Step<V>)
    requires ArenaValid(n0, l0) && (r0.Some? ==> r0.value < |n0|)
    ensures ArenaValid(s.0, s.1) && s.2.Some? && s.2.value < |s.0| && s.3.None?
  {
    if r0.None? then
      var leaf := Leaf([key], [value], None, None);
      AppendValid(n0, l0, leaf, 0);
      Insertion(n0 + [leaf], l0 + [0], Some(|n0|), |n0|, key, value)
    else
      Insertion(n0, l0, r0, r0.value, key, value)
  }

  /*
   * What an insertion means. The invariant kept is the one of `Ordered`
   * (keys ascending within the bounds the parents give) together with
   * `Shaped` (subtrees of siblings share no node).
   */

  /** After inserting `key` with `value` below `h`, `k` maps to `v`: the new pair for `key`, the old entries otherwise. */
  ghost predicate Updated<V(!new)>(n0: seq<Node<V>>, l0: seq<nat>, h: nat, key: int, value: V, k: int, v: V)
    requires ArenaValid(n0, l0) && h < |n0|
  {
    if k == key then v == value else HasEntry(n0, l0, h, k, v)
  }

  /**
   * The subtree at `t` of the new arena is what inserting `key`/`value` into
   * the old subtree at `h` means: it is ordered within `lo..hi` and shaped,
   * its entries are the updated entries, and it is built from old nodes of
   * `h`'s subtree and new nodes only.
   */
  ghost predicate Inserted<V(!new)>(n0: seq<Node<V>>, l0: seq<nat>, n1: seq<Node<V>>, l1: seq<nat>,
                              h: nat, t: nat, key: int, value: V, lo: Option<int>, hi: Option<int>)
    requires ArenaValid(n0, l0) && h < |n0| && ArenaValid(n1, l1) && t < |n1|
  {
    Ordered(n1, l1, t, lo, hi) && Shaped(n1, l1, t) &&
    (forall k, v :: HasEntry(n1, l1, t, k, v) <==> Updated(n0, l0, h, key, value, k, v)) &&
    (forall x :: InReach(n1, l1, t, x) ==> InReach(n0, l0, h, x) || |n0| <= x)
  }

  /**
   * The same after a split: `h` keeps the keys below `sep` and the new node
   * `right` the others; between them the two subtrees, which share no node,
   * hold the updated entries.
   */
  ghost predicate SplitInserted<V(!new)>(n0: seq<Node<V>>, l0: seq<nat>, n1: seq<Node<V>>, l1: seq<nat>,
                                   h: nat, sep: int, right: nat, key: int, value: V, lo: Option<int>, hi: Option<int>)
    requires ArenaValid(n0, l0) && h < |n0| && ArenaValid(n1, l1) && h < |n1| && right < |n1|
  {
    StrictlyAbove(lo, sep) && Below(sep, hi) &&
    Ordered(n1, l1, h, lo, Some(sep)) && Ordered(n1, l1, right, Some(sep), hi) &&
    Shaped(n1, l1, h) && Shaped(n1, l1, right) &&
    (forall x :: InReach(n1, l1, h, x) ==> !InReach(n1, l1, right, x)) &&
    (forall k, v :: HasEntry(n1, l1, h, k, v) || HasEntry(n1, l1, right, k, v) <==> Updated(n0, l0, h, key, value, k, v)) &&
    (forall x :: InReach(n1, l1, h, x) || InReach(n1, l1, right, x) ==> InReach(n0, l0, h, x) || |n0| <= x)
  }

  /**
   * An insertion step at `h` within bounds `lo..hi` is correct: no old node
   * outside `h`'s subtree changes, and the subtree (under a grown root, when
   * one was grown) or the two halves of a reported split hold the updated
   * entries in order.
   */
  ghost predicate StepCorrect<V(!new)>(n0: seq<Node<V>>, l0: seq<nat>, r0: Option<nat>, s: Step<V>,
                                 h: nat, key: int, value: V, lo: Option<int>, hi: Option<int>)
    requires ArenaValid(n0, l0) && h < |n0| && ArenaValid(s.0, s.1) && |n0| <= |s.0|
    requires s.2.Some? ==> s.2.value < |s.0|
    requires s.3.Some? ==> s.3.value.right < |s.0|
  {
    (forall x :: 0 <= x < |n0| && !InReach(n0, l0, h, x) ==> s.0[x] == n0[x]) &&
    (s.3.None? ==>
      Inserted(n0, l0, s.0, s.1, h, if s.2.Some? && s.2 != r0 then s.2.value else h, key, value, lo, hi)) &&
    (s.3.Some? ==>
      SplitInserted(n0, l0, s.0, s.1, h, s.3.value.sep, s.3.value.right, key, value, lo, hi))
  }

  /** Everything said of the subtree at `g` is the same in two arenas. */
  ghost predicate Same<V(!new)>(n0: seq<Node<V>>, l0: seq<nat>, n1: seq<Node<V>>, l1: seq<nat>, g: nat)
    requires ArenaValid(n0, l0) && ArenaValid(n1, l1) && g < |n0| && g < |n1|
  {
    (forall x :: InReach(n1, l1, g, x) <==> InReach(n0, l0, g, x)) &&
    (Shaped(n1, l1, g) <==> Shaped(n0, l0, g)) &&
    (forall k, v :: HasEntry(n1, l1, g, k, v) <==> HasEntry(n0, l0, g, k, v)) &&
    (forall lo, hi :: Ordered(n1, l1, g, lo, hi) <==> Ordered(n0, l0, g, lo, hi))
  }

  /** A subtree whose nodes, and all nodes as low as its root, are kept is the same subtree. */
  lemma LowerSame<V(!new)>(n0: seq<Node<V>>, l0: seq<nat>, n1: seq<Node<V>>, l1: seq<nat>, g: nat)
    requires ArenaValid(n0, l0) && ArenaValid(n1, l1) && g < |n0| && g < |n1|
    requires forall x :: 0 <= x < |n0| && l0[x] <= l0[g] ==> x < |n1| && x < |l1| && n1[x] == n0[x] && l1[x] == l0[x]
    ensures Same(n0, l0, n1, l1, g)
  {
    forall x | 0 <= x < |n0| && InReach(n0, l0, g, x)
      ensures x < |n1| && x < |l1| && n1[x] == n0[x] && l1[x] == l0[x]
    {
      ReachBounds(n0, l0, g, x);
    }
    AgreeSame(n0, l0, n1, l1, g);
  }

  /**
   * When only the subtree of child `i` of `h`, `h` itself and new nodes
   * changed, every other child of `h` keeps its subtree.
   */
  lemma SiblingSame<V(!new)>(n0: seq<Node<V>>, l0: seq<nat>, n1: seq<Node<V>>, l1: seq<nat>, h: nat, c: nat, i: nat, t: nat)
    requires ArenaValid(n0, l0) && ArenaValid(n1, l1) && h < |n0| <= |n1| && l1[..|n0|] == l0
    requires n0[h].Index? && Shaped(n0, l0, h) && i < |n0[h].children| && t < |n0[h].children| && t != i
    requires c == n0[h].children[i] && c < |n0|
    requires forall x :: 0 <= x < |n0| && x != h && !InReach(n0, l0, c, x) ==> n1[x] == n0[x]
    ensures n0[h].children[t] < |n0|
    ensures Same(n0, l0, n1, l1, n0[h].children[t])
  {
    assert NodeOk(n0, l0, n0[h], l0[h]);
    var g := n0[h].children[t];
    forall x | 0 <= x < |n0| && InReach(n0, l0, g, x)
      ensures x < |n1| && x < |l1| && n1[x] == n0[x] && l1[x] == l0[x]
    {
      ReachBounds(n0, l0, g, x);
      assert !InReach(n0, l0, c, x);
      assert l1[..|n0|][x] == l1[x];
    }
    AgreeSame(n0, l0, n1, l1, g);
  }

  /** The two halves of a split leaf hold exactly the entries of the whole. */
  lemma LeafSplitHolds<V>(w: Node<V>, l: Node<V>, r: Node<V>, k: int, v: V)
    requires w.Leaf? && l.Leaf? && r.Leaf? && |w.keys| == |w.values| && D <= |w.keys|
    requires l.keys == w.keys[..D] && l.values == w.values[..D]
    requires r.keys == w.keys[D..] && r.values == w.values[D..]
    ensures LeafHolds(l, k, v) || LeafHolds(r, k, v) <==> LeafHolds(w, k, v)
  {
    if LeafHolds(w, k, v) {
      var j :| 0 <= j < |w.keys| && j < |w.values| && w.keys[j] == k && w.values[j] == v;
      if j < D {
        assert l.keys[j] == k && l.values[j] == v;
      } else {
        assert r.keys[j - D] == k && r.values[j - D] == v;
      }
    }
    if LeafHolds(l, k, v) {
      var j :| 0 <= j < |l.keys| && j < |l.values| && l.keys[j] == k && l.values[j] == v;
      assert w.keys[j] == k && w.values[j] == v;
    }
    if LeafHolds(r, k, v) {
      var j :| 0 <= j < |r.keys| && j < |r.values| && r.keys[j] == k && r.values[j] == v;
      assert w.keys[j + D] == k && w.values[j + D] == v;
    }
  }

  /**
   * Growing a root above the two halves of a split gives one subtree, rooted
   * at the new node, that holds the updated entries in order.
   */
  lemma GrowRootOk<V(!new)>(n0: seq<Node<V>>, l0: seq<nat>, n1: seq<Node<V>>, l1: seq<nat>,
                      h: nat, sep: int, right: nat, key: int, value: V, lo: Option<int>, hi: Option<int>, lvl: nat)
    requires ArenaValid(n0, l0) && ArenaValid(n1, l1) && h < |n0| <= |n1| && right < |n1|
    requires SplitInserted(n0, l0, n1, l1, h, sep, right, key, value, lo, hi)
    requires ArenaValid(n1 + [Index([sep], [h, right])], l1 + [lvl])
    ensures Inserted(n0, l0, n1 + [Index([sep], [h, right])], l1 + [lvl], h, |n1|, key, value, lo, hi)
  {
    var n2, l2, t := n1 + [Index([sep], [h, right])], l1 + [lvl], |n1|;
    assert NodeOk(n2, l2, n2[t], l2[t]);
    LowerSame(n1, l1, n2, l2, h);
    LowerSame(n1, l1, n2, l2, right);
    assert n2[t].children == [h, right] && n2[t].keys == [sep];
    assert LowerAt([sep], lo, 0) == lo && UpperAt([sep], hi, 0) == Some(sep);
    assert LowerAt([sep], lo, 1) == Some(sep) && UpperAt([sep], hi, 1) == hi;
    assert Ordered(n2, l2, t, lo, hi);
    assert Disjoint(n2, l2, [h, right]);
    assert Shaped(n2, l2, t);
    forall k, v ensures HasEntry(n2, l2, t, k, v) <==> Updated(n0, l0, h, key, value, k, v) {
      assert HasEntry(n2, l2, t, k, v) <==> HasEntry(n2, l2, h, k, v) || HasEntry(n2, l2, right, k, v);
    }
    forall x | InReach(n2, l2, t, x) ensures InReach(n0, l0, h, x) || |n0| <= x {
      assert x == t || InReach(n2, l2, h, x) || InReach(n2, l2, right, x);
    }
  }

  /** Sorted insertion into an ordered leaf gives ascending keys within its bounds and the updated entries. */
  lemma SortedLeafUpdated<V(!new)>(n0: seq<Node<V>>, l0: seq<nat>, h: nat, key: int, value: V, lo: Option<int>, hi: Option<int>)
    requires ArenaValid(n0, l0) && h < |n0| && n0[h].Leaf?
    requires Ordered(n0, l0, h, lo, hi) && Above(lo, key) && Below(key, hi)
    ensures |n0[h].keys| == |n0[h].values|
    ensures var ins := InsertSorted(n0[h].keys, n0[h].values, key, value);
      StrictlyAscending(ins.0) &&
      (forall j :: 0 <= j < |ins.0| ==> Above(lo, ins.0[j]) && Below(ins.0[j], hi)) &&
      forall k, v :: LeafHolds(Leaf(ins.0, ins.1, None, None), k, v) <==> Updated(n0, l0, h, key, value, k, v)
  {
    var leaf := n0[h];
    assert NodeOk(n0, l0, leaf, l0[h]);
    var ins := InsertSorted(leaf.keys, leaf.values, key, value);
    InsertSortedCorrect(leaf.keys, leaf.values, key, value);
    InsertSortedKeys(leaf.keys, leaf.values, key, value);
    var whole: Node<V> := Leaf(ins.0, ins.1, None, None);
    forall k, v ensures LeafHolds(whole, k, v) <==> Updated(n0, l0, h, key, value, k, v) {
      LeafHoldsLookup(whole, k, v);
      LeafHoldsLookup(leaf, k, v);
    }
    forall j | 0 <= j < |ins.0| ensures Above(lo, ins.0[j]) && Below(ins.0[j], hi) {
      assert ins.0[j] in ins.0;
    }
  }

  /** The split of an overflowing leaf gives two ordered halves that hold the updated entries. */
  lemma LeafSplitInserted<V(!new)>(n0: seq<Node<V>>, l0: seq<nat>, h: nat, key: int, value: V, lo: Option<int>, hi: Option<int>)
    requires ArenaValid(n0, l0) && h < |n0| && n0[h].Leaf?
    requires Ordered(n0, l0, h, lo, hi) && Above(lo, key) && Below(key, hi)
    requires |n0[h].keys| == |n0[h].values|
    requires 2 * D < |InsertSorted(n0[h].keys, n0[h].values, key, value).0|
    ensures var leaf := n0[h];
      var ins := InsertSorted(leaf.keys, leaf.values, key, value);
      var split := n0[h := Leaf(ins.0[..D], ins.1[..D], leaf.prev, Some(|n0|))]
                   + [Leaf(ins.0[D..], ins.1[D..], Some(h), leaf.next)];
      ArenaValid(split, l0 + [0]) &&
      SplitInserted(n0, l0, split, l0 + [0], h, ins.0[D], |n0|, key, value, lo, hi)
  {
    var leaf := n0[h];
    var ins := InsertSorted(leaf.keys, leaf.values, key, value);
    SortedLeafUpdated(n0, l0, h, key, value, lo, hi);
    var right := |n0|;
    var sep := ins.0[D];
    var whole: Node<V> := Leaf(ins.0, ins.1, None, None);
    var left := Leaf(ins.0[..D], ins.1[..D], leaf.prev, Some(right));
    var rightLeaf := Leaf(ins.0[D..], ins.1[D..], Some(h), leaf.next);
    var split := n0[h := left] + [rightLeaf];
    var l1 := l0 + [0];
    LeafSplitValid(n0, l0, h, ins.0, ins.1);
    assert split[h] == left && split[right] == rightLeaf;
    forall k, v ensures HasEntry(split, l1, h, k, v) || HasEntry(split, l1, right, k, v) <==> Updated(n0, l0, h, key, value, k, v) {
      LeafSplitHolds(whole, left, rightLeaf, k, v);
    }
    assert Ordered(split, l1, h, lo, Some(sep));
    assert Ordered(split, l1, right, Some(sep), hi);
    assert ins.0[0] < sep;
  }

  /** A leaf that takes the entry without overflowing holds the updated entries in order. */
  lemma LeafKeptCorrect<V(!new)>(n0: seq<Node<V>>, l0: seq<nat>, h: nat, key: int, value: V, lo: Option<int>, hi: Option<int>)
    requires ArenaValid(n0, l0) && h < |n0| && n0[h].Leaf?
    requires Ordered(n0, l0, h, lo, hi) && Above(lo, key) && Below(key, hi)
    requires |n0[h].keys| == |n0[h].values|
    requires |InsertSorted(n0[h].keys, n0[h].values, key, value).0| <= 2 * D
    ensures var leaf := n0[h];
      var ins := InsertSorted(leaf.keys, leaf.values, key, value);
      var n1 := n0[h := Leaf(ins.0, ins.1, leaf.prev, leaf.next)];
      ArenaValid(n1, l0) && Inserted(n0, l0, n1, l0, h, h, key, value, lo, hi)
  {
    var leaf := n0[h];
    SortedLeafUpdated(n0, l0, h, key, value, lo, hi);
    var ins := InsertSorted(leaf.keys, leaf.values, key, value);
    var n1 := n0[h := Leaf(ins.0, ins.1, leaf.prev, leaf.next)];
    UpdateValid(n0, l0, h, Leaf(ins.0, ins.1, leaf.prev, leaf.next));
    assert n1[h] == Leaf(ins.0, ins.1, leaf.prev, leaf.next);
    forall k, v ensures HasEntry(n1, l0, h, k, v) <==> Updated(n0, l0, h, key, value, k, v) {
      assert LeafHolds(Leaf(ins.0, ins.1, None, None), k, v) <==> LeafHolds(n1[h], k, v);
    }
    assert Ordered(n1, l0, h, lo, hi);
  }

  /** An overflowing leaf that is not the root, split and reported, is a correct step. */
  lemma LeafSplitReportedCorrect<V(!new)>(n0: seq<Node<V>>, l0: seq<nat>, r0: Option<nat>, h: nat, key: int, value: V,
                                          lo: Option<int>, hi: Option<int>)
    requires ArenaValid(n0, l0) && h < |n0| && n0[h].Leaf? && (r0.Some? ==> r0.value < |n0|)
    requires Ordered(n0, l0, h, lo, hi) && Above(lo, key) && Below(key, hi)
    requires |n0[h].keys| == |n0[h].values|
    requires 2 * D < |InsertSorted(n0[h].keys, n0[h].values, key, value).0|
    requires r0 != Some(h)
    ensures StepCorrect(n0, l0, r0, LeafInsertion(n0, l0, r0, h, key, value), h, key, value, lo, hi)
  {
    var leaf := n0[h];
    var ins := InsertSorted(leaf.keys, leaf.values, key, value);
    var split := n0[h := Leaf(ins.0[..D], ins.1[..D], leaf.prev, Some(|n0|))]
                 + [Leaf(ins.0[D..], ins.1[D..], Some(h), leaf.next)];
    LeafSplitInserted(n0, l0, h, key, value, lo, hi);
    assert LeafInsertion(n0, l0, r0, h, key, value) == (split, l0 + [0], r0, Some(Entry(ins.0[D], |n0|)));
    forall x | 0 <= x < |n0| && x != h ensures split[x] == n0[x] { }
  }

  /** An overflowing leaf root, split and hung under a new root, is a correct step. */
  lemma LeafSplitGrownCorrect<V(!new)>(n0: seq<Node<V>>, l0: seq<nat>, r0: Option<nat>, h: nat, key: int, value: V,
                                       lo: Option<int>, hi: Option<int>)
    requires ArenaValid(n0, l0) && h < |n0| && n0[h].Leaf? && (r0.Some? ==> r0.value < |n0|)
    requires Ordered(n0, l0, h, lo, hi) && Above(lo, key) && Below(key, hi)
    requires |n0[h].keys| == |n0[h].values|
    requires 2 * D < |InsertSorted(n0[h].keys, n0[h].values, key, value).0|
    requires r0 == Some(h)
    ensures StepCorrect(n0, l0, r0, LeafInsertion(n0, l0, r0, h, key, value), h, key, value, lo, hi)
  {
    var leaf := n0[h];
    var ins := InsertSorted(leaf.keys, leaf.values, key, value);
    var split := n0[h := Leaf(ins.0[..D], ins.1[..D], leaf.prev, Some(|n0|))]
                 + [Leaf(ins.0[D..], ins.1[D..], Some(h), leaf.next)];
    var top := Index([ins.0[D]], [h, |n0|]);
    LeafSplitInserted(n0, l0, h, key, value, lo, hi);
    AppendValid(split, l0 + [0], top, 1);
    assert LeafInsertion(n0, l0, r0, h, key, value) == (split + [top], l0 + [0] + [1], Some(|n0| + 1), None);
    GrowRootOk(n0, l0, split, l0 + [0], h, ins.0[D], |n0|, key, value, lo, hi, 1);
    forall x | 0 <= x < |n0| && x != h ensures (split + [top])[x] == n0[x] { }
  }

  /** The insertion into a leaf is correct. */
  lemma LeafInsertionCorrect<V(!new)>(n0: seq<Node<V>>, l0: seq<nat>, r0: Option<nat>, h: nat, key: int, value: V,
                                lo: Option<int>, hi: Option<int>)
    requires ArenaValid(n0, l0) && h < |n0| && n0[h].Leaf? && (r0.Some? ==> r0.value < |n0|)
    requires Ordered(n0, l0, h, lo, hi) && Above(lo, key) && Below(key, hi)
    ensures StepCorrect(n0, l0, r0, LeafInsertion(n0, l0, r0, h, key, value), h, key, value, lo, hi)
  {
    var leaf := n0[h];
    assert NodeOk(n0, l0, leaf, l0[h]);
    var ins := InsertSorted(leaf.keys, leaf.values, key, value);
    if |ins.0| <= 2 * D {
      LeafKeptCorrect(n0, l0, h, key, value, lo, hi);
    } else if r0 == Some(h) {
      LeafSplitGrownCorrect(n0, l0, r0, h, key, value, lo, hi);
    } else {
      LeafSplitReportedCorrect(n0, l0, r0, h, key, value, lo, hi);
    }
  }

  /**
   * A step at child `c`, slot `i` of index node `h` on the insert descent
   * for `key`: only nodes below `c`, `h` itself and new nodes may differ.
   */
  ghost predicate AtChild<V>(n0: seq<Node<V>>, l0: seq<nat>, n1: seq<Node<V>>, l1: seq<nat>,
                             h: nat, i: nat, c: nat, key: int, lo: Option<int>, hi: Option<int>)
  {
    ArenaValid(n0, l0) && ArenaValid(n1, l1) && h < |n0| <= |n1| && l1[..|n0|] == l0 &&
    n0[h].Index? && Ordered(n0, l0, h, lo, hi) && Shaped(n0, l0, h) &&
    i == FirstAbove(n0[h].keys, key) && i < |n0[h].children| && c == n0[h].children[i] && c < |n0| &&
    forall x :: 0 <= x < |n0| && x != h && !InReach(n0, l0, c, x) ==> n1[x] == n0[x]
  }

  /** With `h` unchanged and `c`'s subtree ordered and shaped within its bounds, `h` is ordered and shaped. */
  lemma ChildOrdered<V(!new)>(n0: seq<Node<V>>, l0: seq<nat>, n1: seq<Node<V>>, l1: seq<nat>,
                              h: nat, i: nat, c: nat, key: int, value: V, lo: Option<int>, hi: Option<int>)
    requires AtChild(n0, l0, n1, l1, h, i, c, key, lo, hi) && n1[h] == n0[h]
    requires Inserted(n0, l0, n1, l1, c, c, key, value, LowerAt(n0[h].keys, lo, i), UpperAt(n0[h].keys, hi, i))
    ensures Ordered(n1, l1, h, lo, hi) && Shaped(n1, l1, h)
  {
    var keys, cs := n0[h].keys, n0[h].children;
    assert NodeOk(n0, l0, n0[h], l0[h]);
    assert l1[h] == l0[h] by { assert l1[..|n0|][h] == l1[h]; }
    assert NodeOk(n1, l1, n1[h], l1[h]);
    forall t | 0 <= t < |cs| ensures Ordered(n1, l1, cs[t], LowerAt(keys, lo, t), UpperAt(keys, hi, t)) && Shaped(n1, l1, cs[t]) {
      if t != i {
        SiblingSame(n0, l0, n1, l1, h, c, i, t);
      }
    }
    forall a, b, x | 0 <= a < |cs| && 0 <= b < |cs| && a != b && InReach(n1, l1, cs[a], x)
      ensures !InReach(n1, l1, cs[b], x)
    {
      if a == i {
        SiblingSame(n0, l0, n1, l1, h, c, i, b);
        if InReach(n0, l0, cs[b], x) {
          ReachBounds(n0, l0, cs[b], x);
        }
      } else if b == i {
        SiblingSame(n0, l0, n1, l1, h, c, i, a);
        ReachBounds(n0, l0, cs[a], x);
      } else {
        SiblingSame(n0, l0, n1, l1, h, c, i, a);
        SiblingSame(n0, l0, n1, l1, h, c, i, b);
      }
    }
  }

  /** With `h` unchanged and `c`'s subtree holding the updated entries, so does `h`'s. */
  lemma ChildEntries<V(!new)>(n0: seq<Node<V>>, l0: seq<nat>, n1: seq<Node<V>>, l1: seq<nat>,
                              h: nat, i: nat, c: nat, key: int, value: V, lo: Option<int>, hi: Option<int>)
    requires AtChild(n0, l0, n1, l1, h, i, c, key, lo, hi) && n1[h] == n0[h]
    requires Inserted(n0, l0, n1, l1, c, c, key, value, LowerAt(n0[h].keys, lo, i), UpperAt(n0[h].keys, hi, i))
    ensures forall k, v :: HasEntry(n1, l1, h, k, v) <==> Updated(n0, l0, h, key, value, k, v)
    ensures forall x :: InReach(n1, l1, h, x) ==> InReach(n0, l0, h, x) || |n0| <= x
  {
    var keys, cs := n0[h].keys, n0[h].children;
    assert NodeOk(n0, l0, n0[h], l0[h]);
    assert l1[h] == l0[h] by { assert l1[..|n0|][h] == l1[h]; }
    assert NodeOk(n1, l1, n1[h], l1[h]);
    forall k, v ensures HasEntry(n1, l1, h, k, v) <==> Updated(n0, l0, h, key, value, k, v) {
      if HasEntry(n1, l1, h, k, v) {
        var t :| 0 <= t < |cs| && HasEntry(n1, l1, cs[t], k, v);
        if t != i {
          SiblingSame(n0, l0, n1, l1, h, c, i, t);
          if k == key {
            EntryRoutes(n0, l0, h, lo, hi, t, k, v);
          }
        }
      }
      if Updated(n0, l0, h, key, value, k, v) {
        if k == key {
          assert HasEntry(n1, l1, cs[i], k, v);
        } else {
          var t :| 0 <= t < |cs| && HasEntry(n0, l0, cs[t], k, v);
          if t != i {
            SiblingSame(n0, l0, n1, l1, h, c, i, t);
          }
          assert HasEntry(n1, l1, cs[t], k, v);
        }
      }
    }
    forall x | InReach(n1, l1, h, x) ensures InReach(n0, l0, h, x) || |n0| <= x {
      if x != h {
        var t :| 0 <= t < |cs| && InReach(n1, l1, cs[t], x);
        if t != i {
          SiblingSame(n0, l0, n1, l1, h, c, i, t);
        }
        if InReach(n0, l0, cs[t], x) {
          ReachThroughChild(n0, l0, h, t, x);
        }
      }
    }
  }

  /**
   * A split step at child `c`, slot `i` of index node `h`: `h` is not yet
   * changed, and `c` and the new node `right` hold the updated entries of
   * `c`'s old subtree, split at `sep`.
   */
  ghost predicate AtSplitChild<V(!new)>(n0: seq<Node<V>>, l0: seq<nat>, n1: seq<Node<V>>, l1: seq<nat>,
                                        h: nat, i: nat, c: nat, key: int, value: V, lo: Option<int>, hi: Option<int>,
                                        sep: int, right: nat)
  {
    AtChild(n0, l0, n1, l1, h, i, c, key, lo, hi) && n1[h] == n0[h] &&
    |n0| <= right < |n1| && l1[right] + 1 == l1[h] &&
    SplitInserted(n0, l0, n1, l1, c, sep, right, key, value, LowerAt(n0[h].keys, lo, i), UpperAt(n0[h].keys, hi, i))
  }

  /**
   * Taking the split's entry in at `h`: the key goes in at slot `i` itself,
   * and the node keeps strictly ascending keys within its bounds.
   */
  lemma EntryBasics<V(!new)>(n0: seq<Node<V>>, l0: seq<nat>, n1: seq<Node<V>>, l1: seq<nat>,
                             h: nat, i: nat, c: nat, key: int, value: V, lo: Option<int>, hi: Option<int>,
                             sep: int, right: nat)
    requires AtSplitChild(n0, l0, n1, l1, h, i, c, key, value, lo, hi, sep, right)
    ensures |n0[h].children| == |n0[h].keys| + 1 && l1[h] == l0[h] && l0[c] + 1 == l0[h]
    ensures FirstAbove(n0[h].keys, sep) == i
    ensures var N := InsertEntryAt(n0[h], sep, right, i);
      ArenaValid(n1[h := N], l1) && AtChild(n0, l0, n1[h := N], l1, h, i, c, key, lo, hi) &&
      StrictlyAscending(N.keys) && forall j :: 0 <= j < |N.keys| ==> Above(lo, N.keys[j]) && Below(N.keys[j], hi)
  {
    var keys := n0[h].keys;
    assert NodeOk(n0, l0, n0[h], l0[h]);
    assert l1[h] == l0[h] by { assert l1[..|n0|][h] == l1[h]; }
    SepFits(keys, lo, hi, i, sep);
    InsertEntryAtAscending(n0[h], sep, right);
    var N := InsertEntryAt(n0[h], sep, right, i);
    assert N.keys == keys[..i] + [sep] + keys[i..];
    assert NodeOk(n1, l1, n1[h], l1[h]);
    InsertEntryAtOk(n1, l1, n1[h], sep, right, i, l1[h]);
    UpdateValid(n1, l1, h, N);
  }

  /** A child of `h` other than `c` keeps its ordering and shape. */
  lemma KeptChild<V(!new)>(n0: seq<Node<V>>, l0: seq<nat>, m: seq<Node<V>>, l1: seq<nat>,
                           h: nat, c: nat, i: nat, t: nat, lo: Option<int>, hi: Option<int>)
    requires ArenaValid(n0, l0) && ArenaValid(m, l1) && h < |n0| <= |m| && l1[..|n0|] == l0
    requires n0[h].Index? && Shaped(n0, l0, h) && i < |n0[h].children| && t < |n0[h].children| && t != i
    requires c == n0[h].children[i] && c < |n0| && n0[h].children[t] < |n0|
    requires forall x :: 0 <= x < |n0| && x != h && !InReach(n0, l0, c, x) ==> m[x] == n0[x]
    requires Ordered(n0, l0, n0[h].children[t], lo, hi)
    ensures Ordered(m, l1, n0[h].children[t], lo, hi) && Shaped(m, l1, n0[h].children[t])
  {
    assert NodeOk(n0, l0, n0[h], l0[h]);
    SiblingSame(n0, l0, m, l1, h, c, i, t);
  }

  /** A node below `h` keeps its ordering and shape when `h` alone is rewritten. */
  lemma RewrittenAbove<V(!new)>(n1: seq<Node<V>>, l1: seq<nat>, h: nat, n: Node<V>, g: nat, lo: Option<int>, hi: Option<int>)
    requires ArenaValid(n1, l1) && h < |n1| && g < |n1| && ArenaValid(n1[h := n], l1) && l1[g] < l1[h]
    requires Ordered(n1, l1, g, lo, hi) && Shaped(n1, l1, g)
    ensures Ordered(n1[h := n], l1, g, lo, hi) && Shaped(n1[h := n], l1, g)
  {
    LowerSame(n1, l1, n1[h := n], l1, g);
  }

  /** Where each key of `InsertEntryAt` comes from, through the bounds of child `p`. */
  lemma InsertEntryAtBounds<V>(n: Node<V>, sep: int, right: nat, j: nat, p: nat, lo: Option<int>, hi: Option<int>)
    requires n.Index? && j <= |n.keys| && |n.children| == |n.keys| + 1 && p <= |n.keys| + 1
    ensures var K := InsertEntryAt(n, sep, right, j).keys;
      if p < j + 1 then LowerAt(K, lo, p) == LowerAt(n.keys, lo, p)
      else if p == j + 1 then LowerAt(K, lo, p) == Some(sep)
      else LowerAt(K, lo, p) == LowerAt(n.keys, lo, p - 1)
    ensures var K := InsertEntryAt(n, sep, right, j).keys;
      if p < j then UpperAt(K, hi, p) == UpperAt(n.keys, hi, p)
      else if p == j then UpperAt(K, hi, p) == Some(sep)
      else UpperAt(K, hi, p) == UpperAt(n.keys, hi, p - 1)
  {
    var K := InsertEntryAt(n, sep, right, j).keys;
    if 0 < p < j + 1 {
      assert K[p - 1] == K[..j][p - 1];
    } else if p > j + 1 {
      assert K[p - 1] == K[j + 1..][p - j - 2];
    }
    if p < j {
      assert K[p] == K[..j][p];
    } else if j < p < |K| {
      assert K[p] == K[j + 1..][p - j - 1];
    }
  }

  /** After taking the split's entry in, a child of `h` other than the two halves is ordered within its bounds. */
  lemma EntrySiblingOrdered<V(!new)>(n0: seq<Node<V>>, l0: seq<nat>, n1: seq<Node<V>>, l1: seq<nat>,
                                     h: nat, i: nat, c: nat, lo: Option<int>, hi: Option<int>, sep: int, right: nat, p: nat)
    requires ArenaValid(n0, l0) && ArenaValid(n1, l1) && h < |n0| <= |n1| && l1[..|n0|] == l0
    requires n0[h].Index? && Ordered(n0, l0, h, lo, hi) && Shaped(n0, l0, h)
    requires |n0[h].children| == |n0[h].keys| + 1 && i < |n0[h].children| && c == n0[h].children[i] && c < |n0|
    requires forall x :: 0 <= x < |n0| && x != h && !InReach(n0, l0, c, x) ==> n1[x] == n0[x]
    requires |n0| <= right < |n1| && l1[c] < l1[h] && l1[right] < l1[h]
    requires ArenaValid(n1[h := InsertEntryAt(n0[h], sep, right, i)], l1)
    requires Ordered(n1, l1, c, LowerAt(n0[h].keys, lo, i), Some(sep)) && Shaped(n1, l1, c)
    requires Ordered(n1, l1, right, Some(sep), UpperAt(n0[h].keys, hi, i)) && Shaped(n1, l1, right)
    requires p <= |n0[h].keys| + 1 && p != i && p != i + 1
    ensures var N := InsertEntryAt(n0[h], sep, right, i);
      N.children[p] < |n1| && Ordered(n1[h := N], l1, N.children[p], LowerAt(N.keys, lo, p), UpperAt(N.keys, hi, p))
  {
    var N := InsertEntryAt(n0[h], sep, right, i);
    var o := if p < i then p else p - 1;
    InsertEntryAtChild(n0[h], sep, right, i, p);
    InsertEntryAtBounds(n0[h], sep, right, i, p, lo, hi);
    assert NodeOk(n0, l0, n0[h], l0[h]);
    KeptChild(n0, l0, n1[h := N], l1, h, c, i, o, LowerAt(N.keys, lo, p), UpperAt(N.keys, hi, p));
  }

  /** After taking the split's entry in, child `p` of `h` is ordered within its bounds. */
  lemma EntryChildOrdered<V(!new)>(n0: seq<Node<V>>, l0: seq<nat>, n1: seq<Node<V>>, l1: seq<nat>,
                                   h: nat, i: nat, c: nat, lo: Option<int>, hi: Option<int>, sep: int, right: nat, p: nat)
    requires ArenaValid(n0, l0) && ArenaValid(n1, l1) && h < |n0| <= |n1| && l1[..|n0|] == l0
    requires n0[h].Index? && Ordered(n0, l0, h, lo, hi) && Shaped(n0, l0, h)
    requires |n0[h].children| == |n0[h].keys| + 1 && i < |n0[h].children| && c == n0[h].children[i] && c < |n0|
    requires forall x :: 0 <= x < |n0| && x != h && !InReach(n0, l0, c, x) ==> n1[x] == n0[x]
    requires |n0| <= right < |n1| && l1[c] < l1[h] && l1[right] < l1[h]
    requires ArenaValid(n1[h := InsertEntryAt(n0[h], sep, right, i)], l1)
    requires Ordered(n1, l1, c, LowerAt(n0[h].keys, lo, i), Some(sep)) && Shaped(n1, l1, c)
    requires Ordered(n1, l1, right, Some(sep), UpperAt(n0[h].keys, hi, i)) && Shaped(n1, l1, right)
    requires p <= |n0[h].keys| + 1
    ensures var N := InsertEntryAt(n0[h], sep, right, i);
      N.children[p] < |n1| && Ordered(n1[h := N], l1, N.children[p], LowerAt(N.keys, lo, p), UpperAt(N.keys, hi, p))
  {
    var N := InsertEntryAt(n0[h], sep, right, i);
    if p == i {
      InsertEntryAtChild(n0[h], sep, right, i, p);
      InsertEntryAtBounds(n0[h], sep, right, i, p, lo, hi);
      RewrittenAbove(n1, l1, h, N, c, LowerAt(n0[h].keys, lo, i), Some(sep));
    } else if p == i + 1 {
      InsertEntryAtChild(n0[h], sep, right, i, p);
      InsertEntryAtBounds(n0[h], sep, right, i, p, lo, hi);
      RewrittenAbove(n1, l1, h, N, right, Some(sep), UpperAt(n0[h].keys, hi, i));
    } else {
      EntrySiblingOrdered(n0, l0, n1, l1, h, i, c, lo, hi, sep, right, p);
    }
  }

  /** After taking the split's entry in, the children of `h` are ordered within their bounds. */
  lemma EntryChildrenOrdered<V(!new)>(n0: seq<Node<V>>, l0: seq<nat>, n1: seq<Node<V>>, l1: seq<nat>,
                                      h: nat, i: nat, c: nat, lo: Option<int>, hi: Option<int>, sep: int, right: nat)
    requires ArenaValid(n0, l0) && ArenaValid(n1, l1) && h < |n0| <= |n1| && l1[..|n0|] == l0
    requires n0[h].Index? && Ordered(n0, l0, h, lo, hi) && Shaped(n0, l0, h)
    requires |n0[h].children| == |n0[h].keys| + 1 && i < |n0[h].children| && c == n0[h].children[i] && c < |n0|
    requires forall x :: 0 <= x < |n0| && x != h && !InReach(n0, l0, c, x) ==> n1[x] == n0[x]
    requires |n0| <= right < |n1| && l1[c] < l1[h] && l1[right] < l1[h]
    requires ArenaValid(n1[h := InsertEntryAt(n0[h], sep, right, i)], l1)
    requires Ordered(n1, l1, c, LowerAt(n0[h].keys, lo, i), Some(sep)) && Shaped(n1, l1, c)
    requires Ordered(n1, l1, right, Some(sep), UpperAt(n0[h].keys, hi, i)) && Shaped(n1, l1, right)
    ensures var N := InsertEntryAt(n0[h], sep, right, i);
      forall p :: 0 <= p < |N.children| ==>
        N.children[p] < |n1| && Ordered(n1[h := N], l1, N.children[p], LowerAt(N.keys, lo, p), UpperAt(N.keys, hi, p))
  {
    var N := InsertEntryAt(n0[h], sep, right, i);
    forall p | 0 <= p < |N.children|
      ensures N.children[p] < |n1| && Ordered(n1[h := N], l1, N.children[p], LowerAt(N.keys, lo, p), UpperAt(N.keys, hi, p))
    {
      EntryChildOrdered(n0, l0, n1, l1, h, i, c, lo, hi, sep, right, p);
    }
  }

  /** After taking the split's entry in, child `p` of `h` is shaped. */
  lemma EntryChildShaped<V(!new)>(n0: seq<Node<V>>, l0: seq<nat>, n1: seq<Node<V>>, l1: seq<nat>,
                                  h: nat, i: nat, c: nat, sep: int, right: nat, p: nat)
    requires ArenaValid(n0, l0) && ArenaValid(n1, l1) && h < |n0| <= |n1| && l1[..|n0|] == l0
    requires n0[h].Index? && Shaped(n0, l0, h)
    requires |n0[h].children| == |n0[h].keys| + 1 && i < |n0[h].children| && c == n0[h].children[i] && c < |n0|
    requires forall x :: 0 <= x < |n0| && x != h && !InReach(n0, l0, c, x) ==> n1[x] == n0[x]
    requires |n0| <= right < |n1| && l1[c] < l1[h] && l1[right] < l1[h]
    requires ArenaValid(n1[h := InsertEntryAt(n0[h], sep, right, i)], l1)
    requires Shaped(n1, l1, c) && Shaped(n1, l1, right)
    requires p <= |n0[h].keys| + 1
    ensures var N := InsertEntryAt(n0[h], sep, right, i);
      N.children[p] < |n1| && Shaped(n1[h := N], l1, N.children[p])
  {
    var N := InsertEntryAt(n0[h], sep, right, i);
    var m := n1[h := N];
    InsertEntryAtChild(n0[h], sep, right, i, p);
    if p == i || p == i + 1 {
      LowerSame(n1, l1, m, l1, N.children[p]);
    } else {
      assert NodeOk(n0, l0, n0[h], l0[h]);
      SiblingSame(n0, l0, m, l1, h, c, i, if p < i then p else p - 1);
    }
  }

  /** After taking the split's entry in, the children of `h` are shaped. */
  lemma EntryChildrenShaped<V(!new)>(n0: seq<Node<V>>, l0: seq<nat>, n1: seq<Node<V>>, l1: seq<nat>,
                                     h: nat, i: nat, c: nat, sep: int, right: nat)
    requires ArenaValid(n0, l0) && ArenaValid(n1, l1) && h < |n0| <= |n1| && l1[..|n0|] == l0
    requires n0[h].Index? && Shaped(n0, l0, h)
    requires |n0[h].children| == |n0[h].keys| + 1 && i < |n0[h].children| && c == n0[h].children[i] && c < |n0|
    requires forall x :: 0 <= x < |n0| && x != h && !InReach(n0, l0, c, x) ==> n1[x] == n0[x]
    requires |n0| <= right < |n1| && l1[c] < l1[h] && l1[right] < l1[h]
    requires ArenaValid(n1[h := InsertEntryAt(n0[h], sep, right, i)], l1)
    requires Shaped(n1, l1, c) && Shaped(n1, l1, right)
    ensures var N := InsertEntryAt(n0[h], sep, right, i);
      forall p :: 0 <= p < |N.children| ==> N.children[p] < |n1| && Shaped(n1[h := N], l1, N.children[p])
  {
    var N := InsertEntryAt(n0[h], sep, right, i);
    forall p | 0 <= p < |N.children|
      ensures N.children[p] < |n1| && Shaped(n1[h := N], l1, N.children[p])
    {
      EntryChildShaped(n0, l0, n1, l1, h, i, c, sep, right, p);
    }
  }

  /** What a child of `h` other than `c` reaches after the rewrite, it reached before, below `|n0|`. */
  lemma SiblingReach<V(!new)>(n0: seq<Node<V>>, l0: seq<nat>, n1: seq<Node<V>>, l1: seq<nat>, h: nat, c: nat, i: nat, t: nat)
    requires ArenaValid(n0, l0) && ArenaValid(n1, l1) && h < |n0| <= |n1| && l1[..|n0|] == l0
    requires n0[h].Index? && Shaped(n0, l0, h) && i < |n0[h].children| && t < |n0[h].children| && t != i
    requires c == n0[h].children[i] && c < |n0|
    requires forall x :: 0 <= x < |n0| && x != h && !InReach(n0, l0, c, x) ==> n1[x] == n0[x]
    ensures n0[h].children[t] < |n0|
    ensures forall x: nat :: InReach(n1, l1, n0[h].children[t], x) ==> InReach(n0, l0, n0[h].children[t], x) && x < |n0|
  {
    SiblingSame(n0, l0, n1, l1, h, c, i, t);
    forall x: nat | InReach(n1, l1, n0[h].children[t], x)
      ensures x < |n0|
    {
      ReachBounds(n0, l0, n0[h].children[t], x);
    }
  }

  /** A node below `h` reaches the same nodes when `h` alone is rewritten. */
  lemma RewrittenReach<V(!new)>(n1: seq<Node<V>>, l1: seq<nat>, h: nat, n: Node<V>, g: nat)
    requires ArenaValid(n1, l1) && h < |n1| && g < |n1| && ArenaValid(n1[h := n], l1) && l1[g] < l1[h]
    ensures forall x :: InReach(n1[h := n], l1, g, x) ==> InReach(n1, l1, g, x)
  {
    LowerSame(n1, l1, n1[h := n], l1, g);
  }

  /** After taking the split's entry in, children `a` and `b` of `h` share no node. */
  lemma EntryPairDisjoint<V(!new)>(n0: seq<Node<V>>, l0: seq<nat>, n1: seq<Node<V>>, l1: seq<nat>,
                                   h: nat, i: nat, c: nat, sep: int, right: nat, a: nat, b: nat)
    requires ArenaValid(n0, l0) && ArenaValid(n1, l1) && h < |n0| <= |n1| && l1[..|n0|] == l0
    requires n0[h].Index? && Shaped(n0, l0, h)
    requires |n0[h].children| == |n0[h].keys| + 1 && i < |n0[h].children| && c == n0[h].children[i] && c < |n0|
    requires forall x :: 0 <= x < |n0| && x != h && !InReach(n0, l0, c, x) ==> n1[x] == n0[x]
    requires |n0| <= right < |n1| && l1[c] < l1[h] && l1[right] < l1[h]
    requires ArenaValid(n1[h := InsertEntryAt(n0[h], sep, right, i)], l1)
    requires forall x :: InReach(n1, l1, c, x) ==> !InReach(n1, l1, right, x)
    requires forall x :: InReach(n1, l1, c, x) || InReach(n1, l1, right, x) ==> InReach(n0, l0, c, x) || |n0| <= x
    requires a <= |n0[h].keys| + 1 && b <= |n0[h].keys| + 1 && a != b
    ensures var N := InsertEntryAt(n0[h], sep, right, i); var m := n1[h := N];
      N.children[a] < |n1| && N.children[b] < |n1| &&
      forall x :: InReach(m, l1, N.children[a], x) ==> !InReach(m, l1, N.children[b], x)
  {
    var cs := n0[h].children;
    var N := InsertEntryAt(n0[h], sep, right, i);
    var m := n1[h := N];
    var C := N.children;
    assert NodeOk(n0, l0, n0[h], l0[h]);
    assert C[i] == c && C[i + 1] == right;
    var oa := if a <= i then a else a - 1;
    var ob := if b <= i then b else b - 1;
    if (a == i || a == i + 1) && (b == i || b == i + 1) {
      RewrittenReach(n1, l1, h, N, c);
      RewrittenReach(n1, l1, h, N, right);
      forall x | InReach(m, l1, C[a], x)
        ensures !InReach(m, l1, C[b], x)
      {
        if a == i {
          assert C[a] == c && C[b] == right;
          assert InReach(n1, l1, c, x);
        } else {
          assert C[a] == right && C[b] == c;
          assert InReach(n1, l1, right, x);
        }
      }
    } else if a == i || a == i + 1 {
      InsertEntryAtChild(n0[h], sep, right, i, b);
      RewrittenReach(n1, l1, h, N, C[a]);
      SiblingReach(n0, l0, m, l1, h, c, i, ob);
    } else if b == i || b == i + 1 {
      InsertEntryAtChild(n0[h], sep, right, i, a);
      RewrittenReach(n1, l1, h, N, C[b]);
      SiblingReach(n0, l0, m, l1, h, c, i, oa);
    } else {
      InsertEntryAtChild(n0[h], sep, right, i, a); InsertEntryAtChild(n0[h], sep, right, i, b);
      SiblingReach(n0, l0, m, l1, h, c, i, oa);
      SiblingReach(n0, l0, m, l1, h, c, i, ob);
    }
  }

  /** After taking the split's entry in, no two children of `h` share a node. */
  lemma EntryDisjoint<V(!new)>(n0: seq<Node<V>>, l0: seq<nat>, n1: seq<Node<V>>, l1: seq<nat>,
                               h: nat, i: nat, c: nat, sep: int, right: nat)
    requires ArenaValid(n0, l0) && ArenaValid(n1, l1) && h < |n0| <= |n1| && l1[..|n0|] == l0
    requires n0[h].Index? && Shaped(n0, l0, h)
    requires |n0[h].children| == |n0[h].keys| + 1 && i < |n0[h].children| && c == n0[h].children[i] && c < |n0|
    requires forall x :: 0 <= x < |n0| && x != h && !InReach(n0, l0, c, x) ==> n1[x] == n0[x]
    requires |n0| <= right < |n1| && l1[c] < l1[h] && l1[right] < l1[h]
    requires ArenaValid(n1[h := InsertEntryAt(n0[h], sep, right, i)], l1)
    requires forall x :: InReach(n1, l1, c, x) ==> !InReach(n1, l1, right, x)
    requires forall x :: InReach(n1, l1, c, x) || InReach(n1, l1, right, x) ==> InReach(n0, l0, c, x) || |n0| <= x
    ensures var N := InsertEntryAt(n0[h], sep, right, i);
      (forall p :: 0 <= p < |N.children| ==> N.children[p] < |n1|) &&
      Disjoint(n1[h := N], l1, N.children)
  {
    var N := InsertEntryAt(n0[h], sep, right, i);
    var m := n1[h := N];
    assert NodeOk(m, l1, N, l1[h]);
    forall a, b | 0 <= a < |N.children| && 0 <= b < |N.children| && a != b
      ensures forall x :: InReach(m, l1, N.children[a], x) ==> !InReach(m, l1, N.children[b], x)
    {
      EntryPairDisjoint(n0, l0, n1, l1, h, i, c, sep, right, a, b);
    }
  }

  /** After taking the split's entry in, `h` is ordered and shaped. */
  lemma EntryOrdered<V(!new)>(n0: seq<Node<V>>, l0: seq<nat>, n1: seq<Node<V>>, l1: seq<nat>,
                              h: nat, i: nat, c: nat, key: int, value: V, lo: Option<int>, hi: Option<int>,
                              sep: int, right: nat)
    requires AtSplitChild(n0, l0, n1, l1, h, i, c, key, value, lo, hi, sep, right)
    requires ArenaValid(n1[h := InsertEntryAt(n0[h], sep, right, i)], l1)
    ensures var m := n1[h := InsertEntryAt(n0[h], sep, right, i)];
      Ordered(m, l1, h, lo, hi) && Shaped(m, l1, h)
  {
    EntryBasics(n0, l0, n1, l1, h, i, c, key, value, lo, hi, sep, right);
    assert l1[c] == l0[c] by { assert l1[..|n0|][c] == l1[c]; }
    EntryChildrenOrdered(n0, l0, n1, l1, h, i, c, lo, hi, sep, right);
    EntryChildrenShaped(n0, l0, n1, l1, h, i, c, sep, right);
    EntryDisjoint(n0, l0, n1, l1, h, i, c, sep, right);
    var m := n1[h := InsertEntryAt(n0[h], sep, right, i)];
    assert NodeOk(m, l1, m[h], l1[h]);
  }

  /** A child of `h` other than `c` holds the same entries after the rewrite. */
  lemma SiblingEntry<V(!new)>(n0: seq<Node<V>>, l0: seq<nat>, n1: seq<Node<V>>, l1: seq<nat>,
                              h: nat, c: nat, i: nat, t: nat, k: int, v: V)
    requires ArenaValid(n0, l0) && ArenaValid(n1, l1) && h < |n0| <= |n1| && l1[..|n0|] == l0
    requires n0[h].Index? && Shaped(n0, l0, h) && i < |n0[h].children| && t < |n0[h].children| && t != i
    requires c == n0[h].children[i] && c < |n0|
    requires forall x :: 0 <= x < |n0| && x != h && !InReach(n0, l0, c, x) ==> n1[x] == n0[x]
    ensures n0[h].children[t] < |n0|
    ensures HasEntry(n1, l1, n0[h].children[t], k, v) <==> HasEntry(n0, l0, n0[h].children[t], k, v)
  {
    SiblingSame(n0, l0, n1, l1, h, c, i, t);
  }

  /** A node below `h` holds the same entries when `h` alone is rewritten. */
  lemma RewrittenEntry<V(!new)>(n1: seq<Node<V>>, l1: seq<nat>, h: nat, n: Node<V>, g: nat, k: int, v: V)
    requires ArenaValid(n1, l1) && h < |n1| && g < |n1| && ArenaValid(n1[h := n], l1) && l1[g] < l1[h]
    ensures HasEntry(n1[h := n], l1, g, k, v) <==> HasEntry(n1, l1, g, k, v)
  {
    LowerSame(n1, l1, n1[h := n], l1, g);
  }

  /** An entry found under one of the two halves of the split was in `c` before, or is the new one. */
  lemma FoundInSplit<V(!new)>(n0: seq<Node<V>>, l0: seq<nat>, n1: seq<Node<V>>, l1: seq<nat>,
                              h: nat, i: nat, c: nat, key: int, value: V, sep: int, right: nat, p: nat, k: int, v: V)
    requires ArenaValid(n0, l0) && ArenaValid(n1, l1) && h < |n0| <= |n1| && l1[..|n0|] == l0
    requires n0[h].Index? && Shaped(n0, l0, h)
    requires |n0[h].children| == |n0[h].keys| + 1 && i < |n0[h].children| && c == n0[h].children[i] && c < |n0|
    requires forall x :: 0 <= x < |n0| && x != h && !InReach(n0, l0, c, x) ==> n1[x] == n0[x]
    requires |n0| <= right < |n1| && l1[c] < l1[h] && l1[right] < l1[h]
    requires ArenaValid(n1[h := InsertEntryAt(n0[h], sep, right, i)], l1)
    requires p == i || p == i + 1
    requires HasEntry(n1, l1, c, k, v) || HasEntry(n1, l1, right, k, v) ==> Updated(n0, l0, c, key, value, k, v)
    requires var N := InsertEntryAt(n0[h], sep, right, i); HasEntry(n1[h := N], l1, N.children[p], k, v)
    ensures Updated(n0, l0, h, key, value, k, v)
  {
    var N := InsertEntryAt(n0[h], sep, right, i);
    InsertEntryAtChild(n0[h], sep, right, i, p);
    RewrittenEntry(n1, l1, h, N, N.children[p], k, v);
    if k != key {
      HasEntryThroughChild(n0, l0, h, i, k, v);
    }
  }

  /** An entry found under a sibling of `c` was there before, and so is not the inserted key. */
  lemma FoundInSibling<V(!new)>(n0: seq<Node<V>>, l0: seq<nat>, n1: seq<Node<V>>, l1: seq<nat>,
                                h: nat, i: nat, c: nat, key: int, value: V, lo: Option<int>, hi: Option<int>,
                                sep: int, right: nat, p: nat, k: int, v: V)
    requires ArenaValid(n0, l0) && ArenaValid(n1, l1) && h < |n0| <= |n1| && l1[..|n0|] == l0
    requires n0[h].Index? && Shaped(n0, l0, h)
    requires |n0[h].children| == |n0[h].keys| + 1 && i < |n0[h].children| && c == n0[h].children[i] && c < |n0|
    requires forall x :: 0 <= x < |n0| && x != h && !InReach(n0, l0, c, x) ==> n1[x] == n0[x]
    requires |n0| <= right < |n1| && l1[c] < l1[h] && l1[right] < l1[h]
    requires ArenaValid(n1[h := InsertEntryAt(n0[h], sep, right, i)], l1)
    requires Ordered(n0, l0, h, lo, hi) && i == FirstAbove(n0[h].keys, key)
    requires p <= |n0[h].keys| + 1 && p != i && p != i + 1
    requires var N := InsertEntryAt(n0[h], sep, right, i); HasEntry(n1[h := N], l1, N.children[p], k, v)
    ensures Updated(n0, l0, h, key, value, k, v)
  {
    var N := InsertEntryAt(n0[h], sep, right, i);
    var o := if p < i then p else p - 1;
    InsertEntryAtChild(n0[h], sep, right, i, p);
    SiblingEntry(n0, l0, n1[h := N], l1, h, c, i, o, k, v);
    if k == key {
      EntryRoutes(n0, l0, h, lo, hi, o, k, v);
    } else {
      HasEntryThroughChild(n0, l0, h, o, k, v);
    }
  }

  /** After taking the split's entry in, an entry `h`'s subtree holds is one the update calls for. */
  lemma EntryKeyFound<V(!new)>(n0: seq<Node<V>>, l0: seq<nat>, n1: seq<Node<V>>, l1: seq<nat>,
                               h: nat, i: nat, c: nat, key: int, value: V, lo: Option<int>, hi: Option<int>,
                               sep: int, right: nat, k: int, v: V)
    requires ArenaValid(n0, l0) && ArenaValid(n1, l1) && h < |n0| <= |n1| && l1[..|n0|] == l0
    requires n0[h].Index? && Shaped(n0, l0, h)
    requires |n0[h].children| == |n0[h].keys| + 1 && i < |n0[h].children| && c == n0[h].children[i] && c < |n0|
    requires forall x :: 0 <= x < |n0| && x != h && !InReach(n0, l0, c, x) ==> n1[x] == n0[x]
    requires |n0| <= right < |n1| && l1[c] < l1[h] && l1[right] < l1[h]
    requires ArenaValid(n1[h := InsertEntryAt(n0[h], sep, right, i)], l1)
    requires Ordered(n0, l0, h, lo, hi) && i == FirstAbove(n0[h].keys, key)
    requires HasEntry(n1, l1, c, k, v) || HasEntry(n1, l1, right, k, v) ==> Updated(n0, l0, c, key, value, k, v)
    ensures var m := n1[h := InsertEntryAt(n0[h], sep, right, i)];
      HasEntry(m, l1, h, k, v) ==> Updated(n0, l0, h, key, value, k, v)
  {
    var N := InsertEntryAt(n0[h], sep, right, i);
    var m := n1[h := N];
    if HasEntry(m, l1, h, k, v) {
      assert NodeOk(m, l1, m[h], l1[h]);
      var p :| 0 <= p < |N.children| && HasEntry(m, l1, N.children[p], k, v);
      if p == i || p == i + 1 {
        FoundInSplit(n0, l0, n1, l1, h, i, c, key, value, sep, right, p, k, v);
      } else {
        FoundInSibling(n0, l0, n1, l1, h, i, c, key, value, lo, hi, sep, right, p, k, v);
      }
    }
  }

  /** An entry the update puts in `c`'s subtree is under one of the two halves of the split. */
  lemma StoredInSplit<V(!new)>(n0: seq<Node<V>>, l0: seq<nat>, n1: seq<Node<V>>, l1: seq<nat>,
                               h: nat, i: nat, c: nat, key: int, value: V, sep: int, right: nat, k: int, v: V)
    requires ArenaValid(n0, l0) && ArenaValid(n1, l1) && h < |n0| <= |n1| && l1[..|n0|] == l0
    requires n0[h].Index? && Shaped(n0, l0, h)
    requires |n0[h].children| == |n0[h].keys| + 1 && i < |n0[h].children| && c == n0[h].children[i] && c < |n0|
    requires forall x :: 0 <= x < |n0| && x != h && !InReach(n0, l0, c, x) ==> n1[x] == n0[x]
    requires |n0| <= right < |n1| && l1[c] < l1[h] && l1[right] < l1[h]
    requires ArenaValid(n1[h := InsertEntryAt(n0[h], sep, right, i)], l1)
    requires Updated(n0, l0, c, key, value, k, v) && (HasEntry(n1, l1, c, k, v) || HasEntry(n1, l1, right, k, v))
    ensures HasEntry(n1[h := InsertEntryAt(n0[h], sep, right, i)], l1, h, k, v)
  {
    var N := InsertEntryAt(n0[h], sep, right, i);
    InsertEntryAtChild(n0[h], sep, right, i, i);
    InsertEntryAtChild(n0[h], sep, right, i, i + 1);
    if HasEntry(n1, l1, c, k, v) {
      RewrittenEntry(n1, l1, h, N, c, k, v);
      HasEntryThroughChild(n1[h := N], l1, h, i, k, v);
    } else {
      RewrittenEntry(n1, l1, h, N, right, k, v);
      HasEntryThroughChild(n1[h := N], l1, h, i + 1, k, v);
    }
  }

  /** An entry a sibling of `c` held is still under that sibling. */
  lemma StoredInSibling<V(!new)>(n0: seq<Node<V>>, l0: seq<nat>, n1: seq<Node<V>>, l1: seq<nat>,
                                 h: nat, i: nat, c: nat, sep: int, right: nat, t: nat, k: int, v: V)
    requires ArenaValid(n0, l0) && ArenaValid(n1, l1) && h < |n0| <= |n1| && l1[..|n0|] == l0
    requires n0[h].Index? && Shaped(n0, l0, h)
    requires |n0[h].children| == |n0[h].keys| + 1 && i < |n0[h].children| && c == n0[h].children[i] && c < |n0|
    requires forall x :: 0 <= x < |n0| && x != h && !InReach(n0, l0, c, x) ==> n1[x] == n0[x]
    requires |n0| <= right < |n1| && l1[c] < l1[h] && l1[right] < l1[h]
    requires ArenaValid(n1[h := InsertEntryAt(n0[h], sep, right, i)], l1)
    requires t < |n0[h].children| && t != i && n0[h].children[t] < |n0| && HasEntry(n0, l0, n0[h].children[t], k, v)
    ensures HasEntry(n1[h := InsertEntryAt(n0[h], sep, right, i)], l1, h, k, v)
  {
    var N := InsertEntryAt(n0[h], sep, right, i);
    var p := if t < i then t else t + 1;
    SiblingEntry(n0, l0, n1[h := N], l1, h, c, i, t, k, v);
    InsertEntryAtChild(n0[h], sep, right, i, p);
    HasEntryThroughChild(n1[h := N], l1, h, p, k, v);
  }

  /** After taking the split's entry in, `h`'s subtree holds every entry the update calls for. */
  lemma EntryKeyStored<V(!new)>(n0: seq<Node<V>>, l0: seq<nat>, n1: seq<Node<V>>, l1: seq<nat>,
                                h: nat, i: nat, c: nat, key: int, value: V, sep: int, right: nat, k: int, v: V)
    requires ArenaValid(n0, l0) && ArenaValid(n1, l1) && h < |n0| <= |n1| && l1[..|n0|] == l0
    requires n0[h].Index? && Shaped(n0, l0, h)
    requires |n0[h].children| == |n0[h].keys| + 1 && i < |n0[h].children| && c == n0[h].children[i] && c < |n0|
    requires forall x :: 0 <= x < |n0| && x != h && !InReach(n0, l0, c, x) ==> n1[x] == n0[x]
    requires |n0| <= right < |n1| && l1[c] < l1[h] && l1[right] < l1[h]
    requires ArenaValid(n1[h := InsertEntryAt(n0[h], sep, right, i)], l1)
    requires Updated(n0, l0, c, key, value, k, v) ==> HasEntry(n1, l1, c, k, v) || HasEntry(n1, l1, right, k, v)
    ensures var m := n1[h := InsertEntryAt(n0[h], sep, right, i)];
      Updated(n0, l0, h, key, value, k, v) ==> HasEntry(m, l1, h, k, v)
  {
    if Updated(n0, l0, h, key, value, k, v) {
      if k == key || HasEntry(n0, l0, c, k, v) {
        StoredInSplit(n0, l0, n1, l1, h, i, c, key, value, sep, right, k, v);
      } else {
        assert NodeOk(n0, l0, n0[h], l0[h]);
        var t :| 0 <= t < |n0[h].children| && HasEntry(n0, l0, n0[h].children[t], k, v);
        StoredInSibling(n0, l0, n1, l1, h, i, c, sep, right, t, k, v);
      }
    }
  }

  /** After taking the split's entry in, a node `h` reaches was reached before or is new. */
  lemma EntryReachKept<V(!new)>(n0: seq<Node<V>>, l0: seq<nat>, n1: seq<Node<V>>, l1: seq<nat>,
                                h: nat, i: nat, c: nat, sep: int, right: nat, x: nat)
    requires ArenaValid(n0, l0) && ArenaValid(n1, l1) && h < |n0| <= |n1| && l1[..|n0|] == l0
    requires n0[h].Index? && Shaped(n0, l0, h)
    requires |n0[h].children| == |n0[h].keys| + 1 && i < |n0[h].children| && c == n0[h].children[i] && c < |n0|
    requires forall x :: 0 <= x < |n0| && x != h && !InReach(n0, l0, c, x) ==> n1[x] == n0[x]
    requires |n0| <= right < |n1| && l1[c] < l1[h] && l1[right] < l1[h]
    requires ArenaValid(n1[h := InsertEntryAt(n0[h], sep, right, i)], l1)
    requires InReach(n1, l1, c, x) || InReach(n1, l1, right, x) ==> InReach(n0, l0, c, x) || |n0| <= x
    ensures var m := n1[h := InsertEntryAt(n0[h], sep, right, i)];
      InReach(m, l1, h, x) ==> InReach(n0, l0, h, x) || |n0| <= x
  {
    var cs := n0[h].children;
    var N := InsertEntryAt(n0[h], sep, right, i);
    var m := n1[h := N];
    var C := N.children;
    assert NodeOk(n0, l0, n0[h], l0[h]);
    assert NodeOk(m, l1, m[h], l1[h]);
    assert C[i] == c && C[i + 1] == right;
    if InReach(m, l1, h, x) && x != h {
      var p :| 0 <= p < |C| && InReach(m, l1, C[p], x);
      var o := if p <= i then p else p - 1;
      if p == i || p == i + 1 {
        RewrittenReach(n1, l1, h, N, C[p]);
        if InReach(n0, l0, c, x) {
          ReachThroughChild(n0, l0, h, i, x);
        }
      } else {
        InsertEntryAtChild(n0[h], sep, right, i, p);
        SiblingReach(n0, l0, m, l1, h, c, i, o);
        ReachThroughChild(n0, l0, h, o, x);
      }
    }
  }

  /** After taking the split's entry in, `h`'s subtree holds the updated entries and old or new nodes only. */
  lemma EntryEntries<V(!new)>(n0: seq<Node<V>>, l0: seq<nat>, n1: seq<Node<V>>, l1: seq<nat>,
                              h: nat, i: nat, c: nat, key: int, value: V, lo: Option<int>, hi: Option<int>,
                              sep: int, right: nat)
    requires AtSplitChild(n0, l0, n1, l1, h, i, c, key, value, lo, hi, sep, right)
    requires ArenaValid(n1[h := InsertEntryAt(n0[h], sep, right, i)], l1)
    ensures var m := n1[h := InsertEntryAt(n0[h], sep, right, i)];
      (forall k, v :: HasEntry(m, l1, h, k, v) <==> Updated(n0, l0, h, key, value, k, v)) &&
      (forall x :: InReach(m, l1, h, x) ==> InReach(n0, l0, h, x) || |n0| <= x)
  {
    EntryBasics(n0, l0, n1, l1, h, i, c, key, value, lo, hi, sep, right);
    assert l1[c] == l0[c] by { assert l1[..|n0|][c] == l1[c]; }
    var m := n1[h := InsertEntryAt(n0[h], sep, right, i)];
    forall k, v ensures HasEntry(m, l1, h, k, v) <==> Updated(n0, l0, h, key, value, k, v) {
      EntryKeyFound(n0, l0, n1, l1, h, i, c, key, value, lo, hi, sep, right, k, v);
      EntryKeyStored(n0, l0, n1, l1, h, i, c, key, value, sep, right, k, v);
    }
    forall x: nat ensures InReach(m, l1, h, x) ==> InReach(n0, l0, h, x) || |n0| <= x {
      EntryReachKept(n0, l0, n1, l1, h, i, c, sep, right, x);
    }
  }

  /** Taking the split's entry in at `h` leaves `h`'s subtree holding the updated entries in order. */
  lemma EntryInserted<V(!new)>(n0: seq<Node<V>>, l0: seq<nat>, n1: seq<Node<V>>, l1: seq<nat>,
                               h: nat, i: nat, c: nat, key: int, value: V, lo: Option<int>, hi: Option<int>,
                               sep: int, right: nat)
    requires AtSplitChild(n0, l0, n1, l1, h, i, c, key, value, lo, hi, sep, right)
    ensures FirstAbove(n0[h].keys, sep) == i && |n0[h].children| == |n0[h].keys| + 1
    ensures var m := n1[h := InsertEntryAt(n0[h], sep, right, i)];
      ArenaValid(m, l1) && (forall x :: 0 <= x < |n0| && x != h && !InReach(n0, l0, c, x) ==> m[x] == n0[x]) &&
      Inserted(n0, l0, m, l1, h, h, key, value, lo, hi)
  {
    EntryBasics(n0, l0, n1, l1, h, i, c, key, value, lo, hi, sep, right);
    EntryOrdered(n0, l0, n1, l1, h, i, c, key, value, lo, hi, sep, right);
    EntryEntries(n0, l0, n1, l1, h, i, c, key, value, lo, hi, sep, right);
  }

  /** A node below `h` keeps everything said of its subtree when `h` is split. */
  lemma SplitKeepsBelow<V(!new)>(m: seq<Node<V>>, l1: seq<nat>, h: nat, g: nat)
    requires ArenaValid(m, l1) && h < |m| && m[h].Index? && D < |m[h].keys|
    requires g < |m| && l1[g] < l1[h]
    ensures Same(m, l1, IndexSplit(m, l1, h), l1 + [l1[h]], g)
  {
    var S, l2 := IndexSplit(m, l1, h), l1 + [l1[h]];
    forall x | 0 <= x < |m| && l1[x] <= l1[g]
      ensures x < |S| && x < |l2| && S[x] == m[x] && l2[x] == l1[x]
    {
      assert x != h;
    }
    LowerSame(m, l1, S, l2, g);
  }

  /** A node below `h` reaches the same nodes when `h` is split. */
  lemma SplitKeepsReach<V(!new)>(m: seq<Node<V>>, l1: seq<nat>, h: nat, g: nat, x: nat)
    requires ArenaValid(m, l1) && h < |m| && m[h].Index? && D < |m[h].keys|
    requires g < |m| && l1[g] < l1[h]
    ensures g < |IndexSplit(m, l1, h)|
    ensures InReach(IndexSplit(m, l1, h), l1 + [l1[h]], g, x) <==> InReach(m, l1, g, x)
  {
    SplitKeepsBelow(m, l1, h, g);
  }

  /** A node below `h` holds the same entries when `h` is split. */
  lemma SplitKeepsEntry<V(!new)>(m: seq<Node<V>>, l1: seq<nat>, h: nat, g: nat, k: int, v: V)
    requires ArenaValid(m, l1) && h < |m| && m[h].Index? && D < |m[h].keys|
    requires g < |m| && l1[g] < l1[h]
    ensures g < |IndexSplit(m, l1, h)|
    ensures HasEntry(IndexSplit(m, l1, h), l1 + [l1[h]], g, k, v) <==> HasEntry(m, l1, g, k, v)
  {
    SplitKeepsBelow(m, l1, h, g);
  }

  /** The keys of the two halves of a split, ascending keys within `lo..hi`, lie on either side of the middle key. */
  lemma SplitKeys(K: seq<int>, lo: Option<int>, hi: Option<int>)
    requires StrictlyAscending(K) && D < |K|
    requires forall j :: 0 <= j < |K| ==> Above(lo, K[j]) && Below(K[j], hi)
    ensures StrictlyAscending(K[..D]) && StrictlyAscending(K[D + 1..])
    ensures forall j :: 0 <= j < D ==> Above(lo, K[..D][j]) && Below(K[..D][j], Some(K[D]))
    ensures var R := K[D + 1..]; forall j :: 0 <= j < |R| ==> Above(Some(K[D]), R[j]) && Below(R[j], hi)
    ensures StrictlyAbove(lo, K[D]) && Below(K[D], hi)
  {
    assert Above(lo, K[0]) && K[0] < K[D];
    var R := K[D + 1..];
    forall a, b | 0 <= a < b < |R| ensures R[a] < R[b] {
      assert R[a] == K[D + 1 + a] && R[b] == K[D + 1 + b];
    }
    forall j | 0 <= j < |R| ensures Above(Some(K[D]), R[j]) && Below(R[j], hi) {
      assert R[j] == K[D + 1 + j];
    }
  }

  /** Child `t` of the left half of a split index node is child `t` of the node, with the same bounds. */
  lemma SplitLeftChild<V(!new)>(m: seq<Node<V>>, l1: seq<nat>, h: nat, lo: Option<int>, hi: Option<int>, t: nat)
    requires ArenaValid(m, l1) && h < |m| && m[h].Index? && D < |m[h].keys|
    requires Ordered(m, l1, h, lo, hi) && Shaped(m, l1, h) && t <= D
    ensures var S, K := IndexSplit(m, l1, h), m[h].keys;
      S[h].Index? && t < |S[h].children| && S[h].children[t] < |S| &&
      Ordered(S, l1 + [l1[h]], S[h].children[t], LowerAt(K[..D], lo, t), UpperAt(K[..D], Some(K[D]), t)) &&
      Shaped(S, l1 + [l1[h]], S[h].children[t])
  {
    var S, K, C := IndexSplit(m, l1, h), m[h].keys, m[h].children;
    assert NodeOk(m, l1, m[h], l1[h]);
    assert S[h].children == C[..D + 1];
    assert S[h].children[t] == C[t];
    SplitKeepsBelow(m, l1, h, C[t]);
    assert LowerAt(K[..D], lo, t) == LowerAt(K, lo, t);
    assert UpperAt(K[..D], Some(K[D]), t) == UpperAt(K, hi, t);
  }

  /** Child `u` of the right half of a split index node is child `D + 1 + u` of the node, with the same bounds. */
  lemma SplitRightChild<V(!new)>(m: seq<Node<V>>, l1: seq<nat>, h: nat, lo: Option<int>, hi: Option<int>, u: nat)
    requires ArenaValid(m, l1) && h < |m| && m[h].Index? && D < |m[h].keys|
    requires Ordered(m, l1, h, lo, hi) && Shaped(m, l1, h) && u < |m[h].keys| - D
    ensures var S, K := IndexSplit(m, l1, h), m[h].keys;
      S[|m|].Index? && u < |S[|m|].children| && S[|m|].children[u] < |S| &&
      Ordered(S, l1 + [l1[h]], S[|m|].children[u], LowerAt(K[D + 1..], Some(K[D]), u), UpperAt(K[D + 1..], hi, u)) &&
      Shaped(S, l1 + [l1[h]], S[|m|].children[u])
  {
    var S, K, C := IndexSplit(m, l1, h), m[h].keys, m[h].children;
    assert NodeOk(m, l1, m[h], l1[h]);
    assert S[|m|].children == C[D + 1..];
    assert S[|m|].children[u] == C[D + 1 + u];
    SplitKeepsBelow(m, l1, h, C[D + 1 + u]);
    assert LowerAt(K[D + 1..], Some(K[D]), u) == LowerAt(K, lo, D + 1 + u);
    assert UpperAt(K[D + 1..], hi, u) == UpperAt(K, hi, D + 1 + u);
  }

  /** Two different children of a shaped index node still share no node after it is split. */
  lemma SplitChildrenApart<V(!new)>(m: seq<Node<V>>, l1: seq<nat>, h: nat, a: nat, b: nat)
    requires ArenaValid(m, l1) && h < |m| && m[h].Index? && D < |m[h].keys|
    requires Shaped(m, l1, h) && a < |m[h].children| && b < |m[h].children| && a != b
    ensures m[h].children[a] < |m| && m[h].children[b] < |m|
    ensures forall x :: InReach(IndexSplit(m, l1, h), l1 + [l1[h]], m[h].children[a], x) ==>
      !InReach(IndexSplit(m, l1, h), l1 + [l1[h]], m[h].children[b], x)
  {
    var C := m[h].children;
    assert NodeOk(m, l1, m[h], l1[h]);
    SplitKeepsBelow(m, l1, h, C[a]);
    SplitKeepsBelow(m, l1, h, C[b]);
  }

  /** The left half of a split index node is ordered below the middle key. */
  lemma SplitLeftOrdered<V(!new)>(m: seq<Node<V>>, l1: seq<nat>, h: nat, lo: Option<int>, hi: Option<int>)
    requires ArenaValid(m, l1) && h < |m| && m[h].Index? && D < |m[h].keys|
    requires Ordered(m, l1, h, lo, hi) && Shaped(m, l1, h)
    ensures Ordered(IndexSplit(m, l1, h), l1 + [l1[h]], h, lo, Some(m[h].keys[D]))
  {
    var S, l2, K, C := IndexSplit(m, l1, h), l1 + [l1[h]], m[h].keys, m[h].children;
    assert NodeOk(m, l1, m[h], l1[h]);
    var L := S[h];
    assert L == Index(K[..D], C[..D + 1]);
    assert NodeOk(S, l2, L, l2[h]);
    SplitKeys(K, lo, hi);
    forall t | 0 <= t < |L.children|
      ensures Ordered(S, l2, L.children[t], LowerAt(L.keys, lo, t), UpperAt(L.keys, Some(K[D]), t))
    {
      SplitLeftChild(m, l1, h, lo, hi, t);
    }
  }

  /** The left half of a split index node is shaped. */
  lemma SplitLeftShaped<V(!new)>(m: seq<Node<V>>, l1: seq<nat>, h: nat, lo: Option<int>, hi: Option<int>)
    requires ArenaValid(m, l1) && h < |m| && m[h].Index? && D < |m[h].keys|
    requires Ordered(m, l1, h, lo, hi) && Shaped(m, l1, h)
    ensures Shaped(IndexSplit(m, l1, h), l1 + [l1[h]], h)
  {
    var S, l2, C := IndexSplit(m, l1, h), l1 + [l1[h]], m[h].children;
    assert NodeOk(m, l1, m[h], l1[h]);
    var L := S[h];
    assert L.children == C[..D + 1];
    assert NodeOk(S, l2, L, l2[h]);
    forall t | 0 <= t < |L.children| ensures Shaped(S, l2, L.children[t]) {
      SplitLeftChild(m, l1, h, lo, hi, t);
    }
    forall a, b | 0 <= a < |L.children| && 0 <= b < |L.children| && a != b
      ensures forall x :: InReach(S, l2, L.children[a], x) ==> !InReach(S, l2, L.children[b], x)
    {
      assert L.children[a] == C[a] && L.children[b] == C[b];
      SplitChildrenApart(m, l1, h, a, b);
    }
  }

  /** The right half of a split index node is ordered above the middle key. */
  lemma SplitRightOrdered<V(!new)>(m: seq<Node<V>>, l1: seq<nat>, h: nat, lo: Option<int>, hi: Option<int>)
    requires ArenaValid(m, l1) && h < |m| && m[h].Index? && D < |m[h].keys|
    requires Ordered(m, l1, h, lo, hi) && Shaped(m, l1, h)
    ensures |m| < |IndexSplit(m, l1, h)|
    ensures Ordered(IndexSplit(m, l1, h), l1 + [l1[h]], |m|, Some(m[h].keys[D]), hi)
  {
    var S, l2, K, C := IndexSplit(m, l1, h), l1 + [l1[h]], m[h].keys, m[h].children;
    assert NodeOk(m, l1, m[h], l1[h]);
    var R := S[|m|];
    assert R == Index(K[D + 1..], C[D + 1..]);
    assert NodeOk(S, l2, R, l2[|m|]);
    SplitKeys(K, lo, hi);
    forall u | 0 <= u < |R.children|
      ensures Ordered(S, l2, R.children[u], LowerAt(R.keys, Some(K[D]), u), UpperAt(R.keys, hi, u))
    {
      SplitRightChild(m, l1, h, lo, hi, u);
    }
  }

  /** The right half of a split index node is shaped. */
  lemma SplitRightShaped<V(!new)>(m: seq<Node<V>>, l1: seq<nat>, h: nat, lo: Option<int>, hi: Option<int>)
    requires ArenaValid(m, l1) && h < |m| && m[h].Index? && D < |m[h].keys|
    requires Ordered(m, l1, h, lo, hi) && Shaped(m, l1, h)
    ensures |m| < |IndexSplit(m, l1, h)|
    ensures Shaped(IndexSplit(m, l1, h), l1 + [l1[h]], |m|)
  {
    var S, l2, C := IndexSplit(m, l1, h), l1 + [l1[h]], m[h].children;
    assert NodeOk(m, l1, m[h], l1[h]);
    var R := S[|m|];
    assert R.children == C[D + 1..];
    assert NodeOk(S, l2, R, l2[|m|]);
    forall u | 0 <= u < |R.children| ensures Shaped(S, l2, R.children[u]) {
      SplitRightChild(m, l1, h, lo, hi, u);
    }
    SplitRightDisjoint(m, l1, h);
  }

  /** The children of the right half of a split shaped index node share no node. */
  lemma SplitRightDisjoint<V(!new)>(m: seq<Node<V>>, l1: seq<nat>, h: nat)
    requires ArenaValid(m, l1) && h < |m| && m[h].Index? && D < |m[h].keys| && Shaped(m, l1, h)
    ensures |m| < |IndexSplit(m, l1, h)|
    ensures var S := IndexSplit(m, l1, h); S[|m|].Index? && Disjoint(S, l1 + [l1[h]], S[|m|].children)
  {
    var S, l2, C := IndexSplit(m, l1, h), l1 + [l1[h]], m[h].children;
    assert NodeOk(m, l1, m[h], l1[h]);
    var R := S[|m|];
    assert R.children == C[D + 1..];
    forall a, b | 0 <= a < |R.children| && 0 <= b < |R.children| && a != b
      ensures forall x :: InReach(S, l2, R.children[a], x) ==> !InReach(S, l2, R.children[b], x)
    {
      assert R.children[a] == C[D + 1 + a] && R.children[b] == C[D + 1 + b];
      SplitChildrenApart(m, l1, h, D + 1 + a, D + 1 + b);
    }
  }

  /** No node lies under both halves of a split index node. */
  lemma SplitHalvesApart<V(!new)>(m: seq<Node<V>>, l1: seq<nat>, h: nat, x: nat)
    requires ArenaValid(m, l1) && h < |m| && m[h].Index? && D < |m[h].keys|
    requires Shaped(m, l1, h)
    ensures |m| < |IndexSplit(m, l1, h)|
    ensures !(InReach(IndexSplit(m, l1, h), l1 + [l1[h]], h, x) && InReach(IndexSplit(m, l1, h), l1 + [l1[h]], |m|, x))
  {
    var S, l2, K, C := IndexSplit(m, l1, h), l1 + [l1[h]], m[h].keys, m[h].children;
    assert NodeOk(m, l1, m[h], l1[h]);
    var L, R := S[h], S[|m|];
    assert L.children == C[..D + 1] && R.children == C[D + 1..];
    assert NodeOk(S, l2, L, l2[h]);
    assert NodeOk(S, l2, R, l2[|m|]);
    if InReach(S, l2, h, x) && InReach(S, l2, |m|, x) {
      assert x != |m| && x != h ==> exists a :: 0 <= a < |L.children| && InReach(S, l2, L.children[a], x);
      if x == h {
        var b :| 0 <= b < |R.children| && InReach(S, l2, R.children[b], x);
        assert R.children[b] == C[D + 1 + b];
        SplitKeepsBelow(m, l1, h, C[D + 1 + b]);
        ReachBounds(m, l1, C[D + 1 + b], x);
      } else if x == |m| {
        var a :| 0 <= a < |L.children| && InReach(S, l2, L.children[a], x);
        assert L.children[a] == C[a];
        SplitKeepsBelow(m, l1, h, C[a]);
        ReachBounds(m, l1, C[a], x);
      } else {
        var a :| 0 <= a < |L.children| && InReach(S, l2, L.children[a], x);
        var b :| 0 <= b < |R.children| && InReach(S, l2, R.children[b], x);
        assert L.children[a] == C[a] && R.children[b] == C[D + 1 + b];
        SplitChildrenApart(m, l1, h, a, D + 1 + b);
      }
    }
  }

  /** What the left half of a split index node reaches, the node reached. */
  lemma SplitLeftReach<V(!new)>(m: seq<Node<V>>, l1: seq<nat>, h: nat, x: nat)
    requires ArenaValid(m, l1) && h < |m| && m[h].Index? && D < |m[h].keys|
    ensures InReach(IndexSplit(m, l1, h), l1 + [l1[h]], h, x) ==> InReach(m, l1, h, x)
  {
    var S, l2, C := IndexSplit(m, l1, h), l1 + [l1[h]], m[h].children;
    var L := S[h];
    assert L.children == C[..D + 1];
    assert NodeOk(S, l2, L, l2[h]);
    if InReach(S, l2, h, x) && x != h {
      var a :| 0 <= a < |L.children| && InReach(S, l2, L.children[a], x);
      assert L.children[a] == C[a];
      assert NodeOk(m, l1, m[h], l1[h]);
      SplitKeepsReach(m, l1, h, C[a], x);
      ReachThroughChild(m, l1, h, a, x);
    }
  }

  /** What the right half of a split index node reaches, the node reached, or it is the new node itself. */
  lemma SplitRightReach<V(!new)>(m: seq<Node<V>>, l1: seq<nat>, h: nat, x: nat)
    requires ArenaValid(m, l1) && h < |m| && m[h].Index? && D < |m[h].keys|
    ensures |m| < |IndexSplit(m, l1, h)|
    ensures InReach(IndexSplit(m, l1, h), l1 + [l1[h]], |m|, x) ==> x == |m| || InReach(m, l1, h, x)
  {
    var S, l2, C := IndexSplit(m, l1, h), l1 + [l1[h]], m[h].children;
    var R := S[|m|];
    assert R.children == C[D + 1..];
    assert NodeOk(S, l2, R, l2[|m|]);
    if InReach(S, l2, |m|, x) && x != |m| {
      var b :| 0 <= b < |R.children| && InReach(S, l2, R.children[b], x);
      assert R.children[b] == C[D + 1 + b];
      assert NodeOk(m, l1, m[h], l1[h]);
      SplitKeepsReach(m, l1, h, C[D + 1 + b], x);
      ReachThroughChild(m, l1, h, D + 1 + b, x);
    }
  }

  /** An entry under the left half of a split index node was under the node. */
  lemma SplitLeftFound<V(!new)>(m: seq<Node<V>>, l1: seq<nat>, h: nat, k: int, v: V)
    requires ArenaValid(m, l1) && h < |m| && m[h].Index? && D < |m[h].keys|
    ensures HasEntry(IndexSplit(m, l1, h), l1 + [l1[h]], h, k, v) ==> HasEntry(m, l1, h, k, v)
  {
    var S, l2, C := IndexSplit(m, l1, h), l1 + [l1[h]], m[h].children;
    var L := S[h];
    assert L.children == C[..D + 1];
    assert NodeOk(S, l2, L, l2[h]);
    if HasEntry(S, l2, h, k, v) {
      var a :| 0 <= a < |L.children| && HasEntry(S, l2, L.children[a], k, v);
      assert L.children[a] == C[a];
      assert NodeOk(m, l1, m[h], l1[h]);
      SplitKeepsEntry(m, l1, h, C[a], k, v);
      HasEntryThroughChild(m, l1, h, a, k, v);
    }
  }

  /** An entry under the right half of a split index node was under the node. */
  lemma SplitRightFound<V(!new)>(m: seq<Node<V>>, l1: seq<nat>, h: nat, k: int, v: V)
    requires ArenaValid(m, l1) && h < |m| && m[h].Index? && D < |m[h].keys|
    ensures |m| < |IndexSplit(m, l1, h)|
    ensures HasEntry(IndexSplit(m, l1, h), l1 + [l1[h]], |m|, k, v) ==> HasEntry(m, l1, h, k, v)
  {
    var S, l2, C := IndexSplit(m, l1, h), l1 + [l1[h]], m[h].children;
    var R := S[|m|];
    assert R.children == C[D + 1..];
    assert NodeOk(S, l2, R, l2[|m|]);
    if HasEntry(S, l2, |m|, k, v) {
      var b :| 0 <= b < |R.children| && HasEntry(S, l2, R.children[b], k, v);
      assert R.children[b] == C[D + 1 + b];
      assert NodeOk(m, l1, m[h], l1[h]);
      SplitKeepsEntry(m, l1, h, C[D + 1 + b], k, v);
      HasEntryThroughChild(m, l1, h, D + 1 + b, k, v);
    }
  }

  /** An entry under a split index node is under one of its halves. */
  lemma SplitStored<V(!new)>(m: seq<Node<V>>, l1: seq<nat>, h: nat, k: int, v: V)
    requires ArenaValid(m, l1) && h < |m| && m[h].Index? && D < |m[h].keys|
    ensures |m| < |IndexSplit(m, l1, h)|
    ensures HasEntry(m, l1, h, k, v) ==>
      HasEntry(IndexSplit(m, l1, h), l1 + [l1[h]], h, k, v) || HasEntry(IndexSplit(m, l1, h), l1 + [l1[h]], |m|, k, v)
  {
    var S, l2, C := IndexSplit(m, l1, h), l1 + [l1[h]], m[h].children;
    var L, R := S[h], S[|m|];
    assert NodeOk(m, l1, m[h], l1[h]);
    if HasEntry(m, l1, h, k, v) {
      var t :| 0 <= t < |C| && HasEntry(m, l1, C[t], k, v);
      SplitKeepsEntry(m, l1, h, C[t], k, v);
      if t <= D {
        assert L.children == C[..D + 1] && L.children[t] == C[t];
        HasEntryThroughChild(S, l2, h, t, k, v);
      } else {
        assert R.children == C[D + 1..] && R.children[t - D - 1] == C[t];
        HasEntryThroughChild(S, l2, |m|, t - D - 1, k, v);
      }
    }
  }

  /** Splitting an index node whose subtree holds the updated entries in order gives two halves that do. */
  lemma IndexSplitInserted<V(!new)>(n0: seq<Node<V>>, l0: seq<nat>, m: seq<Node<V>>, l1: seq<nat>,
                                    h: nat, key: int, value: V, lo: Option<int>, hi: Option<int>)
    requires ArenaValid(n0, l0) && h < |n0| <= |m|
    requires ArenaValid(m, l1) && h < |m| && m[h].Index? && D < |m[h].keys|
    requires Inserted(n0, l0, m, l1, h, h, key, value, lo, hi)
    ensures |m| < |IndexSplit(m, l1, h)|
    ensures SplitInserted(n0, l0, IndexSplit(m, l1, h), l1 + [l1[h]], h, m[h].keys[D], |m|, key, value, lo, hi)
  {
    var S, l2, K := IndexSplit(m, l1, h), l1 + [l1[h]], m[h].keys;
    SplitLeftOrdered(m, l1, h, lo, hi);
    SplitLeftShaped(m, l1, h, lo, hi);
    SplitRightOrdered(m, l1, h, lo, hi);
    SplitRightShaped(m, l1, h, lo, hi);
    assert NodeOk(m, l1, m[h], l1[h]);
    SplitKeys(K, lo, hi);
    forall x: nat ensures InReach(S, l2, h, x) ==> !InReach(S, l2, |m|, x) {
      SplitHalvesApart(m, l1, h, x);
    }
    forall k, v ensures HasEntry(S, l2, h, k, v) || HasEntry(S, l2, |m|, k, v) <==> Updated(n0, l0, h, key, value, k, v) {
      SplitLeftFound(m, l1, h, k, v);
      SplitRightFound(m, l1, h, k, v);
      SplitStored(m, l1, h, k, v);
    }
    forall x: nat ensures InReach(S, l2, h, x) || InReach(S, l2, |m|, x) ==> InReach(n0, l0, h, x) || |n0| <= x {
      SplitLeftReach(m, l1, h, x);
      SplitRightReach(m, l1, h, x);
    }
  }

  /** Splitting an overflowing index node `h` that is not the root and reporting the split is correct. */
  lemma SplitReportedCorrect<V(!new)>(n0: seq<Node<V>>, l0: seq<nat>, r0: Option<nat>, m: seq<Node<V>>, l1: seq<nat>,
                                      h: nat, key: int, value: V, lo: Option<int>, hi: Option<int>)
    requires ArenaValid(n0, l0) && ArenaValid(m, l1) && h < |n0| <= |m| && m[h].Index? && D < |m[h].keys|
    requires r0.Some? ==> r0.value < |m|
    requires forall x :: 0 <= x < |n0| && !InReach(n0, l0, h, x) ==> m[x] == n0[x]
    requires Inserted(n0, l0, m, l1, h, h, key, value, lo, hi)
    ensures |m| < |IndexSplit(m, l1, h)|
    ensures StepCorrect(n0, l0, r0, (IndexSplit(m, l1, h), l1 + [l1[h]], r0, Some(Entry(m[h].keys[D], |m|))), h, key, value, lo, hi)
  {
    IndexSplitInserted(n0, l0, m, l1, h, key, value, lo, hi);
    var S := IndexSplit(m, l1, h);
    forall x | 0 <= x < |n0| && x != h ensures S[x] == m[x] { }
  }

  /** The root `h` split and grown leaves every old node outside `h`'s subtree alone. */
  lemma SplitGrownFrame<V(!new)>(n0: seq<Node<V>>, l0: seq<nat>, m: seq<Node<V>>, l1: seq<nat>, h: nat)
    requires ArenaValid(n0, l0) && ArenaValid(m, l1) && h < |n0| <= |m| && m[h].Index? && D < |m[h].keys|
    requires forall x :: 0 <= x < |n0| && !InReach(n0, l0, h, x) ==> m[x] == n0[x]
    ensures var n2 := IndexSplit(m, l1, h) + [Index([m[h].keys[D]], [h, |m|])];
      forall x :: 0 <= x < |n0| && !InReach(n0, l0, h, x) ==> n2[x] == n0[x]
  {
    var n2 := IndexSplit(m, l1, h) + [Index([m[h].keys[D]], [h, |m|])];
    forall x | 0 <= x < |n0| && !InReach(n0, l0, h, x) ensures n2[x] == n0[x] {
      assert x != h;
    }
  }

  /** Both halves of the split root `h` under a new root hold the updated entries in order. */
  lemma SplitGrownInserted<V(!new)>(n0: seq<Node<V>>, l0: seq<nat>, m: seq<Node<V>>, l1: seq<nat>,
                                    h: nat, key: int, value: V, lo: Option<int>, hi: Option<int>)
    requires ArenaValid(n0, l0) && ArenaValid(m, l1) && h < |n0| <= |m| && m[h].Index? && D < |m[h].keys|
    requires Inserted(n0, l0, m, l1, h, h, key, value, lo, hi)
    ensures var n2 := IndexSplit(m, l1, h) + [Index([m[h].keys[D]], [h, |m|])];
      var l2 := l1 + [l1[h]] + [l1[h] + 1];
      ArenaValid(n2, l2) && |n2| == |m| + 2 && Inserted(n0, l0, n2, l2, h, |m| + 1, key, value, lo, hi)
  {
    var K := m[h].keys;
    IndexSplitInserted(n0, l0, m, l1, h, key, value, lo, hi);
    var S, l2 := IndexSplit(m, l1, h), l1 + [l1[h]];
    var top := Index([K[D]], [h, |m|]);
    AppendValid(S, l2, top, l1[h] + 1);
    GrowRootOk(n0, l0, S, l2, h, K[D], |m|, key, value, lo, hi, l1[h] + 1);
  }

  /** Splitting the overflowing root `h` and hanging both halves under a new root is correct. */
  lemma SplitGrownCorrect<V(!new)>(n0: seq<Node<V>>, l0: seq<nat>, m: seq<Node<V>>, l1: seq<nat>,
                                   h: nat, key: int, value: V, lo: Option<int>, hi: Option<int>)
    requires ArenaValid(n0, l0) && ArenaValid(m, l1) && h < |n0| <= |m| && m[h].Index? && D < |m[h].keys|
    requires forall x :: 0 <= x < |n0| && !InReach(n0, l0, h, x) ==> m[x] == n0[x]
    requires Inserted(n0, l0, m, l1, h, h, key, value, lo, hi)
    ensures var S := IndexSplit(m, l1, h); var top := Index([m[h].keys[D]], [h, |m|]);
      |m| < |S| && ArenaValid(S + [top], l1 + [l1[h]] + [l1[h] + 1]) &&
      StepCorrect(n0, l0, Some(h), (S + [top], l1 + [l1[h]] + [l1[h] + 1], Some(|m| + 1), None), h, key, value, lo, hi)
  {
    SplitGrownInserted(n0, l0, m, l1, h, key, value, lo, hi);
    SplitGrownFrame(n0, l0, m, l1, h);
  }

  /**
   * Dealing with an overflow at `h` after the entry was taken in is correct:
   * a node within bounds stays, an overflowing one splits into two halves
   * that are reported up or hung under a new root.
   */
  lemma OverflowCorrect<V(!new)>(n0: seq<Node<V>>, l0: seq<nat>, r0: Option<nat>, m: seq<Node<V>>, l1: seq<nat>,
                                 h: nat, key: int, value: V, lo: Option<int>, hi: Option<int>)
    requires ArenaValid(n0, l0) && ArenaValid(m, l1) && h < |n0| <= |m| && m[h].Index? && (r0.Some? ==> r0.value < |m|)
    requires forall x :: 0 <= x < |n0| && !InReach(n0, l0, h, x) ==> m[x] == n0[x]
    requires Inserted(n0, l0, m, l1, h, h, key, value, lo, hi)
    ensures StepCorrect(n0, l0, r0, OverflowDealing(m, l1, r0, h), h, key, value, lo, hi)
  {
    if 2 * D < |m[h].keys| {
      if r0 == Some(h) {
        SplitGrownCorrect(n0, l0, m, l1, h, key, value, lo, hi);
      } else {
        SplitReportedCorrect(n0, l0, r0, m, l1, h, key, value, lo, hi);
      }
    }
  }

  /**
   * The descent step at index node `h` into child `c` at slot `i`, when the
   * step below reported nothing, is correct at `h`.
   */
  lemma DescentCorrect<V(!new)>(n0: seq<Node<V>>, l0: seq<nat>, r0: Option<nat>, mid: Step<V>,
                                h: nat, i: nat, c: nat, key: int, value: V, lo: Option<int>, hi: Option<int>)
    requires ArenaValid(n0, l0) && h < |n0| && n0[h].Index? && r0.Some? && r0.value < |n0|
    requires r0 == Some(h) || l0[h] < l0[r0.value]
    requires Ordered(n0, l0, h, lo, hi) && Shaped(n0, l0, h)
    requires i == FirstAbove(n0[h].keys, key) && i < |n0[h].children| && c == n0[h].children[i]
    requires ArenaValid(mid.0, mid.1) && mid.2.Some? && mid.2.value < |mid.0| && mid.3.None?
    requires InsertStep(n0, l0, r0, mid.0, mid.1, mid.2, c, mid.3)
    requires StepCorrect(n0, l0, r0, mid, c, key, value, LowerAt(n0[h].keys, lo, i), UpperAt(n0[h].keys, hi, i))
    ensures StepCorrect(n0, l0, r0, mid, h, key, value, lo, hi)
  {
    assert NodeOk(n0, l0, n0[h], l0[h]);
    assert mid.2 == r0;
    assert mid.0[h] == n0[h];
    ChildOrdered(n0, l0, mid.0, mid.1, h, i, c, key, value, lo, hi);
    ChildEntries(n0, l0, mid.0, mid.1, h, i, c, key, value, lo, hi);
    forall x | 0 <= x < |n0| && !InReach(n0, l0, h, x) ensures mid.0[x] == n0[x] {
      if InReach(n0, l0, c, x) {
        ReachThroughChild(n0, l0, h, i, x);
      }
    }
  }

  /**
   * The descent step at index node `h` into child `c` at slot `i`, when the
   * step below reported a split, followed by taking the entry in at `h`, is
   * correct at `h`.
   */
  lemma SplitDescentCorrect<V(!new)>(n0: seq<Node<V>>, l0: seq<nat>, r0: Option<nat>, mid: Step<V>,
                                     h: nat, i: nat, c: nat, key: int, value: V, lo: Option<int>, hi: Option<int>)
    requires ArenaValid(n0, l0) && h < |n0| && n0[h].Index? && r0.Some? && r0.value < |n0|
    requires r0 == Some(h) || l0[h] < l0[r0.value]
    requires Ordered(n0, l0, h, lo, hi) && Shaped(n0, l0, h)
    requires i == FirstAbove(n0[h].keys, key) && i < |n0[h].children| && c == n0[h].children[i]
    requires ArenaValid(mid.0, mid.1) && mid.2.Some? && mid.2.value < |mid.0| && mid.3.Some?
    requires InsertStep(n0, l0, r0, mid.0, mid.1, mid.2, c, mid.3)
    requires StepCorrect(n0, l0, r0, mid, c, key, value, LowerAt(n0[h].keys, lo, i), UpperAt(n0[h].keys, hi, i))
    ensures h < |mid.0| && mid.0[h].Index? && mid.3.value.right < |mid.0| && mid.1[mid.3.value.right] + 1 == mid.1[h]
    ensures StepCorrect(n0, l0, r0, EntryAdding(mid.0, mid.1, mid.2, h, mid.3.value), h, key, value, lo, hi)
  {
    assert NodeOk(n0, l0, n0[h], l0[h]);
    assert mid.2 == r0;
    assert mid.0[h] == n0[h] && mid.1[h] == l0[h] && mid.1[c] == l0[c];
    var sep, right := mid.3.value.sep, mid.3.value.right;
    EntryInserted(n0, l0, mid.0, mid.1, h, i, c, key, value, lo, hi, sep, right);
    var m := mid.0[h := InsertEntryAt(n0[h], sep, right, i)];
    assert EntryAdding(mid.0, mid.1, mid.2, h, mid.3.value) == OverflowDealing(m, mid.1, r0, h);
    forall x | 0 <= x < |n0| && !InReach(n0, l0, h, x) ensures m[x] == n0[x] {
      if InReach(n0, l0, c, x) {
        ReachThroughChild(n0, l0, h, i, x);
      }
    }
    OverflowCorrect(n0, l0, r0, m, mid.1, h, key, value, lo, hi);
  }

  /**
   * `insertHelper` is correct: inserting into an ordered, shaped subtree that
   * the key belongs to changes nothing outside it and gives the updated
   * entries in order, in the subtree, under a grown root, or split in two.
   */
  lemma {:induction false} InsertionCorrect<V(!new)>(n0: seq<Node<V>>, l0: seq<nat>, r0: Option<nat>, h: nat,
                                                     key: int, value: V, lo: Option<int>, hi: Option<int>)
    requires ArenaValid(n0, l0) && h < |n0| && r0.Some? && r0.value < |n0|
    requires r0 == Some(h) || l0[h] < l0[r0.value]
    requires Ordered(n0, l0, h, lo, hi) && Shaped(n0, l0, h) && Above(lo, key) && Below(key, hi)
    ensures StepCorrect(n0, l0, r0, Insertion(n0, l0, r0, h, key, value), h, key, value, lo, hi)
    decreases l0[h]
  {
    assert NodeOk(n0, l0, n0[h], l0[h]);
    if n0[h].Leaf? {
      LeafInsertionCorrect(n0, l0, r0, h, key, value, lo, hi);
    } else {
      var keys := n0[h].keys;
      var i := FirstAbove(keys, key);
      var c := n0[h].children[i];
      var clo, chi := LowerAt(keys, lo, i), UpperAt(keys, hi, i);
      assert Above(clo, key) && Below(key, chi);
      InsertionCorrect(n0, l0, r0, c, key, value, clo, chi);
      var mid := Insertion(n0, l0, r0, c, key, value);
      if mid.3.None? {
        DescentCorrect(n0, l0, r0, mid, h, i, c, key, value, lo, hi);
      } else {
        SplitDescentCorrect(n0, l0, r0, mid, h, i, c, key, value, lo, hi);
      }
    }
  }

  /** A search of a tree after an insertion finds what the updated entries say. */
  lemma SearchUpdated<V(!new)>(n0: seq<Node<V>>, l0: seq<nat>, h: nat, n1: seq<Node<V>>, l1: seq<nat>, t: nat,
                               key: int, value: V, k: int)
    requires ArenaValid(n0, l0) && h < |n0| && ArenaValid(n1, l1) && t < |n1|
    requires Separated(n0, l0, h) && Separated(n1, l1, t)
    requires forall k, v :: HasEntry(n1, l1, t, k, v) <==> Updated(n0, l0, h, key, value, k, v)
    ensures SearchTree(n1, l1, Some(t), k) == if k == key then Some(value) else SearchTree(n0, l0, Some(h), k)
  {
    var r1, r0 := SearchTree(n1, l1, Some(t), k), SearchTree(n0, l0, Some(h), k);
    if k == key {
      SearchByEntry(n1, l1, t, k, value);
    } else {
      if r0.Some? {
        SearchByEntry(n0, l0, h, k, r0.value);
        SearchByEntry(n1, l1, t, k, r0.value);
      }
      if r1.Some? {
        SearchByEntry(n1, l1, t, k, r1.value);
        SearchByEntry(n0, l0, h, k, r1.value);
      }
    }
  }

  /**
   * Inserting from the root `h` of an ordered, shaped tree gives an ordered,
   * shaped tree at the new root, in which the key is found with its new value
   * and every other key as before.
   */
  lemma RootInsertionCorrect<V(!new)>(n0: seq<Node<V>>, l0: seq<nat>, h: nat, key: int, value: V)
    requires ArenaValid(n0, l0) && h < |n0|
    requires Ordered(n0, l0, h, None, None) && Shaped(n0, l0, h)
    ensures var s := Insertion(n0, l0, Some(h), h, key, value);
      Ordered(s.0, s.1, s.2.value, None, None) && Shaped(s.0, s.1, s.2.value) &&
      forall k :: SearchTree(s.0, s.1, s.2, k) == if k == key then Some(value) else SearchTree(n0, l0, Some(h), k)
  {
    var s := Insertion(n0, l0, Some(h), h, key, value);
    InsertionCorrect(n0, l0, Some(h), h, key, value, None, None);
    var t := s.2.value;
    OrderedSeparated(n0, l0, h, None, None);
    OrderedSeparated(s.0, s.1, t, None, None);
    forall k ensures SearchTree(s.0, s.1, s.2, k) == if k == key then Some(value) else SearchTree(n0, l0, Some(h), k) {
      SearchUpdated(n0, l0, h, s.0, s.1, t, key, value, k);
    }
  }

  /**
   * `insert` is correct: on an ordered, shaped tree, or an empty one, the tree
   * at the new root is ordered and shaped, the key is found with its new value
   * and every other key keeps what it had.
   */
  lemma TreeInsertionCorrect<V(!new)>(n0: seq<Node<V>>, l0: seq<nat>, r0: Option<nat>, key: int, value: V)
    requires ArenaValid(n0, l0) && (r0.Some? ==> r0.value < |n0|)
    requires r0.Some? ==> Ordered(n0, l0, r0.value, None, None) && Shaped(n0, l0, r0.value)
    ensures var s := TreeInsertion(n0, l0, r0, key, value);
      Ordered(s.0, s.1, s.2.value, None, None) && Shaped(s.0, s.1, s.2.value) &&
      SearchTree(s.0, s.1, s.2, key) == Some(value) &&
      forall k :: k != key ==> SearchTree(s.0, s.1, s.2, k) == SearchTree(n0, l0, r0, k)
  {
    if r0.Some? {
      RootInsertionCorrect(n0, l0, r0.value, key, value);
    } else {
      var leaf: Node<V> := Leaf([key], [value], None, None);
      var n1, l1, h := n0 + [leaf], l0 + [0], |n0|;
      AppendValid(n0, l0, leaf, 0);
      assert n1[h] == leaf;
      assert Ordered(n1, l1, h, None, None) && Shaped(n1, l1, h);
      RootInsertionCorrect(n1, l1, h, key, value);
      forall k | k != key ensures SearchTree(n1, l1, Some(h), k) == None {
        assert SearchLeafNode(n1, l1, k, h) == h;
      }
    }
  }
}
