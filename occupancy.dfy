/**
 * The occupancy bounds of a B+Tree of order D that `BPlusTree.java` documents
 * at line 11: a node holds at most 2D keys, and a node other than the root
 * holds at least D. An insert into an ordered, shaped tree within these bounds
 * leaves a tree within them: a leaf that takes a (2D+1)th entry splits into D
 * and D+1 entries, an index node that takes a (2D+1)th key splits into D and D
 * keys around the promoted one, and the only node made with fewer keys is a
 * new root.
 */
module Occupancy {
  import opened Wrappers
  import opened KeyLocator
  import opened Nodes
  import opened Ordering
  import opened Insertion

  /**
   * Every node of the subtree rooted at `h` holds at most 2D keys, and every
   * node below `h` at least D; `h` itself holds at least D unless it is `top`.
   */
  ghost predicate Filled<V>(nodes: seq<Node<V>>, level: seq<nat>, h: nat, top: bool)
    requires ArenaValid(nodes, level) && h < |nodes|
    decreases level[h]
  {
    assert NodeOk(nodes, level, nodes[h], level[h]);
    var n := nodes[h];
    |n.keys| <= 2 * D && (top || D <= |n.keys|) &&
    (n.Index? ==> forall i :: 0 <= i < |n.children| ==> Filled(nodes, level, n.children[i], false))
  }

  /** Arenas that agree below `h` agree on the occupancy of `h`'s subtree. */
  lemma {:induction false} AgreeFilled<V>(n0: seq<Node<V>>, l0: seq<nat>, n1: seq<Node<V>>, l1: seq<nat>, h: nat, top: bool)
    requires ArenaValid(n0, l0) && ArenaValid(n1, l1) && h < |n0| && h < |n1|
    requires Agree(n0, l0, n1, l1, h)
    ensures Filled(n1, l1, h, top) <==> Filled(n0, l0, h, top)
    decreases l0[h]
  {
    assert InReach(n0, l0, h, h);
    assert n1[h] == n0[h] && l1[h] == l0[h];
    assert NodeOk(n0, l0, n0[h], l0[h]);
    assert NodeOk(n1, l1, n1[h], l1[h]);
    if n0[h].Index? {
      var cs := n0[h].children;
      forall i | 0 <= i < |cs|
        ensures Filled(n1, l1, cs[i], false) <==> Filled(n0, l0, cs[i], false)
      {
        forall x | 0 <= x < |n0| && InReach(n0, l0, cs[i], x)
          ensures x < |n1| && x < |l1| && n1[x] == n0[x] && l1[x] == l0[x]
        {
          ReachThroughChild(n0, l0, h, i, x);
        }
        AgreeFilled(n0, l0, n1, l1, cs[i], false);
      }
    }
  }

  /** A subtree whose nodes, and all nodes as low as its root, are kept keeps its occupancy. */
  lemma LowerFilled<V>(n0: seq<Node<V>>, l0: seq<nat>, n1: seq<Node<V>>, l1: seq<nat>, g: nat, top: bool)
    requires ArenaValid(n0, l0) && ArenaValid(n1, l1) && g < |n0| && g < |n1|
    requires forall x :: 0 <= x < |n0| && l0[x] <= l0[g] ==> x < |n1| && x < |l1| && n1[x] == n0[x] && l1[x] == l0[x]
    ensures Filled(n1, l1, g, top) <==> Filled(n0, l0, g, top)
  {
    forall x | 0 <= x < |n0| && InReach(n0, l0, g, x)
      ensures x < |n1| && x < |l1| && n1[x] == n0[x] && l1[x] == l0[x]
    {
      ReachBounds(n0, l0, g, x);
    }
    AgreeFilled(n0, l0, n1, l1, g, top);
  }

  /**
   * When only the subtree of child `i` of `h`, `h` itself and new nodes
   * changed, every other child of a shaped `h` keeps its occupancy.
   */
  lemma SiblingFilled<V>(n0: seq<Node<V>>, l0: seq<nat>, n1: seq<Node<V>>, l1: seq<nat>, h: nat, c: nat, i: nat, t: nat)
    requires ArenaValid(n0, l0) && ArenaValid(n1, l1) && h < |n0| <= |n1| && l1[..|n0|] == l0
    requires n0[h].Index? && Shaped(n0, l0, h) && i < |n0[h].children| && t < |n0[h].children| && t != i
    requires c == n0[h].children[i] && c < |n0|
    requires forall x :: 0 <= x < |n0| && x != h && !InReach(n0, l0, c, x) ==> n1[x] == n0[x]
    ensures n0[h].children[t] < |n0|
    ensures Filled(n1, l1, n0[h].children[t], false) <==> Filled(n0, l0, n0[h].children[t], false)
  {
    assert NodeOk(n0, l0, n0[h], l0[h]);
    var g := n0[h].children[t];
    forall x | 0 <= x < |n0| && InReach(n0, l0, g, x)
      ensures x < |n1| && x < |l1| && n1[x] == n0[x] && l1[x] == l0[x]
    {
      ReachBounds(n0, l0, g, x);
      assert !InReach(n0, l0, c, x);
      assert l1[..|n0|][x] == l1[x];
    }
    AgreeFilled(n0, l0, n1, l1, g, false);
  }

  /**
   * An insertion step at `h` keeps the bounds: a grown root heads a filled
   * tree, a reported split leaves two halves of at least D keys each, and
   * otherwise the subtree at `h` is filled as before.
   */
  ghost predicate StepFilled<V>(r0: Option<nat>, s: Step<V>, h: nat, top: bool)
    requires ArenaValid(s.0, s.1) && h < |s.0|
    requires s.2.Some? ==> s.2.value < |s.0|
    requires s.3.Some? ==> s.3.value.right < |s.0|
  {
    (s.3.None? && s.2.Some? && s.2 != r0 ==> Filled(s.0, s.1, s.2.value, true)) &&
    (s.3.None? && !(s.2.Some? && s.2 != r0) ==> Filled(s.0, s.1, h, top)) &&
    (s.3.Some? ==> Filled(s.0, s.1, h, false) && Filled(s.0, s.1, s.3.value.right, false))
  }

  /** `insertLeafNodeHelper` keeps the bounds. */
  lemma LeafFilled<V>(n0: seq<Node<V>>, l0: seq<nat>, r0: Option<nat>, h: nat, key: int, value: V, top: bool)
    requires ArenaValid(n0, l0) && h < |n0| && n0[h].Leaf? && (r0.Some? ==> r0.value < |n0|)
    requires Filled(n0, l0, h, top)
    ensures var s := LeafInsertion(n0, l0, r0, h, key, value);
      h < |s.0| && (s.3.Some? ==> s.3.value.right < |s.0|) && StepFilled(r0, s, h, top)
  {
    var leaf := n0[h];
    assert NodeOk(n0, l0, leaf, l0[h]);
    var ins := InsertSorted(leaf.keys, leaf.values, key, value);
    var s := LeafInsertion(n0, l0, r0, h, key, value);
    if |ins.0| <= 2 * D {
      assert s.0[h] == Leaf(ins.0, ins.1, leaf.prev, leaf.next);
      assert Filled(s.0, s.1, h, top);
    } else {
      var right := |n0|;
      assert s.0[h] == Leaf(ins.0[..D], ins.1[..D], leaf.prev, Some(right));
      assert s.0[right] == Leaf(ins.0[D..], ins.1[D..], Some(h), leaf.next);
      assert Filled(s.0, s.1, h, false) && Filled(s.0, s.1, right, false);
      if r0 == Some(h) {
        assert s.0[right + 1] == Index([ins.0[D]], [h, right]);
        assert Filled(s.0, s.1, right + 1, true);
      }
    }
  }

  /** Splitting an index node of 2D+1 keys over filled children leaves two halves of D keys over filled children. */
  lemma IndexSplitFilled<V>(m: seq<Node<V>>, l1: seq<nat>, h: nat)
    requires ArenaValid(m, l1) && h < |m| && m[h].Index? && |m[h].keys| == 2 * D + 1
    requires forall i :: 0 <= i < |m[h].children| ==> m[h].children[i] < |m| && Filled(m, l1, m[h].children[i], false)
    ensures Filled(IndexSplit(m, l1, h), l1 + [l1[h]], h, false)
    ensures Filled(IndexSplit(m, l1, h), l1 + [l1[h]], |m|, false)
  {
    var n := m[h];
    assert NodeOk(m, l1, n, l1[h]);
    var S, l2 := IndexSplit(m, l1, h), l1 + [l1[h]];
    var C := n.children;
    forall j | 0 <= j < |C| ensures C[j] < |S| && Filled(S, l2, C[j], false) {
      forall x | 0 <= x < |m| && l1[x] <= l1[C[j]]
        ensures x < |S| && x < |l2| && S[x] == m[x] && l2[x] == l1[x]
      {
        assert x != h;
      }
      LowerFilled(m, l1, S, l2, C[j], false);
    }
    assert S[h] == Index(n.keys[..D], C[..D + 1]);
    assert S[|m|] == Index(n.keys[D + 1..], C[D + 1..]);
    forall j | 0 <= j < D + 1 ensures Filled(S, l2, S[h].children[j], false) {
      assert S[h].children[j] == C[j];
    }
    forall j | 0 <= j < |C| - (D + 1) ensures Filled(S, l2, S[|m|].children[j], false) {
      assert S[|m|].children[j] == C[D + 1 + j];
    }
  }

  /** `dealOverFlowed` keeps the bounds of a node that holds one key too many at most, over filled children. */
  lemma OverflowFilled<V>(m: seq<Node<V>>, l1: seq<nat>, r0: Option<nat>, h: nat, top: bool)
    requires ArenaValid(m, l1) && h < |m| && m[h].Index? && (r0.Some? ==> r0.value < |m|)
    requires |m[h].keys| <= 2 * D + 1 && (top || D <= |m[h].keys|)
    requires forall i :: 0 <= i < |m[h].children| ==> m[h].children[i] < |m| && Filled(m, l1, m[h].children[i], false)
    ensures var s := OverflowDealing(m, l1, r0, h);
      h < |s.0| && (s.3.Some? ==> s.3.value.right < |s.0|) && StepFilled(r0, s, h, top)
  {
    var n := m[h];
    assert NodeOk(m, l1, n, l1[h]);
    if 2 * D < |n.keys| {
      var S, l2 := IndexSplit(m, l1, h), l1 + [l1[h]];
      IndexSplitFilled(m, l1, h);
      if r0 == Some(h) {
        var top' := Index([n.keys[D]], [h, |m|]);
        var s := OverflowDealing(m, l1, r0, h);
        assert s.0 == S + [top'] && s.1 == l2 + [l1[h] + 1];
        LowerFilled(S, l2, s.0, s.1, h, false);
        LowerFilled(S, l2, s.0, s.1, |m|, false);
        assert s.0[|S|] == top';
        assert Filled(s.0, s.1, |S|, true);
      }
    }
  }

  /** Taking a split child's entry in, over filled children and a filled new node, keeps the bounds. */
  lemma EntryFilled<V>(n1: seq<Node<V>>, l1: seq<nat>, r0: Option<nat>, h: nat, entry: Entry, top: bool)
    requires ArenaValid(n1, l1) && h < |n1| && n1[h].Index? && (r0.Some? ==> r0.value < |n1|)
    requires entry.right < |n1| && l1[entry.right] + 1 == l1[h]
    requires |n1[h].keys| <= 2 * D && (top || D <= |n1[h].keys|)
    requires forall i :: 0 <= i < |n1[h].children| ==> n1[h].children[i] < |n1| && Filled(n1, l1, n1[h].children[i], false)
    requires Filled(n1, l1, entry.right, false)
    ensures var s := EntryAdding(n1, l1, r0, h, entry);
      h < |s.0| && (s.3.Some? ==> s.3.value.right < |s.0|) && StepFilled(r0, s, h, top)
  {
    var n := n1[h];
    assert NodeOk(n1, l1, n, l1[h]);
    var j := FirstAbove(n.keys, entry.sep);
    var N := InsertEntryAt(n, entry.sep, entry.right, j);
    InsertEntryAtOk(n1, l1, n, entry.sep, entry.right, j, l1[h]);
    UpdateValid(n1, l1, h, N);
    var m := n1[h := N];
    forall q | 0 <= q < |N.children| ensures N.children[q] < |m| && Filled(m, l1, N.children[q], false) {
      var g := N.children[q];
      if q < j + 1 {
        assert g == n.children[q];
      } else if q == j + 1 {
        assert g == entry.right;
      } else {
        assert g == N.children[j + 2..][q - (j + 2)] == n.children[q - 1];
      }
      assert Filled(n1, l1, g, false);
      forall x | 0 <= x < |n1| && l1[x] <= l1[g]
        ensures x < |m| && x < |l1| && m[x] == n1[x] && l1[x] == l1[x]
      {
        assert x != h;
      }
      LowerFilled(n1, l1, m, l1, g, false);
    }
    OverflowFilled(m, l1, r0, h, top);
  }

  /** The descent at index node `h` into child `c` at slot `i`, with the step below filled, is filled at `h`. */
  lemma DescentFilled<V(!new)>(n0: seq<Node<V>>, l0: seq<nat>, r0: Option<nat>, mid: Step<V>,
                               h: nat, i: nat, c: nat, key: int, value: V, lo: Option<int>, hi: Option<int>, top: bool)
    requires ArenaValid(n0, l0) && h < |n0| && n0[h].Index? && r0.Some? && r0.value < |n0|
    requires r0 == Some(h) || l0[h] < l0[r0.value]
    requires Shaped(n0, l0, h) && Filled(n0, l0, h, top)
    requires i < |n0[h].children| && c == n0[h].children[i]
    requires ArenaValid(mid.0, mid.1) && mid.2.Some? && mid.2.value < |mid.0|
    requires InsertStep(n0, l0, r0, mid.0, mid.1, mid.2, c, mid.3)
    requires StepCorrect(n0, l0, r0, mid, c, key, value, LowerAt(n0[h].keys, lo, i), UpperAt(n0[h].keys, hi, i))
    requires StepFilled(r0, mid, c, false)
    ensures h < |mid.0| && mid.0[h].Index? && mid.1[h] == l0[h]
    ensures mid.3.None? ==> mid.2 == r0 && Filled(mid.0, mid.1, h, top)
    ensures mid.3.Some? ==> mid.3.value.right < |mid.0| && mid.1[mid.3.value.right] + 1 == mid.1[h]
    ensures mid.3.Some? ==> StepFilled(r0, EntryAdding(mid.0, mid.1, mid.2, h, mid.3.value), h, top)
  {
    assert NodeOk(n0, l0, n0[h], l0[h]);
    assert mid.2 == r0;
    assert mid.0[h] == n0[h] && mid.1[h] == l0[h] && mid.1[c] == l0[c];
    var C := n0[h].children;
    forall t | 0 <= t < |C| ensures C[t] < |mid.0| && Filled(mid.0, mid.1, C[t], false) {
      if t != i {
        SiblingFilled(n0, l0, mid.0, mid.1, h, c, i, t);
      }
    }
    if mid.3.Some? {
      EntryFilled(mid.0, mid.1, r0, h, mid.3.value, top);
    }
  }

  /** `insertHelper` keeps the bounds on an ordered, shaped subtree that the key belongs to. */
  lemma {:induction false} InsertionFilled<V(!new)>(n0: seq<Node<V>>, l0: seq<nat>, r0: Option<nat>, h: nat,
                                                    key: int, value: V, lo: Option<int>, hi: Option<int>, top: bool)
    requires ArenaValid(n0, l0) && h < |n0| && r0.Some? && r0.value < |n0|
    requires r0 == Some(h) || l0[h] < l0[r0.value]
    requires Ordered(n0, l0, h, lo, hi) && Shaped(n0, l0, h) && Above(lo, key) && Below(key, hi)
    requires Filled(n0, l0, h, top)
    ensures var s := Insertion.Insertion(n0, l0, r0, h, key, value);
      (s.3.Some? ==> s.3.value.right < |s.0|) && StepFilled(r0, s, h, top)
    decreases l0[h]
  {
    assert NodeOk(n0, l0, n0[h], l0[h]);
    if n0[h].Leaf? {
      LeafFilled(n0, l0, r0, h, key, value, top);
    } else {
      var keys := n0[h].keys;
      var i := FirstAbove(keys, key);
      var c := n0[h].children[i];
      var clo, chi := LowerAt(keys, lo, i), UpperAt(keys, hi, i);
      assert Above(clo, key) && Below(key, chi);
      InsertionCorrect(n0, l0, r0, c, key, value, clo, chi);
      InsertionFilled(n0, l0, r0, c, key, value, clo, chi, false);
      var mid := Insertion.Insertion(n0, l0, r0, c, key, value);
      DescentFilled(n0, l0, r0, mid, h, i, c, key, value, lo, hi, top);
    }
  }

  /**
   * `insert` keeps the bounds: on an empty tree, or an ordered, shaped tree
   * within them, the tree at the new root is within them.
   */
  lemma TreeInsertionFilled<V(!new)>(n0: seq<Node<V>>, l0: seq<nat>, r0: Option<nat>, key: int, value: V)
    requires ArenaValid(n0, l0) && (r0.Some? ==> r0.value < |n0|)
    requires r0.Some? ==> Ordered(n0, l0, r0.value, None, None) && Shaped(n0, l0, r0.value) && Filled(n0, l0, r0.value, true)
    ensures var s := TreeInsertion(n0, l0, r0, key, value);
      Filled(s.0, s.1, s.2.value, true)
  {
    if r0.Some? {
      InsertionFilled(n0, l0, r0, r0.value, key, value, None, None, true);
    } else {
      var leaf: Node<V> := Leaf([key], [value], None, None);
      var n1, l1, h := n0 + [leaf], l0 + [0], |n0|;
      AppendValid(n0, l0, leaf, 0);
      assert n1[h] == leaf;
      assert Ordered(n1, l1, h, None, None) && Shaped(n1, l1, h) && Filled(n1, l1, h, true);
      InsertionFilled(n1, l1, Some(h), h, key, value, None, None, true);
    }
  }
}
