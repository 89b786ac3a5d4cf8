/**
 * The B+Tree invariant that insertion keeps, stated over the arena. Every
 * node's keys are strictly ascending and lie within the bounds its parent
 * gives it: child `i` of an index node sits between the keys at `i - 1` and
 * `i`. No two children of a node share a node below them, as holds for the
 * Java objects that the arena stands for.
 */
module Ordering {
  import opened Wrappers
  import opened KeyLocator
  import opened Nodes
  import opened Search

  /** `k` is not below the lower bound `lo` (no bound when `lo` is null). */
  predicate Above(lo: Option<int>, k: int)
  {
    lo.None? || lo.value <= k
  }

  /** `k` is strictly above the lower bound `lo`. */
  predicate StrictlyAbove(lo: Option<int>, k: int)
  {
    lo.None? || lo.value < k
  }

  /** `k` is below the upper bound `hi` (no bound when `hi` is null). */
  predicate Below(k: int, hi: Option<int>)
  {
    hi.None? || k < hi.value
  }

  /** The lower bound of child `i` of an index node with `keys` and lower bound `lo`. */
  function LowerAt(keys: seq<int>, lo: Option<int>, i: nat): Option<int>
    requires i <= |keys|
  {
    if i == 0 then lo else Some(keys[i - 1])
  }

  /** The upper bound of child `i` of an index node with `keys` and upper bound `hi`. */
  function UpperAt(keys: seq<int>, hi: Option<int>, i: nat): Option<int>
    requires i <= |keys|
  {
    if i == |keys| then hi else Some(keys[i])
  }

  /**
   * A separator strictly inside the bounds of child `i` belongs at slot `i`
   * of ascending keys within `lo..hi`: the scan picks that slot, the key is
   * new, and the keys with it in place stay within `lo..hi`.
   */
  lemma SepFits(keys: seq<int>, lo: Option<int>, hi: Option<int>, i: nat, sep: int)
    requires StrictlyAscending(keys) && i <= |keys|
    requires forall j :: 0 <= j < |keys| ==> Above(lo, keys[j]) && Below(keys[j], hi)
    requires StrictlyAbove(LowerAt(keys, lo, i), sep) && Below(sep, UpperAt(keys, hi, i))
    ensures FirstAbove(keys, sep) == i && sep !in keys
    ensures var ks := keys[..i] + [sep] + keys[i..];
      forall j :: 0 <= j < |ks| ==> Above(lo, ks[j]) && Below(ks[j], hi)
  {
    FirstAboveAt(keys, sep, i);
    forall q | 0 <= q < |keys| ensures keys[q] != sep {
      if q < i {
        assert keys[q] <= keys[i - 1];
      } else {
        assert keys[i] <= keys[q];
      }
    }
    assert Above(lo, sep) && Below(sep, hi) by {
      if 0 < i {
        assert Above(lo, keys[i - 1]);
      }
      if i < |keys| {
        assert Below(keys[i], hi);
      }
    }
    var ks := keys[..i] + [sep] + keys[i..];
    forall j | 0 <= j < |ks| ensures Above(lo, ks[j]) && Below(ks[j], hi) {
      if j < i {
        assert ks[j] == keys[j];
      } else if j > i {
        assert ks[j] == keys[j - 1];
      }
    }
  }

  /**
   * The subtree rooted at `h` is ordered within `lo..hi`: the keys of every
   * node are strictly ascending and within its bounds, and child `i` of an
   * index node is bounded by the keys around position `i`.
   */
  ghost predicate Ordered<V>(nodes: seq<Node<V>>, level: seq<nat>, h: nat, lo: Option<int>, hi: Option<int>)
    requires ArenaValid(nodes, level) && h < |nodes|
    decreases level[h]
  {
    assert NodeOk(nodes, level, nodes[h], level[h]);
    var keys := nodes[h].keys;
    StrictlyAscending(keys) &&
    (forall j :: 0 <= j < |keys| ==> Above(lo, keys[j]) && Below(keys[j], hi)) &&
    (nodes[h].Index? ==>
      forall i :: 0 <= i < |nodes[h].children| ==>
        Ordered(nodes, level, nodes[h].children[i], LowerAt(keys, lo, i), UpperAt(keys, hi, i)))
  }

  /** Node `x` is `h` or lies below it. */
  ghost predicate InReach<V>(nodes: seq<Node<V>>, level: seq<nat>, h: nat, x: nat)
    requires ArenaValid(nodes, level) && h < |nodes|
    decreases level[h]
  {
    assert NodeOk(nodes, level, nodes[h], level[h]);
    x == h ||
    (nodes[h].Index? &&
     exists i :: 0 <= i < |nodes[h].children| && InReach(nodes, level, nodes[h].children[i], x))
  }

  /** No node lies below two different handles of `cs`. */
  ghost predicate Disjoint<V>(nodes: seq<Node<V>>, level: seq<nat>, cs: seq<nat>)
    requires ArenaValid(nodes, level) && forall i :: 0 <= i < |cs| ==> cs[i] < |nodes|
  {
    forall i, j, x :: 0 <= i < |cs| && 0 <= j < |cs| && i != j && InReach(nodes, level, cs[i], x) ==>
      !InReach(nodes, level, cs[j], x)
  }

  /** The subtree rooted at `h` is a tree: at every index node the children's subtrees are disjoint. */
  ghost predicate Shaped<V>(nodes: seq<Node<V>>, level: seq<nat>, h: nat)
    requires ArenaValid(nodes, level) && h < |nodes|
    decreases level[h]
  {
    assert NodeOk(nodes, level, nodes[h], level[h]);
    nodes[h].Index? ==>
      (forall i :: 0 <= i < |nodes[h].children| ==> Shaped(nodes, level, nodes[h].children[i])) &&
      Disjoint(nodes, level, nodes[h].children)
  }

  /** A node below `h` is a node of the arena no higher than `h`. */
  lemma {:induction false} ReachBounds<V>(nodes: seq<Node<V>>, level: seq<nat>, h: nat, x: nat)
    requires ArenaValid(nodes, level) && h < |nodes|
    requires InReach(nodes, level, h, x)
    ensures x < |nodes| && level[x] <= level[h]
    decreases level[h]
  {
    assert NodeOk(nodes, level, nodes[h], level[h]);
    if x != h {
      var i :| 0 <= i < |nodes[h].children| && InReach(nodes, level, nodes[h].children[i], x);
      ReachBounds(nodes, level, nodes[h].children[i], x);
    }
  }

  /** A node below a child of `h` is below `h`. */
  lemma ReachThroughChild<V>(nodes: seq<Node<V>>, level: seq<nat>, h: nat, i: nat, x: nat)
    requires ArenaValid(nodes, level) && h < |nodes| && nodes[h].Index? && i < |nodes[h].children|
    requires InReach(nodes, level, nodes[h].children[i], x)
    ensures InReach(nodes, level, h, x)
  {
    assert NodeOk(nodes, level, nodes[h], level[h]);
  }

  /** Two arenas agree on every node below `h`, heights included. */
  ghost predicate Agree<V>(n0: seq<Node<V>>, l0: seq<nat>, n1: seq<Node<V>>, l1: seq<nat>, h: nat)
    requires ArenaValid(n0, l0) && h < |n0|
  {
    forall x :: 0 <= x < |n0| && InReach(n0, l0, h, x) ==>
      x < |n1| && x < |l1| && n1[x] == n0[x] && l1[x] == l0[x]
  }

  /**
   * Arenas that agree below `h` agree on everything said of `h`'s subtree:
   * its nodes, its shape, its entries and its ordering.
   */
  lemma {:induction false} AgreeSame<V>(n0: seq<Node<V>>, l0: seq<nat>, n1: seq<Node<V>>, l1: seq<nat>, h: nat)
    requires ArenaValid(n0, l0) && ArenaValid(n1, l1) && h < |n0| && h < |n1|
    requires Agree(n0, l0, n1, l1, h)
    ensures forall x :: InReach(n1, l1, h, x) <==> InReach(n0, l0, h, x)
    ensures Shaped(n1, l1, h) <==> Shaped(n0, l0, h)
    ensures forall k, v :: HasEntry(n1, l1, h, k, v) <==> HasEntry(n0, l0, h, k, v)
    ensures forall lo, hi :: Ordered(n1, l1, h, lo, hi) <==> Ordered(n0, l0, h, lo, hi)
    decreases l0[h]
  {
    assert InReach(n0, l0, h, h);
    assert n1[h] == n0[h] && l1[h] == l0[h];
    assert NodeOk(n0, l0, n0[h], l0[h]);
    assert NodeOk(n1, l1, n1[h], l1[h]);
    if n0[h].Index? {
      var cs := n0[h].children;
      forall i | 0 <= i < |cs|
        ensures (forall x :: InReach(n1, l1, cs[i], x) <==> InReach(n0, l0, cs[i], x))
        ensures Shaped(n1, l1, cs[i]) <==> Shaped(n0, l0, cs[i])
        ensures forall k, v :: HasEntry(n1, l1, cs[i], k, v) <==> HasEntry(n0, l0, cs[i], k, v)
        ensures forall lo, hi :: Ordered(n1, l1, cs[i], lo, hi) <==> Ordered(n0, l0, cs[i], lo, hi)
      {
        forall x | 0 <= x < |n0| && InReach(n0, l0, cs[i], x)
          ensures x < |n1| && x < |l1| && n1[x] == n0[x] && l1[x] == l0[x]
        {
          ReachThroughChild(n0, l0, h, i, x);
        }
        AgreeSame(n0, l0, n1, l1, cs[i]);
      }
      assert Disjoint(n1, l1, cs) <==> Disjoint(n0, l0, cs);
    }
  }

  /** Every leaf key of an ordered subtree lies within its bounds. */
  lemma {:induction false} OrderedBounds<V>(nodes: seq<Node<V>>, level: seq<nat>, h: nat, lo: Option<int>, hi: Option<int>, k: int)
    requires ArenaValid(nodes, level) && h < |nodes|
    requires Ordered(nodes, level, h, lo, hi) && InSubtree(nodes, level, h, k)
    ensures Above(lo, k) && Below(k, hi)
    decreases level[h]
  {
    assert NodeOk(nodes, level, nodes[h], level[h]);
    var keys := nodes[h].keys;
    if nodes[h].Index? {
      var i :| 0 <= i < |nodes[h].children| && InSubtree(nodes, level, nodes[h].children[i], k);
      OrderedBounds(nodes, level, nodes[h].children[i], LowerAt(keys, lo, i), UpperAt(keys, hi, i), k);
      if 0 < i {
        assert Above(lo, keys[i - 1]);
      }
      if i < |keys| {
        assert Below(keys[i], hi);
      }
    } else {
      var j :| 0 <= j < |keys| && keys[j] == k;
    }
  }

  /** An ordered subtree satisfies the separator invariant that search relies on. */
  lemma {:induction false} OrderedSeparated<V>(nodes: seq<Node<V>>, level: seq<nat>, h: nat, lo: Option<int>, hi: Option<int>)
    requires ArenaValid(nodes, level) && h < |nodes|
    requires Ordered(nodes, level, h, lo, hi)
    ensures Separated(nodes, level, h)
    decreases level[h]
  {
    assert NodeOk(nodes, level, nodes[h], level[h]);
    var keys := nodes[h].keys;
    if nodes[h].Index? {
      var cs := nodes[h].children;
      forall i | 0 <= i < |cs|
        ensures Separated(nodes, level, cs[i])
        ensures forall k :: InSubtree(nodes, level, cs[i], k) ==>
          (i < |keys| ==> k < keys[i]) && (0 < i ==> keys[i - 1] <= k)
      {
        OrderedSeparated(nodes, level, cs[i], LowerAt(keys, lo, i), UpperAt(keys, hi, i));
        forall k | InSubtree(nodes, level, cs[i], k)
          ensures (i < |keys| ==> k < keys[i]) && (0 < i ==> keys[i - 1] <= k)
        {
          OrderedBounds(nodes, level, cs[i], LowerAt(keys, lo, i), UpperAt(keys, hi, i), k);
        }
      }
    }
  }

  /** Under the ordering, a key stored below child `t` of an index node routes to `t` in the insert descent. */
  lemma EntryRoutes<V>(nodes: seq<Node<V>>, level: seq<nat>, h: nat, lo: Option<int>, hi: Option<int>, t: nat, k: int, v: V)
    requires ArenaValid(nodes, level) && h < |nodes| && nodes[h].Index? && t < |nodes[h].children|
    requires Ordered(nodes, level, h, lo, hi)
    requires HasEntry(nodes, level, nodes[h].children[t], k, v)
    ensures FirstAbove(nodes[h].keys, k) == t
  {
    assert NodeOk(nodes, level, nodes[h], level[h]);
    var keys := nodes[h].keys;
    HasEntryInSubtree(nodes, level, nodes[h].children[t], k, v);
    OrderedBounds(nodes, level, nodes[h].children[t], LowerAt(keys, lo, t), UpperAt(keys, hi, t), k);
    FirstAboveAt(keys, k, t);
  }
}
