/**
 * The node model of the B+Tree: leaf and index nodes stored in an arena and
 * referred to by handle (their position in the arena). It also holds the
 * list edits that BPlusTree.java performs on a node's parallel lists: the
 * sorted insertion of a leaf, and the two split loops.
 */
module Nodes {
  import opened Wrappers
  import opened KeyLocator

  /** The order of the tree (BPlusTree.java:18): a non-root node keeps D..2D keys. */
  const D: nat := 2

  /**
   * A node. A leaf holds parallel `keys`/`values` lists and the handles of its
   * neighbours in the leaf chain (`previousLeaf`, `nextLeaf`); an index node
   * holds `keys` and the handles of its `children`.
   */
  datatype Node<V> =
    | Leaf(keys: seq<int>, values: seq<V>, prev: Option<nat>, next: Option<nat>)
    | Index(keys: seq<int>, children: seq<nat>)

  /** The entry an overflowing node reports to its parent: the splitting key and the new right node. */
  datatype Entry = Entry(sep: int, right: nat)

  /** What a recursive delete reports to its parent (the source's `-1` and slot numbers). */
  datatype Signal = NoChange | MergedAt(slot: nat)

  /**
   * The runtime exceptions the Java code raises when a tree it has itself
   * corrupted sends it past the end of a list or to a missing neighbour.
   */
  datatype JavaException = IndexOutOfBounds | NullPointer

  /** The result of a delete step: a signal, or the exception the Java code throws. */
  datatype Outcome = Done(signal: Signal) | Thrown(exception: JavaException)

  /** `isUnderflow` (BPlusTree.java:294-296): fewer than D keys. */
  predicate IsUnderflow<V>(n: Node<V>)
  {
    |n.keys| < D
  }

  /** `isLeafMergable` (BPlusTree.java:368-370): the two leaves fit in one. */
  predicate IsLeafMergable<V>(left: Node<V>, right: Node<V>)
  {
    |left.keys| + |right.keys| <= D * 2
  }

  /** `isIndexMergable` (BPlusTree.java:432-434): the two index nodes and the separator between them fit in one. */
  predicate IsIndexMergable<V>(left: Node<V>, right: Node<V>)
  {
    |left.keys| + 1 + |right.keys| <= D * 2
  }

  /**
   * Two leaves are mergeable exactly when their joined entries do not
   * overflow; when they are not and one underflows, the other can lend an
   * entry and still hold D keys.
   */
  lemma LeafMergableMeaning<V>(left: Node<V>, right: Node<V>)
    ensures IsLeafMergable(left, right) <==> |left.keys + right.keys| <= 2 * D
    ensures !IsLeafMergable(left, right) && IsUnderflow(left) ==> D <= |right.keys| - 1
    ensures !IsLeafMergable(left, right) && IsUnderflow(right) ==> D <= |left.keys| - 1
  {
  }

  /**
   * Two index nodes are mergeable exactly when their keys joined around the
   * separator do not overflow; when they are not and one underflows, the
   * other can lend a key through the separator and still hold D keys.
   */
  lemma IndexMergableMeaning<V>(left: Node<V>, right: Node<V>, sep: int)
    ensures IsIndexMergable(left, right) <==> |left.keys + [sep] + right.keys| <= 2 * D
    ensures !IsIndexMergable(left, right) && IsUnderflow(left) ==> D <= |right.keys| - 1
    ensures !IsIndexMergable(left, right) && IsUnderflow(right) ==> D <= |left.keys| - 1
  {
  }

  /** A leaf-chain link is null or the handle of a leaf. */
  ghost predicate LinkOk<V>(nodes: seq<Node<V>>, link: Option<nat>)
  {
    link.Some? ==> link.value < |nodes| && nodes[link.value].Leaf?
  }

  /**
   * A node `n` sitting at height `lvl` of an arena: a leaf has as many values as
   * keys, sits at height 0 and links to leaves; an index node has one child
   * more than keys, and every child is a handle of the arena one level lower.
   */
  ghost predicate NodeOk<V>(nodes: seq<Node<V>>, level: seq<nat>, n: Node<V>, lvl: nat)
    requires |level| == |nodes|
  {
    match n
    case Leaf(keys, values, prev, next) =>
      |keys| == |values| && lvl == 0 && LinkOk(nodes, prev) && LinkOk(nodes, next)
    case Index(keys, children) =>
      |children| == |keys| + 1 && ChildrenAt(nodes, level, children, lvl)
  }

  /** Every handle of `children` is a node of the arena one level below `lvl`. */
  ghost predicate ChildrenAt<V>(nodes: seq<Node<V>>, level: seq<nat>, children: seq<nat>, lvl: nat)
    requires |level| == |nodes|
  {
    forall i :: 0 <= i < |children| ==> children[i] < |nodes| && level[children[i]] + 1 == lvl
  }

  /** Slices and concatenations of children lists one level below `lvl` stay one level below it. */
  lemma ChildrenAtSplice<V>(nodes: seq<Node<V>>, level: seq<nat>, xs: seq<nat>, ys: seq<nat>, lvl: nat, a: nat, b: nat)
    requires |level| == |nodes| && ChildrenAt(nodes, level, xs, lvl) && ChildrenAt(nodes, level, ys, lvl)
    requires a <= b <= |xs|
    ensures ChildrenAt(nodes, level, xs[a..b] + ys, lvl) && ChildrenAt(nodes, level, ys + xs[a..b], lvl)
  {
    var u, v := xs[a..b] + ys, ys + xs[a..b];
    forall i | 0 <= i < |u| ensures u[i] < |nodes| && level[u[i]] + 1 == lvl {
      if i < b - a { assert u[i] == xs[a + i]; } else { assert u[i] == ys[i - (b - a)]; }
    }
    forall i | 0 <= i < |v| ensures v[i] < |nodes| && level[v[i]] + 1 == lvl {
      if i < |ys| { assert v[i] == ys[i]; } else { assert v[i] == xs[a + i - |ys|]; }
    }
  }

  /**
   * The shape every node of the arena keeps: `level` gives each node's height.
   * It makes every descent terminate and makes every Java cast to `LeafNode`
   * or `IndexNode` succeed (siblings sit at one height, so they are of one kind).
   */
  ghost predicate ArenaValid<V>(nodes: seq<Node<V>>, level: seq<nat>)
  {
    |level| == |nodes| &&
    forall h :: 0 <= h < |nodes| ==> NodeOk(nodes, level, nodes[h], level[h])
  }

  /** Replacing a node by one of the same kind that fits its place keeps the arena valid. */
  lemma UpdateValid<V>(nodes: seq<Node<V>>, level: seq<nat>, h: nat, n: Node<V>)
    requires ArenaValid(nodes, level) && h < |nodes|
    requires n.Leaf? == nodes[h].Leaf?
    requires NodeOk(nodes, level, n, level[h])
    ensures ArenaValid(nodes[h := n], level)
  {
    var nodes' := nodes[h := n];
    forall x | 0 <= x < |nodes'|
      ensures NodeOk(nodes', level, nodes'[x], level[x])
    {
      assert NodeOk(nodes, level, nodes'[x], level[x]);
    }
  }

  /** Appending a node that fits at height `lvl` keeps the arena valid. */
  lemma AppendValid<V>(nodes: seq<Node<V>>, level: seq<nat>, n: Node<V>, lvl: nat)
    requires ArenaValid(nodes, level)
    requires NodeOk(nodes + [n], level + [lvl], n, lvl)
    ensures ArenaValid(nodes + [n], level + [lvl])
  {
    var nodes', level' := nodes + [n], level + [lvl];
    forall x | 0 <= x < |nodes'|
      ensures NodeOk(nodes', level', nodes'[x], level'[x])
    {
      if x < |nodes| {
        assert NodeOk(nodes, level, nodes[x], level[x]);
        assert nodes'[x] == nodes[x] && level'[x] == level[x];
      }
    }
  }

  /**
   * `IndexNode.insertSorted(entry, j)`: the entry's key goes in at position `j`
   * and its node at position `j + 1`, right of the child it split from.
   */
  function InsertEntryAt<V>(n: Node<V>, sep: int, right: nat, j: nat): (r: Node<V>)
    requires n.Index? && j <= |n.keys| && |n.children| == |n.keys| + 1
    ensures r.Index? && |r.keys| == |n.keys| + 1 && |r.children| == |r.keys| + 1
    ensures r.keys[j] == sep && r.keys[..j] == n.keys[..j] && r.keys[j + 1..] == n.keys[j..]
    ensures r.children[j + 1] == right && r.children[..j + 1] == n.children[..j + 1]
    ensures r.children[j + 2..] == n.children[j + 1..]
  {
    Index(n.keys[..j] + [sep] + n.keys[j..], n.children[..j + 1] + [right] + n.children[j + 1..])
  }

  /** Where each child of `InsertEntryAt` comes from. */
  lemma InsertEntryAtChild<V>(n: Node<V>, sep: int, right: nat, j: nat, p: nat)
    requires n.Index? && j <= |n.keys| && |n.children| == |n.keys| + 1 && p <= |n.keys| + 1
    ensures InsertEntryAt(n, sep, right, j).children[p] ==
      if p <= j then n.children[p] else if p == j + 1 then right else n.children[p - 1]
  {
    var r := InsertEntryAt(n, sep, right, j);
    if p > j + 1 {
      assert r.children[p] == r.children[j + 2..][p - j - 2];
    } else if p <= j {
      assert r.children[p] == r.children[..j + 1][p];
    }
  }

  /**
   * Putting a new key in at the slot the scan picks keeps the keys of an
   * index node strictly ascending: what `IndexNode.insertSorted` needs the
   * slot for.
   */
  lemma InsertEntryAtAscending<V>(n: Node<V>, sep: int, right: nat)
    requires n.Index? && |n.children| == |n.keys| + 1
    requires StrictlyAscending(n.keys) && sep !in n.keys
    ensures StrictlyAscending(InsertEntryAt(n, sep, right, FirstAbove(n.keys, sep)).keys)
  {
    var j := FirstAbove(n.keys, sep);
    var ks := InsertEntryAt(n, sep, right, j).keys;
    forall a, b | 0 <= a < b < |ks| ensures ks[a] < ks[b] {
      if b < j {
        assert ks[a] == n.keys[a] && ks[b] == n.keys[b];
      } else if b == j {
        assert ks[a] == n.keys[a];
      } else if a > j {
        assert ks[a] == n.keys[a - 1] && ks[b] == n.keys[b - 1];
      } else if a == j {
        assert ks[b] == n.keys[b - 1];
        assert sep < n.keys[j];
      } else {
        assert ks[a] == n.keys[a] && ks[b] == n.keys[b - 1];
      }
    }
  }

  /** A node one level up that fits at its height still fits with one more child. */
  lemma InsertEntryAtOk<V>(nodes: seq<Node<V>>, level: seq<nat>, n: Node<V>, sep: int, right: nat, j: nat, lvl: nat)
    requires |level| == |nodes| && n.Index? && NodeOk(nodes, level, n, lvl) && j <= |n.keys|
    requires right < |nodes| && level[right] + 1 == lvl
    ensures NodeOk(nodes, level, InsertEntryAt(n, sep, right, j), lvl)
  {
    var r := InsertEntryAt(n, sep, right, j);
    forall c | 0 <= c < |r.children|
      ensures r.children[c] < |nodes| && level[r.children[c]] + 1 == lvl
    {
      if c > j + 1 {
        assert r.children[c] == r.children[j + 2..][c - j - 2] == n.children[c - 1];
      } else if c < j + 1 {
        assert r.children[c] == r.children[..j + 1][c] == n.children[c];
      }
    }
  }

  /** The value a leaf's lists associate with `key`, looked up from the left. */
  function Lookup<V>(keys: seq<int>, values: seq<V>, key: int): Option<V>
    requires |keys| == |values|
  {
    if |keys| == 0 then None
    else if keys[0] == key then Some(values[0])
    else Lookup(keys[1..], values[1..], key)
  }

  /** The lists of a leaf with the entry at position `i` taken out. */
  function RemoveAt<V>(keys: seq<int>, values: seq<V>, i: nat): (r: (seq<int>, seq<V>))
    requires |keys| == |values| && i < |keys|
    ensures |r.0| == |r.1| == |keys| - 1
  {
    (keys[..i] + keys[i + 1..], values[..i] + values[i + 1..])
  }

  /**
   * Taking out the entry at `i` of a strictly ascending leaf keeps it ascending,
   * loses its key, and keeps the value of every other key.
   */
  lemma RemoveAtCorrect<V>(keys: seq<int>, values: seq<V>, i: nat)
    requires |keys| == |values| && i < |keys|
    requires StrictlyAscending(keys)
    ensures var r := RemoveAt(keys, values, i);
      StrictlyAscending(r.0) &&
      Lookup(r.0, r.1, keys[i]) == None &&
      forall k :: k != keys[i] ==> Lookup(r.0, r.1, k) == Lookup(keys, values, k)
  {
    RemoveAtAscending(keys, i);
    RemoveAtLookup(keys, values, i);
  }

  /** Taking out the entry at `i` of a strictly ascending leaf loses its key and keeps every other key's value. */
  lemma {:induction false} RemoveAtLookup<V>(keys: seq<int>, values: seq<V>, i: nat)
    requires |keys| == |values| && i < |keys|
    requires StrictlyAscending(keys)
    ensures var r := RemoveAt(keys, values, i);
      Lookup(r.0, r.1, keys[i]) == None &&
      forall k :: k != keys[i] ==> Lookup(r.0, r.1, k) == Lookup(keys, values, k)
  {
    var r := RemoveAt(keys, values, i);
    if i == 0 {
      assert r.0 == keys[1..] && r.1 == values[1..];
      LookupAbsent(keys[1..], values[1..], keys[0]);
    } else {
      assert StrictlyAscending(keys[1..]);
      RemoveAtLookup(keys[1..], values[1..], i - 1);
      var rest := RemoveAt(keys[1..], values[1..], i - 1);
      assert r.0 == [keys[0]] + rest.0 && r.1 == [values[0]] + rest.1;
      assert r.0[1..] == rest.0 && r.1[1..] == rest.1;
      assert keys[1..][i - 1] == keys[i] && keys[0] < keys[i];
    }
  }

  /** Taking out the key at `i` of strictly ascending keys leaves them strictly ascending. */
  lemma RemoveAtAscending(keys: seq<int>, i: nat)
    requires i < |keys| && StrictlyAscending(keys)
    ensures StrictlyAscending(keys[..i] + keys[i + 1..])
  {
    var r := keys[..i] + keys[i + 1..];
    forall a, b | 0 <= a < b < |r| ensures r[a] < r[b] {
      var a', b' := if a < i then a else a + 1, if b < i then b else b + 1;
      assert r[a] == keys[a'] && r[b] == keys[b'];
    }
  }

  /**
   * `removeEntry` on a leaf's lists (BPlusTree.java:287-292): the entry the
   * binary search finds is taken out; on a miss the lists stay as they are.
   */
  function RemoveKey<V>(keys: seq<int>, values: seq<V>, key: int): (r: (seq<int>, seq<V>))
    requires |keys| == |values|
    ensures |r.0| == |r.1|
    ensures key !in keys ==> r == (keys, values)
    ensures |keys| - 1 <= |r.0| <= |keys|
  {
    var index := BinarySearch(keys, key);
    if index < 0 then (keys, values) else RemoveAt(keys, values, index)
  }

  /**
   * Removing a key from a strictly ascending leaf keeps it ascending, leaves
   * the key with no value and keeps the value of every other key.
   */
  lemma RemoveKeyCorrect<V>(keys: seq<int>, values: seq<V>, key: int)
    requires |keys| == |values|
    requires StrictlyAscending(keys)
    ensures var r := RemoveKey(keys, values, key);
      StrictlyAscending(r.0) &&
      (key in keys ==> |r.0| == |keys| - 1) &&
      Lookup(r.0, r.1, key) == None &&
      forall k :: k != key ==> Lookup(r.0, r.1, k) == Lookup(keys, values, k)
  {
    if key in keys {
      var i :| 0 <= i < |keys| && keys[i] == key;
      BinarySearchHit(keys, key, i);
      RemoveAtCorrect(keys, values, i);
    } else {
      LookupAbsent(keys, values, key);
    }
  }

  /** In a strictly ascending leaf, the value of the key at position `i` is the value beside it. */
  lemma {:induction false} LookupAt<V>(keys: seq<int>, values: seq<V>, i: nat)
    requires |keys| == |values| && i < |keys|
    requires StrictlyAscending(keys)
    ensures Lookup(keys, values, keys[i]) == Some(values[i])
  {
    if i > 0 {
      LookupAt(keys[1..], values[1..], i - 1);
    }
  }

  /** A key absent from a leaf has no value there. */
  lemma {:induction false} LookupAbsent<V>(keys: seq<int>, values: seq<V>, key: int)
    requires |keys| == |values|
    requires key !in keys
    ensures Lookup(keys, values, key) == None
  {
    if |keys| > 0 {
      LookupAbsent(keys[1..], values[1..], key);
    }
  }

  /**
   * `LeafNode.insertSorted(key, value)`. LeafNode.java is not part of this
   * model; the operation is defined from its use in `insertLeafNodeHelper`:
   * the entry goes before the first larger key, and an equal key has its
   * value replaced.
   */
  function InsertSorted<V>(keys: seq<int>, values: seq<V>, key: int, value: V): (r: (seq<int>, seq<V>))
    requires |keys| == |values|
    ensures |r.0| == |r.1|
    ensures |keys| <= |r.0| <= |keys| + 1
  {
    if |keys| == 0 then ([key], [value])
    else if key < keys[0] then ([key] + keys, [value] + values)
    else if key == keys[0] then (keys, [value] + values[1..])
    else
      var rest := InsertSorted(keys[1..], values[1..], key, value);
      ([keys[0]] + rest.0, [values[0]] + rest.1)
  }

  /** The keys of a sorted insertion are the old keys plus the new one. */
  lemma {:induction false} InsertSortedKeys<V>(keys: seq<int>, values: seq<V>, key: int, value: V)
    requires |keys| == |values|
    ensures var r := InsertSorted(keys, values, key, value);
      key in r.0 && forall k :: k in r.0 <==> k in keys || k == key
  {
    if |keys| > 0 && key > keys[0] {
      InsertSortedKeys(keys[1..], values[1..], key, value);
      assert keys == [keys[0]] + keys[1..];
    }
  }

  /**
   * Sorted insertion keeps a leaf strictly ascending, maps `key` to `value`,
   * and leaves the value of every other key as it was.
   */
  lemma {:induction false} InsertSortedCorrect<V>(keys: seq<int>, values: seq<V>, key: int, value: V)
    requires |keys| == |values|
    requires StrictlyAscending(keys)
    ensures var r := InsertSorted(keys, values, key, value);
      StrictlyAscending(r.0) &&
      Lookup(r.0, r.1, key) == Some(value) &&
      forall k :: k != key ==> Lookup(r.0, r.1, k) == Lookup(keys, values, k)
  {
    var r := InsertSorted(keys, values, key, value);
    if |keys| == 0 {
    } else if key < keys[0] {
      assert r.0[1..] == keys && r.1[1..] == values;
    } else if key == keys[0] {
      assert r.0[1..] == keys[1..] && r.1[1..] == values[1..];
    } else {
      var rest := InsertSorted(keys[1..], values[1..], key, value);
      InsertSortedCorrect(keys[1..], values[1..], key, value);
      InsertSortedKeys(keys[1..], values[1..], key, value);
      assert r.0[1..] == rest.0 && r.1[1..] == rest.1;
      forall i, j | 0 <= i < j < |r.0| ensures r.0[i] < r.0[j] {
        if i == 0 {
          assert r.0[j] in rest.0;
          assert r.0[j] in keys[1..] || r.0[j] == key;
        }
      }
    }
  }

  /**
   * The loop of `splitLeafNode` (BPlusTree.java:152-157): while the leaf holds
   * more than D entries, its entry at position D moves to the end of the new
   * right lists. The leaf keeps its first D entries; the right lists get the
   * rest, in order.
   */
  method SplitLeafLists<V>(keys: seq<int>, values: seq<V>)
    returns (leftKeys: seq<int>, leftValues: seq<V>, rightKeys: seq<int>, rightValues: seq<V>)
    requires |keys| == |values| && |keys| > D
    ensures leftKeys == keys[..D] && leftValues == values[..D]
    ensures rightKeys == keys[D..] && rightValues == values[D..]
    ensures leftKeys + rightKeys == keys && leftValues + rightValues == values
  {
    leftKeys, leftValues, rightKeys, rightValues := keys, values, [], [];
    while |leftKeys| > D
      invariant |leftKeys| == |leftValues| >= D
      invariant keys == leftKeys[..D] + rightKeys + leftKeys[D..]
      invariant values == leftValues[..D] + rightValues + leftValues[D..]
      decreases |leftKeys|
    {
      rightKeys := rightKeys + [leftKeys[D]];
      leftKeys := leftKeys[..D] + leftKeys[D + 1..];
      rightValues := rightValues + [leftValues[D]];
      leftValues := leftValues[..D] + leftValues[D + 1..];
    }
  }

  /**
   * The body of `splitIndexNode` (BPlusTree.java:178-192): the key at position
   * D is taken out as the splitting key, and the keys after it, with the
   * children after position D, move to the new right lists.
   */
  method SplitIndexLists(keys: seq<int>, children: seq<nat>)
    returns (leftKeys: seq<int>, leftChildren: seq<nat>, sep: int, rightKeys: seq<int>, rightChildren: seq<nat>)
    requires |children| == |keys| + 1 && |keys| > D
    ensures sep == keys[D]
    ensures leftKeys == keys[..D] && leftChildren == children[..D + 1]
    ensures rightKeys == keys[D + 1..] && rightChildren == children[D + 1..]
    ensures |leftChildren| == |leftKeys| + 1 && |rightChildren| == |rightKeys| + 1
    ensures leftKeys + [sep] + rightKeys == keys && leftChildren + rightChildren == children
  {
    sep := keys[D];
    leftKeys := keys[..D] + keys[D + 1..];
    rightKeys := [];
    rightChildren := [children[D + 1]];
    leftChildren := children[..D + 1] + children[D + 2..];
    while |leftKeys| > D
      invariant |leftChildren| == |leftKeys| + 1 && |leftKeys| >= D
      invariant keys == leftKeys[..D] + [sep] + rightKeys + leftKeys[D..]
      invariant children == leftChildren[..D + 1] + rightChildren + leftChildren[D + 1..]
      decreases |leftKeys|
    {
      rightKeys := rightKeys + [leftKeys[D]];
      leftKeys := leftKeys[..D] + leftKeys[D + 1..];
      rightChildren := rightChildren + [leftChildren[D + 1]];
      leftChildren := leftChildren[..D + 1] + leftChildren[D + 2..];
    }
  }
}
