# B+Tree of order 2, modelled in Dafny

This project models an in-memory B+Tree written in Java: the tree object in
`BPlusTree.java`, the search in `Search.java` and the child locator in
`FindKeyIndex.java`. The tree has a fixed order `D = 2`. A non-root node is
meant to hold `D..2D` keys. Leaves hold parallel `keys`/`values` lists and are
chained by `previousLeaf`/`nextLeaf`. Index nodes hold `keys` and one child
more than keys.

The model lays out as follows:

- `wrappers.dfy` (`Wrappers`): the `Option` type.
- `key_locator.dfy` (`KeyLocator`): `Collections.binarySearch`, which follows
  java.util's indexed binary search; the `find` rule of `FindKeyIndex`; and
  the linear slot scan that `insertIndexNodeHelper` uses.
- `nodes.dfy` (`Nodes`): nodes, the arena they live in, and its shape
  invariant. It also has the list edits a node undergoes: sorted leaf
  insertion, `IndexNode.insertSorted`, `removeEntry`'s removal, and the two
  split loops. The predicates `isUnderflow`, `isLeafMergable` and
  `isIndexMergable` are `Nodes.IsUnderflow`, `Nodes.IsLeafMergable` and
  `Nodes.IsIndexMergable`.
- `search.dfy` (`Search`): the descent to a leaf and the exact lookup, plus
  the separator invariant under which search finds exactly the keys a tree
  holds.
- `ordering.dfy` (`Ordering`): the tree invariant insert keeps. `Ordered`
  says each node's keys ascend within the bounds its parent's keys give,
  and `Shaped` says the subtrees of siblings share no node. Under `Ordered`
  the separator invariant of `Search` holds.
- `insertion.dfy` (`Insertion`): what each insert step does to the arena,
  as ghost functions, and the proof that an insert keeps `Ordered` and
  `Shaped`, finds the key with its new value and leaves every other key as
  it was.
- `occupancy.dfy` (`Occupancy`): the bounds documented at line 11 of
  `BPlusTree.java`. `Filled` says a node holds at most `2D` keys and a node
  other than the root at least `D`. An insert into an ordered, shaped tree
  within the bounds keeps them.
- `deletion.dfy` (`Deletion`): a delete whose leaf keeps `D` entries, which
  edits that one leaf, and what it keeps: search results for other keys,
  order, shape and occupancy.
- `bplustree.dfy` (`Tree`): the class `BPlusTree`, with the recursive insert
  and delete and every split, merge and redistribution helper, as imperative
  methods. Each insert method computes exactly the matching function of
  `Insertion`.

The class keeps every node in an arena, `nodes: seq<Node<V>>`, and a Java node
reference is a handle into it. That includes the leaf chain links. `new`
appends to the arena. A node the Java code drops stays in the arena,
unreachable. A ghost `level` gives each node's height: leaves are at 0, and the
children of an index node are one level below it. With that invariant every
descent terminates, and every Java cast to `LeafNode`/`IndexNode` succeeds.
`node == root` becomes handle equality. Values have no further structure
(`V(!new)`), so an entry of the tree is a key and a value.

On a tree that the Java code has itself corrupted, it can throw
`IndexOutOfBoundsException` or `NullPointerException`. The model returns
`Thrown(...)` with the partial state at the throw point. A recursive delete
reports what the Java `int` encodes: `-1` is `NoChange`, and a slot is
`MergedAt(slot)`.

Insert reads the leaf chain only in `splitLeafNode` (lines 160-164), to
copy the old next link into the new leaf; no descent and no content depends
on it. On a tree that is ordered and shaped, or
empty, `Tree.BPlusTree.Insert` leaves a tree that is again ordered and
shaped, in which search finds the new value for the key and the old value,
or nothing, for every other key. When the tree was also within the
occupancy bounds, it still is.

The source breaks the leaf chain when a leaf splits. Line 162 of
`BPlusTree.java` writes the new leaf's own back link. Line 163 overwrites it.
The old next leaf's `previousLeaf` is never redirected, and `deleteLeafNode`
later trusts that link to pick the sibling it merges with or borrows from.
The model reproduces this, and `Tree.BPlusTree.SplitLeafNode` states it.
After an insert has split a leaf, a later delete can therefore pair a leaf
with a node that is not its sibling, and no tree invariant is claimed to
survive a delete whose leaf underflows. For delete the model proves:

- every operation keeps the arena well formed;
- every helper does exactly the edit stated in its contract;
- every recursive step keeps a stated frame: nothing above it changes except
  as described;
- search returns exactly the keys of any tree that satisfies the separator
  invariant, and a delete from a sorted root leaf removes the key;
- when the leaf the delete reaches still holds `D` entries after
  `removeEntry`, only that leaf changes and every step reports no change
  (lines 226-227 and 265-266). No leaf link is read on that path. On an
  ordered tree the key is then no longer found, every other key keeps its
  value, and order, shape and occupancy are kept
  (`deletion.dfy`, module `Deletion`);
- deleting a key that search does not find from a tree within the occupancy
  bounds changes no node.

## Model

| member | source | states |
|---|---|---|
| KeyLocator.BinarySearchRange | FindKeyIndex.java:22 | The binary search between `low` and `high` returns an index holding the key, or `-(p + 1)` for an insertion point `p` inside the range. |
| KeyLocator.BinarySearch | FindKeyIndex.java:22 | `Collections.binarySearch` returns a value in `-(n+1)..n-1`; a non-negative result indexes the key. |
| KeyLocator.BinarySearchRangeSorted | FindKeyIndex.java:22 | On ascending keys, a miss returns the point that separates the smaller keys from the larger ones. |
| KeyLocator.BinarySearchHit | Search.java:30 | On strictly ascending keys, a present key is found at its position. |
| KeyLocator.BinarySearchMiss | FindKeyIndex.java:22-25 | On strictly ascending keys, an absent key gives `-(p+1)`; every key before `p` is smaller and every key from `p` on is larger. |
| KeyLocator.Find | FindKeyIndex.java:21-26 | `find` always returns a valid child index `0..keys.size()`. |
| KeyLocator.FindOnMatch | FindKeyIndex.java:22-25 | An exact match at `i` routes to child `i + 1`. |
| KeyLocator.FindOnMiss | FindKeyIndex.java:22-25 | An absent key routes to its insertion point, the number of smaller keys. |
| KeyLocator.FindRoutes | FindKeyIndex.java:22-25 | On strictly ascending keys with result `r`, the keys before `r` are `<= key` and the keys from `r` on are `> key`. |
| KeyLocator.FirstAbove | BPlusTree.java:72-78 | The scan's slot is the first position whose key exceeds the key, or the key count; no ordering is needed. |
| KeyLocator.DescentSlot | BPlusTree.java:83-89 | The slot loop's result equals `FirstAbove`. |
| KeyLocator.FirstAboveIsFind | BPlusTree.java:72-78 | On strictly ascending keys, insertion's descent and `find` pick the same child. |
| KeyLocator.FirstAboveAt | BPlusTree.java:72-78 | On strictly ascending keys, a slot `t` whose keys before it are at most the key, and whose own key, if any, exceeds it, is the slot the scan picks. |
| Nodes.InsertEntryAt | BPlusTree.java:91 | `IndexNode.insertSorted(entry, j)`: the new keys and children have one element more, the key sits at `j` and the node at `j + 1`, and every old key and child keeps its relative order, before or after them. |
| Nodes.InsertEntryAtAscending | BPlusTree.java:72-91 | A new key put in at the slot the scan picks keeps an index node's keys strictly ascending. |
| Nodes.IsUnderflow | BPlusTree.java:294-296 | `isUnderflow`: fewer than `D` keys. |
| Nodes.IsLeafMergable | BPlusTree.java:368-370 | `isLeafMergable`: the two leaves hold at most `2D` keys together. |
| Nodes.IsIndexMergable | BPlusTree.java:432-434 | `isIndexMergable`: the two index nodes and their separator hold at most `2D` keys together. |
| Nodes.LeafMergableMeaning | BPlusTree.java:307-315 | Two leaves are mergeable exactly when their joined keys do not overflow. When they are not and one underflows, the other holds more than `D` keys, so it can lend one and keep `D`. |
| Nodes.IndexMergableMeaning | BPlusTree.java:381-389 | Two index nodes are mergeable exactly when their keys joined around the separator do not overflow. When they are not and one underflows, the other holds more than `D` keys and can lend one through the separator. |
| Nodes.RemoveAt | BPlusTree.java:290-291 | Removing at one index shortens both lists by one. |
| Nodes.RemoveAtCorrect | BPlusTree.java:290-291 | Removing the entry at `i` from a sorted leaf keeps it sorted, leaves that key without a value, and keeps every other key's value. |
| Nodes.RemoveAtAscending | BPlusTree.java:290-291 | Removing one entry from strictly ascending keys keeps them strictly ascending. |
| Nodes.RemoveAtLookup | BPlusTree.java:290-291 | After removing the entry at `i` from a sorted leaf, that key has no value and every other key keeps its value. |
| Nodes.RemoveKey | BPlusTree.java:287-292 | `removeEntry` leaves the lists unchanged for an absent key and removes at most one entry. |
| Nodes.RemoveKeyCorrect | BPlusTree.java:287-292 | On a sorted leaf, `removeEntry` removes exactly one entry when the key is present. Afterwards the key has no value, every other key keeps its value, and the leaf stays sorted. |
| Nodes.InsertSorted | BPlusTree.java:123 | Sorted leaf insertion keeps the lists parallel and adds at most one entry. |
| Nodes.InsertSortedKeys | BPlusTree.java:123 | After insertion the leaf holds exactly the old keys plus the new one. |
| Nodes.InsertSortedCorrect | BPlusTree.java:123 | Insertion keeps a leaf sorted, maps the key to the new value, and keeps every other key's value. |
| Nodes.SplitLeafLists | BPlusTree.java:150-157 | The split loop leaves the first `D` entries in the leaf and moves the rest, in order, to the right lists; the two parts concatenate to the original. |
| Nodes.SplitIndexLists | BPlusTree.java:178-192 | The promoted key is `keys[D]` and is in neither half. The left keeps `D` keys and `D+1` children; the right has one child more than keys. The keys satisfy `left ++ [sep] ++ right == keys`, and the children concatenate to the original. |
| Search.SearchLeafNode | Search.java:45-54 | The descent always ends at a leaf, which is the node itself at a leaf; at an index node it continues into `children[find(keys, key)]`. |
| Search.SearchTree | Search.java:24-37 | An empty tree gives not-found. A found value sits beside the key in the reached leaf, and a key absent from that leaf gives not-found. |
| Search.SearchFindsLeafEntry | Search.java:29-36 | When the reached leaf is sorted and holds the key at `i`, search returns `values[i]`. |
| Search.FindLocatesChild | Search.java:49-51 | Under the separator invariant, `find` routes a key held below child `i` to child `i`. |
| Search.SearchLeafInSubtree | Search.java:45-54 | The reached leaf belongs to the subtree the descent started from. |
| Search.SearchLeafHoldsKey | Search.java:39-54 | Under the separator invariant, a key held anywhere in the subtree is in the leaf the descent reaches. |
| Search.SearchComplete | Search.java:24-54 | Under the separator invariant, search finds a key if and only if the tree holds it. |
| Search.LeafHoldsLookup | Search.java:29-36 | On a strictly ascending leaf, storing `k` beside `v` is the same as the exact lookup returning `v`. |
| Search.HasEntryThroughChild | Search.java:45-54 | An entry held below a child of an index node is held below the node. |
| Search.HasEntryInSubtree | Search.java:45-54 | The key of an entry held below a node is a key of that subtree. |
| Search.SearchLeafHoldsEntry | Search.java:39-54 | Under the separator invariant, the leaf the descent for `k` reaches holds every entry for `k` in the subtree. |
| Search.SearchLeafEntryInSubtree | Search.java:39-54 | An entry of the leaf the descent reaches is an entry of the subtree it started from. |
| Search.SearchByEntry | Search.java:24-54 | Under the separator invariant, search returns `v` for `k` if and only if the tree holds the entry `(k, v)`. |
| Ordering.SepFits | BPlusTree.java:72-91 | A separator strictly inside the bounds of child `i` is new to the keys, the slot scan puts it at `i`, and every key of the node with it in place stays within the node's bounds. |
| Ordering.AgreeSame | BPlusTree.java:55-94 | Two arenas that agree on every node below `h` agree on its subtree's nodes, shape, entries and order, so what an insert step does not touch keeps its meaning. |
| Ordering.OrderedBounds | BPlusTree.java:70-94 | Every key stored in an ordered subtree lies within the subtree's bounds. |
| Ordering.OrderedSeparated | Search.java:45-54 | An ordered subtree satisfies the separator invariant under which search is complete. |
| Ordering.EntryRoutes | BPlusTree.java:72-78 | In an ordered node, a key stored below child `t` is routed to `t` by the insert descent's slot scan. |
| Insertion.LeafInsertion | BPlusTree.java:119-138 | `insertLeafNodeHelper` as a function of the arena: the result is a well-formed arena, nodes are only appended, nothing above the leaf changes, the root changes only to a new one-key root over the leaf, and a reported entry names a new leaf. |
| Insertion.OverflowDealing | BPlusTree.java:96-110 | `dealOverFlowed` as a function of the arena, with the same frame at its node. |
| Insertion.EntryAdding | BPlusTree.java:84-92 | The intake of a child's reported entry as a function of the arena, with the same frame at its node. |
| Insertion.Insertion | BPlusTree.java:55-94 | `insertHelper` as a function of the arena, with the same frame at its node. |
| Insertion.TreeInsertion | BPlusTree.java:32-46 | `insert` as a function of the arena: the result is a well-formed arena with a root in range, and nothing is left to report. |
| Insertion.InsertStepWeaken | BPlusTree.java:79-82 | A step below `h` that reports nothing keeps the frame of a step at `h`. |
| Insertion.InsertStepChain | BPlusTree.java:79-92 | A step at a child followed by the intake at `h` keeps the frame of a step at `h`. |
| Insertion.OverflowAscending | BPlusTree.java:96-110 | Dealing with an overflow keeps strictly ascending keys, in the node and in a reported right node. |
| Insertion.SortedLeafUpdated | BPlusTree.java:123 | Sorted insertion into an ordered leaf keeps its keys ascending within its bounds and holds exactly the updated entries. |
| Insertion.LeafSplitInserted | BPlusTree.java:126-137 | The two halves of a split leaf are ordered on either side of the right leaf's first key, share no node, and together hold exactly the updated entries. |
| Insertion.GrowRootOk | BPlusTree.java:101-106 | A new root over the two halves of a split is one ordered, shaped subtree that holds the updated entries. |
| Insertion.LeafInsertionCorrect | BPlusTree.java:119-138 | `LeafInsertion` is correct: nothing outside the leaf changes, and the leaf, a new root over it, or its two reported halves hold the updated entries in order. |
| Insertion.ChildOrdered | BPlusTree.java:79-82 | When a child's subtree is ordered and shaped after its step and the node is unchanged, the node's subtree is ordered and shaped. |
| Insertion.ChildEntries | BPlusTree.java:79-82 | When a child's subtree holds the updated entries after its step and the node is unchanged, the node's subtree holds them. |
| Insertion.EntryInserted | BPlusTree.java:84-91 | Taking a child split's entry in at the slot the scan picks leaves the node's subtree ordered, shaped and holding the updated entries. |
| Insertion.IndexSplitInserted | BPlusTree.java:177-197 | Splitting an index node whose subtree holds the updated entries in order gives two ordered, disjoint halves, split at `keys[D]`, that hold them. |
| Insertion.OverflowCorrect | BPlusTree.java:96-110 | `OverflowDealing` after the intake is correct: a node within bounds stays, and an overflowing one splits into two halves that are reported or hung under a new root. |
| Insertion.DescentCorrect | BPlusTree.java:79-82 | The descent into the chosen child is correct at the node when that child reports nothing. |
| Insertion.SplitDescentCorrect | BPlusTree.java:79-92 | The descent into the chosen child, followed by the intake of the split it reports, is correct at the node. |
| Insertion.InsertionCorrect | BPlusTree.java:55-94 | `insertHelper` is correct: on an ordered, shaped subtree the key belongs to, nothing outside it changes, and the subtree, a root grown over it, or its two reported halves hold the old entries with `key` mapped to `value`, in order. |
| Insertion.SearchUpdated | Search.java:24-37 | When a tree's new entries are its old ones with `key` mapped to `value`, search finds `value` for `key` and every other key as before. |
| Insertion.RootInsertionCorrect | BPlusTree.java:37-45 | Inserting from the root of an ordered, shaped tree gives an ordered, shaped tree in which the key finds its new value and every other key what it had. |
| Insertion.TreeInsertionCorrect | BPlusTree.java:32-46 | `insert` is correct on an empty or ordered, shaped tree: the new tree is ordered and shaped, search finds `value` for `key`, and every other key searches as before. |
| Occupancy.AgreeFilled | BPlusTree.java:11 | Two arenas that agree on every node below `h` agree on whether its subtree is within the occupancy bounds. |
| Occupancy.LeafFilled | BPlusTree.java:119-138 | Inserting into a leaf within the bounds keeps them: a leaf that stays has at most `2D` entries and, unless it is the root, at least `D`; both halves of a split have between `D` and `2D`; a root grown over them is within the bounds. |
| Occupancy.IndexSplitFilled | BPlusTree.java:177-197 | Splitting an index node of `2D + 1` keys over filled children leaves two halves of `D` keys, each over filled children. |
| Occupancy.OverflowFilled | BPlusTree.java:96-110 | `dealOverFlowed` on a node with at most one key too many keeps the bounds, whether the node stays, is reported split, or grows a root. |
| Occupancy.EntryFilled | BPlusTree.java:84-92 | Taking in a split child's entry, over filled children and a filled new node, keeps the bounds at the node. |
| Occupancy.DescentFilled | BPlusTree.java:79-92 | When the step at the chosen child keeps the bounds, so does the step at the node, siblings included. |
| Occupancy.InsertionFilled | BPlusTree.java:55-94 | `insertHelper` on an ordered, shaped subtree within the bounds keeps them: in the subtree, under a new root, or in both halves of a reported split. |
| Occupancy.TreeInsertionFilled | BPlusTree.java:32-46 | `insert` on an empty tree, or an ordered, shaped tree within the bounds of line 11, leaves the tree at the new root within them. |
| Tree.IndexRedistributedInOrder | BPlusTree.java:401-430 | Index redistribution keeps the in-order sequence `left.keys ++ [separator] ++ right.keys` and the children of both. Only the parent's separator changes, and neither node underflows afterwards. |
| Tree.LeafRedistributedKeeps | BPlusTree.java:336-366 | A leaf redistribution that completes keeps the in-order keys and values of the two leaves, leaves neither underflowing, and rewrites only the parent key at the left leaf's slot, to the right leaf's first key. |
| Tree.LeafMergeReportsLeftSlot | BPlusTree.java:333 | Under the parent's separator invariant, merging a non-empty leaf reports that leaf's own slot, so the caller removes the left node and its right separator. |
| Tree.IndexMergeReportsLeftSlot | BPlusTree.java:391-399 | Under the parent's ordering, merging a non-empty index node reports that node's own slot (line 394), so the caller removes the left node and its right separator; a node in the last slot makes the merge throw and changes nothing. |
| Deletion.RemovedValid | BPlusTree.java:287-292 | `removeEntry` on a leaf keeps the arena well formed and changes no other node. |
| Deletion.DescentKept | Search.java:45-54 | Replacing a leaf by a leaf changes no descent from any node, for any key. |
| Deletion.SearchIsLookup | Search.java:45-54 | When the reached leaf is strictly ascending, `search` returns that leaf's lookup of the key. |
| Deletion.RemovalSearched | BPlusTree.java:260-266 | In an ordered tree, after `removeEntry` on the leaf the descent for `key` reaches, `key` is not found and every other key is found with its old value. |
| Deletion.LeafReplacedShaped | BPlusTree.java:287-292 | Replacing a leaf by a leaf keeps every subtree's reach, and keeps every subtree shaped exactly when it was. |
| Deletion.LeafShrunk | BPlusTree.java:287-292 | A leaf replaced by one holding some of its keys, still ascending, keeps every ordered subtree ordered, and keeps the occupancy bounds when the new leaf holds at least `D` keys. |
| Deletion.RemovedKeysKept | BPlusTree.java:287-292 | Every key left by `removeEntry` is a key the leaf had. |
| Deletion.RemovalKeepsInvariants | BPlusTree.java:221-227 | In an ordered tree, a delete whose reached leaf keeps `D` entries leaves the tree ordered, shaped exactly when it was, and within the occupancy bounds when it was. |
| Deletion.FilledReachedLeaf | BPlusTree.java:11 | In a tree within the occupancy bounds with an index root, the leaf any descent reaches holds at least `D` keys. |
| Deletion.MissRemovesNothing | BPlusTree.java:287-289 | When `search` misses a key, `removeEntry` on the leaf it reached leaves both lists unchanged. |
| Deletion.AbsentKeyRemovesNothing | BPlusTree.java:260-266 | Deleting a key that search misses, in a tree within the bounds with an index root, keeps the reached leaf at `D` entries and changes no node. |
| Tree.DeletedRootLeafIsGone | BPlusTree.java:268-272 | After a delete from a sorted root leaf, search does not find the key, whether the leaf stays the root or the root becomes null. |
| Tree.BPlusTree.constructor | BPlusTree.java:14-18 | A new tree is empty: no root. |
| Tree.BPlusTree.SplitLeafNode | BPlusTree.java:147-168 | The leaf keeps its first `D` entries and a new right leaf gets the rest. The leaf links forward to the new leaf; the new leaf links back to it and forward to the old next leaf. The old next leaf is unchanged, so its back link is stale. The separator is the right leaf's first key. |
| Tree.BPlusTree.SplitIndexNode | BPlusTree.java:177-197 | The node keeps `D` keys and `D+1` children, and a new node takes the rest. The promoted `keys[D]` is in neither node; keys and children concatenate back to the original. |
| Tree.BPlusTree.GrowRoot | BPlusTree.java:130-134 | A new root holds one key and the children `[old node, right]`, one level up. |
| Tree.BPlusTree.InsertLeafNodeHelper | BPlusTree.java:119-138 | The new state and the reported entry are exactly `Insertion.LeafInsertion`: sorted insertion, then a split of an overflowing leaf that grows a new root or reports `(right.keys[0], right)`. Its correctness is `Insertion.LeafInsertionCorrect`. |
| Tree.BPlusTree.DealOverFlowed | BPlusTree.java:96-110 | The new state and the reported entry are exactly `Insertion.OverflowDealing`: a node within `2D` keys reports nothing, an overflowing one splits and grows a new root or reports `(keys[D], right)`. Its correctness is `Insertion.OverflowCorrect`. |
| Tree.BPlusTree.InsertHelper | BPlusTree.java:55-61 | The new state and the reported entry are exactly `Insertion.Insertion`. By `Insertion.InsertionCorrect`, on an ordered, shaped subtree the key belongs to, nothing outside it changes and the subtree, a grown root over it, or its two reported halves hold the old entries with `key` mapped to `value`, in order. |
| Tree.BPlusTree.InsertIndexNodeHelper | BPlusTree.java:70-94 | The new state and the reported entry are exactly `Insertion.Insertion` at an index node: descent into the child the slot scan picks, then `EntryAdding` of what that child reports. Its correctness is `Insertion.InsertionCorrect`. |
| Tree.BPlusTree.AddChildEntry | BPlusTree.java:84-92 | The new state is exactly `Insertion.EntryAdding`: the reported entry goes in at the slot `FirstAbove` picks, followed by `OverflowDealing`. Ascending keys with a new separator stay ascending, in the node and in a reported right node. |
| Tree.BPlusTree.Insert | BPlusTree.java:32-46 | The new state is exactly `Insertion.TreeInsertion`. An empty tree gets exactly one leaf `[key]/[value]` as its root, and a changed root is a new one-key index node over the old root. On an empty or ordered and shaped tree, the new tree is ordered and shaped, search finds `value` for `key`, and every other key searches as before. A tree that was also within the `D..2D` occupancy bounds stays within them. |
| Tree.BPlusTree.RemoveEntry | BPlusTree.java:287-292 | The leaf's lists become `RemoveKey` of them and nothing else changes; on a sorted leaf the key is gone and other values are kept. |
| Tree.BPlusTree.HandleLeafNodeUnderflowMerge | BPlusTree.java:324-334 | `LeafMerged`: the right leaf gets left's entries followed by its own, plus left's back link, and left's previous leaf links forward to right. The reported slot is `find(parent, right.keys[0])`, and a merged empty leaf throws. |
| Tree.BPlusTree.HandleLeafNodeUnderflowRedistribution | BPlusTree.java:336-366 | `LeafRedistributed`: an underflowing left takes one entry from right's front; otherwise left is trimmed to `D` entries. The parent's separator becomes `right.keys[0]`. On success the entry sequence `left ++ right` is preserved, neither leaf underflows, and the result is `NoChange`. |
| Tree.BPlusTree.HandleLeafNodeUnderflow | BPlusTree.java:307-315 | Two leaves that fit in one are merged (`LeafMerged`); others are redistributed (`LeafRedistributed`). |
| Tree.BPlusTree.HandleIndexNodeUnderflowMerge | BPlusTree.java:391-399 | `IndexMerged`: right's keys become `left.keys ++ [parent separator] ++ right.keys`, and the children are concatenated. The slot is reported; an empty left or a slot past the parent's keys throws. |
| Tree.BPlusTree.HandleIndexNodeUnderflowRedistribution | BPlusTree.java:401-430 | `IndexRedistributed`: one key/child rotation through the parent separator, in whichever direction relieves the underflow. The result is `NoChange`, and the in-order sequence is kept. |
| Tree.BPlusTree.RotateFromRight | BPlusTree.java:405-413 | Left takes the separator and right's first child, and right's first key moves up; both keep one child more than keys. |
| Tree.BPlusTree.RotateFromLeft | BPlusTree.java:414-427 | Right gets left's tail after `D+1` and the separator in front, left keeps `D` keys, and `left.keys[D]` moves up. |
| Tree.BPlusTree.HandleIndexNodeUnderflow | BPlusTree.java:381-389 | Two index nodes that fit in one with their separator are merged (`IndexMerged`); others are redistributed (`IndexRedistributed`). |
| Tree.BPlusTree.DeleteNode | BPlusTree.java:213-219 | `DeleteKept`: the arena and heights are kept. Nothing above `h` changes except the parent's keys in place, and only a root step changes the root. When the leaf reached from `h` keeps `D` entries after `removeEntry`, the step reports -1, the root stays, and the only change is that removal. At a leaf root, the effect is exactly the removal. |
| Tree.BPlusTree.DeleteIndexNode | BPlusTree.java:221-228 | `DeleteKept` holds across the delete below the child `find` picks and the handling of its report. When the leaf reached through that child keeps `D` entries after `removeEntry`, the -1 of line 227 is passed up and the removal in that leaf is the only change. |
| Tree.BPlusTree.DropMergedChild | BPlusTree.java:229-256 | The merged slot past the keys throws. Otherwise `keys[s]` and `children[s]` are removed, and a node that still has `D` keys reports `NoChange`. An underflowing root is replaced by its only child exactly when one child is left. |
| Tree.BPlusTree.HandleSiblingUnderflow | BPlusTree.java:245-255 | An underflowing index child is handled with its left sibling when it has one, else with its right sibling; a child with neither throws `IndexOutOfBoundsException` and changes nothing. Only nodes below the parent and the parent's keys change. |
| Tree.BPlusTree.DeleteLeafNode | BPlusTree.java:260-285 | After `removeEntry`, a leaf still holding `D` keys reports `NoChange`, and a root leaf is dropped exactly when empty. Otherwise the leaf is handled with its previous leaf (when it has one and is not the first child), or with its next leaf; a missing next leaf throws `NullPointerException`. |
| Tree.BPlusTree.Delete | BPlusTree.java:205-211 | An empty tree is unchanged. A changed root is either dropped (an emptied leaf) or replaced by the only child of an index root. On a leaf root, the edit is exactly `removeEntry`, with no exception. When the reached leaf keeps `D` entries, the edit is exactly `removeEntry` there, with no exception and the root kept. On an ordered tree the key is then not found, every other key is found as before, order is kept, shape is kept, and the occupancy bounds are kept. A key that search misses, in a tree within the bounds, changes no node: the root stays, or an empty root leaf is dropped. |

## Left out

- `Node.java`, `LeafNode.java` and `IndexNode.java` are not part of this model. What the code uses from them is defined from the call sites:
  - `LeafNode.insertSorted` inserts in key order and overwrites the value of an equal key; that choice makes the first insert into an empty tree (line 33, then line 38) leave a single entry;
  - `IndexNode.insertSorted(entry, j)` puts the key at `j` and the node at `j + 1`;
  - `isOverflowed` means more than `2D` keys;
  - the constructors make leaves without links.
- Keys are `int` compared with `<` in place of a generic `Comparable`; values are a type parameter.
- Search.SearchTree: the `key == null` test of Search.java:25 cannot arise, since an `int` key is never null.
- The wiring from `BPlusTree.search` to `Search` (BPlusTree.java:21-23, Search.java:8-15) calls a constructor that does not exist and shadows `root`. The model searches the tree's actual root instead.
- The field `newchildentry` (BPlusTree.java:16) is never read and is not modelled.
- Tree.BPlusTree.Insert: the `new LeafNode(key, value)` of line 33 enters the arena only when the tree is empty. Otherwise it is only read for its value (line 123) and is never reachable.
- Tree.BPlusTree.Insert: the invariant it keeps is `Ordered` and `Shaped` (keys within the parents' bounds, no node shared between siblings). It does not claim a consistent leaf chain: insert reads the chain only in `splitLeafNode`, to copy the old next link into the new leaf (lines 160-164), no descent or content depends on it, and that split leaves a stale back link (lines 162-163). The `D..2D` occupancy of line 11 is stated separately, by `Occupancy.TreeInsertionFilled`.
- Tree.BPlusTree.Delete: when the reached leaf underflows below a non-leaf root, it states only the arena invariant, the frame and the root's collapse, not that the key is gone from the tree or that order is kept. On that path `deleteLeafNode` picks a sibling through `previousLeaf` (lines 275-281), which an earlier leaf split may have left stale, so the leaf it merges with or borrows from need not be next to it. When no leaf underflows, the exact removal and its search, order, shape and occupancy results are stated.
- Tree.BPlusTree.DeleteNode: when the reached leaf underflows below a non-leaf `h`, it states only the frame below `h` and the root step, for the same stale `previousLeaf` reason (lines 275-281); the exact effect of each edit on that path is stated by the helpers it calls.
- Tree.BPlusTree.DeleteIndexNode: when the reached leaf underflows, the contract is a frame, not an exact final state, because the exact effect depends on the whole recursion below and on the leaf links of lines 275-281. The exact effect of each step is stated by the members it calls.
- Tree.BPlusTree.HandleIndexNodeUnderflowMerge: deliberately differs from line 395. The model leaves the left node unchanged and builds `left.keys ++ [separator]` directly into the right node. The Java code first appends the separator to the left node's own list, which the model does not reproduce. In the Java code that leaves the left node with as many keys as children, and the caller unlinks it from the parent only when the reported slot is its own. `Tree.IndexMergeReportsLeftSlot` shows that on an ordered parent the reported slot is the left node's own, so the left node is the one unlinked and the difference does not reach the tree.
- Tree.BPlusTree.HandleLeafNodeUnderflowRedistribution and Tree.BPlusTree.HandleIndexNodeUnderflowRedistribution require one of the two nodes to underflow. So do the two `handle*Underflow` dispatchers. `deleteLeafNode` and `deleteIndexNode`, the only callers, always pass an underflowing node. These Java methods are public, but calls from elsewhere are not modelled.
- Writes that Java makes to two parallel lists one after the other (`keys` then `values` or `children`) are one node update in the model; no exception can occur between the two writes.
- Java exceptions become a `Thrown` result carrying the state at the throw point; their propagation through the Java call stack is not modelled beyond that.
- `D` is fixed at 2, as in the source.

The reference `node == root` comparisons and the `int` return codes of the delete path are modelled exactly, by handle equality and the `Signal` type.
