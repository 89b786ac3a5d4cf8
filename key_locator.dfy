/**
 * The key locator of FindKeyIndex.java, together with the model of
 * `java.util.Collections.binarySearch` that it is built on.
 */
module KeyLocator {

  /** Keys in strictly ascending order: the order every node of a B+Tree keeps. */
  ghost predicate StrictlyAscending(keys: seq<int>)
  {
    forall i, j :: 0 <= i < j < |keys| ==> keys[i] < keys[j]
  }

  /**
   * `Collections.binarySearch` on a random-access list, between positions
   * `low` and `high` (inclusive), following java.util's indexed binary search:
   * probe the middle, go right when the probed key is smaller, left when it is
   * larger, and stop on an exact match. A miss returns `-(low + 1)`, where `low`
   * is the insertion point. The definition is total: on an unsorted list it
   * gives whatever the algorithm gives.
   */
  function BinarySearchRange(keys: seq<int>, key: int, low: int, high: int): (r: int)
    requires 0 <= low <= high + 1 <= |keys|
    ensures r >= 0 ==> low <= r <= high && keys[r] == key
    ensures r < 0 ==> low <= -(r + 1) <= high + 1
    decreases high + 1 - low
  {
    if low > high then -(low + 1)
    else
      var mid := (low + high) / 2;
      if keys[mid] < key then BinarySearchRange(keys, key, mid + 1, high)
      else if keys[mid] > key then BinarySearchRange(keys, key, low, mid - 1)
      else mid
  }

  /**
   * `Collections.binarySearch(keys, key)`: an index holding `key`, or
   * `-(insertion point) - 1` when none is found.
   */
  function BinarySearch(keys: seq<int>, key: int): (r: int)
    ensures -(|keys| + 1) <= r < |keys|
    ensures r >= 0 ==> keys[r] == key
  {
    BinarySearchRange(keys, key, 0, |keys| - 1)
  }

  /**
   * On ascending keys, a search confined to `low..high` by keys that are
   * smaller on the left and larger on the right either finds `key` or
   * returns the position that splits the keys into smaller and larger ones.
   */
  lemma {:induction false} BinarySearchRangeSorted(keys: seq<int>, key: int, low: int, high: int)
    requires 0 <= low <= high + 1 <= |keys|
    requires StrictlyAscending(keys)
    requires forall j :: 0 <= j < low ==> keys[j] < key
    requires forall j :: high < j < |keys| ==> key < keys[j]
    decreases high + 1 - low
    ensures var r := BinarySearchRange(keys, key, low, high);
      r < 0 ==> (forall j :: 0 <= j < -(r + 1) ==> keys[j] < key) &&
                (forall j :: -(r + 1) <= j < |keys| ==> key < keys[j])
  {
    if low <= high {
      var mid := (low + high) / 2;
      if keys[mid] < key {
        BinarySearchRangeSorted(keys, key, mid + 1, high);
      } else if keys[mid] > key {
        BinarySearchRangeSorted(keys, key, low, mid - 1);
      }
    }
  }

  /** On strictly ascending keys a key that is present is found at its one position. */
  lemma BinarySearchHit(keys: seq<int>, key: int, i: int)
    requires StrictlyAscending(keys)
    requires 0 <= i < |keys| && keys[i] == key
    ensures BinarySearch(keys, key) == i
  {
    BinarySearchRangeSorted(keys, key, 0, |keys| - 1);
  }

  /**
   * On strictly ascending keys a key that is absent yields `-(p + 1)`, where
   * `p` is its insertion point: every key before `p` is smaller, every key
   * from `p` on is larger.
   */
  lemma BinarySearchMiss(keys: seq<int>, key: int)
    requires StrictlyAscending(keys)
    requires key !in keys
    ensures BinarySearch(keys, key) < 0
    ensures var p := -(BinarySearch(keys, key) + 1);
      (forall j :: 0 <= j < p ==> keys[j] < key) &&
      (forall j :: p <= j < |keys| ==> key < keys[j])
  {
    BinarySearchRangeSorted(keys, key, 0, |keys| - 1);
  }

  /**
   * `FindKeyIndex.find`: the index of the child an index node routes `key` to.
   * The binary-search result is shifted by one, so an exact match at `i`
   * routes to child `i + 1` and a miss routes to the insertion point.
   */
  function Find(keys: seq<int>, key: int): (r: nat)
    ensures r <= |keys|
  {
    var index := BinarySearch(keys, key) + 1;
    if index < 0 then -index else index
  }

  /** An exact match at position `i` routes to the child after it. */
  lemma FindOnMatch(keys: seq<int>, key: int, i: int)
    requires StrictlyAscending(keys)
    requires 0 <= i < |keys| && keys[i] == key
    ensures Find(keys, key) == i + 1
  {
    BinarySearchHit(keys, key, i);
  }

  /** A key that is absent routes to its insertion point. */
  lemma FindOnMiss(keys: seq<int>, key: int)
    requires StrictlyAscending(keys)
    requires key !in keys
    ensures var r := Find(keys, key);
      (forall j :: 0 <= j < r ==> keys[j] < key) &&
      (forall j :: r <= j < |keys| ==> key < keys[j])
  {
    BinarySearchMiss(keys, key);
  }

  /**
   * On strictly ascending keys the located child is the number of keys
   * `<= key`: the keys before it are `<= key`, the keys from it on are `> key`.
   * This is the separator rule `children[i] < keys[i] <= children[i + 1]`.
   */
  lemma FindRoutes(keys: seq<int>, key: int)
    requires StrictlyAscending(keys)
    ensures var r := Find(keys, key);
      (forall j :: 0 <= j < r ==> keys[j] <= key) &&
      (forall j :: r <= j < |keys| ==> key < keys[j])
  {
    if key in keys {
      var i :| 0 <= i < |keys| && keys[i] == key;
      FindOnMatch(keys, key, i);
    } else {
      FindOnMiss(keys, key);
    }
  }

  /**
   * The slot the linear scans of `insertIndexNodeHelper` pick: the first
   * position whose key is larger than `key`, or the number of keys when there
   * is none. Unlike `Find` it needs no ordering of the keys.
   */
  function FirstAbove(keys: seq<int>, key: int): (i: nat)
    ensures i <= |keys|
    ensures forall j :: 0 <= j < i ==> keys[j] <= key
    ensures i < |keys| ==> key < keys[i]
    decreases |keys|
  {
    if |keys| == 0 then 0
    else if key < keys[0] then 0
    else
      var rest := FirstAbove(keys[1..], key);
      assert forall j :: 1 <= j < 1 + rest ==> keys[j] == keys[1..][j - 1];
      1 + rest
  }

  /**
   * The descent loop of `insertIndexNodeHelper` (BPlusTree.java:72-78) and the
   * slot loop after it (BPlusTree.java:83-89).
   */
  method DescentSlot(keys: seq<int>, key: int) returns (i: nat)
    ensures i == FirstAbove(keys, key)
  {
    i := 0;
    while i < |keys|
      invariant i <= |keys|
      invariant forall j :: 0 <= j < i ==> keys[j] <= key
    {
      if key < keys[i] {
        break;
      }
      i := i + 1;
    }
  }

  /**
   * On strictly ascending keys the insert descent and the key locator pick the
   * same child, so insertion and search reach the same leaf.
   */
  lemma FirstAboveIsFind(keys: seq<int>, key: int)
    requires StrictlyAscending(keys)
    ensures FirstAbove(keys, key) == Find(keys, key)
  {
    FindRoutes(keys, key);
    var r := Find(keys, key);
    assert r < |keys| ==> key < keys[r];
  }

  /**
   * On strictly ascending keys, the slot between the last key `<= key` and
   * the first key `> key` is the one the scan picks.
   */
  lemma FirstAboveAt(keys: seq<int>, key: int, t: nat)
    requires StrictlyAscending(keys) && t <= |keys|
    requires 0 < t ==> keys[t - 1] <= key
    requires t < |keys| ==> key < keys[t]
    ensures FirstAbove(keys, key) == t
  {
  }
}
