/** The `Vec` operations the B-tree uses, on sequences, and the three scans
    over a node's key vector. */
module KeyVectors {

  /** Keys in non-decreasing order (duplicates are possible: leaves accept them). */
  predicate Sorted(s: seq<int>) {
    forall i, j :: 0 <= i < j < |s| ==> s[i] <= s[j]
  }

  /** `Vec::insert(i, x)`. */
  function Insert<T>(s: seq<T>, i: nat, x: T): (r: seq<T>)
    requires i <= |s|
    ensures |r| == |s| + 1 && r[i] == x
    ensures r[..i] == s[..i] && r[i + 1..] == s[i..]
  {
    s[..i] + [x] + s[i..]
  }

  /** `Vec::truncate(n)`: keeps the first `n` elements; no effect on a shorter vector. */
  function Truncate<T>(s: seq<T>, n: nat): (r: seq<T>)
    ensures |r| == if |s| <= n then |s| else n
    ensures r == s[..|r|]
  {
    if |s| <= n then s else s[..n]
  }

  /** `Vec::remove(i)`: drops the element at `i` and shifts the rest left. */
  function Remove<T>(s: seq<T>, i: nat): (r: seq<T>)
    requires i < |s|
    ensures |r| == |s| - 1
    ensures r[..i] == s[..i] && r[i..] == s[i + 1..]
  {
    s[..i] + s[i + 1..]
  }

  /** `Vec::remove` undoes `Vec::insert` at the same index. */
  lemma RemoveUndoesInsert<T>(s: seq<T>, i: nat, x: T)
    requires i <= |s|
    ensures Remove(Insert(s, i, x), i) == s
  {
    assert s == s[..i] + s[i..];
  }

  /** One round of the `split_node` loop on a vector `t` that still holds
      the first `m + 1` elements of `s` followed by `s[k..]`: the element at
      `m + 1` is `s[k]`, removing it leaves the first `m + 1` followed by
      `s[k + 1..]`, and it extends the run `s[m + 1..k]` moved so far by one. */
  lemma RemoveAfterPrefix<T>(s: seq<T>, t: seq<T>, m: nat, k: nat)
    requires m < k < |s| && t == s[..m + 1] + s[k..]
    ensures t[m + 1] == s[k]
    ensures Remove(t, m + 1) == s[..m + 1] + s[k + 1..]
    ensures s[m + 1..k + 1] == s[m + 1..k] + [s[k]]
  {
  }

  /** The vector left after `n` rounds of `Vec::remove(m + 1)`. */
  function RemovedRounds<T>(s: seq<T>, m: nat, n: nat): (r: seq<T>)
    requires m + n < |s|
    ensures |r| == |s| - n
  {
    if n == 0 then s else Remove(RemovedRounds(s, m, n - 1), m + 1)
  }

  /** The elements those `n` rounds removed, in the order they came out. */
  function RemovedElements<T>(s: seq<T>, m: nat, n: nat): (r: seq<T>)
    requires m + n < |s|
  {
    if n == 0 then [] else RemovedElements(s, m, n - 1) + [RemovedRounds(s, m, n - 1)[m + 1]]
  }

  /** `n` rounds of removing at `m + 1` take out exactly the run of `n`
      elements after index `m`, in order, and keep everything else. */
  lemma {:induction false} RemovedRoundsSlices<T>(s: seq<T>, m: nat, n: nat)
    requires m + n < |s|
    ensures RemovedRounds(s, m, n) == s[..m + 1] + s[m + 1 + n..]
    ensures RemovedElements(s, m, n) == s[m + 1..m + 1 + n]
  {
    if n > 0 {
      RemovedRoundsSlices(s, m, n - 1);
      RemoveAfterPrefix(s, RemovedRounds(s, m, n - 1), m, m + n);
    }
  }

  /** The end of `split_node` on such a vector `t`: the element at `m` is
      `s[m]`, and removing it and truncating to `m` leaves exactly the first
      `m` elements of `s`. */
  lemma TruncateAfterPrefix<T>(s: seq<T>, t: seq<T>, m: nat, k: nat)
    requires m < k <= |s| && t == s[..m + 1] + s[k..]
    ensures t[m] == s[m]
    ensures Truncate(Remove(t, m), m) == s[..m]
  {
  }

  /** A whole `split_node` loop on one vector `s`, rounds `m .. k`: the
      element left at `m` is `s[m]`, removing it and truncating to `m` keeps
      the first `m` elements, and the removed run is `s[m + 1..k + 1]`. */
  lemma SplitVector<T>(s: seq<T>, m: nat, k: nat)
    requires m <= k < |s|
    ensures RemovedRounds(s, m, k - m)[m] == s[m]
    ensures Truncate(Remove(RemovedRounds(s, m, k - m), m), m) == s[..m]
    ensures RemovedElements(s, m, k - m) == s[m + 1..k + 1]
  {
    RemovedRoundsSlices(s, m, k - m);
    TruncateAfterPrefix(s, RemovedRounds(s, m, k - m), m, k + 1);
  }

  /** The key and value vectors read index by index as pairs. */
  function Pairs<V>(keys: seq<int>, values: seq<V>): (r: seq<(int, V)>)
    requires |keys| == |values|
    ensures |r| == |keys|
  {
    seq(|keys|, i requires 0 <= i < |keys| => (keys[i], values[i]))
  }

  /** Where `insert_key_in_node` puts `key`: the first index whose key is
      strictly greater, or the end when there is none. */
  function FirstGreater(keys: seq<int>, key: int): (i: nat)
    ensures i <= |keys|
    ensures forall j :: 0 <= j < i ==> keys[j] <= key
    ensures i < |keys| ==> key < keys[i]
  {
    if keys == [] || key < keys[0] then 0 else 1 + FirstGreater(keys[1..], key)
  }

  /** Where the scan of a leaf stops: the first index holding `key`, or the end. */
  function FirstEqual(keys: seq<int>, key: int): (i: nat)
    ensures i <= |keys|
    ensures forall j :: 0 <= j < i ==> keys[j] != key
    ensures i < |keys| ==> keys[i] == key
    ensures i < |keys| <==> key in keys
  {
    if keys == [] || keys[0] == key then 0 else 1 + FirstEqual(keys[1..], key)
  }

  /** Where the scan of an internal node stops: the first index whose key is
      equal to or greater than `key`, or the end. */
  function FirstAtLeast(keys: seq<int>, key: int): (i: nat)
    ensures i <= |keys|
    ensures forall j :: 0 <= j < i ==> keys[j] < key
    ensures i < |keys| ==> key <= keys[i]
  {
    if keys == [] || key <= keys[0] then 0 else 1 + FirstAtLeast(keys[1..], key)
  }

  /** In a sorted vector that holds `key`, the internal-node scan stops at the
      first copy of `key`. */
  lemma {:induction false} FirstAtLeastFindsFirstCopy(keys: seq<int>, key: int)
    requires Sorted(keys) && key in keys
    ensures FirstAtLeast(keys, key) == FirstEqual(keys, key)
  {
    var i, e := FirstAtLeast(keys, key), FirstEqual(keys, key);
    assert i <= e < |keys|;
    assert key <= keys[i] <= keys[e] == key;
  }

  /** Inserting at `FirstGreater` keeps a sorted vector sorted. */
  lemma InsertKeepsSorted(keys: seq<int>, key: int)
    requires Sorted(keys)
    ensures Sorted(Insert(keys, FirstGreater(keys, key), key))
  {
    var i := FirstGreater(keys, key);
    var r := Insert(keys, i, key);
    forall a, b | 0 <= a < b < |r| ensures r[a] <= r[b] {
      if b < i {
        assert r[a] == keys[a] && r[b] == keys[b];
      } else if a > i {
        assert r[a] == keys[a - 1] && r[b] == keys[b - 1];
      } else if a == i {
        assert r[b] == keys[b - 1];
      } else if b == i {
        assert r[a] == keys[a];
      } else {
        assert r[a] == keys[a] && r[b] == keys[b - 1];
      }
    }
  }
}
