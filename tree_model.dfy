/** Value-level model of `BTree`: construction, `insert`, `get`, `exists`
    and `remove`, and the properties of the states the code can reach. */
module TreeModel {
  import opened Outcomes
  import opened KeyVectors
  import opened NodeModel

  /** A `BTree` as a value: `max_keys_per_node` and the root node. */
  datatype TreeValue<V> = TreeValue(maxKeys: nat, root: NodeValue<V>)

  /** The capacities `BTree::new` accepts: even and at least 4. */
  predicate ValidCapacity(maxKeys: nat) {
    4 <= maxKeys && maxKeys % 2 == 0
  }

  /** The states that `BTree::new` and every `insert` that returns can
      produce. The root is a sorted leaf, or an internal node over exactly
      one sorted leaf. So the tree is never more than two levels deep and no
      node ever has a second child. */
  predicate Reachable<V>(t: TreeValue<V>) {
    && ValidCapacity(t.maxKeys)
    && WellFormed(t.root)
    && |t.root.keys| >= 1 && Sorted(t.root.keys)
    && (t.root.children == [] || RootOverLeaf(t))
  }

  /** An internal root as the code builds it: between 1 and `maxKeys / 2`
      keys, and one child, a sorted leaf with at least `maxKeys / 2` keys. */
  predicate RootOverLeaf<V>(t: TreeValue<V>) {
    && |t.root.children| == 1
    && |t.root.keys| <= t.maxKeys / 2
    && t.root.children[0].children == []
    && Sorted(t.root.children[0].keys)
    && |t.root.children[0].keys| >= t.maxKeys / 2
  }

  /** `BTree::new`: panics unless the capacity is even and at least 4;
      otherwise the root is a leaf holding exactly the seed pair. */
  function New<V>(firstKey: int, firstValue: V, maxKeys: nat): (r: Run<TreeValue<V>>)
    ensures r.Returned? <==> ValidCapacity(maxKeys)
    ensures r.Returned? ==>
      && Reachable(r.value) && r.value.maxKeys == maxKeys
      && r.value.root.keys == [firstKey] && r.value.root.values == [firstValue]
      && r.value.root.children == []
  {
    if maxKeys < 4 then Panicked
    else if maxKeys % 2 != 0 then Panicked
    else Returned(TreeValue(maxKeys, NodeValue([firstKey], [firstValue], [])))
  }

  /** `BTree::insert`. A root with at most `maxKeys / 2 - 1` keys takes the
      pair directly by `insert_key_in_node`, leaf or not. Otherwise the pair
      goes down by `traverse_insert`; when that reports "Node is full" the
      root is split and a new root is made with the promoted pair and the
      truncated old root as its only child. */
  function Insert<V>(t: TreeValue<V>, key: int, value: V): (r: (TreeValue<V>, Run<Result<()>>))
    requires WellFormed(t.root) && ValidCapacity(t.maxKeys)
    ensures r.0.maxKeys == t.maxKeys && WellFormed(r.0.root)
  {
    if |t.root.keys| <= t.maxKeys / 2 - 1 then
      var (root, res) := InsertKeyInNode(t.root, key, value, t.maxKeys);
      (t.(root := root), Returned(res))
    else
      var (root, res) := TraverseInsert(t.root, key, value, t.maxKeys);
      if res == Returned(Err(NodeIsFull)) then
        match SplitNode(root, t.maxKeys)
        case Panicked => (t.(root := root), Panicked)
        case Returned(h) => (t.(root := NodeValue([h.key], [h.value], [h.left])), Returned(Ok(())))
      else
        (t.(root := root), res)
  }

  /** `BTree::exists`: whether `traverse_search` finds the key. */
  function Exists<V>(t: TreeValue<V>, key: int): (r: Run<bool>)
    requires WellFormed(t.root)
    ensures r.Returned? <==> TraverseSearch(t.root, key).Returned?
    ensures r.Returned? ==> (r.value <==> TraverseSearch(t.root, key).value.Ok?)
  {
    match TraverseSearch(t.root, key)
    case Panicked => Panicked
    case Returned(res) => Returned(res.Ok?)
  }

  /** `BTree::get`: the value `traverse_search` finds, if any; it is `Some`
      exactly when `exists` is true, and both panic on the same keys. */
  function Get<V>(t: TreeValue<V>, key: int): (r: Run<Option<V>>)
    requires WellFormed(t.root)
    ensures r.Returned? <==> Exists(t, key).Returned?
    ensures r.Returned? ==> (r.value.Some? <==> Exists(t, key).value)
  {
    match TraverseSearch(t.root, key)
    case Panicked => Panicked
    case Returned(Ok(v)) => Returned(Some(v))
    case Returned(Err(_)) => Returned(None)
  }

  /** `BTree::remove`: always the unit error, the tree untouched. */
  function Remove<V>(t: TreeValue<V>, key: int): (r: (TreeValue<V>, Result<V>))
    ensures r.0 == t && r.1 == Err(Unsupported)
  {
    (t, Err(Unsupported))
  }

  // ---------------------------------------------------------------------
  // Properties of the states the code reaches

  /** `insert` on a reachable leaf root too full for the direct path: the
      pair goes in by `insert_key_in_node`; on "Node is full" the root splits
      and the new root holds key `maxKeys / 2` over the first `maxKeys / 2`
      pairs. Either way the call succeeds. */
  lemma LeafRootInsert<V>(t: TreeValue<V>, key: int, value: V)
    requires Reachable(t) && t.root.children == [] && |t.root.keys| > t.maxKeys / 2 - 1
    ensures var (root, res) := InsertKeyInNode(t.root, key, value, t.maxKeys);
      var m := t.maxKeys / 2;
      && WellFormed(root) && |root.keys| > m
      && Insert(t, key, value) ==
           if res == Ok(()) then (t.(root := root), Returned(Ok(())))
           else (t.(root := NodeValue([root.keys[m]], [root.values[m]], [NodeValue(root.keys[..m], root.values[..m], [])])),
                 Returned(Ok(())))
  {
    var (root, res) := InsertKeyInNode(t.root, key, value, t.maxKeys);
    assert TraverseInsert(t.root, key, value, t.maxKeys) == (root, Returned(res));
    if res == Err(NodeIsFull) {
      assert SplitNode(root, t.maxKeys).Returned?;
    }
  }

  /** `insert` on a reachable internal root too full for the direct path:
      a key the root holds is rejected; a key between root keys panics; any
      other key goes into the leaf, and the call returns only when the leaf
      did not report "Node is full". */
  lemma InternalRootInsert<V>(t: TreeValue<V>, key: int, value: V)
    requires Reachable(t) && |t.root.children| == 1 && |t.root.keys| > t.maxKeys / 2 - 1
    ensures var leaf := t.root.children[0];
      var i := FirstAtLeast(t.root.keys, key);
      && WellFormed(leaf)
      && (i < |t.root.keys| && t.root.keys[i] == key ==>
            Insert(t, key, value) == (t, Returned(Err(KeyAlreadyExists))))
      && (0 < i < |t.root.keys| && t.root.keys[i] != key ==> Insert(t, key, value).1 == Panicked)
      && ((i == 0 && t.root.keys[0] != key) || i == |t.root.keys| ==>
            var (leaf', res) := InsertKeyInNode(leaf, key, value, t.maxKeys);
            && (res == Ok(()) ==> Insert(t, key, value) == (t.(root := t.root.(children := [leaf'])), Returned(Ok(()))))
            && (res != Ok(()) ==> Insert(t, key, value).1 == Panicked))
  {
    var leaf := t.root.children[0];
    assert WellFormed(leaf);
    var (leaf', res) := InsertKeyInNode(leaf, key, value, t.maxKeys);
    assert TraverseInsert(leaf, key, value, t.maxKeys) == (leaf', Returned(res));
    assert t.root.children[0 := leaf'] == [leaf'];
    var i := FirstAtLeast(t.root.keys, key);
    if i == |t.root.keys| {
      var root' := t.root.(children := [leaf']);
      assert TraverseInsert(t.root, key, value, t.maxKeys) == (root', Returned(res));
      assert SplitNode(root', t.maxKeys).Panicked?;
    }
  }

  /** Every `insert` that returns leaves the tree reachable: the invariant
      holds from `new` on, so no tree grows past two levels. */
  lemma InsertKeepsReachable<V>(t: TreeValue<V>, key: int, value: V)
    requires Reachable(t)
    requires Insert(t, key, value).1.Returned?
    ensures Reachable(Insert(t, key, value).0)
  {
    if |t.root.keys| <= t.maxKeys / 2 - 1 {
      var (root, res) := InsertKeyInNode(t.root, key, value, t.maxKeys);
      InsertKeyInNodeStores(t.root, key, value, t.maxKeys, (key, value));
      assert Insert(t, key, value).0 == t.(root := root);
    } else if t.root.children == [] {
      LeafRootInsertKeepsReachable(t, key, value);
    } else {
      InternalRootInsertKeepsReachable(t, key, value);
    }
  }

  /** The leaf-root case of `InsertKeepsReachable`: the root either takes
      the pair or splits into a one-key root over a leaf of `maxKeys / 2`
      keys. */
  lemma LeafRootInsertKeepsReachable<V>(t: TreeValue<V>, key: int, value: V)
    requires Reachable(t) && t.root.children == [] && |t.root.keys| > t.maxKeys / 2 - 1
    ensures Reachable(Insert(t, key, value).0)
    ensures var r := Insert(t, key, value).0.root;
      r.children == [] || (|r.keys| == 1 && |r.children[0].keys| == t.maxKeys / 2)
  {
    var m := t.maxKeys / 2;
    var (root, res) := InsertKeyInNode(t.root, key, value, t.maxKeys);
    InsertKeyInNodeStores(t.root, key, value, t.maxKeys, (key, value));
    LeafRootInsert(t, key, value);
    if res != Ok(()) {
      var left := NodeValue(root.keys[..m], root.values[..m], []);
      var t' := t.(root := NodeValue([root.keys[m]], [root.values[m]], [left]));
      assert Insert(t, key, value).0 == t';
      assert Sorted(left.keys) && |left.keys| == m;
      assert RootOverLeaf(t');
    }
  }

  /** The internal-root case of `InsertKeepsReachable`: a returning insert
      keeps the root's keys, and either rejects the key or puts it into the
      leaf, which stays below the split threshold. */
  lemma InternalRootInsertKeepsReachable<V>(t: TreeValue<V>, key: int, value: V)
    requires Reachable(t) && t.root.children != [] && |t.root.keys| > t.maxKeys / 2 - 1
    requires Insert(t, key, value).1.Returned?
    ensures Reachable(Insert(t, key, value).0)
    ensures Insert(t, key, value).0.root.keys == t.root.keys
  {
    InternalRootInsert(t, key, value);
    var leaf := t.root.children[0];
    var (leaf', res') := InsertKeyInNode(leaf, key, value, t.maxKeys);
    InsertKeyInNodeStores(leaf, key, value, t.maxKeys, (key, value));
    var i := FirstAtLeast(t.root.keys, key);
    if (i == 0 && t.root.keys[0] != key) || i == |t.root.keys| {
      var t' := t.(root := t.root.(children := [leaf']));
      assert Insert(t, key, value).0 == t';
      assert |leaf'.keys| == |leaf.keys| + 1 && leaf'.children == [];
      assert RootOverLeaf(t');
    } else {
      assert Insert(t, key, value).0 == t;
    }
  }

  /** What `insert` reports on a reachable tree: success, "Key already
      exists" or a panic, never "Node is full"; a leaf root accepts every
      key, duplicates included; "Key already exists" comes exactly when the
      root is internal, too full for the direct path, and holds the key. */
  lemma InsertOutcomes<V>(t: TreeValue<V>, key: int, value: V)
    requires Reachable(t)
    ensures var r := Insert(t, key, value).1;
      && (r == Returned(Ok(())) || r == Returned(Err(KeyAlreadyExists)) || r == Panicked)
      && (t.root.children == [] ==> r == Returned(Ok(())))
      && (r == Returned(Err(KeyAlreadyExists)) <==>
            |t.root.children| == 1 && |t.root.keys| == t.maxKeys / 2 && key in t.root.keys)
  {
    var m := t.maxKeys / 2;
    if key in t.root.keys {
      FirstAtLeastFindsFirstCopy(t.root.keys, key);
    }
    if |t.root.keys| <= m - 1 {
    } else if t.root.children == [] {
      LeafRootInsert(t, key, value);
    } else {
      InternalRootInsert(t, key, value);
    }
  }

  /** A rejected insert leaves the tree exactly as it was. */
  lemma RejectedInsertChangesNothing<V>(t: TreeValue<V>, key: int, value: V)
    requires WellFormed(t.root) && ValidCapacity(t.maxKeys)
    requires Insert(t, key, value).1 == Returned(Err(KeyAlreadyExists))
    ensures Insert(t, key, value).0 == t
  {
  }

  /** A successful insert that does not split the root stores exactly the
      new pair and keeps every other pair. */
  lemma InsertStores<V>(t: TreeValue<V>, key: int, value: V, e: (int, V))
    requires Reachable(t)
    requires Insert(t, key, value).1 == Returned(Ok(()))
    requires |Insert(t, key, value).0.root.children| == |t.root.children|
    ensures Occurrences(Insert(t, key, value).0.root, e)
         == Occurrences(t.root, e) + (if e == (key, value) then 1 else 0)
  {
    if |t.root.keys| <= t.maxKeys / 2 - 1 {
      InsertKeyInNodeStores(t.root, key, value, t.maxKeys, e);
    } else {
      var (root, res) := TraverseInsert(t.root, key, value, t.maxKeys);
      if t.root.children != [] {
        assert root.keys == t.root.keys;
      }
      assert Insert(t, key, value).0.root == root;
      TraverseInsertStores(t.root, key, value, t.maxKeys, e);
    }
  }

  /** A pair whose key is not among `keys` is not among the pairs. */
  lemma PairAbsent<V>(keys: seq<int>, values: seq<V>, key: int, value: V)
    requires |keys| == |values| && key !in keys
    ensures multiset(Pairs(keys, values))[(key, value)] == 0
  {
    var p := Pairs(keys, values);
    assert forall i :: 0 <= i < |p| ==> p[i].0 == keys[i];
    assert (key, value) !in p;
  }

  /** A key no smaller than any key of a leaf root is appended to it; when
      that leaves more than `maxKeys` keys the root splits into the pair at
      `maxKeys / 2` over the first `maxKeys / 2` pairs. Either way `insert`
      reports success. */
  lemma AppendToLeafRoot<V>(t: TreeValue<V>, key: int, value: V)
    requires Reachable(t) && t.root.children == []
    requires forall j :: 0 <= j < |t.root.keys| ==> t.root.keys[j] <= key
    ensures var keys, values, m := t.root.keys, t.root.values, t.maxKeys / 2;
      && (|keys| < t.maxKeys ==>
            Insert(t, key, value) == (t.(root := NodeValue(keys + [key], values + [value], [])), Returned(Ok(()))))
      && (|keys| >= t.maxKeys ==>
            Insert(t, key, value)
              == (t.(root := NodeValue([keys[m]], [values[m]], [NodeValue(keys[..m], values[..m], [])])), Returned(Ok(()))))
  {
    var keys, values := t.root.keys, t.root.values;
    assert FirstGreater(keys, key) == |keys|;
    var (root, res) := InsertKeyInNode(t.root, key, value, t.maxKeys);
    assert root == NodeValue(keys + [key], values + [value], []);
    if |keys| <= t.maxKeys / 2 - 1 {
      assert Insert(t, key, value) == (t.(root := root), Returned(res));
    } else {
      LeafRootInsert(t, key, value);
      if |keys| >= t.maxKeys {
        var m := t.maxKeys / 2;
        assert root.keys[..m] == keys[..m] && root.values[..m] == values[..m];
      }
    }
  }

  /** When a new key makes a leaf root split, the new root holds only the
      promoted key over the truncated old root: the right half, which holds
      the new key, is dropped, so the key is gone and `exists` denies it. */
  lemma RootSplitLosesNewKey<V>(t: TreeValue<V>, key: int, value: V)
    requires Reachable(t) && t.root.children == [] && key !in t.root.keys
    requires |Insert(t, key, value).0.root.children| == 1
    ensures Insert(t, key, value).1 == Returned(Ok(()))
    ensures Occurrences(Insert(t, key, value).0.root, (key, value)) == 0
    ensures Exists(Insert(t, key, value).0, key) == Returned(false)
  {
    var m := t.maxKeys / 2;
    LeafRootInsert(t, key, value);
    var (root, res) := InsertKeyInNode(t.root, key, value, t.maxKeys);
    assert res == Err(NodeIsFull);
    var keys := t.root.keys;
    assert FirstGreater(keys, key) == |keys|;
    assert root.keys[..m] == keys[..m] && root.keys[m] == keys[m];
    assert keys[m] < key;
    var leaf := NodeValue(root.keys[..m], root.values[..m], []);
    var top := NodeValue([root.keys[m]], [root.values[m]], [leaf]);
    assert Insert(t, key, value).0.root == top;
    PairAbsent(leaf.keys, leaf.values, key, value);
    PairAbsent(top.keys, top.values, key, value);
    assert Occurrences(leaf, (key, value)) == 0;
    assert top.children[1..] == [];
    assert ChildOccurrences(top.children, (key, value)) == 0;
    assert TraverseSearch(top, key) == IterateOverNodeWithChildren(top, key);
  }

  /** An internal root answers "not found" for every key above its own keys,
      without looking at its child. */
  lemma KeyAboveRootNotFound<V>(t: TreeValue<V>, key: int)
    requires Reachable(t) && |t.root.children| == 1
    requires forall j :: 0 <= j < |t.root.keys| ==> t.root.keys[j] < key
    ensures Get(t, key) == Returned(None) && Exists(t, key) == Returned(false)
  {
    assert TraverseSearch(t.root, key) == IterateOverNodeWithChildren(t.root, key);
  }

  /** Once the root is internal and full enough for `traverse_insert`, a key
      above every root key is stored in the leaf below (the last child) but
      can never be found again. */
  lemma InsertAboveRootIsLost<V>(t: TreeValue<V>, key: int, value: V)
    requires Reachable(t) && |t.root.children| == 1 && |t.root.keys| == t.maxKeys / 2
    requires forall j :: 0 <= j < |t.root.keys| ==> t.root.keys[j] < key
    requires Insert(t, key, value).1 == Returned(Ok(()))
    ensures Occurrences(Insert(t, key, value).0.root, (key, value)) == Occurrences(t.root, (key, value)) + 1
    ensures Get(Insert(t, key, value).0, key) == Returned(None)
  {
    InsertStores(t, key, value, (key, value));
    InsertKeepsReachable(t, key, value);
    var t' := Insert(t, key, value).0;
    var leaf := t.root.children[0];
    assert WellFormed(leaf);
    assert TraverseInsert(t.root, key, value, t.maxKeys).0 == t.root.(children := [InsertKeyInNode(leaf, key, value, t.maxKeys).0]);
    assert t'.root.keys == t.root.keys;
    KeyAboveRootNotFound(t', key);
  }

  /** On an internal root with two or more keys, a key strictly between its
      smallest and largest key that the root does not hold sends the search
      to a child index that does not exist: `get` and `exists` panic. */
  lemma SearchBetweenRootKeysPanics<V>(t: TreeValue<V>, key: int)
    requires Reachable(t) && |t.root.children| == 1 && key !in t.root.keys
    requires t.root.keys[0] < key < t.root.keys[|t.root.keys| - 1]
    ensures Get(t, key) == Panicked && Exists(t, key) == Panicked
  {
    var i := FirstAtLeast(t.root.keys, key);
    assert 1 <= i < |t.root.keys|;
    assert TraverseSearch(t.root, key) == IterateOverNodeWithChildren(t.root, key);
  }

  /** A key held by the root is found, with the value of its first copy. */
  lemma GetFindsRootKey<V>(t: TreeValue<V>, key: int)
    requires Reachable(t) && key in t.root.keys
    ensures Get(t, key) == Returned(Some(t.root.values[FirstEqual(t.root.keys, key)]))
  {
    SearchFindsNodeKey(t.root, key);
  }

  /** A key below every root key that the leaf under the root does not
      hold is not found: the search descends into the leaf, which answers
      "Key not found". */
  lemma KeyBelowRootAbsentNotFound<V>(t: TreeValue<V>, key: int)
    requires Reachable(t) && |t.root.children| == 1
    requires key < t.root.keys[0] && key !in t.root.children[0].keys
    ensures Get(t, key) == Returned(None) && Exists(t, key) == Returned(false)
  {
    var leaf := t.root.children[0];
    assert WellFormed(leaf);
    SearchDescends(t.root, key, 0);
    assert TraverseSearch(leaf, key) == IterateOverNodeWithoutChildren(leaf, key);
  }

  /** A key below every root key is looked up in the leaf under the root. */
  lemma GetFindsKeyBelowRoot<V>(t: TreeValue<V>, key: int)
    requires Reachable(t) && |t.root.children| == 1
    requires key < t.root.keys[0] && key in t.root.children[0].keys
    ensures var leaf := t.root.children[0];
      WellFormed(leaf) && Get(t, key) == Returned(Some(leaf.values[FirstEqual(leaf.keys, key)]))
  {
    var leaf := t.root.children[0];
    assert WellFormed(leaf);
    assert FirstAtLeast(t.root.keys, key) == 0;
    assert TraverseSearch(t.root, key) == IterateOverNodeWithChildren(t.root, key);
    assert TraverseSearch(leaf, key) == IterateOverNodeWithoutChildren(leaf, key);
  }
}
