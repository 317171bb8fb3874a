/** Value-level model of a B-tree node and of the associated functions of
    `BTree` that work on one node and its subtree: `insert_key_in_node`,
    `split_node`, `traverse_insert`, `traverse_search` and the two
    `iterate_over_node_*` scans. The heap-level `Nodes.Node` class is proved
    to behave exactly as these functions say. */
module NodeModel {
  import opened Outcomes
  import opened KeyVectors

  /** A node as a value: the key vector, the parallel value vector and the
      child vector. The `parent` back-reference is never read, so it is not
      part of the model. */
  datatype NodeValue<V> = NodeValue(keys: seq<int>, values: seq<V>, children: seq<NodeValue<V>>)

  /** Every node of the subtree keeps its key and value vectors the same length. */
  predicate WellFormed<V>(n: NodeValue<V>) {
    |n.keys| == |n.values| &&
    forall i :: 0 <= i < |n.children| ==> WellFormed(n.children[i])
  }

  /** Every node of the subtree has at most one child: the only shape the
      code ever builds. */
  predicate AtMostOneChild<V>(n: NodeValue<V>) {
    |n.children| <= 1 &&
    forall i :: 0 <= i < |n.children| ==> AtMostOneChild(n.children[i])
  }

  /** Every node of the subtree keeps its keys in non-decreasing order. */
  predicate AllSorted<V>(n: NodeValue<V>) {
    Sorted(n.keys) &&
    forall i :: 0 <= i < |n.children| ==> AllSorted(n.children[i])
  }

  /** How many times the key/value pair `e` is stored in the subtree. */
  ghost function Occurrences<V>(n: NodeValue<V>, e: (int, V)): nat
    requires WellFormed(n)
    decreases n, 1
  {
    multiset(Pairs(n.keys, n.values))[e] + ChildOccurrences(n.children, e)
  }

  /** How many times `e` is stored under a list of children. */
  ghost function ChildOccurrences<V>(cs: seq<NodeValue<V>>, e: (int, V)): nat
    requires forall i :: 0 <= i < |cs| ==> WellFormed(cs[i])
    decreases cs, 0
  {
    if cs == [] then 0 else Occurrences(cs[0], e) + ChildOccurrences(cs[1..], e)
  }

  // ---------------------------------------------------------------------
  // insert_key_in_node

  /** `insert_key_in_node`: a positional insert of `key` and `value` into the
      two vectors; "Node is full" only when the key went to the end and the
      node now holds more than `maxKeys` keys. Duplicates are not rejected. */
  function InsertKeyInNode<V>(n: NodeValue<V>, key: int, value: V, maxKeys: nat): (r: (NodeValue<V>, Result<()>))
    requires WellFormed(n)
    ensures WellFormed(r.0) && r.0.children == n.children
    ensures r.0.keys == Insert(n.keys, FirstGreater(n.keys, key), key)
    ensures Pairs(r.0.keys, r.0.values) == Insert(Pairs(n.keys, n.values), FirstGreater(n.keys, key), (key, value))
    ensures r.1 == Err(NodeIsFull) <==> FirstGreater(n.keys, key) == |n.keys| && |n.keys| >= maxKeys
    ensures r.1 == Ok(()) || r.1 == Err(NodeIsFull)
  {
    var i := FirstGreater(n.keys, key);
    var n' := n.(keys := Insert(n.keys, i, key), values := Insert(n.values, i, value));
    assert Pairs(n'.keys, n'.values) == Insert(Pairs(n.keys, n.values), i, (key, value));
    if i == |n.keys| && |n'.keys| >= maxKeys + 1 then (n', Err(NodeIsFull)) else (n', Ok(()))
  }

  // ---------------------------------------------------------------------
  // split_node

  /** What `split_node` hands back: the node it keeps (truncated in place),
      the promoted pair, and the right node it builds and then drops. */
  datatype Halves<V> = Halves(left: NodeValue<V>, key: int, value: V, right: NodeValue<V>)

  /** How many copies of child `m + 1` the `split_node` loop pushes to the
      right node: one per round `i` in `m .. maxKeys` with more than `i`
      children. */
  function MovedChildren(count: nat, maxKeys: nat): (moved: nat)
    ensures moved <= maxKeys - maxKeys / 2
    ensures moved > 0 ==> maxKeys / 2 < count
  {
    var m := maxKeys / 2;
    if count <= m then 0 else if count <= maxKeys then count - m else maxKeys - m
  }

  /** `count` copies of `x`. */
  function Copies<T>(x: T, count: nat): (r: seq<T>)
    ensures |r| == count && forall j :: 0 <= j < count ==> r[j] == x
  {
    if count == 0 then [] else Copies(x, count - 1) + [x]
  }

  /** `split_node` with `m = maxKeys / 2`: keys and values `m + 1 .. maxKeys`
      move to a new right node, index `m` is promoted, the node keeps the
      first `m`; each loop round with more than `i` children pushes child
      `m + 1` to the right node again, and the node's children are truncated
      to `m`. It panics when the node has fewer than `maxKeys + 1` keys
      (`Vec::remove` out of bounds) or exactly `m + 1` children (child
      `m + 1` out of bounds). */
  function SplitNode<V>(n: NodeValue<V>, maxKeys: nat): (r: Run<Halves<V>>)
    requires WellFormed(n)
    ensures r.Panicked? <==> |n.keys| < maxKeys + 1 || |n.children| == maxKeys / 2 + 1
    ensures r.Returned? ==> WellFormed(r.value.left) && WellFormed(r.value.right)
  {
    var m := maxKeys / 2;
    if |n.keys| < maxKeys + 1 || |n.children| == m + 1 then Panicked
    else
      var moved := MovedChildren(|n.children|, maxKeys);
      var right := NodeValue(n.keys[m + 1..maxKeys + 1], n.values[m + 1..maxKeys + 1],
                             if moved == 0 then [] else Copies(n.children[m + 1], moved));
      var left := NodeValue(n.keys[..m], n.values[..m], Truncate(n.children, m));
      Returned(Halves(left, n.keys[m], n.values[m], right))
  }

  /** What a split that returns hands back: the kept node holds the first
      `maxKeys / 2` pairs and a prefix of the children, the promoted pair
      is the next one, the right node the `maxKeys - maxKeys / 2` after it,
      so that together they are the first `maxKeys + 1` pairs in order
      (pairs past `maxKeys + 1` are dropped); and on sorted keys every kept
      key is at most the promoted key and every right key at least it. */
  lemma SplitNodeHalves<V>(n: NodeValue<V>, maxKeys: nat)
    requires WellFormed(n) && SplitNode(n, maxKeys).Returned?
    ensures var h := SplitNode(n, maxKeys).value;
      && |h.left.keys| == maxKeys / 2 && |h.right.keys| == maxKeys - maxKeys / 2
      && h.left.keys + [h.key] + h.right.keys == n.keys[..maxKeys + 1]
      && h.left.values + [h.value] + h.right.values == n.values[..maxKeys + 1]
      && |h.left.children| <= maxKeys / 2 && |h.left.children| <= |n.children|
      && h.left.children == n.children[..|h.left.children|]
      && (Sorted(n.keys) ==>
            && Sorted(h.left.keys) && Sorted(h.right.keys)
            && (forall k :: k in h.left.keys ==> k <= h.key)
            && (forall k :: k in h.right.keys ==> h.key <= k))
  {
    var m := maxKeys / 2;
    assert n.keys[..maxKeys + 1] == n.keys[..m] + [n.keys[m]] + n.keys[m + 1..maxKeys + 1];
    assert n.values[..maxKeys + 1] == n.values[..m] + [n.values[m]] + n.values[m + 1..maxKeys + 1];
  }

  // ---------------------------------------------------------------------
  // traverse_insert

  /** `traverse_insert`. A leaf takes the pair by `insert_key_in_node`. An
      internal node scans its keys: an equal key gives "Key already exists";
      the first greater key at index `i` sends the pair into `children[i]`;
      past every key it goes into the last child, whose result is passed up
      unchanged, "Node is full" included. When `children[i]` reports "Node
      is full" the child is split, and inserting the promoted pair into this
      node then panics: the scan still holds a shared borrow of this node's
      `RefCell` when `insert_key_in_node` asks for a mutable one. */
  function TraverseInsert<V>(n: NodeValue<V>, key: int, value: V, maxKeys: nat): (r: (NodeValue<V>, Run<Result<()>>))
    requires WellFormed(n)
    ensures WellFormed(r.0) && |r.0.children| == |n.children|
    ensures r.1 != Returned(Err(KeyNotFound)) && r.1 != Returned(Err(Unsupported))
    ensures r.1 == Returned(Err(KeyAlreadyExists)) ==> r.0 == n && |n.children| > 0
    ensures r.1 == Panicked ==> |n.children| > 0
    decreases n
  {
    if |n.children| == 0 then
      var (leaf, res) := InsertKeyInNode(n, key, value, maxKeys);
      (leaf, Returned(res))
    else
      var i := FirstAtLeast(n.keys, key);
      if i < |n.keys| && n.keys[i] == key then
        (n, Returned(Err(KeyAlreadyExists)))
      else if i < |n.keys| then
        if |n.children| <= i then
          (n, Panicked)
        else
          var (child, res) := TraverseInsert(n.children[i], key, value, maxKeys);
          if res == Returned(Err(NodeIsFull)) then
            match SplitNode(child, maxKeys)
            case Panicked => (n.(children := n.children[i := child]), Panicked)
            case Returned(h) => (n.(children := n.children[i := h.left]), Panicked)
          else
            (n.(children := n.children[i := child]), res)
      else
        var last := |n.children| - 1;
        var (child, res) := TraverseInsert(n.children[last], key, value, maxKeys);
        (n.(children := n.children[last := child]), res)
  }

  // ---------------------------------------------------------------------
  // traverse_search and the two scans

  /** `traverse_search`: a node with children is scanned by
      `iterate_over_node_with_children`, a leaf by
      `iterate_over_node_without_children`. The only error it returns is
      "Key not found", and on a leaf it never panics. */
  function TraverseSearch<V>(n: NodeValue<V>, key: int): (r: Run<Result<V>>)
    requires WellFormed(n)
    ensures r.Returned? && r.value.Err? ==> r.value.error == KeyNotFound
    ensures n.children == [] ==> r.Returned?
    decreases n, 1
  {
    if |n.children| > 0 then IterateOverNodeWithChildren(n, key)
    else IterateOverNodeWithoutChildren(n, key)
  }

  /** `iterate_over_node_with_children`: an equal key answers with its value,
      the first greater key at index `i` sends the search into `children[i]`
      (a panic when there is no such child), and a key above every key of
      the node is "not found" without visiting any child. */
  function IterateOverNodeWithChildren<V>(n: NodeValue<V>, key: int): (r: Run<Result<V>>)
    requires WellFormed(n)
    ensures (forall j :: 0 <= j < |n.keys| ==> n.keys[j] < key) ==> r == Returned(Err(KeyNotFound))
    ensures r.Returned? && r.value.Err? ==> r.value.error == KeyNotFound
    decreases n, 0
  {
    var i := FirstAtLeast(n.keys, key);
    if i == |n.keys| then Returned(Err(KeyNotFound))
    else if n.keys[i] == key then Returned(Ok(n.values[i]))
    else if i < |n.children| then TraverseSearch(n.children[i], key)
    else Panicked
  }

  /** `iterate_over_node_without_children`: the value of the first copy of
      `key`, or "Key not found" when the node does not hold it. */
  function IterateOverNodeWithoutChildren<V>(n: NodeValue<V>, key: int): (r: Run<Result<V>>)
    requires WellFormed(n)
    ensures r.Returned?
    ensures r.value.Ok? <==> key in n.keys
    ensures r.value.Ok? ==> exists i :: 0 <= i < |n.keys| && n.keys[i] == key && key !in n.keys[..i] && r.value.value == n.values[i]
    ensures r.value.Err? ==> r.value.error == KeyNotFound
  {
    var i := FirstEqual(n.keys, key);
    if i < |n.keys| then Returned(Ok(n.values[i])) else Returned(Err(KeyNotFound))
  }

  // ---------------------------------------------------------------------
  // Properties

  /** The results of a node-level insert that stored the pair: plain success,
      or success with the "Node is full" signal. */
  predicate Stored(res: Run<Result<()>>) {
    res == Returned(Ok(())) || res == Returned(Err(NodeIsFull))
  }

  lemma MultisetOfInsert<T>(s: seq<T>, i: nat, x: T)
    requires i <= |s|
    ensures multiset(Insert(s, i, x)) == multiset(s) + multiset{x}
  {
    assert s == s[..i] + s[i..];
  }

  /** `insert_key_in_node` adds exactly the one pair to the node and keeps a
      sorted key vector sorted. */
  lemma InsertKeyInNodeStores<V>(n: NodeValue<V>, key: int, value: V, maxKeys: nat, e: (int, V))
    requires WellFormed(n)
    ensures var n' := InsertKeyInNode(n, key, value, maxKeys).0;
      && Occurrences(n', e) == Occurrences(n, e) + (if e == (key, value) then 1 else 0)
      && (Sorted(n.keys) ==> Sorted(n'.keys))
  {
    MultisetOfInsert(Pairs(n.keys, n.values), FirstGreater(n.keys, key), (key, value));
    if Sorted(n.keys) {
      InsertKeepsSorted(n.keys, key);
    }
  }

  lemma {:induction false} ChildOccurrencesReplace<V>(cs: seq<NodeValue<V>>, j: nat, c: NodeValue<V>, e: (int, V))
    requires forall i :: 0 <= i < |cs| ==> WellFormed(cs[i])
    requires j < |cs| && WellFormed(c)
    ensures ChildOccurrences(cs[j := c], e) + Occurrences(cs[j], e) == ChildOccurrences(cs, e) + Occurrences(c, e)
  {
    var cs' := cs[j := c];
    if j == 0 {
      assert cs'[1..] == cs[1..];
    } else {
      assert cs'[1..] == cs[1..][j - 1 := c];
      ChildOccurrencesReplace(cs[1..], j - 1, c, e);
    }
  }

  /** Replacing one child changes the subtree's pairs by exactly the
      difference between the old and the new child. */
  lemma OccurrencesReplaceChild<V>(n: NodeValue<V>, j: nat, c: NodeValue<V>, e: (int, V))
    requires WellFormed(n) && j < |n.children| && WellFormed(c)
    ensures WellFormed(n.(children := n.children[j := c]))
    ensures Occurrences(n.(children := n.children[j := c]), e) + Occurrences(n.children[j], e)
         == Occurrences(n, e) + Occurrences(c, e)
  {
    ChildOccurrencesReplace(n.children, j, c, e);
  }

  /** When `traverse_insert` reports success or "Node is full", the pair was
      stored: the subtree holds exactly the old pairs plus the new one. */
  lemma {:induction false} TraverseInsertStores<V>(n: NodeValue<V>, key: int, value: V, maxKeys: nat, e: (int, V))
    requires WellFormed(n)
    requires Stored(TraverseInsert(n, key, value, maxKeys).1)
    ensures Occurrences(TraverseInsert(n, key, value, maxKeys).0, e) == Occurrences(n, e) + (if e == (key, value) then 1 else 0)
    decreases n
  {
    if |n.children| == 0 {
      InsertKeyInNodeStores(n, key, value, maxKeys, e);
    } else {
      var i := FirstAtLeast(n.keys, key);
      var j := if i < |n.keys| then i else |n.children| - 1;
      var child := TraverseInsert(n.children[j], key, value, maxKeys).0;
      TraverseInsertStores(n.children[j], key, value, maxKeys, e);
      OccurrencesReplaceChild(n, j, child, e);
    }
  }

  lemma PrefixKeepsShape<V>(c: NodeValue<V>, k: nat)
    requires k <= |c.children|
    ensures AtMostOneChild(c) ==> forall j :: 0 <= j < k ==> AtMostOneChild(c.children[..k][j])
    ensures AllSorted(c) ==> forall j :: 0 <= j < k ==> AllSorted(c.children[..k][j])
  {
  }

  /** `traverse_insert` never gives a node a second child and keeps every
      sorted key vector sorted, whatever its result. */
  lemma {:induction false} TraverseInsertKeepsShape<V>(n: NodeValue<V>, key: int, value: V, maxKeys: nat)
    requires WellFormed(n)
    ensures var r := TraverseInsert(n, key, value, maxKeys).0;
      && (AtMostOneChild(n) ==> AtMostOneChild(r))
      && (AllSorted(n) ==> AllSorted(r))
    decreases n
  {
    if |n.children| == 0 {
      InsertKeyInNodeStores(n, key, value, maxKeys, (key, value));
    } else {
      var i := FirstAtLeast(n.keys, key);
      if i < |n.keys| && n.keys[i] != key && i < |n.children| {
        var (child, res) := TraverseInsert(n.children[i], key, value, maxKeys);
        TraverseInsertKeepsShape(n.children[i], key, value, maxKeys);
        var s := SplitNode(child, maxKeys);
        if res == Returned(Err(NodeIsFull)) && s.Returned? {
          SplitNodeHalves(child, maxKeys);
          PrefixKeepsShape(child, |s.value.left.children|);
        }
      } else if i == |n.keys| {
        TraverseInsertKeepsShape(n.children[|n.children| - 1], key, value, maxKeys);
      }
    }
  }

  /** In a node with sorted keys, a key the node holds is found there, with
      the value of its first copy, whether or not the node has children. */
  lemma SearchFindsNodeKey<V>(n: NodeValue<V>, key: int)
    requires WellFormed(n) && Sorted(n.keys) && key in n.keys
    ensures TraverseSearch(n, key) == Returned(Ok(n.values[FirstEqual(n.keys, key)]))
  {
    FirstAtLeastFindsFirstCopy(n.keys, key);
  }

  /** The descent of the internal-node scan: when the first key at least
      `key` is a greater key at index `i` and the node has child `i`, the
      search answers what the search of that child answers. */
  lemma SearchDescends<V>(n: NodeValue<V>, key: int, i: nat)
    requires WellFormed(n) && i < |n.keys| && i < |n.children| && key < n.keys[i]
    requires forall j :: 0 <= j < i ==> n.keys[j] < key
    ensures IterateOverNodeWithChildren(n, key) == TraverseSearch(n.children[i], key)
  {
    assert FirstAtLeast(n.keys, key) == i;
  }
}
