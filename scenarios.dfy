/** The demonstration `run` in `src/lib.rs`, traced through the value-level
    model: a tree of capacity 4 seeded with `(0, 0)`, the pairs `(i, 5 * i)`
    for `i` in `1 .. 5` inserted, then `exists` asked for keys `0 .. 5`. */
module Scenarios {
  import opened Outcomes
  import KeyVectors
  import opened NodeModel
  import opened TreeModel

  /** The tree after the first `k` inserts of the demonstration, for
      `k` in `0 .. 4`. */
  function DemoTree(k: nat): (t: TreeValue<int>)
    requires k <= 4
    ensures Reachable(t)
  {
    if k == 0 then TreeValue(4, NodeValue([0], [0], []))
    else if k == 1 then TreeValue(4, NodeValue([0, 1], [0, 5], []))
    else if k == 2 then TreeValue(4, NodeValue([0, 1, 2], [0, 5, 10], []))
    else if k == 3 then TreeValue(4, NodeValue([0, 1, 2, 3], [0, 5, 10, 15], []))
    else TreeValue(4, NodeValue([2], [10], [NodeValue([0, 1], [0, 5], [])]))
  }

  /** The first three inserts of the demonstration append to the leaf
      root, which stays below the split threshold of `maxKeys + 1` keys. */
  lemma DemoFirstInsert()
    ensures Insert(DemoTree(0), 1, 5) == (DemoTree(1), Returned(Ok(())))
  {
    AppendToLeafRoot(DemoTree(0), 1, 5);
    assert [0] + [1] == [0, 1] && [0] + [5] == [0, 5];
  }

  lemma DemoSecondInsert()
    ensures Insert(DemoTree(1), 2, 10) == (DemoTree(2), Returned(Ok(())))
  {
    AppendToLeafRoot(DemoTree(1), 2, 10);
    assert [0, 1] + [2] == [0, 1, 2] && [0, 5] + [10] == [0, 5, 10];
  }

  lemma DemoThirdInsert()
    ensures Insert(DemoTree(2), 3, 15) == (DemoTree(3), Returned(Ok(())))
  {
    AppendToLeafRoot(DemoTree(2), 3, 15);
    assert [0, 1, 2] + [3] == [0, 1, 2, 3] && [0, 5, 10] + [15] == [0, 5, 10, 15];
  }

  /** The fourth insert fills the leaf root with five keys; it splits into
      the root `[2]` over the leaf `[0, 1]`, and keys 3 and 4 are gone, yet
      `insert` reports success. */
  lemma DemoRootSplit()
    ensures Insert(DemoTree(3), 4, 20) == (DemoTree(4), Returned(Ok(())))
  {
    var t := DemoTree(3);
    AppendToLeafRoot(t, 4, 20);
    assert t.root.keys[..2] == [0, 1] && t.root.values[..2] == [0, 5];
  }

  /** `new` with the demonstration's arguments builds `DemoTree(0)`. */
  lemma DemoNew()
    ensures New(0, 0, 4) == Returned(DemoTree(0))
  {
  }

  /** After the demonstration's inserts, `exists` finds keys 0, 1 and 2 and
      misses keys 3 and 4, which the root split dropped. */
  lemma DemoExists()
    ensures Exists(DemoTree(4), 0) == Returned(true)
    ensures Exists(DemoTree(4), 1) == Returned(true)
    ensures Exists(DemoTree(4), 2) == Returned(true)
    ensures Exists(DemoTree(4), 3) == Returned(false)
    ensures Exists(DemoTree(4), 4) == Returned(false)
  {
    var t := DemoTree(4);
    GetFindsKeyBelowRoot(t, 0);
    GetFindsKeyBelowRoot(t, 1);
    GetFindsRootKey(t, 2);
    KeyAboveRootNotFound(t, 3);
    KeyAboveRootNotFound(t, 4);
  }
}
