/** The heap side of `BTree`: the capacity and the root node. `new`,
    `insert`, `exists`, `get` and `remove` are each proved to do what the
    function of the same name in `TreeModel` describes, and `insert` keeps
    the tree in the shape `TreeModel.Reachable` describes. */
module BTrees {
  import opened Outcomes
  import opened Nodes
  import NodeModel
  import TreeModel

  class BTree<V> {
    const maxKeysPerNode: nat
    var root: Node<V>
    /** This tree object and every node of the tree. */
    ghost var Repr: set<object>

    ghost predicate Valid()
      reads this, Repr
    {
      && this in Repr && root in Repr && root.Repr <= Repr && this !in root.Repr
      && root.Valid() && TreeModel.ValidCapacity(maxKeysPerNode)
    }

    /** The tree as a value. */
    ghost function Model(): TreeModel.TreeValue<V>
      reads this, root
    {
      TreeModel.TreeValue(maxKeysPerNode, root.Model)
    }

    /** The tree `new` builds once its capacity checks have passed. */
    constructor Init(firstKey: int, firstValue: V, maxKeys: nat)
      requires TreeModel.ValidCapacity(maxKeys)
      ensures Valid() && fresh(Repr)
      ensures TreeModel.New(firstKey, firstValue, maxKeys) == Returned(Model())
    {
      maxKeysPerNode := maxKeys;
      var leaf := new Node.Leaf(firstKey, firstValue);
      root := leaf;
      Repr := {this} + leaf.Repr;
    }

    /** `BTree::new`: panics when the capacity is below 4 or odd; otherwise
        a tree whose root is a leaf holding the seed pair, in the shape every
        later `insert` keeps. */
    static method New(firstKey: int, firstValue: V, maxKeys: nat) returns (r: Run<BTree<V>>)
      ensures r.Panicked? <==> TreeModel.New(firstKey, firstValue, maxKeys).Panicked?
      ensures r.Returned? ==>
        && r.value.Valid() && fresh(r.value.Repr)
        && TreeModel.New(firstKey, firstValue, maxKeys) == Returned(r.value.Model())
        && TreeModel.Reachable(r.value.Model())
    {
      if maxKeys < 4 {
        return Panicked;
      }
      if maxKeys % 2 != 0 {
        return Panicked;
      }
      var t := new BTree<V>.Init(firstKey, firstValue, maxKeys);
      return Returned(t);
    }

    /** `BTree::insert`: a root with at most `maxKeysPerNode / 2 - 1` keys
        takes the pair directly; otherwise the pair goes down the tree, and
        when that reports "Node is full" the root is split and replaced by a
        new root holding the promoted pair over the old, truncated root.
        A returning insert keeps a reachable tree reachable. */
    method Insert(key: int, value: V) returns (r: Run<Result<()>>)
      requires Valid()
      modifies Repr
      ensures Valid() && fresh(Repr - old(Repr))
      ensures (Model(), r) == TreeModel.Insert(old(Model()), key, value)
      ensures TreeModel.Reachable(old(Model())) && r.Returned? ==> TreeModel.Reachable(Model())
    {
      ghost var t := Model();
      if |root.keys| <= maxKeysPerNode / 2 - 1 {
        var res := root.InsertKeyInNode(key, value, maxKeysPerNode);
        r := Returned(res);
      } else {
        ghost var (root', res) := NodeModel.TraverseInsert(t.root, key, value, maxKeysPerNode);
        r := root.TraverseInsert(key, value, maxKeysPerNode);
        assert root.Model == root' && r == res;
        if r == Returned(Err(NodeIsFull)) {
          r := SplitRoot();
        }
      }
      assert (Model(), r) == TreeModel.Insert(t, key, value);
      if TreeModel.Reachable(t) && r.Returned? {
        TreeModel.InsertKeepsReachable(t, key, value);
      }
    }

    /** The root split at the end of `insert`: `split_node` on the root,
        then a new root holding the promoted pair over the truncated old
        root; a split that panics changes nothing. */
    method SplitRoot() returns (r: Run<Result<()>>)
      requires Valid()
      modifies Repr
      ensures Valid() && fresh(Repr - old(Repr))
      ensures match NodeModel.SplitNode(old(root.Model), maxKeysPerNode)
        case Panicked => r == Panicked && root.Model == old(root.Model)
        case Returned(h) => r == Returned(Ok(())) && root.Model == NodeModel.NodeValue([h.key], [h.value], [h.left])
    {
      var s, _, _, _ := root.SplitNode(maxKeysPerNode);
      if s.Panicked? {
        r := Panicked;
      } else {
        var newRoot := new Node.Parent(s.value.0, s.value.1, root);
        root := newRoot;
        Repr := Repr + {newRoot};
        r := Returned(Ok(()));
      }
    }

    /** `BTree::remove`: not implemented; always the unit error. */
    method Remove(key: int) returns (r: Result<V>)
      ensures r == Err(Unsupported)
    {
      return Err(Unsupported);
    }

    /** `BTree::exists`: true exactly when the search from the root finds
        the key; it panics where the search panics. */
    method Exists(key: int) returns (r: Run<bool>)
      requires Valid()
      ensures r == TreeModel.Exists(Model(), key)
    {
      var found := root.TraverseSearch(key);
      match found
      case Panicked =>
        r := Panicked;
      case Returned(res) =>
        r := Returned(res.Ok?);
    }

    /** `BTree::get`: the value the search from the root finds, `None` when
        it reports an error, and a panic where the search panics. */
    method Get(key: int) returns (r: Run<Option<V>>)
      requires Valid()
      ensures r == TreeModel.Get(Model(), key)
    {
      var found := root.TraverseSearch(key);
      match found
      case Panicked =>
        r := Panicked;
      case Returned(Ok(v)) =>
        r := Returned(Some(v));
      case Returned(Err(_)) =>
        r := Returned(None);
    }
  }
}
