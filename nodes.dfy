/** The heap side of a B-tree node: `Node` with its key, value and child
    vectors, and the associated functions of `BTree` that work on one node
    (`insert_key_in_node`, `split_node`, `traverse_insert`,
    `traverse_search` and the two scans), each proved to do exactly what the
    value-level function of the same name in `NodeModel` describes. */
module Nodes {
  import opened Outcomes
  import opened KeyVectors
  import NodeModel

  class Node<V> {
    var keys: seq<int>
    var values: seq<V>
    var children: seq<Node<V>>
    /** The subtree below this node, as a value. */
    ghost var Model: NodeModel.NodeValue<V>
    /** This node and every node below it. */
    ghost var Repr: set<object>

    /** The fields agree with `Model`, and the subtrees of different
        children share no node. */
    ghost predicate Valid()
      reads this, Repr
      ensures Valid() ==> this in Repr && NodeModel.WellFormed(Model)
      decreases Repr
    {
      && this in Repr
      && Model.keys == keys && Model.values == values && |keys| == |values|
      && |Model.children| == |children|
      && (forall i :: 0 <= i < |children| ==>
            && children[i] in Repr && children[i].Repr <= Repr && this !in children[i].Repr
            && children[i].Valid() && children[i].Model == Model.children[i])
      && (forall i, j :: 0 <= i < j < |children| ==> children[i].Repr !! children[j].Repr)
    }

    /** A node stays valid when only its own fields changed and its new
        children are a prefix of its old children, with their models. */
    twostate lemma KeepsValid(k: nat)
      requires old(Valid()) && unchanged(old(Repr) - {this})
      requires Repr == old(Repr) && k <= old(|children|)
      requires children == old(children)[..k] && |Model.children| == k
      requires forall i :: 0 <= i < k ==> Model.children[i] == old(Model.children[i])
      requires Model.keys == keys && Model.values == values && |keys| == |values|
      ensures Valid()
    {
      assert forall i :: 0 <= i < k ==> children[i] == old(children[i]);
    }

    /** A node stays valid when only the subtree of child `c` changed, the
        child is valid again with the same footprint, and the node's model
        records the child's new model. */
    twostate lemma ChildKeepsValid(c: nat)
      requires old(Valid()) && c < old(|children|)
      requires keys == old(keys) && values == old(values) && children == old(children)
      requires Repr == old(Repr)
      requires unchanged(old(Repr) - old(children[c].Repr) - {this})
      requires children[c].Valid() && children[c].Repr == old(children[c].Repr)
      requires Model == old(Model).(children := old(Model.children)[c := children[c].Model])
      ensures Valid()
    {
      forall j | 0 <= j < |children| && j != c
        ensures children[j].Valid() && children[j].Model == Model.children[j]
      {
        assert old(children[j].Valid());
      }
    }

    /** The node `BTree::new` makes: a leaf holding one pair. */
    constructor Leaf(key: int, value: V)
      ensures Valid() && fresh(Repr)
      ensures Model == NodeModel.NodeValue([key], [value], [])
    {
      keys, values, children := [key], [value], [];
      Model := NodeModel.NodeValue([key], [value], []);
      Repr := {this};
    }

    /** The new root `BTree::insert` makes after a root split: one pair over
        the old root as its only child. */
    constructor Parent(key: int, value: V, child: Node<V>)
      requires child.Valid()
      ensures Valid() && Repr == {this} + child.Repr
      ensures Model == NodeModel.NodeValue([key], [value], [child.Model])
    {
      keys, values, children := [key], [value], [child];
      Model := NodeModel.NodeValue([key], [value], [child.Model]);
      Repr := {this} + child.Repr;
    }

    /** `insert_key_in_node`: scans for the first greater key and inserts
        the pair there; otherwise appends it and reports "Node is full" when
        the node now holds more than `maxKeys` keys. */
    method InsertKeyInNode(key: int, value: V, maxKeys: nat) returns (r: Result<()>)
      requires Valid()
      modifies this
      ensures Valid() && Repr == old(Repr)
      ensures (Model, r) == NodeModel.InsertKeyInNode(old(Model), key, value, maxKeys)
    {
      var len := |keys|;
      var i := 0;
      while i < len
        invariant i <= len == |keys|
        invariant forall j :: 0 <= j < i ==> keys[j] <= key
      {
        if key < keys[i] {
          keys := Insert(keys, i, key);
          values := Insert(values, i, value);
          Model := Model.(keys := keys, values := values);
          KeepsValid(|children|);
          return Ok(());
        }
        i := i + 1;
      }
      assert FirstGreater(keys, key) == len;
      keys := Insert(keys, len, key);
      values := Insert(values, len, value);
      Model := Model.(keys := keys, values := values);
      KeepsValid(|children|);
      if |keys| >= maxKeys + 1 {
        return Err(NodeIsFull);
      }
      return Ok(());
    }

    /** The loop of `split_node` with `m = maxKeys / 2`, on the vectors of
        the node being split: each round `i` in `m .. maxKeys` removes the
        key and value at index `m + 1` and pushes them to the right node,
        and, when there are more than `i` children, pushes child `m + 1` to
        the right node once more (children are never removed here). The
        caller rules out the inputs on which a `Vec` index would be out of
        bounds. */
    static method MoveUpperHalf(keys: seq<int>, values: seq<V>, children: seq<Node<V>>, maxKeys: nat)
      returns (keptKeys: seq<int>, keptValues: seq<V>, rightKeys: seq<int>, rightValues: seq<V>, rightChildren: seq<Node<V>>)
      requires |keys| == |values| && |keys| >= maxKeys + 1 && |children| != maxKeys / 2 + 1
      ensures keptKeys == RemovedRounds(keys, maxKeys / 2, maxKeys - maxKeys / 2)
      ensures keptValues == RemovedRounds(values, maxKeys / 2, maxKeys - maxKeys / 2)
      ensures rightKeys == RemovedElements(keys, maxKeys / 2, maxKeys - maxKeys / 2)
      ensures rightValues == RemovedElements(values, maxKeys / 2, maxKeys - maxKeys / 2)
      ensures |rightChildren| == NodeModel.MovedChildren(|children|, maxKeys)
      ensures forall j :: 0 <= j < |rightChildren| ==> rightChildren[j] == children[maxKeys / 2 + 1]
    {
      var m := maxKeys / 2;
      keptKeys, keptValues := keys, values;
      rightKeys, rightValues, rightChildren := [], [], [];
      var i := m;
      while i < maxKeys
        invariant m <= i <= maxKeys
        invariant keptKeys == RemovedRounds(keys, m, i - m)
        invariant keptValues == RemovedRounds(values, m, i - m)
        invariant rightKeys == RemovedElements(keys, m, i - m)
        invariant rightValues == RemovedElements(values, m, i - m)
        invariant |rightChildren| == if |children| <= m then 0 else if |children| <= i then |children| - m else i - m
        invariant forall j :: 0 <= j < |rightChildren| ==> rightChildren[j] == children[m + 1]
      {
        rightKeys := rightKeys + [keptKeys[m + 1]];
        keptKeys := Remove(keptKeys, m + 1);
        rightValues := rightValues + [keptValues[m + 1]];
        keptValues := Remove(keptValues, m + 1);
        if |children| > i {
          rightChildren := rightChildren + [children[m + 1]];
        }
        i := i + 1;
      }
    }

    /** `split_node` on this node with `m = maxKeys / 2`: the upper keys and
        values (and copies of child `m + 1`) go to a right node, the pair at
        `m` is promoted, and the node keeps its first `m` keys, values and
        children. The right node is handed back as its three vectors. A
        split that would panic changes nothing. */
    method SplitNode(maxKeys: nat) returns (r: Run<(int, V)>, rightKeys: seq<int>, rightValues: seq<V>, rightChildren: seq<Node<V>>)
      requires Valid()
      modifies this
      ensures Valid() && Repr == old(Repr)
      ensures match NodeModel.SplitNode(old(Model), maxKeys)
        case Panicked => r == Panicked && Model == old(Model)
        case Returned(h) =>
          && r == Returned((h.key, h.value)) && Model == h.left
          && rightKeys == h.right.keys && rightValues == h.right.values
          && |rightChildren| == |h.right.children|
          && forall j :: 0 <= j < |rightChildren| ==>
               rightChildren[j] == old(children)[maxKeys / 2 + 1] && rightChildren[j].Model == h.right.children[j]
    {
      var m := maxKeys / 2;
      if |keys| < maxKeys + 1 || |children| == m + 1 {
        return Panicked, [], [], [];
      }
      var ks, vs;
      ks, vs, rightKeys, rightValues, rightChildren := MoveUpperHalf(keys, values, children, maxKeys);
      SplitVector(keys, m, maxKeys);
      SplitVector(values, m, maxKeys);
      var spareKey := ks[m];
      var spareValue := vs[m];
      ks := Truncate(Remove(ks, m), m);
      vs := Truncate(Remove(vs, m), m);
      var cs := Truncate(children, m);
      keys, values, children := ks, vs, cs;
      Model := NodeModel.NodeValue(ks, vs, Truncate(Model.children, m));
      KeepsValid(|cs|);
      r := Returned((spareKey, spareValue));
    }

    /** `traverse_insert`: a leaf takes the pair itself; an internal node
        scans its keys, rejects an equal key, and sends the pair into the
        child at the first greater key or else into its last child. When
        that child (not the last) reports "Node is full" it is split, and
        the call then panics on the borrow this node still holds. */
    method TraverseInsert(key: int, value: V, maxKeys: nat) returns (r: Run<Result<()>>)
      requires Valid()
      modifies Repr
      ensures Valid() && Repr == old(Repr)
      ensures (Model, r) == NodeModel.TraverseInsert(old(Model), key, value, maxKeys)
      decreases Repr, 1
    {
      if |children| == 0 {
        var res := InsertKeyInNode(key, value, maxKeys);
        return Returned(res);
      }
      var i := 0;
      while i < |keys| && keys[i] < key
        invariant i <= |keys|
        invariant forall j :: 0 <= j < i ==> keys[j] < key
      {
        i := i + 1;
      }
      if i < |keys| && keys[i] == key {
        return Returned(Err(KeyAlreadyExists));
      }
      if i < |keys| && |children| <= i {
        return Panicked;
      }
      assert i == FirstAtLeast(keys, key);
      var c := if i < |keys| then i else |children| - 1;
      r := InsertIntoChild(c, i < |keys|, key, value, maxKeys);
    }

    /** The descent of `traverse_insert` into child `c`: the recursive
        insert, and, when `splitIfFull` holds and the child reports "Node is
        full", the split of that child followed by the borrow panic. */
    method InsertIntoChild(c: nat, splitIfFull: bool, key: int, value: V, maxKeys: nat)
      returns (r: Run<Result<()>>)
      requires Valid() && c < |children|
      modifies Repr
      ensures Valid() && Repr == old(Repr)
      ensures var (child', res) := NodeModel.TraverseInsert(old(Model.children[c]), key, value, maxKeys);
              var full := splitIfFull && res == Returned(Err(NodeIsFull));
              && r == (if full then Panicked else res)
              && Model == old(Model).(children := old(Model.children)[c :=
                   if !full then child'
                   else match NodeModel.SplitNode(child', maxKeys)
                        case Panicked => child'
                        case Returned(h) => h.left])
      decreases Repr, 0
    {
      ghost var n := Model;
      var child := children[c];
      r := child.TraverseInsert(key, value, maxKeys);
      Model := n.(children := n.children[c := child.Model]);
      ChildKeepsValid(c);
      if splitIfFull && r == Returned(Err(NodeIsFull)) {
        var _, _, _, _ := child.SplitNode(maxKeys);
        Model := n.(children := n.children[c := child.Model]);
        ChildKeepsValid(c);
        r := Panicked;
      }
    }

    /** `traverse_search`: dispatches on whether the node has children. */
    method TraverseSearch(key: int) returns (r: Run<Result<V>>)
      requires Valid()
      ensures r == NodeModel.TraverseSearch(Model, key)
      decreases Repr, 1
    {
      if |children| > 0 {
        r := IterateOverNodeWithChildren(key);
      } else {
        r := IterateOverNodeWithoutChildren(key);
      }
    }

    /** `iterate_over_node_with_children`: the value at an equal key, the
        search of the child at the first greater key, or "Key not found"
        past every key. */
    method IterateOverNodeWithChildren(key: int) returns (r: Run<Result<V>>)
      requires Valid()
      ensures r == NodeModel.IterateOverNodeWithChildren(Model, key)
      decreases Repr, 0
    {
      var i := 0;
      while i < |keys|
        invariant i <= |keys|
        invariant forall j :: 0 <= j < i ==> keys[j] < key
      {
        if key == keys[i] {
          return Returned(Ok(values[i]));
        }
        if key < keys[i] {
          if |children| <= i {
            return Panicked;
          }
          r := children[i].TraverseSearch(key);
          return;
        }
        i := i + 1;
      }
      return Returned(Err(KeyNotFound));
    }

    /** `iterate_over_node_without_children`: the value at the first equal
        key, or "Key not found". */
    method IterateOverNodeWithoutChildren(key: int) returns (r: Run<Result<V>>)
      requires Valid()
      ensures r == NodeModel.IterateOverNodeWithoutChildren(Model, key)
    {
      var i := 0;
      while i < |keys|
        invariant i <= |keys|
        invariant forall j :: 0 <= j < i ==> keys[j] != key
      {
        if key == keys[i] {
          return Returned(Ok(values[i]));
        }
        i := i + 1;
      }
      return Returned(Err(KeyNotFound));
    }
  }
}
