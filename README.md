# b-tree-lib in Dafny

A model of `src/b_tree/mod.rs` from b-tree-lib, a small B-tree map written in
Rust. A `BTree` holds `max_keys_per_node` and a root `Node`. Each node holds
a key vector, a parallel value vector and a vector of shared
(`Rc<RefCell<…>>`) children. The public operations are:

- `new`, which checks the capacity;
- `insert`, which goes through `insert_key_in_node`, `traverse_insert` and `split_node`;
- `exists` and `get`, which go through `traverse_search` and the two `iterate_over_node_*` scans;
- `remove`, which is not implemented.

The model has two layers.

- **Value layer.** It is purely functional, with one function per Rust function:
  - `KeyVectors` models the `Vec` operations the code uses (`insert`, `remove`, `truncate`) and the three index scans of the loops.
  - `NodeModel` models a node as the datatype `NodeValue` and gives one function per associated function that works on a node.
  - `TreeModel` models the tree as `TreeValue` and gives `New`, `Insert`, `Exists`, `Get` and `Remove`.

  The lemmas about these functions state what the code guarantees and where it departs from a B-tree.
- **Heap layer.** `Nodes.Node` and `BTrees.BTree` are classes.
  - Their fields are reassigned in place, as the Rust code mutates them through `borrow_mut`.
  - The Rust loops appear as `while` loops with invariants.
  - Each method is proved to produce exactly the state and result of its value-layer function, and to keep the object invariant `Valid()`. `Valid()` says the subtrees of different children share no node.

A Rust panic is an outcome here, `Run.Panicked`, because the code can reach several of them:
- a `Vec::remove` or index that is out of bounds;
- a `RefCell` borrow conflict.

Nothing here executes the Rust code. What the model says about it comes from reading the source.

What the code does, as the model proves it:

- **Shape.** Every state that `new` and a returning `insert` produce satisfies `TreeModel.Reachable`: the root is either a sorted leaf, or an internal node over exactly one sorted leaf. So the tree never grows past two levels, and no node ever gets a second child:
  - a root split makes a new root over the truncated old root only, and the right node `split_node` builds is dropped;
  - an internal root can never split, because `split_node` panics on fewer than `max_keys_per_node + 1` keys.
- **Insert.**
  - A leaf root accepts every key, duplicates included.
  - "Key already exists" comes only from an internal root that holds the key.
  - When a new key makes a leaf root split, the key is lost: it is dropped with the right half, or truncated away when mid-list inserts had already grown the leaf root to `max_keys_per_node + 1` keys or more. `insert` reports success, yet the pair is gone.
  - Once an internal root holds `max_keys_per_node / 2` keys, a key above every root key is stored in the leaf but can never be found, because the scan answers "Key not found" without descending. Below that threshold the key goes into the root's own key vector and is found.
  - A key between two root keys makes the search panic on `children[i]`, since the root has only one child. Once the root holds `max_keys_per_node / 2` keys, `insert` panics on it too; below that threshold `insert` puts it into the root's own key vector.
  - When a child at index `i` reports "Node is full", the child is split. Then `insert_key_in_node` on the parent panics, because the scan still holds a shared borrow of the parent's `RefCell`.
- **Search.**
  - A key held by the root is always found, with the value of its first copy.
  - A key below the first root key is searched in the leaf.

The demonstration `run` in `src/lib.rs` is traced in `Scenarios`:
- it inserts keys 1 to 4 into a tree of capacity 4;
- the fourth insert splits the root;
- `exists` then finds keys 0, 1 and 2, and misses 3 and 4.

## Model

| member | source | states |
|---|---|---|
| KeyVectors.Insert | src/b_tree/mod.rs:237-238 | `Vec::insert(i, x)`: one longer, `x` at `i`, the prefix before `i` kept and the rest shifted up by one |
| KeyVectors.Remove | src/b_tree/mod.rs:218-219 | `Vec::remove(i)`: one shorter, the prefix before `i` kept and the rest shifted down by one |
| KeyVectors.RemoveUndoesInsert | src/b_tree/mod.rs:237-238 | removing at `i` what was inserted at `i` gives back the original vector |
| KeyVectors.Truncate | src/b_tree/mod.rs:220-222 | `Vec::truncate(n)`: a prefix of the vector, of length `n`, or the whole vector when it is shorter |
| KeyVectors.RemovedRoundsSlices | src/b_tree/mod.rs:203-211 | after `n` rounds of `remove(m + 1)`, the vector is its first `m + 1` elements followed by those after `m + n`, and the removed elements, in the order removed, are exactly the run `m + 1 .. m + n + 1` |
| KeyVectors.SplitVector | src/b_tree/mod.rs:203-222 | on one vector, the whole split loop plus the final `remove(m)` and `truncate(m)` keeps the first `m` elements, yields element `m`, and moves `m + 1 .. max + 1` |
| KeyVectors.FirstGreater | src/b_tree/mod.rs:235-241 | the scan of `insert_key_in_node` stops at the first key greater than `key`: every earlier key is at most `key`, and it is at the end when there is none |
| KeyVectors.FirstEqual | src/b_tree/mod.rs:281-285 | the scan of a leaf stops at the first copy of `key`: it stops inside the vector exactly when `key` is present |
| KeyVectors.FirstAtLeast | src/b_tree/mod.rs:136-140 | the scan of an internal node stops at the first key equal to or greater than `key`: every earlier key is below it |
| KeyVectors.FirstAtLeastFindsFirstCopy | src/b_tree/mod.rs:266-269 | in a sorted key vector that holds `key`, the internal-node scan stops at the first copy of `key` |
| KeyVectors.InsertKeepsSorted | src/b_tree/mod.rs:235-243 | inserting before the first greater key (or appending) keeps a sorted key vector sorted |
| NodeModel.InsertKeyInNode | src/b_tree/mod.rs:227-251 | the pair is inserted before the first greater key, with keys and values kept parallel; "Node is full" exactly when the key went to the end and the node holds more than `max_keys_per_node` keys; otherwise `Ok`; duplicates accepted; children untouched |
| NodeModel.InsertKeyInNodeStores | src/b_tree/mod.rs:235-243 | every pair is stored in the node as often as before, except the new pair, which is stored exactly once more; a sorted node stays sorted |
| NodeModel.MovedChildren | src/b_tree/mod.rs:212-216 | the number of copies of child `m + 1` the loop pushes is at most `max - m`, and it is non-zero only when the node has more than `m` children |
| NodeModel.SplitNode | src/b_tree/mod.rs:183-225 | panics exactly when the node has fewer than `max + 1` keys or exactly `m + 1` children; otherwise both halves are well-formed |
| NodeModel.SplitNodeHalves | src/b_tree/mod.rs:203-222 | the kept half, the promoted pair and the right half are, in order, the first `max + 1` pairs; the kept half has `m` pairs and a prefix of the children; on sorted keys the kept keys are at most the promoted key and the right keys at least it |
| NodeModel.TraverseInsert | src/b_tree/mod.rs:119-180 | keeps the node well-formed and its child count; never reports "Key not found"; "Key already exists" only on an internal node and with nothing changed; panics only on an internal node |
| NodeModel.TraverseInsertStores | src/b_tree/mod.rs:119-180 | when the result is success or "Node is full", the subtree holds exactly its old pairs plus the new pair |
| NodeModel.TraverseInsertKeepsShape | src/b_tree/mod.rs:119-180 | whatever the result, no node gains a second child and sorted key vectors stay sorted |
| NodeModel.OccurrencesReplaceChild | src/b_tree/mod.rs:141-148 | replacing one child changes the subtree's pair counts by exactly the old child's counts out and the new child's in |
| NodeModel.TraverseSearch | src/b_tree/mod.rs:253-260 | the only error is "Key not found", and a leaf never panics |
| NodeModel.IterateOverNodeWithChildren | src/b_tree/mod.rs:262-275 | a key above every key of the node is "Key not found" without visiting a child; the only error is "Key not found" |
| NodeModel.IterateOverNodeWithoutChildren | src/b_tree/mod.rs:277-287 | never panics; succeeds exactly when the key is in the node, with the value at its first copy; otherwise "Key not found" |
| NodeModel.SearchDescends | src/b_tree/mod.rs:266-272 | when the first key at least `key` is greater than it and sits at index `i`, and the node has a child `i`, the search answers exactly what the search of `children[i]` answers |
| NodeModel.SearchFindsNodeKey | src/b_tree/mod.rs:266-269 | in a node with sorted keys, a key the node holds is found there with the value of its first copy, leaf or not |
| TreeModel.New | src/b_tree/mod.rs:22-41 | returns exactly when the capacity is even and at least 4, with a leaf root holding only the seed pair, in a reachable state |
| TreeModel.Insert | src/b_tree/mod.rs:44-81 | keeps the capacity and a well-formed root |
| TreeModel.Exists | src/b_tree/mod.rs:88-95 | panics exactly where the root search panics, and is true exactly when that search succeeds |
| TreeModel.Get | src/b_tree/mod.rs:97-103 | panics exactly where `exists` panics, and is `Some` exactly when `exists` is true |
| TreeModel.Remove | src/b_tree/mod.rs:84-86 | always the unit error, with the tree unchanged |
| TreeModel.LeafRootInsert | src/b_tree/mod.rs:62-76 | on a leaf root that is too full for the direct path, the insert succeeds: either the root takes the pair, or the root becomes the promoted pair over the first `max / 2` pairs |
| TreeModel.InternalRootInsert | src/b_tree/mod.rs:135-179 | on an internal root at the direct-path threshold (at least `max / 2` keys): a key the root holds is rejected with no change; a key between root keys panics; any other key goes into the leaf, and the call returns only when the leaf did not report "Node is full" |
| TreeModel.InsertKeepsReachable | src/b_tree/mod.rs:44-81 | every insert that returns leaves a reachable tree reachable: at most two levels, and at most one child per node |
| TreeModel.LeafRootInsertKeepsReachable | src/b_tree/mod.rs:70-75 | a leaf-root insert leaves the tree reachable, and the new root is either still a leaf, or a one-key root over a sorted leaf of exactly `max / 2` keys |
| TreeModel.InternalRootInsertKeepsReachable | src/b_tree/mod.rs:173-179 | a returning insert under an internal root at the direct-path threshold keeps the root's keys and a single sorted leaf child |
| TreeModel.InsertOutcomes | src/b_tree/mod.rs:44-81 | on a reachable tree the result is success, "Key already exists" or a panic, never "Node is full"; a leaf root always succeeds; "Key already exists" exactly when the root is internal, at the direct-path threshold, and holds the key |
| TreeModel.RejectedInsertChangesNothing | src/b_tree/mod.rs:137-138 | a rejected insert leaves the tree exactly as it was |
| TreeModel.InsertStores | src/b_tree/mod.rs:44-81 | a successful insert that does not split the root adds exactly the new pair and keeps every other pair |
| TreeModel.AppendToLeafRoot | src/b_tree/mod.rs:242-249 | a key no smaller than any key of a leaf root is appended; with more than `max` keys the root splits into the pair at `max / 2` over the first `max / 2` pairs; `insert` succeeds either way |
| TreeModel.RootSplitLosesNewKey | src/b_tree/mod.rs:62-76 | when a new key makes a leaf root split, `insert` reports success, but the new pair is stored nowhere and `exists` denies the key |
| TreeModel.KeyAboveRootNotFound | src/b_tree/mod.rs:266-274 | on an internal root, every key above all root keys gives `get` = `None` and `exists` = false |
| TreeModel.InsertAboveRootIsLost | src/b_tree/mod.rs:173-179 | on an internal root at the threshold, a successful insert of a key above all root keys stores the pair once more, yet `get` cannot find it |
| TreeModel.SearchBetweenRootKeysPanics | src/b_tree/mod.rs:270-271 | on an internal root, a key strictly between the first and the last root key, and not among them, makes `get` and `exists` panic |
| TreeModel.GetFindsRootKey | src/b_tree/mod.rs:97-103 | in a reachable tree, `get` of a root key returns the value of the key's first copy |
| TreeModel.GetFindsKeyBelowRoot | src/b_tree/mod.rs:270-271 | on an internal root, `get` of a leaf key below the first root key returns the leaf's value for its first copy |
| TreeModel.KeyBelowRootAbsentNotFound | src/b_tree/mod.rs:270-271 | on an internal root, a key below the first root key that the leaf does not hold gives `get` = `None` and `exists` = false |
| Nodes.Node.Leaf | src/b_tree/mod.rs:29-35 | a valid fresh node whose model is the leaf holding the seed pair |
| Nodes.Node.Parent | src/b_tree/mod.rs:66-71 | a valid node over the given subtree, with one pair and that subtree as its only child |
| Nodes.Node.InsertKeyInNode | src/b_tree/mod.rs:227-251 | the scan loop and the push leave the node valid, with the model and result of `NodeModel.InsertKeyInNode` |
| Nodes.Node.MoveUpperHalf | src/b_tree/mod.rs:203-217 | the split loop leaves the vectors of `n` rounds of `remove(m + 1)`, moves the removed elements in order, and pushes `MovedChildren` copies of child `m + 1` |
| Nodes.Node.SplitNode | src/b_tree/mod.rs:183-225 | panics exactly when `NodeModel.SplitNode` does, with the node unchanged; otherwise it returns the promoted pair, keeps the kept half in place, and returns the right node's vectors, each of whose children is the old child `m + 1` |
| Nodes.Node.TraverseInsert | src/b_tree/mod.rs:119-180 | the node stays valid with the same footprint, and the new model and result are those of `NodeModel.TraverseInsert` |
| Nodes.Node.InsertIntoChild | src/b_tree/mod.rs:141-170 | the recursive insert into child `c`, and on "Node is full" the split of that child followed by the borrow panic, with that child's model updated accordingly |
| Nodes.Node.TraverseSearch | src/b_tree/mod.rs:253-260 | returns `NodeModel.TraverseSearch` of the node's model |
| Nodes.Node.IterateOverNodeWithChildren | src/b_tree/mod.rs:262-275 | the scan loop returns `NodeModel.IterateOverNodeWithChildren` of the node's model |
| Nodes.Node.IterateOverNodeWithoutChildren | src/b_tree/mod.rs:277-287 | the scan loop returns `NodeModel.IterateOverNodeWithoutChildren` of the node's model |
| BTrees.BTree.New | src/b_tree/mod.rs:22-41 | panics exactly when `TreeModel.New` does; otherwise a valid fresh tree whose model is the one `TreeModel.New` returns, and reachable |
| BTrees.BTree.Init | src/b_tree/mod.rs:29-39 | a valid fresh tree whose root is a leaf holding the seed pair |
| BTrees.BTree.Insert | src/b_tree/mod.rs:44-81 | the tree stays valid, the new model and result are those of `TreeModel.Insert`, and a returning insert keeps a reachable tree reachable |
| BTrees.BTree.SplitRoot | src/b_tree/mod.rs:62-76 | either the split panics and leaves the root unchanged, or the root becomes a fresh node holding the promoted pair over the kept half |
| BTrees.BTree.Remove | src/b_tree/mod.rs:84-86 | always the unit error |
| BTrees.BTree.Exists | src/b_tree/mod.rs:88-95 | equals `TreeModel.Exists` of the tree's model |
| BTrees.BTree.Get | src/b_tree/mod.rs:97-103 | equals `TreeModel.Get` of the tree's model |
| Scenarios.DemoTree | src/lib.rs:8-14 | each tree of the demonstration is reachable |
| Scenarios.DemoNew | src/lib.rs:5-8 | `new(0, 0, 4)` builds the leaf root holding `(0, 0)` |
| Scenarios.DemoFirstInsert | src/lib.rs:10-14 | inserting `(1, 5)` appends to the leaf root and succeeds |
| Scenarios.DemoSecondInsert | src/lib.rs:10-14 | inserting `(2, 10)` appends to the leaf root and succeeds |
| Scenarios.DemoThirdInsert | src/lib.rs:10-14 | inserting `(3, 15)` appends to the leaf root and succeeds |
| Scenarios.DemoRootSplit | src/lib.rs:10-14 | inserting `(4, 20)` succeeds, and leaves the root `[2]` over the leaf `[0, 1]` |
| Scenarios.DemoExists | src/lib.rs:15-18 | `exists` is true for keys 0, 1 and 2, and false for keys 3 and 4 |

## Left out

- Keys are `int`. The source is generic over `T: PartialOrd + Clone`. It only compares keys with `==` and `<`, which have their integer meaning here.
- The `parent` field is set by `new` and `split_node`, but nothing ever reads it, so the model does not store it.
- `println!` output, the `Debug` printing in `src/lib.rs`, and the commented-out `get` and `remove` loops there are not modelled.
- `assign_new_root` has an empty body and no callers, so it is not modelled.
- The `Rc` sharing is not modelled. The right node that `split_node` builds is dropped when it returns. It holds `Rc` clones of child `m + 1`. `Nodes.Node.SplitNode` hands those copies back as a sequence, and no caller keeps them.
- Nodes.Node.SplitNode: on the inputs where `split_node` panics, the model leaves the node unchanged. The code may already have moved some pairs when the panicking `Vec::remove` or index runs. After a panic the tree is not used again.
- BTrees.BTree.Insert: the arm that returns a `split_node` error is not modelled separately. `split_node` either panics or returns `Ok`, so that arm cannot run.
- A panic is a result value, `Run.Panicked`. Unwinding is not modelled, nor is catching a panic and using the tree afterwards.
- NodeModel.SplitNode: for a capacity of 0 the `split_node` loop runs no round, so child `m + 1` is never read and a node with one key and one child splits with `Ok`. The model panics on any node with exactly `m + 1` children, whatever the capacity. `new` rejects capacities below 4, so no tree reaches that input.
- `usize` arithmetic is modelled with unbounded naturals. The only subtraction, `max_keys_per_node / 2 - 1`, cannot underflow once `new` has accepted the capacity. Vectors never come near `usize::MAX`.
