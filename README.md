# Weight-augmented AVL dictionary

This project models `src/lib.rs` of the `avl-tree` crate. The crate is an ordered dictionary stored in a
binary search tree. A `Tree` is `Empty` or `Filled` with a boxed `Node`. The node holds a key, a value,
a `weight` (the number of nodes in its subtree) and two child trees. The tree does not store heights.
It approximates a subtree's height as `floor(log2(weight))` and takes a node's balance factor from that.
`insert` and `remove` choose one of four rotations from this balance factor. After each rotation,
`update_weights(2)` repairs the weights of the top levels. The weights also answer rank queries
(`get_nth`).

Ownership in the source is exclusive: `take()` moves a subtree out and leaves `Empty` behind. So the tree
is modelled as a value (`Trees.Tree`, `Trees.Node`). `insert`, `remove`, the rotations and
`update_weights` change the tree in place; each is a method that takes a tree and returns the tree that
replaces it, together with the source's return value. The read-only descents (`get`, `get_nth` and their
internal versions, `height`, `balance`, `is_empty`) are functions. `get_mut` and `get_mut_internal` also
take `&mut self`, but they change nothing themselves: they hand out a reference to a value. They are
functions that return the tree after the caller writes through that reference (see `Lookups.GetMut`
under "## Left out"). `floor_log2`, `predecessor` and `successor` loop in the source, so they are methods with
`while` loops.

Every operation is specified against a few abstract views of a tree:

- `Elements`: its in-order sequence of pairs;
- `ToMap`: the dictionary it stands for;
- `Ordered`: search-tree order;
- `WeightsValid`: `weight == 1 + left.weight + right.weight` at every node.

`Deref` panics on an empty tree, so each rotation requires the children it dereferences. Lemmas about
the balance thresholds discharge those requirements wherever `insert` and `remove` call a rotation.

Modules:

- `Options`: the `Option` type.
- `Logarithm`: `floor_log2` and its specification.
- `Trees`: the data model, `height`, `balance`, the abstract views and the lemmas that relate them.
- `Lookups`: `get`, `get_mut` and `get_nth`.
- `Rotations`: the four rotations, `update_weights` and the rebalancing choices of `insert` and `remove`.
- `Dictionary`: `insert`, `remove`, `predecessor` and `successor`.

## Model

| member | source | states |
|---|---|---|
| Logarithm.Log2 | src/lib.rs:340-352 | for n >= 1 the result r is the floor of log2 n: 2^r <= n < 2^(r+1) |
| Logarithm.FloorLog2 | src/lib.rs:340-352 | the shift-and-count loop returns 0 for 0 and otherwise the r with 2^r <= n < 2^(r+1) |
| Logarithm.Pow2Monotone | src/lib.rs:340-352 | powers of two grow with the exponent, which links heights to weights |
| Trees.NewNode | src/lib.rs:38-41 | a fresh node holds exactly the one pair and satisfies the weight invariant (weight 1, no children) |
| Trees.New | src/lib.rs:84-87 | the new tree is the empty dictionary, ordered and with valid weights |
| Trees.IsEmpty | src/lib.rs:91-94 | true exactly when the dictionary holds no pair |
| Trees.IsFilled | src/lib.rs:394-397 | true exactly when the tree has at least one node |
| Trees.Tree.Height | src/lib.rs:330-336 | an empty tree has height 0; under the weight invariant, height is floor(log2(number of nodes)): 2^h <= size < 2^(h+1) |
| Trees.Node.Balance | src/lib.rs:46-49 | a factor >= 2 needs a left child of weight >= 4, and a positive one a left child of weight >= 2; symmetrically <= -2 and negative on the right. So the rotations chosen at src/lib.rs:153-168 and 217-232 never dereference an empty tree |
| Trees.Tree.Balance | src/lib.rs:359-365 | an empty tree has balance 0; a negative factor needs a right child of weight >= 2, which rotate_left_right dereferences below a left child; a positive factor needs a left child of weight >= 2, which rotate_right_left dereferences below a right child |
| Trees.HeightAtLeast | src/lib.rs:330-352 | a height of at least k >= 1 needs a node of weight at least 2^k |
| Trees.WeightIsSize | src/lib.rs:22-29 | under the weight invariant, a root's weight equals the number of pairs in its subtree |
| Trees.OrderedIsIncreasing | src/lib.rs:124-173 | a search-ordered tree lists its keys in strictly increasing in-order |
| Trees.IncreasingIsOrdered | src/lib.rs:124-173 | conversely, strictly increasing in-order keys make a search-ordered tree |
| Trees.SameElementsSameMap | src/lib.rs:406-457 | trees with the same in-order pairs stand for the same dictionary |
| Trees.SameElementsSameOrder | src/lib.rs:406-457 | trees with the same in-order pairs are both ordered or both not |
| Trees.LastIsMax | src/lib.rs:482-489 | the rightmost pair of an ordered tree is an entry of its dictionary and holds the largest key |
| Trees.FirstIsMin | src/lib.rs:494-501 | the leftmost pair of an ordered tree is an entry of its dictionary and holds the smallest key |
| Lookups.GetInternal | src/lib.rs:279-299 | on an ordered tree the descent finds exactly the dictionary's value at the key, or None when it is absent |
| Lookups.Get | src/lib.rs:100-106 | None on an empty tree; on an ordered tree, the dictionary's value at the key or None |
| Lookups.GetMutInternal | src/lib.rs:305-325 | a reference is handed out exactly when the key is present; writing through it changes that one entry and leaves the keys and weights as they were |
| Lookups.GetMut | src/lib.rs:112-118 | None on an empty tree; otherwise as the internal descent: only the entry at the key changes, and only when it exists |
| Lookups.GetNthInternal | src/lib.rs:257-274 | under the weight invariant the descent returns the pair at in-order position index, or None past the end |
| Lookups.GetNth | src/lib.rs:245-251 | None on an empty tree; under the weight invariant, the pair at position index exactly when index < root weight |
| Lookups.GetNthAscending | src/lib.rs:245-274 | on an ordered tree, a lower rank gives a strictly smaller key, and each ranked pair is an entry of the dictionary |
| Lookups.ElementValue | src/lib.rs:245-274 | each in-order pair of an ordered tree is an entry of its dictionary |
| Rotations.UpdateWeights | src/lib.rs:463-477 | only weights change, and no subtree deeper than depth changes at all; a negative depth changes nothing; the returned value is the root's new weight; if every subtree deeper than depth was valid, the whole tree is valid afterwards |
| Rotations.RotateLeftLeft | src/lib.rs:406-414 | the left child becomes the root; the in-order pairs, the dictionary and search order are preserved; with sound moved subtrees, the result satisfies the weight invariant |
| Rotations.RotateRightRight | src/lib.rs:419-427 | the right child becomes the root; otherwise as for the left-left rotation, mirrored |
| Rotations.RotateRightLeft | src/lib.rs:431-442 | the right child's left child becomes the root; the in-order pairs, dictionary and order are preserved, and all weights are repaired |
| Rotations.RotateLeftRight | src/lib.rs:446-457 | the left child's right child becomes the root; otherwise as for the right-left rotation, mirrored |
| Rotations.RebalanceAfterInsert | src/lib.rs:149-168 | contents, order, the weight invariant and the root weight are kept. A node with balance in (-2, 2) is left as it is. At balance >= 2 a left child leaning left (> 0) makes it the new root, a left child leaning right (< 0) makes its right child the new root, and a left child with balance 0 leaves the node as it is; mirrored at <= -2 |
| Rotations.RebalanceAfterRemove | src/lib.rs:213-232 | contents, order, the weight invariant and the root weight are kept. A node with balance in (-2, 2) is left as it is. At balance >= 2 a left child with balance >= 0 (ties included, unlike insertion) becomes the new root, and one with balance < 0 makes its right child the new root; mirrored at <= -2 |
| Dictionary.Predecessor | src/lib.rs:482-489 | returns the last in-order pair; on an ordered tree this is the entry with the largest key |
| Dictionary.Successor | src/lib.rs:494-501 | returns the first in-order pair; on an ordered tree this is the entry with the smallest key |
| Dictionary.Insert | src/lib.rs:124-173 | the tree stays ordered with valid weights. It returns the old value at the key, or None. The dictionary becomes the old one with key mapped to value, so get finds the value and every other key as before. Overwriting an existing key keeps all keys and weights (no rotation). A fresh key adds exactly 1 to the root weight |
| Dictionary.Remove | src/lib.rs:179-237 | the tree stays ordered with valid weights. It returns the value the key held, or None. The dictionary loses exactly that key, so get misses it and finds every other key as before. A missing key leaves the tree, weights included, unchanged. A removal takes exactly 1 off the root weight |
| Dictionary.RemovedViaPredecessor | src/lib.rs:189-195 | copying the predecessor into the matched node and removing it from the left subtree removes exactly the matched key and keeps order and weights |
| Dictionary.RemovedViaSuccessor | src/lib.rs:196-202 | the same for the successor and the right subtree of a node without a left child |
| Dictionary.RemovedLeaf | src/lib.rs:186-188 | dropping a matched leaf removes exactly its key |
| Dictionary.GetAfterWrite | src/lib.rs:124-173 | after a write at a key, get finds the new value there and every other key unchanged |
| Dictionary.GetAfterDelete | src/lib.rs:179-237 | after a key is deleted, get misses it and finds every other key unchanged |

## Left out

- Keys are mathematical integers rather than any `K: Ord + Clone`; only the total order of keys is used.
- Weights are unbounded naturals rather than `isize`, so overflow is not modelled. The `usize` index of `get_nth` is a natural, so its cast to `isize` is not modelled either.
- Logarithm.FloorLog2: it takes a natural number; on a negative argument the source's arithmetic shift never reaches 0 and the loop does not end.
- Lookups.GetMut: the mutable reference is modelled by a function `write` that maps the found value to the one the caller stores, and the result is the tree afterwards; a reference kept and written several times is not modelled.
- `Deref` and `DerefMut` are not operations here; their panic on an empty tree is a precondition of each rotation, proved to hold at every call.
- `Index`/`IndexMut` (one-line panicking wrappers over get/get_mut), `take` (moving a subtree is plain assignment here), `Default`, `Debug` and the unit tests are not part of this model.
- `src/tree.rs` and `src/node.rs` are not compiled into the crate and are not part of this model.
- No height-balance theorem (|balance| <= 1) is stated: heights are approximated from weights, and `remove` does not rebalance the node whose key it replaces. The rotation choices are modelled exactly, and only order, contents and weights are proved.
- Rotations.RebalanceAfterInsert, Rotations.RebalanceAfterRemove: the rebalancing blocks that sit inline at the end of `insert` and `remove` are separate methods here. Their conditions are unchanged.
- `predecessor` and `successor` clone the key and value; cloning is plain copying here.
