# AVL tree (Main.java) in Dafny

This project models the self-balancing binary search tree in `Main.java`. The
source is a class `AVLTree` with these parts:

- an inner class `Node` holding a key, a cached height and two child
  references;
- the helpers `height` and `getBalance`;
- the two rotations, `rightRotate` and `leftRotate`;
- recursive insertion, `insertNode`, which inserts as in a search tree and
  then rebalances on the way back up;
- `insert`, which replaces the root;
- an in-order traversal;
- a `main` that inserts 10, 20, 30, 40 and 50 and traverses the tree.

The model has four modules:

- `AvlModel` (avl_model.dfy) is a value model. A `Tree` is `Empty` (a null
  reference) or a `Branch` carrying the node's key, its cached height field
  and its two subtrees. `Max`, `Height`, `Balance`, `InOrder`, `RotateRight`,
  `RotateLeft`, `Rebalance` and `Insert` follow the Java code line by line.
  `Max`, `Height`, `Balance` and `InOrder` are the specification functions of
  `Math.max`, `height`, `getBalance` and `inOrderTraversal`; their rows sit on
  the object-model members `HeightOf`, `GetBalance` and `InOrderTraversal`,
  whose contracts equate them. The contracts of `Rebalance` and `Insert`
  state the three AVL invariants:
  - search-tree order (`IsBst`);
  - correct cached heights (`HeightsOk`);
  - balance within -1..1 at every node (`Balanced`).

  They state what insertion does to keys and height. The rotations state that
  they keep the in-order sequence and, given correct subtree heights, correct
  heights; `RotateRightKeepsBst`/`RotateLeftKeepsBst` state that they keep
  search-tree order.
- `AvlProperties` (avl_properties.dfy) holds properties that relate several
  operations:
  - inserting a key that is already present changes nothing;
  - a search tree's traversal is strictly increasing, and lists exactly its
    keys;
  - the tree built by any sequence of inserts traverses as THE sorted list of
    the distinct keys, whatever the order of insertion.
- `AvlScenarios` (avl_scenarios.dfy) replays concrete insertion orders, among
  them the demonstration order, on the value model.
- `AvlHeap` (avl_heap.dfy) is the object model. `Node` is a class whose
  `left`, `right` and `height` fields the methods update in place, in the
  source's order. `AvlTree` is a class whose `root` field `Insert` reassigns.
  - A ghost `Shape` names the nodes of a subtree together with the key and
    height each holds.
  - `Linked(s)` says the heap agrees with the shape, with no node shared or
    repeated.
  - `ModelOf(s)` is the shape's value as an `AvlModel.Tree`.
  - Every method is proved against the value model: the rotations compute
    `RotateRight`/`RotateLeft`, and `InsertNode` computes `AvlModel.Insert`.
    So the theorems of the value model hold for the objects.
  - The contracts of the state-changing methods use `old` and `fresh` to
    describe the change of state.

`insertNode`'s body is split along its own structure:

- `InsertLeft`/`InsertRight` are lines 67-70, the recursive descent.
- `Rebalance` is lines 74-88: the height update, the balance and the two
  single rotations.
- `RebalanceDouble` is lines 90-102: the two double rotations and the final
  `return node`.
- `LeftRightRotate`/`RightLeftRotate` are the two-statement bodies of the
  double-rotation cases.
- `InsertEach` is the `for` loop of `main`.

## Model

| member | source | states |
|---|---|---|
| AvlHeap.Node.constructor | Main.java:8-11 | a new node is a leaf: it holds the key, has height 1 and has no children |
| AvlModel.HeightNonNeg | Main.java:17-19 | with correct cached heights, `height` is never negative, and is at least 1 for a present node |
| AvlModel.CachedHeightIsDepth | Main.java:5 | with correct cached heights, the cached height field is the real height of the subtree |
| AvlHeap.HeightOf | Main.java:17-19 | `height(node)` is the height of the subtree's value, and 0 for an absent subtree |
| AvlHeap.GetBalance | Main.java:22-24 | `getBalance(node)` is left height minus right height of the subtree's value, and 0 for an absent subtree |
| AvlModel.RotateRight | Main.java:27-40 | the old left child becomes the root, with the old root as its right child; the in-order sequence and the key set are unchanged; the recomputed heights are correct when the three moved subtrees' heights are |
| AvlModel.RotateLeft | Main.java:43-56 | the old right child becomes the root, with the old root as its left child; the in-order sequence and the key set are unchanged; the recomputed heights are correct when the three moved subtrees' heights are |
| AvlModel.RotateRightKeepsBst | Main.java:27-40 | a right rotation keeps search-tree order |
| AvlModel.RotateLeftKeepsBst | Main.java:43-56 | a left rotation keeps search-tree order |
| AvlHeap.RightRotate | Main.java:27-40 | returns the old `y.left`; afterwards `x.right == y` and `y.left` is the old `x.right`, and the other links are unchanged; the same nodes form a well-linked subtree whose value is `RotateRight` of the old value |
| AvlHeap.LeftRotate | Main.java:43-56 | returns the old `x.right`; afterwards `y.left == x` and `x.right` is the old `y.left`, and the other links are unchanged; the same nodes form a well-linked subtree whose value is `RotateLeft` of the old value |
| AvlModel.AvlParts | Main.java:63-103 | the subtrees of an AVL tree are AVL trees, ordered around the root key; the root's cached height is correct and its balance is in -1..1 |
| AvlModel.LeftLeftCase | Main.java:82-84 | left child two taller and leaning left: one right rotation gives an AVL tree as tall as that child |
| AvlModel.RightRightCase | Main.java:86-88 | right child two taller and leaning right: one left rotation gives an AVL tree as tall as that child |
| AvlModel.LeftRightCase | Main.java:90-94 | left child two taller and leaning right: rotating it left, then the node right, gives an AVL tree as tall as that child |
| AvlModel.RightLeftCase | Main.java:96-100 | right child two taller and leaning left: rotating it right, then the node left, gives an AVL tree as tall as that child |
| AvlModel.Rebalance | Main.java:74-102 | the result is an AVL tree holding the children's keys and the node's key; without imbalance it is the node with its height recomputed; after a rotation it is as tall as the taller child |
| AvlModel.LeftInsertPre | Main.java:67-68 | once the left subtree has received a key, the node meets `Rebalance`'s precondition |
| AvlModel.LeftInsertStep | Main.java:67-68 | rebalancing after a left insert gives the old keys plus the new one; the height grows by 0 or 1, and if it grew, the root leans toward the new key |
| AvlModel.RightInsertPre | Main.java:69-70 | once the right subtree has received a key, the node meets `Rebalance`'s precondition |
| AvlModel.RightInsertStep | Main.java:69-70 | rebalancing after a right insert gives the old keys plus the new one; the height grows by 0 or 1, and if it grew, the root leans toward the new key |
| AvlModel.Insert | Main.java:63-103 | inserting into an AVL tree gives an AVL tree whose keys are the old keys plus `k`; it is 0 or 1 levels taller, and when a non-empty tree grew, its root leans toward `k` |
| AvlProperties.InsertPresent | Main.java:71-72 | inserting a key already in the tree returns the tree unchanged |
| AvlHeap.LeftRightRotate | Main.java:90-94 | returns the old `y.left.right`; the same nodes form a well-linked subtree whose value is the left-then-right double rotation |
| AvlHeap.RightLeftRotate | Main.java:96-100 | returns the old `x.right.left`; the same nodes form a well-linked subtree whose value is the right-then-left double rotation |
| AvlHeap.Rebalance | Main.java:74-88 | the same nodes form a well-linked subtree whose value is `AvlModel.Rebalance`; without imbalance the node itself is returned, with its height recomputed and nothing else changed |
| AvlHeap.RebalanceDouble | Main.java:90-102 | the same nodes form a well-linked subtree whose value is `AvlModel.Rebalance`; without imbalance the node and its subtree are returned as they are |
| AvlHeap.InsertLeft | Main.java:67-68 | `node.left` heads a well-linked subtree whose value is `Insert` of the old left subtree; the node's key, height and right subtree are unchanged, and only fresh nodes are added |
| AvlHeap.InsertRight | Main.java:69-70 | `node.right` heads a well-linked subtree whose value is `Insert` of the old right subtree; the node's key, height and left subtree are unchanged, and only fresh nodes are added |
| AvlHeap.InsertNode | Main.java:63-103 | the returned node heads a well-linked subtree whose value is `AvlModel.Insert` of the old value; only fresh nodes are added; a present key returns the same node over the same, unchanged subtree |
| AvlHeap.AvlTree.constructor | Main.java:14 | a new tree has no root and is the empty AVL tree |
| AvlHeap.AvlTree.Insert | Main.java:59-61 | the tree stays a valid AVL tree, its value is `AvlModel.Insert` of the old one, and its keys are the old keys plus `key` |
| AvlProperties.InOrderHasKeys | Main.java:110-116 | the traversal visits exactly the keys in the tree |
| AvlProperties.BstIffIncreasing | Main.java:110-116 | a tree is in search-tree order if and only if its traversal is strictly increasing |
| AvlProperties.InOrderLength | Main.java:110-116 | in a search tree the traversal visits each key once: its length is the number of keys |
| AvlHeap.InOrderTraversal | Main.java:110-116 | the keys visited, in order, are the value model's in-order sequence of the subtree |
| AvlHeap.AvlTree.InOrder | Main.java:106-108 | the traversal of the whole tree is strictly increasing and holds exactly the tree's keys |
| AvlProperties.InsertAll | Main.java:122-125 | inserting a sequence of keys in order keeps the tree AVL, and its keys become the old keys plus those inserted |
| AvlProperties.InsertAllSnoc | Main.java:122-125 | inserting `ks + [k]` is inserting `ks`, then `k` |
| AvlProperties.InsertAllPrefix | Main.java:122-125 | inserting the first `i + 1` keys is inserting the first `i`, then the key at `i` |
| AvlProperties.TraversalIsSortedKeys | Main.java:118-130 | after any sequence of inserts into an empty tree, the traversal is the unique strictly increasing list of the distinct inserted keys |
| AvlProperties.TraversalIgnoresOrder | Main.java:118-130 | two insertion sequences with the same keys give the same traversal, whatever their order or duplicates |
| AvlHeap.InsertEach | Main.java:122-125 | after the loop the tree is valid, and its value is the old value with the keys inserted in order |
| AvlScenarios.Ascending1 | Main.java:65 | inserting 10 into an empty tree gives a single leaf of height 1 |
| AvlScenarios.Ascending2 | Main.java:122-125 | after 10, 20 the tree is 10 with right child 20 |
| AvlScenarios.Ascending3 | Main.java:86-88 | inserting 30 fires the Right-Right case at 10, and 20 becomes the root |
| AvlScenarios.Ascending4 | Main.java:122-125 | after 10..40 the root 20 has height 3, with 30 over 40 on its right |
| AvlScenarios.Ascending5 | Main.java:86-88 | inserting 50 fires the Right-Right case at 30, giving 20 over (10, 40 over (30, 50)) |
| AvlScenarios.DemonstrationKeysTraversal | Main.java:118-130 | any insertion sequence of exactly the keys 10..50 traverses as 10 20 30 40 50 |
| AvlScenarios.LeftRight2 | Main.java:122-125 | after 30, 10 the tree is 30 with left child 10 |
| AvlScenarios.LeftRightScenario | Main.java:90-94 | inserting 30, 10, 20 fires the Left-Right case, and 20 becomes the root |
| AvlScenarios.RightLeft2 | Main.java:122-125 | after 10, 30 the tree is 10 with right child 30 |
| AvlScenarios.RightLeftScenario | Main.java:96-100 | inserting 10, 30, 20 fires the Right-Left case, and 20 becomes the root |
| AvlScenarios.EmptyTraversal | Main.java:106-116 | a tree with no inserts traverses as the empty sequence |
| AvlHeap.Demonstration | Main.java:118-130 | `main`'s tree, built from the array 10, 20, 30, 40, 50, traverses as 10 20 30 40 50 |

## Left out

- Printing: `inOrderTraversal` and `main` print the keys. Here the traversal
  returns them as a sequence, and `Demonstration` returns what would be
  printed. The heading line `main` prints is not modelled.
- Java's 32-bit `int`: keys and heights are unbounded integers. Keys are only
  compared, and heights stay far below 2^31 for any tree that fits in
  memory, so wrap-around cannot happen in practice.
- The logarithmic height bound of AVL trees is not proved. The model proves
  the balance invariant it comes from.
- AvlHeap.InsertNode: requires the subtree to be an AVL tree with correct
  cached heights. That is what `insert` always passes. On an arbitrary
  subtree the source can dereference null, for example `node.right.left` in
  the Right-Left case, so no contract holds there.
- AvlModel.Insert: has the same precondition, for the same reason.
- AvlHeap.RightRotate: requires `y.left` to be non-null, and LeftRotate
  requires `x.right` to be non-null. The source dereferences them on its
  second line (Main.java:29, 45) and only calls the rotations where they are
  present.
- Aliasing: `Linked` requires the nodes of a tree to be distinct, with no
  node shared between subtrees. That is how `insertNode` builds them. Trees
  whose nodes are shared are outside the model.
