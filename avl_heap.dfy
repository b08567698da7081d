/**
 * The pointer-based AVL tree of Main.java: `Node` objects whose `left`,
 * `right` and `height` fields are updated in place, and the `AvlTree` object
 * whose `root` field `insert` reassigns.
 *
 * A ghost `Shape` describes a subtree of nodes: each cell names a node
 * together with the key and height that node holds. `Linked(s)` says the
 * heap agrees with the shape: every node's fields hold the cell's key and
 * height, its `left` and `right` point at the roots of the sub-shapes, and no
 * node occurs twice. The value of a shape, `ModelOf(s)`, is then an
 * `AvlModel.Tree`, and every method is proved against the value model: the
 * rotations compute `RotateRight`/`RotateLeft` and `InsertNode` computes
 * `AvlModel.Insert`, so the AVL theorems of the value model carry over to
 * the objects.
 */
module AvlHeap {
  import opened AvlModel
  import opened AvlProperties
  import AvlScenarios

  class Node {
    var key: int
    var height: int
    var left: Node?
    var right: Node?

    /** `new Node(key)`: a leaf of height 1, with no children. */
    constructor (key: int)
      ensures this.key == key && height == 1 && left == null && right == null
    {
      this.key := key;
      height := 1;
      left := null;
      right := null;
    }
  }

  /** A subtree of nodes, each cell with the key and height its node holds. */
  datatype Shape = Nil | Cell(l: Shape, node: Node, key: int, height: int, r: Shape)

  /** The reference that points at the subtree: `null` for an absent one. */
  ghost function Root(s: Shape): Node? {
    if s.Nil? then null else s.node
  }

  ghost function Nodes(s: Shape): set<Node> {
    if s.Nil? then {} else Nodes(s.l) + {s.node} + Nodes(s.r)
  }

  /** Every node of a shape is allocated, so a call's frame covers it. */
  lemma {:induction false} NodesAllocated(s: Shape)
    ensures forall n :: n in Nodes(s) ==> allocated(n)
  {
    if s.Cell? {
      NodesAllocated(s.l);
      NodesAllocated(s.r);
    }
  }

  /** The value of the subtree the shape describes. */
  ghost function ModelOf(s: Shape): (t: Tree)
    ensures t.Branch? == s.Cell?
  {
    if s.Nil? then Empty else Branch(ModelOf(s.l), s.key, s.height, ModelOf(s.r))
  }

  /** `n` is the root of `s` and holds the key and height `s` records for it. */
  ghost predicate Heads(n: Node?, s: Shape)
    reads n
  {
    n == Root(s) && (n != null ==> n.key == s.key && n.height == s.height)
  }

  /** The nodes of `s` form the tree `s` describes: no sharing, no cycles. */
  ghost predicate Linked(s: Shape)
    reads Nodes(s)
    decreases s
  {
    s.Cell? ==>
      Heads(s.node, s) && s.node.left == Root(s.l) && s.node.right == Root(s.r) &&
      s.node !in Nodes(s.l) && s.node !in Nodes(s.r) && Nodes(s.l) !! Nodes(s.r) &&
      Linked(s.l) && Linked(s.r)
  }

  /** `height(node)`: the height of the subtree's value, 0 for an absent one. */
  function HeightOf(n: Node?, ghost s: Shape): (h: int)
    requires Heads(n, s)
    reads n
    ensures h == Height(ModelOf(s))
    ensures n == null ==> h == 0
  {
    if n == null then 0 else n.height
  }

  /** `getBalance(node)`: the balance of the subtree's value, 0 for an absent one. */
  function GetBalance(n: Node?, ghost s: Shape): (b: int)
    requires Linked(s) && Root(s) == n
    reads Nodes(s)
    ensures b == Balance(ModelOf(s))
    ensures n == null ==> b == 0
  {
    if n == null then 0
    else
      assert Linked(s.l) && Linked(s.r);
      HeightOf(n.left, s.l) - HeightOf(n.right, s.r)
  }

  /**
   * `rightRotate(y)`: only the links `x.right` and `y.left` change, then
   * `y`'s height and after it `x`'s are recomputed. The old left child is the
   * new root, the same nodes make up the subtree and its value is
   * `RotateRight` of the old one.
   */
  method RightRotate(y: Node, ghost s: Shape) returns (x: Node, ghost s': Shape)
    requires Linked(s) && Root(s) == y && y.left != null
    modifies y, y.left
    ensures x == old(y.left) && x.right == y && y.left == old(y.left.right)
    ensures x.left == old(y.left.left) && y.right == old(y.right)
    ensures Linked(s') && Root(s') == x && Nodes(s') == Nodes(s)
    ensures s.l.Cell? && ModelOf(s') == RotateRight(ModelOf(s))
  {
    assert Linked(s.l) && Linked(s.l.l) && Linked(s.l.r) && Linked(s.r);
    assert Nodes(s.l) == Nodes(s.l.l) + {s.l.node} + Nodes(s.l.r);
    x := y.left;
    var t2 := x.right;
    x.right := y;
    y.left := t2;
    y.height := Max(HeightOf(y.left, s.l.r), HeightOf(y.right, s.r)) + 1;
    ghost var sy := Cell(s.l.r, y, y.key, y.height, s.r);
    x.height := Max(HeightOf(x.left, s.l.l), HeightOf(x.right, sy)) + 1;
    s' := Cell(s.l.l, x, x.key, x.height, sy);
  }

  /**
   * `leftRotate(x)`: only the links `y.left` and `x.right` change, then
   * `x`'s height and after it `y`'s are recomputed. The old right child is the
   * new root, the same nodes make up the subtree and its value is
   * `RotateLeft` of the old one.
   */
  method LeftRotate(x: Node, ghost s: Shape) returns (y: Node, ghost s': Shape)
    requires Linked(s) && Root(s) == x && x.right != null
    modifies x, x.right
    ensures y == old(x.right) && y.left == x && x.right == old(x.right.left)
    ensures y.right == old(x.right.right) && x.left == old(x.left)
    ensures Linked(s') && Root(s') == y && Nodes(s') == Nodes(s)
    ensures s.r.Cell? && ModelOf(s') == RotateLeft(ModelOf(s))
  {
    assert Linked(s.r) && Linked(s.r.l) && Linked(s.r.r) && Linked(s.l);
    assert Nodes(s.r) == Nodes(s.r.l) + {s.r.node} + Nodes(s.r.r);
    y := x.right;
    var t2 := y.left;
    y.left := x;
    x.right := t2;
    x.height := Max(HeightOf(x.left, s.l), HeightOf(x.right, s.r.l)) + 1;
    ghost var sx := Cell(s.l, x, x.key, x.height, s.r.l);
    y.height := Max(HeightOf(y.left, sx), HeightOf(y.right, s.r.r)) + 1;
    s' := Cell(sx, y, y.key, y.height, s.r.r);
  }

  /**
   * The Left-Right case of `insertNode`: `node.left = leftRotate(node.left)`,
   * then `rightRotate(node)`. The middle grandchild becomes the root.
   */
  method LeftRightRotate(y: Node, ghost s: Shape) returns (x: Node, ghost s': Shape)
    requires Linked(s) && Root(s) == y && y.left != null && y.left.right != null
    modifies y, y.left, y.left.right
    ensures x == old(y.left.right)
    ensures Linked(s') && Root(s') == x && Nodes(s') == Nodes(s)
    ensures s.l.Cell? && s.l.r.Cell? &&
            ModelOf(s') == RotateRight(Branch(RotateLeft(ModelOf(s.l)), s.key, s.height, ModelOf(s.r)))
  {
    assert Linked(s.l) && Linked(s.l.r) && Linked(s.r);
    assert Nodes(s.l) == Nodes(s.l.l) + {s.l.node} + Nodes(s.l.r);
    assert Nodes(s.l.r) == Nodes(s.l.r.l) + {s.l.r.node} + Nodes(s.l.r.r);
    assert s.l.node !in Nodes(s.r) && s.l.r.node !in Nodes(s.r);
    NodesAllocated(s.r);
    ghost var sl';
    y.left, sl' := LeftRotate(y.left, s.l);
    assert y.right == Root(s.r) && y.key == s.key;
    assert Linked(s.r);
    x, s' := RightRotate(y, Cell(sl', y, y.key, y.height, s.r));
  }

  /**
   * The Right-Left case of `insertNode`: `node.right = rightRotate(node.right)`,
   * then `leftRotate(node)`. The middle grandchild becomes the root.
   */
  method RightLeftRotate(x: Node, ghost s: Shape) returns (y: Node, ghost s': Shape)
    requires Linked(s) && Root(s) == x && x.right != null && x.right.left != null
    modifies x, x.right, x.right.left
    ensures y == old(x.right.left)
    ensures Linked(s') && Root(s') == y && Nodes(s') == Nodes(s)
    ensures s.r.Cell? && s.r.l.Cell? &&
            ModelOf(s') == RotateLeft(Branch(ModelOf(s.l), s.key, s.height, RotateRight(ModelOf(s.r))))
  {
    assert Linked(s.r) && Linked(s.r.l) && Linked(s.l);
    assert Nodes(s.r) == Nodes(s.r.l) + {s.r.node} + Nodes(s.r.r);
    assert Nodes(s.r.l) == Nodes(s.r.l.l) + {s.r.l.node} + Nodes(s.r.l.r);
    assert s.r.node !in Nodes(s.l) && s.r.l.node !in Nodes(s.l);
    NodesAllocated(s.l);
    ghost var sr';
    x.right, sr' := RightRotate(x.right, s.r);
    assert x.left == Root(s.l) && x.key == s.key;
    assert Linked(s.l);
    y, s' := LeftRotate(x, Cell(s.l, x, x.key, x.height, sr'));
  }

  /**
   * Lines 74-88 of `insertNode`, once a child of `node` has been replaced:
   * `s` describes the node with its children as they now are and its height
   * not yet updated. Recompute the height, compute the balance and rotate as
   * the value model's `Rebalance` does; the single-rotation cases are handled
   * here, the rest by `RebalanceDouble`. The same nodes make up the result,
   * and without imbalance the node itself is returned with its new height.
   */
  method Rebalance(node: Node, key: int, ghost s: Shape) returns (r: Node, ghost s': Shape)
    requires Linked(s) && Root(s) == node
    requires RebalancePre(ModelOf(s.l), s.key, ModelOf(s.r), key)
    modifies Nodes(s)
    ensures Linked(s') && Root(s') == r && Nodes(s') == Nodes(s)
    ensures ModelOf(s') == AvlModel.Rebalance(ModelOf(s.l), s.key, ModelOf(s.r), key)
    ensures -1 <= Height(ModelOf(s.l)) - Height(ModelOf(s.r)) <= 1 ==>
              r == node && s' == s.(height := 1 + Max(Height(ModelOf(s.l)), Height(ModelOf(s.r))))
  {
    assert Linked(s.l) && Linked(s.r);
    HeightNonNeg(ModelOf(s.l));
    HeightNonNeg(ModelOf(s.r));
    node.height := 1 + Max(HeightOf(node.left, s.l), HeightOf(node.right, s.r));
    ghost var sn := s.(height := node.height);
    assert Linked(sn);
    ghost var m := ModelOf(sn);
    assert m == Branch(ModelOf(s.l), s.key, node.height, ModelOf(s.r));
    var balance := GetBalance(node, sn);
    assert node.left != null ==> node.left.key == m.left.key;
    assert node.right != null ==> node.right.key == m.right.key;

    if balance > 1 && key < node.left.key {
      r, s' := RightRotate(node, sn);
      return;
    }
    if balance < -1 && key > node.right.key {
      r, s' := LeftRotate(node, sn);
      return;
    }
    r, s' := RebalanceDouble(node, key, balance, sn);
  }

  /**
   * Lines 90-102 of `insertNode`: neither single rotation applied to `node`,
   * whose height is up to date and whose balance is `balance`. Apply a double
   * rotation, or return the node unchanged, as the value model's `Rebalance`
   * does.
   */
  method RebalanceDouble(node: Node, key: int, balance: int, ghost s: Shape)
    returns (r: Node, ghost s': Shape)
    requires Linked(s) && Root(s) == node
    requires RebalancePre(ModelOf(s.l), s.key, ModelOf(s.r), key)
    requires s.height == 1 + Max(Height(ModelOf(s.l)), Height(ModelOf(s.r)))
    requires balance == Height(ModelOf(s.l)) - Height(ModelOf(s.r))
    requires balance > 1 ==> node.left != null && key >= node.left.key
    requires balance < -1 ==> node.right != null && key <= node.right.key
    modifies Nodes(s)
    ensures Linked(s') && Root(s') == r && Nodes(s') == Nodes(s)
    ensures ModelOf(s') == AvlModel.Rebalance(ModelOf(s.l), s.key, ModelOf(s.r), key)
    ensures -1 <= balance <= 1 ==> r == node && s' == s
  {
    assert Linked(s.l) && Linked(s.r);
    ghost var m := ModelOf(s);
    assert node.left != null ==> node.left.key == m.left.key;
    assert node.right != null ==> node.right.key == m.right.key;

    if balance > 1 && key > node.left.key {
      HeightNonNeg(ModelOf(s.l.l));
      assert Linked(s.l) && s.l.r.Cell?;
      r, s' := LeftRightRotate(node, s);
      return;
    }
    if balance < -1 && key < node.right.key {
      HeightNonNeg(ModelOf(s.r.r));
      assert Linked(s.r) && s.r.l.Cell?;
      r, s' := RightLeftRotate(node, s);
      return;
    }
    r, s' := node, s;
  }

  /**
   * `insertNode(node, key)`: the subtree rooted at `node` becomes the value
   * `AvlModel.Insert` computes, so it stays an AVL tree, gains exactly `key`
   * and grows by at most one level. Apart from fresh nodes, only nodes of the
   * old subtree make up the result, and a key that is already present
   * returns the same root over the same, unchanged subtree.
   */
  method InsertNode(node: Node?, key: int, ghost s: Shape) returns (r: Node, ghost s': Shape)
    requires Linked(s) && Root(s) == node && IsAvl(ModelOf(s))
    modifies Nodes(s)
    ensures Linked(s') && Root(s') == r
    ensures ModelOf(s') == Insert(ModelOf(s), key)
    ensures fresh(Nodes(s') - Nodes(s))
    ensures key in Keys(ModelOf(s)) ==> r == node && s' == s
    decreases s, 1
  {
    if node == null {
      r := new Node(key);
      s' := Cell(Nil, r, key, 1, Nil);
      return;
    }
    ghost var t := ModelOf(s);
    ghost var s0;
    if key < node.key {
      s0 := InsertLeft(node, key, s);
      LeftInsertStep(t, key, ModelOf(s0.l));
    } else if key > node.key {
      s0 := InsertRight(node, key, s);
      RightInsertStep(t, key, ModelOf(s0.r));
    } else {
      return node, s;
    }
    if key in Keys(t) {
      PresentBelowRoot(t, key);
    }
    r, s' := Rebalance(node, key, s0);
  }

  /**
   * `node.left = insertNode(node.left, key)`: the left subtree becomes
   * `AvlModel.Insert` of the old one. The result `s0` describes `node` over
   * the new left subtree; its key, height and right subtree are as before.
   */
  method InsertLeft(node: Node, key: int, ghost s: Shape) returns (ghost s0: Shape)
    requires Linked(s) && Root(s) == node && IsAvl(ModelOf(s))
    modifies Nodes(s)
    ensures Linked(s0) && Root(s0) == node && s0.Cell?
    ensures s0.key == s.key && s0.height == s.height && s0.r == s.r
    ensures ModelOf(s0.l) == Insert(ModelOf(s.l), key)
    ensures fresh(Nodes(s0) - Nodes(s))
    ensures key in Keys(ModelOf(s.l)) ==> s0 == s
    decreases s, 0
  {
    AvlParts(ModelOf(s));
    assert Linked(s.l) && Linked(s.r);
    NodesAllocated(s);
    ghost var sl;
    node.left, sl := InsertNode(node.left, key, s.l);
    assert Linked(sl) && Linked(s.r);
    s0 := s.(l := sl);
  }

  /**
   * `node.right = insertNode(node.right, key)`: the right subtree becomes
   * `AvlModel.Insert` of the old one. The result `s0` describes `node` over
   * the new right subtree; its key, height and left subtree are as before.
   */
  method InsertRight(node: Node, key: int, ghost s: Shape) returns (ghost s0: Shape)
    requires Linked(s) && Root(s) == node && IsAvl(ModelOf(s))
    modifies Nodes(s)
    ensures Linked(s0) && Root(s0) == node && s0.Cell?
    ensures s0.key == s.key && s0.height == s.height && s0.l == s.l
    ensures ModelOf(s0.r) == Insert(ModelOf(s.r), key)
    ensures fresh(Nodes(s0) - Nodes(s))
    ensures key in Keys(ModelOf(s.r)) ==> s0 == s
    decreases s, 0
  {
    AvlParts(ModelOf(s));
    assert Linked(s.l) && Linked(s.r);
    NodesAllocated(s);
    ghost var sr;
    node.right, sr := InsertNode(node.right, key, s.r);
    assert Linked(s.l) && Linked(sr);
    s0 := s.(r := sr);
  }

  class AvlTree {
    var root: Node?
    /** The nodes of the tree, as a shape. */
    ghost var shape: Shape
    ghost var Repr: set<object>

    /** The class invariant: `root` heads a well-formed AVL tree of nodes. */
    ghost predicate Valid()
      reads this, Repr
    {
      this in Repr && Nodes(shape) <= Repr &&
      Linked(shape) && Root(shape) == root && IsAvl(ModelOf(shape))
    }

    /** The tree's value. */
    ghost function Model(): Tree
      reads this
    {
      ModelOf(shape)
    }

    /** `new AVLTree()`: no root, an empty tree. */
    constructor ()
      ensures Valid() && fresh(Repr)
      ensures Model() == Empty
    {
      root := null;
      shape := Nil;
      Repr := {this};
    }

    /**
     * `insert(key)`: `root` becomes the root `insertNode` returns; the tree
     * stays a valid AVL tree, its value is `AvlModel.Insert` of the old one
     * and it holds the old keys and `key`.
     */
    method Insert(key: int)
      requires Valid()
      modifies Repr
      ensures Valid() && fresh(Repr - old(Repr))
      ensures Model() == AvlModel.Insert(old(Model()), key)
      ensures Keys(Model()) == old(Keys(Model())) + {key}
    {
      root, shape := InsertNode(root, key, shape);
      Repr := {this} + Nodes(shape);
    }

    /**
     * `inOrder()`: the keys in the order the traversal prints them. They are
     * strictly increasing and they are exactly the keys of the tree.
     */
    function InOrder(): (s: seq<int>)
      requires Valid()
      reads this, Repr
      ensures s == AvlModel.InOrder(Model())
      ensures StrictlyIncreasing(s)
      ensures forall v :: v in s <==> v in Keys(Model())
    {
      BstIffIncreasing(Model());
      InOrderHasKeys(Model());
      InOrderTraversal(root, shape)
    }
  }

  /** `inOrderTraversal(node)`: left subtree, then the node's key, then the right subtree. */
  function InOrderTraversal(n: Node?, ghost s: Shape): (keys: seq<int>)
    requires Linked(s) && Root(s) == n
    reads Nodes(s)
    ensures keys == AvlModel.InOrder(ModelOf(s))
    decreases s
  {
    if n == null then []
    else InOrderTraversal(n.left, s.l) + [n.key] + InOrderTraversal(n.right, s.r)
  }

  /**
   * The loop of `main`: `tree.insert(key)` for each key of `keys`, in order.
   * The tree is then the one `InsertAll` builds from its old value.
   */
  method InsertEach(tree: AvlTree, keys: seq<int>)
    requires tree.Valid()
    modifies tree.Repr
    ensures tree.Valid() && fresh(tree.Repr - old(tree.Repr))
    ensures tree.Model() == InsertAll(old(tree.Model()), keys)
  {
    ghost var t0 := tree.Model();
    for i := 0 to |keys|
      invariant tree.Valid() && fresh(tree.Repr - old(tree.Repr))
      invariant tree.Model() == InsertAll(t0, keys[..i])
    {
      InsertAllPrefix(t0, keys, i);
      tree.Insert(keys[i]);
    }
    assert keys[..|keys|] == keys;
  }

  /**
   * `main`: insert 10, 20, 30, 40, 50 into a new tree, in that order, and
   * traverse it. The traversal is 10 20 30 40 50.
   */
  method Demonstration() returns (s: seq<int>)
    ensures s == [10, 20, 30, 40, 50]
  {
    var tree := new AvlTree();
    var keys := new int[5];
    keys[0], keys[1], keys[2], keys[3], keys[4] := 10, 20, 30, 40, 50;
    assert keys[..] == [10, 20, 30, 40, 50];
    InsertEach(tree, keys[..]);
    s := tree.InOrder();
    AvlScenarios.DemonstrationKeysTraversal(keys[..]);
  }
}
