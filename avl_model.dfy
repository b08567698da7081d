/**
 * A value model of the AVL tree of Main.java: one `Branch` per `Node` object,
 * carrying the node's key, its CACHED height field and its two subtrees, and
 * `Empty` for a null child reference. The functions below mirror the Java
 * helpers `height`, `getBalance`, `rightRotate`, `leftRotate` and `insertNode`
 * expression for expression. The contracts of `Rebalance` and `Insert` state
 * the three AVL invariants; the rotations state what they keep.
 */
module AvlModel {

  datatype Tree = Empty | Branch(left: Tree, key: int, height: int, right: Tree)

  /** Java's Math.max on the two heights. */
  function Max(a: int, b: int): int {
    if a >= b then a else b
  }

  /** `height(node)`: 0 for an absent subtree, otherwise the cached field. */
  function Height(t: Tree): int {
    if t.Empty? then 0 else t.height
  }

  /** `getBalance(node)`: left height minus right height, 0 for an absent subtree. */
  function Balance(t: Tree): int {
    if t.Empty? then 0 else Height(t.left) - Height(t.right)
  }

  /** The real height of a tree, recomputed from its shape. */
  function Depth(t: Tree): nat {
    if t.Empty? then 0 else 1 + (var dl, dr := Depth(t.left), Depth(t.right); if dl >= dr then dl else dr)
  }

  function Keys(t: Tree): set<int> {
    if t.Empty? then {} else Keys(t.left) + {t.key} + Keys(t.right)
  }

  /** The keys visited by `inOrderTraversal`: left subtree, node, right subtree. */
  function InOrder(t: Tree): seq<int> {
    if t.Empty? then [] else InOrder(t.left) + [t.key] + InOrder(t.right)
  }

  /** Every key of `l` is below `x` and every key of `r` is above it. */
  ghost predicate Separates(l: Tree, x: int, r: Tree) {
    (forall a :: a in Keys(l) ==> a < x) && (forall b :: b in Keys(r) ==> x < b)
  }

  /** Invariant 1: binary-search-tree order at every node. */
  ghost predicate IsBst(t: Tree) {
    t.Branch? ==> IsBst(t.left) && IsBst(t.right) && Separates(t.left, t.key, t.right)
  }

  /** Invariant 2: every cached height is one more than the larger child height. */
  ghost predicate HeightsOk(t: Tree) {
    t.Branch? ==>
      HeightsOk(t.left) && HeightsOk(t.right) &&
      t.height == 1 + Max(Height(t.left), Height(t.right))
  }

  /** Invariant 3: the two child heights differ by at most one at every node. */
  ghost predicate Balanced(t: Tree) {
    t.Branch? ==>
      Balanced(t.left) && Balanced(t.right) &&
      -1 <= Height(t.left) - Height(t.right) <= 1
  }

  ghost predicate IsAvl(t: Tree) {
    IsBst(t) && HeightsOk(t) && Balanced(t)
  }

  lemma {:induction false} HeightNonNeg(t: Tree)
    requires HeightsOk(t)
    ensures Height(t) >= 0
    ensures t.Branch? ==> Height(t) >= 1
  {
    if t.Branch? {
      HeightNonNeg(t.left);
      HeightNonNeg(t.right);
    }
  }

  /** Correct cached heights are the real heights of the subtrees. */
  lemma {:induction false} CachedHeightIsDepth(t: Tree)
    requires HeightsOk(t)
    ensures Height(t) == Depth(t)
  {
    if t.Branch? {
      CachedHeightIsDepth(t.left);
      CachedHeightIsDepth(t.right);
    }
  }

  /**
   * `rightRotate(y)`: the left child `x` becomes the root, `x.right` becomes
   * `y.left`, and the heights of `y` (first) and `x` (second) are recomputed.
   */
  function RotateRight(y: Tree): (r: Tree)
    requires y.Branch? && y.left.Branch?
    ensures r.Branch? && r.right.Branch?
    ensures r.key == y.left.key && r.right.key == y.key
    ensures InOrder(r) == InOrder(y)
    ensures Keys(r) == Keys(y)
    ensures HeightsOk(y.left.left) && HeightsOk(y.left.right) && HeightsOk(y.right) ==> HeightsOk(r)
  {
    var x := y.left;
    var y' := Branch(x.right, y.key, Max(Height(x.right), Height(y.right)) + 1, y.right);
    Branch(x.left, x.key, Max(Height(x.left), Height(y')) + 1, y')
  }

  /**
   * `leftRotate(x)`: the right child `y` becomes the root, `y.left` becomes
   * `x.right`, and the heights of `x` (first) and `y` (second) are recomputed.
   */
  function RotateLeft(x: Tree): (r: Tree)
    requires x.Branch? && x.right.Branch?
    ensures r.Branch? && r.left.Branch?
    ensures r.key == x.right.key && r.left.key == x.key
    ensures InOrder(r) == InOrder(x)
    ensures Keys(r) == Keys(x)
    ensures HeightsOk(x.left) && HeightsOk(x.right.left) && HeightsOk(x.right.right) ==> HeightsOk(r)
  {
    var y := x.right;
    var x' := Branch(x.left, x.key, Max(Height(x.left), Height(y.left)) + 1, y.left);
    Branch(x', y.key, Max(Height(x'), Height(y.right)) + 1, y.right)
  }

  lemma RotateRightKeepsBst(y: Tree)
    requires y.Branch? && y.left.Branch? && IsBst(y)
    ensures IsBst(RotateRight(y))
  {
    var x := y.left;
    assert x.key in Keys(x);
    assert Separates(x.left, x.key, Branch(x.right, y.key, 0, y.right));
  }

  lemma RotateLeftKeepsBst(x: Tree)
    requires x.Branch? && x.right.Branch? && IsBst(x)
    ensures IsBst(RotateLeft(x))
  {
    var y := x.right;
    assert y.key in Keys(y);
    assert Separates(Branch(x.left, x.key, 0, y.left), y.key, y.right);
  }

  /** An AVL tree's subtrees are AVL trees, ordered around the root, with correct root height and balance. */
  lemma AvlParts(t: Tree)
    requires IsAvl(t) && t.Branch?
    ensures IsAvl(t.left) && IsAvl(t.right) && Separates(t.left, t.key, t.right)
    ensures t.height == 1 + Max(Height(t.left), Height(t.right))
    ensures -1 <= Balance(t) <= 1
  {
  }

  /**
   * The subtree `t` just received key `k` and grew taller: its root leans
   * towards the side where `k` went, by exactly one.
   */
  ghost predicate LeansToward(t: Tree, k: int) {
    t.Branch? && ((k < t.key && Balance(t) == 1) || (k > t.key && Balance(t) == -1))
  }

  /**
   * What holds at a node after one of its subtrees received a key: both
   * subtrees are AVL trees in order around `x`, their heights differ by at
   * most two, and a subtree two taller than its sibling leans toward `k`.
   */
  ghost predicate RebalancePre(l: Tree, x: int, r: Tree, k: int) {
    IsAvl(l) && IsAvl(r) && Separates(l, x, r) &&
    -2 <= Height(l) - Height(r) <= 2 &&
    (Height(l) - Height(r) == 2 ==> LeansToward(l, k)) &&
    (Height(l) - Height(r) == -2 ==> LeansToward(r, k))
  }

  /** Left-Left: the taller left child leans left, and one right rotation restores balance. */
  lemma LeftLeftCase(l: Tree, x: int, r: Tree)
    requires IsAvl(l) && IsAvl(r) && Separates(l, x, r)
    requires l.Branch? && Balance(l) == 1 && Height(l) == Height(r) + 2
    ensures var t := RotateRight(Branch(l, x, 1 + Max(Height(l), Height(r)), r));
            IsAvl(t) && Height(t) == Height(l)
  {
    var n := Branch(l, x, 1 + Max(Height(l), Height(r)), r);
    AvlParts(l);
    RotateRightKeepsBst(n);
  }

  /** Right-Right: the mirror image of `LeftLeftCase`. */
  lemma RightRightCase(l: Tree, x: int, r: Tree)
    requires IsAvl(l) && IsAvl(r) && Separates(l, x, r)
    requires r.Branch? && Balance(r) == -1 && Height(r) == Height(l) + 2
    ensures var t := RotateLeft(Branch(l, x, 1 + Max(Height(l), Height(r)), r));
            IsAvl(t) && Height(t) == Height(r)
  {
    var n := Branch(l, x, 1 + Max(Height(l), Height(r)), r);
    AvlParts(r);
    RotateLeftKeepsBst(n);
  }

  /**
   * Left-Right: the taller left child leans right; rotating it left and then
   * the node right restores balance, whatever height `h` the node still caches.
   */
  lemma LeftRightCase(l: Tree, x: int, r: Tree, h: int)
    requires IsAvl(l) && IsAvl(r) && Separates(l, x, r)
    requires l.Branch? && l.right.Branch? && Balance(l) == -1 && Height(l) == Height(r) + 2
    ensures var t := RotateRight(Branch(RotateLeft(l), x, h, r));
            IsAvl(t) && Height(t) == Height(l)
  {
    var m := l.right;
    AvlParts(l);
    AvlParts(m);
    HeightNonNeg(l.left);
    HeightNonNeg(m.left);
    HeightNonNeg(m.right);
    var l' := RotateLeft(l);
    RotateLeftKeepsBst(l);
    var n := Branch(l', x, h, r);
    assert IsBst(n);
    RotateRightKeepsBst(n);
  }

  /** Right-Left: the mirror image of `LeftRightCase`. */
  lemma RightLeftCase(l: Tree, x: int, r: Tree, h: int)
    requires IsAvl(l) && IsAvl(r) && Separates(l, x, r)
    requires r.Branch? && r.left.Branch? && Balance(r) == 1 && Height(r) == Height(l) + 2
    ensures var t := RotateLeft(Branch(l, x, h, RotateRight(r)));
            IsAvl(t) && Height(t) == Height(r)
  {
    var m := r.left;
    AvlParts(r);
    AvlParts(m);
    HeightNonNeg(r.right);
    HeightNonNeg(m.left);
    HeightNonNeg(m.right);
    var r' := RotateRight(r);
    RotateRightKeepsBst(r);
    var n := Branch(l, x, h, r');
    assert IsBst(n);
    RotateLeftKeepsBst(n);
  }

  /**
   * Lines 75-102 of `insertNode`, once a child of the node with key `x` has
   * been replaced: recompute the node's height, compute its balance and pick
   * the rotation by comparing the inserted key `k` with the child's key.
   * The result is an AVL tree with the same keys; without imbalance it is the
   * node itself, and after a rotation it is one level lower than the node was.
   */
  function Rebalance(l: Tree, x: int, r: Tree, k: int): (t: Tree)
    requires RebalancePre(l, x, r, k)
    ensures IsAvl(t)
    ensures Keys(t) == Keys(l) + {x} + Keys(r)
    ensures -1 <= Height(l) - Height(r) <= 1 ==> t == Branch(l, x, 1 + Max(Height(l), Height(r)), r)
    ensures !(-1 <= Height(l) - Height(r) <= 1) ==> Height(t) == Max(Height(l), Height(r))
  {
    HeightNonNeg(l); HeightNonNeg(r);
    var node := Branch(l, x, 1 + Max(Height(l), Height(r)), r);
    var balance := Balance(node);
    if balance > 1 && k < l.key then
      LeftLeftCase(l, x, r);
      RotateRight(node)
    else if balance < -1 && k > r.key then
      RightRightCase(l, x, r);
      RotateLeft(node)
    else if balance > 1 && k > l.key then
      HeightNonNeg(l.left);
      LeftRightCase(l, x, r, node.height);
      RotateRight(Branch(RotateLeft(l), x, node.height, r))
    else if balance < -1 && k < r.key then
      HeightNonNeg(r.right);
      RightLeftCase(l, x, r, node.height);
      RotateLeft(Branch(l, x, node.height, RotateRight(r)))
    else
      node
  }

  /**
   * After inserting `k` into the left subtree gave `l'`, the node over `l'`
   * meets what `Rebalance` needs.
   */
  lemma LeftInsertPre(t: Tree, k: int, l': Tree)
    requires IsAvl(t) && t.Branch? && k < t.key
    requires IsAvl(l') && Keys(l') == Keys(t.left) + {k}
    requires Height(l') == Height(t.left) || Height(l') == Height(t.left) + 1
    requires t.left.Branch? && Height(l') == Height(t.left) + 1 ==> LeansToward(l', k)
    ensures RebalancePre(l', t.key, t.right, k)
  {
    AvlParts(t);
    HeightNonNeg(t.left);
    HeightNonNeg(t.right);
    assert Separates(l', t.key, t.right);
    assert Height(l') - Height(t.right) == 2 ==> t.left.Branch?;
  }

  /**
   * The left-descent step of `insertNode`: if `l'` is what inserting `k` into
   * the left subtree gave, rebalancing the node over `l'` is allowed and yields
   * what inserting `k` into the whole tree promises.
   */
  lemma LeftInsertStep(t: Tree, k: int, l': Tree)
    requires IsAvl(t) && t.Branch? && k < t.key
    requires IsAvl(l') && Keys(l') == Keys(t.left) + {k}
    requires Height(l') == Height(t.left) || Height(l') == Height(t.left) + 1
    requires t.left.Branch? && Height(l') == Height(t.left) + 1 ==> LeansToward(l', k)
    ensures RebalancePre(l', t.key, t.right, k)
    ensures var r := Rebalance(l', t.key, t.right, k);
            Keys(r) == Keys(t) + {k} &&
            (Height(r) == Height(t) || Height(r) == Height(t) + 1) &&
            (Height(r) == Height(t) + 1 ==> LeansToward(r, k))
  {
    LeftInsertPre(t, k, l');
    AvlParts(t);
    var x, r := t.key, t.right;
    var res := Rebalance(l', x, r, k);
    if -1 <= Height(l') - Height(r) <= 1 {
      assert res == Branch(l', x, 1 + Max(Height(l'), Height(r)), r);
    } else {
      assert Height(res) == Height(l');
    }
  }

  /**
   * After inserting `k` into the right subtree gave `r'`, the node over `r'`
   * meets what `Rebalance` needs.
   */
  lemma RightInsertPre(t: Tree, k: int, r': Tree)
    requires IsAvl(t) && t.Branch? && k > t.key
    requires IsAvl(r') && Keys(r') == Keys(t.right) + {k}
    requires Height(r') == Height(t.right) || Height(r') == Height(t.right) + 1
    requires t.right.Branch? && Height(r') == Height(t.right) + 1 ==> LeansToward(r', k)
    ensures RebalancePre(t.left, t.key, r', k)
  {
    AvlParts(t);
    HeightNonNeg(t.left);
    HeightNonNeg(t.right);
    assert Separates(t.left, t.key, r');
    assert Height(t.left) - Height(r') == -2 ==> t.right.Branch?;
  }

  /** The right-descent step of `insertNode`, mirror image of `LeftInsertStep`. */
  lemma RightInsertStep(t: Tree, k: int, r': Tree)
    requires IsAvl(t) && t.Branch? && k > t.key
    requires IsAvl(r') && Keys(r') == Keys(t.right) + {k}
    requires Height(r') == Height(t.right) || Height(r') == Height(t.right) + 1
    requires t.right.Branch? && Height(r') == Height(t.right) + 1 ==> LeansToward(r', k)
    ensures RebalancePre(t.left, t.key, r', k)
    ensures var r := Rebalance(t.left, t.key, r', k);
            Keys(r) == Keys(t) + {k} &&
            (Height(r) == Height(t) || Height(r) == Height(t) + 1) &&
            (Height(r) == Height(t) + 1 ==> LeansToward(r, k))
  {
    RightInsertPre(t, k, r');
    AvlParts(t);
    var l, x := t.left, t.key;
    var res := Rebalance(l, x, r', k);
    if -1 <= Height(l) - Height(r') <= 1 {
      assert res == Branch(l, x, 1 + Max(Height(l), Height(r')), r');
    } else {
      assert Height(res) == Height(r');
    }
  }

  /**
   * `insertNode(node, key)`: BST descent, then `Rebalance` on the way back up;
   * a present key returns the subtree as it is. Inserting into an AVL tree
   * gives an AVL tree holding exactly the old keys and `k`, at most one level
   * taller, and when a non-empty tree grew, its root leans toward `k`.
   */
  function Insert(t: Tree, k: int): (r: Tree)
    requires IsAvl(t)
    ensures IsAvl(r)
    ensures Keys(r) == Keys(t) + {k}
    ensures Height(r) == Height(t) || Height(r) == Height(t) + 1
    ensures t.Branch? && Height(r) == Height(t) + 1 ==> LeansToward(r, k)
    decreases t
  {
    if t.Empty? then
      Branch(Empty, k, 1, Empty)
    else if k < t.key then
      var l' := Insert(t.left, k);
      LeftInsertStep(t, k, l');
      Rebalance(l', t.key, t.right, k)
    else if k > t.key then
      var r' := Insert(t.right, k);
      RightInsertStep(t, k, r');
      Rebalance(t.left, t.key, r', k)
    else
      t
  }
}
