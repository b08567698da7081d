/**
 * The insertion order of the demonstration program (10, 20, 30, 40, 50) and
 * those of the Left-Right and Right-Left scenarios, replayed on the value
 * model one insert at a time.
 */
module AvlScenarios {
  import opened AvlModel
  import opened AvlProperties

  function Leaf(k: int): Tree {
    Branch(Empty, k, 1, Empty)
  }

  /** A fresh node is a leaf of height 1. */
  lemma Ascending1()
    ensures Insert(Empty, 10) == Leaf(10)
  {}

  lemma Ascending2()
    ensures Insert(Insert(Empty, 10), 20) == Branch(Empty, 10, 2, Leaf(20))
  {
    Ascending1();
  }

  /** Inserting 30 after {10, 20} fires the Right-Right case at 10: 20 becomes the root. */
  lemma Ascending3()
    ensures Insert(Insert(Insert(Empty, 10), 20), 30) == Branch(Leaf(10), 20, 2, Leaf(30))
  {
    Ascending2();
  }

  lemma Ascending4()
    ensures Insert(Insert(Insert(Insert(Empty, 10), 20), 30), 40) ==
            Branch(Leaf(10), 20, 3, Branch(Empty, 30, 2, Leaf(40)))
  {
    Ascending3();
  }

  /**
   * Inserting 50 fires the Right-Right case at 30, below the root, and
   * leaves every node balanced.
   */
  lemma Ascending5()
    ensures Insert(Insert(Insert(Insert(Insert(Empty, 10), 20), 30), 40), 50) ==
            Branch(Leaf(10), 20, 3, Branch(Leaf(30), 40, 2, Leaf(50)))
  {
    Ascending4();
  }

  /** The demonstration keys traverse in ascending order, in whatever order they are inserted. */
  lemma DemonstrationKeysTraversal(ks: seq<int>)
    requires forall v :: v in ks <==> v in [10, 20, 30, 40, 50]
    ensures InOrder(InsertAll(Empty, ks)) == [10, 20, 30, 40, 50]
  {
    TraversalIsSortedKeys(ks, [10, 20, 30, 40, 50]);
  }

  lemma LeftRight2()
    ensures Insert(Insert(Empty, 30), 10) == Branch(Leaf(10), 30, 2, Empty)
  {
    assert Insert(Empty, 30) == Leaf(30);
  }

  /** Inserting 30, 10, 20 fires the Left-Right case at 30: 20 becomes the root. */
  lemma LeftRightScenario()
    ensures Insert(Insert(Insert(Empty, 30), 10), 20) == Branch(Leaf(10), 20, 2, Leaf(30))
  {
    LeftRight2();
  }

  lemma RightLeft2()
    ensures Insert(Insert(Empty, 10), 30) == Branch(Empty, 10, 2, Leaf(30))
  {
    Ascending1();
  }

  /** Inserting 10, 30, 20 fires the Right-Left case at 10: 20 becomes the root. */
  lemma RightLeftScenario()
    ensures Insert(Insert(Insert(Empty, 10), 30), 20) == Branch(Leaf(10), 20, 2, Leaf(30))
  {
    RightLeft2();
  }

  /** A tree with no inserts traverses as the empty sequence. */
  lemma EmptyTraversal()
    ensures InOrder(InsertAll(Empty, [])) == []
  {}
}
