/**
 * Properties of the value model that relate several operations: inserting a
 * present key changes nothing, the in-order traversal of a search tree is
 * strictly increasing and lists exactly its keys, and therefore a tree built
 * by any sequence of insertions traverses as the sorted list of the distinct
 * inserted keys, whatever order they were inserted in.
 */
module AvlProperties {
  import opened AvlModel

  ghost predicate StrictlyIncreasing(s: seq<int>) {
    forall i, j :: 0 <= i < j < |s| ==> s[i] < s[j]
  }

  /** Duplicate keys are a no-op: no rotation fires, no height changes. */
  lemma {:induction false} InsertPresent(t: Tree, k: int)
    requires IsAvl(t) && k in Keys(t)
    ensures Insert(t, k) == t
  {
    AvlParts(t);
    if k < t.key {
      InsertPresent(t.left, k);
    } else if k > t.key {
      InsertPresent(t.right, k);
    }
  }

  /**
   * Proof helper for the object model's `InsertNode`, gathering in one
   * contract the facts its duplicate-key case needs: `InsertPresent`'s
   * result, the side the descent takes, and that the root needs no
   * rebalancing (balance in range, cached height correct).
   */
  lemma PresentBelowRoot(t: Tree, k: int)
    requires IsAvl(t) && t.Branch? && k in Keys(t) && k != t.key
    ensures Insert(t, k) == t
    ensures k < t.key ==> k in Keys(t.left)
    ensures k > t.key ==> k in Keys(t.right)
    ensures -1 <= Height(t.left) - Height(t.right) <= 1
    ensures t.height == 1 + Max(Height(t.left), Height(t.right))
  {
    InsertPresent(t, k);
    AvlParts(t);
  }

  /** The traversal visits exactly the keys of the tree. */
  lemma {:induction false} InOrderHasKeys(t: Tree)
    ensures forall v :: v in InOrder(t) <==> v in Keys(t)
  {
    if t.Branch? {
      InOrderHasKeys(t.left);
      InOrderHasKeys(t.right);
    }
  }

  /** The three parts of a strictly increasing `a + [x] + b` are strictly increasing and ordered around `x`. */
  lemma JoinIncreasingParts(a: seq<int>, x: int, b: seq<int>)
    requires StrictlyIncreasing(a + [x] + b)
    ensures StrictlyIncreasing(a) && StrictlyIncreasing(b)
    ensures (forall v :: v in a ==> v < x) && (forall v :: v in b ==> x < v)
  {
    var s := a + [x] + b;
    assert forall i :: 0 <= i < |a| ==> s[i] == a[i];
    assert s[|a|] == x;
    assert forall i :: 0 <= i < |b| ==> s[|a| + 1 + i] == b[i];
    forall i, j | 0 <= i < j < |b| ensures b[i] < b[j] {
      assert s[|a| + 1 + i] < s[|a| + 1 + j];
    }
    forall v | v in a ensures v < x {
      var i :| 0 <= i < |a| && a[i] == v;
      assert s[i] < s[|a|];
    }
    forall v | v in b ensures x < v {
      var i :| 0 <= i < |b| && b[i] == v;
      assert s[|a|] < s[|a| + 1 + i];
    }
  }

  /** Strictly increasing parts ordered around `x` join into a strictly increasing `a + [x] + b`. */
  lemma JoinIncreasingWhole(a: seq<int>, x: int, b: seq<int>)
    requires StrictlyIncreasing(a) && StrictlyIncreasing(b)
    requires (forall v :: v in a ==> v < x) && (forall v :: v in b ==> x < v)
    ensures StrictlyIncreasing(a + [x] + b)
  {
    var s := a + [x] + b;
    forall i, j | 0 <= i < j < |s| ensures s[i] < s[j] {
      if j < |a| {
        assert s[i] == a[i] && s[j] == a[j];
      } else if i < |a| {
        assert s[i] == a[i] && a[i] in a;
        if j > |a| {
          assert s[j] == b[j - |a| - 1] && b[j - |a| - 1] in b;
        }
      } else if i == |a| {
        assert s[j] == b[j - |a| - 1] && b[j - |a| - 1] in b;
      } else {
        assert s[i] == b[i - |a| - 1] && s[j] == b[j - |a| - 1];
      }
    }
  }

  /** A sequence built as `a + [x] + b` is strictly increasing exactly when both parts are and `x` lies between them. */
  lemma JoinIncreasing(a: seq<int>, x: int, b: seq<int>)
    ensures StrictlyIncreasing(a + [x] + b) <==>
              StrictlyIncreasing(a) && StrictlyIncreasing(b) &&
              (forall v :: v in a ==> v < x) && (forall v :: v in b ==> x < v)
  {
    if StrictlyIncreasing(a + [x] + b) {
      JoinIncreasingParts(a, x, b);
    }
    if StrictlyIncreasing(a) && StrictlyIncreasing(b) &&
       (forall v :: v in a ==> v < x) && (forall v :: v in b ==> x < v) {
      JoinIncreasingWhole(a, x, b);
    }
  }

  /** Search-tree order is the same thing as a strictly increasing traversal. */
  lemma {:induction false} BstIffIncreasing(t: Tree)
    ensures IsBst(t) <==> StrictlyIncreasing(InOrder(t))
  {
    if t.Branch? {
      BstIffIncreasing(t.left);
      BstIffIncreasing(t.right);
      InOrderHasKeys(t.left);
      InOrderHasKeys(t.right);
      JoinIncreasing(InOrder(t.left), t.key, InOrder(t.right));
    }
  }

  /** In a search tree the traversal is as long as the key set is large. */
  lemma {:induction false} InOrderLength(t: Tree)
    requires IsBst(t)
    ensures |InOrder(t)| == |Keys(t)|
  {
    if t.Branch? {
      InOrderLength(t.left);
      InOrderLength(t.right);
      assert Keys(t.left) !! Keys(t.right) by {
        forall v | v in Keys(t.left) ensures v !in Keys(t.right) {
          assert v < t.key;
        }
      }
      assert t.key !in Keys(t.left) && t.key !in Keys(t.right);
    }
  }

  /** Dropping the first element of a strictly increasing sequence removes exactly that element. */
  lemma IncreasingTail(s: seq<int>)
    requires StrictlyIncreasing(s) && s != []
    ensures forall v :: v in s ==> s[0] <= v
    ensures forall v :: v in s[1..] <==> v in s && v != s[0]
  {
    forall v | v in s ensures s[0] <= v {
      var p :| 0 <= p < |s| && s[p] == v;
      assert p > 0 ==> s[0] < s[p];
    }
    forall v | v in s[1..] ensures v != s[0] {
      var p :| 1 <= p < |s| && s[p] == v;
      assert s[0] < s[p];
    }
    assert s == [s[0]] + s[1..];
  }

  /** Two strictly increasing sequences with the same elements are equal. */
  lemma {:induction false} IncreasingUnique(s: seq<int>, u: seq<int>)
    requires StrictlyIncreasing(s) && StrictlyIncreasing(u)
    requires forall v :: v in s <==> v in u
    ensures s == u
    decreases |s|
  {
    if s == [] {
      assert forall i :: 0 <= i < |u| ==> u[i] in u;
    } else {
      assert s[0] in s;
      assert u != [];
      assert u[0] in u;
      IncreasingTail(s);
      IncreasingTail(u);
      assert s[0] == u[0];
      IncreasingUnique(s[1..], u[1..]);
      assert s == [s[0]] + s[1..];
      assert u == [u[0]] + u[1..];
    }
  }

  /** The tree that `insert` builds from the AVL tree `t` and the keys `ks`, inserted in order. */
  function InsertAll(t: Tree, ks: seq<int>): (r: Tree)
    requires IsAvl(t)
    ensures IsAvl(r)
    ensures forall v :: v in Keys(r) <==> v in Keys(t) || v in ks
    decreases |ks|
  {
    if ks == [] then t
    else
      InsertAll(Insert(t, ks[0]), ks[1..])
  }

  /** Inserting the keys `ks + [k]` is inserting `ks`, then `k`. */
  lemma {:induction false} InsertAllSnoc(t: Tree, ks: seq<int>, k: int)
    requires IsAvl(t)
    ensures InsertAll(t, ks + [k]) == Insert(InsertAll(t, ks), k)
    decreases |ks|
  {
    if ks == [] {
      assert ks + [k] == [k];
      assert [k][1..] == [];
    } else {
      assert (ks + [k])[0] == ks[0];
      assert (ks + [k])[1..] == ks[1..] + [k];
      InsertAllSnoc(Insert(t, ks[0]), ks[1..], k);
    }
  }

  /** Inserting the first `i + 1` keys of `ks` is inserting the first `i`, then `ks[i]`. */
  lemma InsertAllPrefix(t: Tree, ks: seq<int>, i: int)
    requires IsAvl(t) && 0 <= i < |ks|
    ensures InsertAll(t, ks[..i + 1]) == Insert(InsertAll(t, ks[..i]), ks[i])
  {
    assert ks[..i + 1] == ks[..i] + [ks[i]];
    InsertAllSnoc(t, ks[..i], ks[i]);
  }

  /**
   * After any sequence of inserts the traversal is THE sorted list of the
   * distinct inserted keys: it equals every strictly increasing sequence
   * that holds exactly those keys.
   */
  lemma TraversalIsSortedKeys(ks: seq<int>, sorted: seq<int>)
    requires StrictlyIncreasing(sorted)
    requires forall v :: v in sorted <==> v in ks
    ensures InOrder(InsertAll(Empty, ks)) == sorted
  {
    var t := InsertAll(Empty, ks);
    BstIffIncreasing(t);
    InOrderHasKeys(t);
    IncreasingUnique(InOrder(t), sorted);
  }

  /** The traversal does not depend on the order in which the keys were inserted. */
  lemma TraversalIgnoresOrder(ks: seq<int>, js: seq<int>)
    requires forall v :: v in ks <==> v in js
    ensures InOrder(InsertAll(Empty, ks)) == InOrder(InsertAll(Empty, js))
  {
    var t := InsertAll(Empty, js);
    BstIffIncreasing(t);
    InOrderHasKeys(t);
    TraversalIsSortedKeys(ks, InOrder(t));
  }
}
