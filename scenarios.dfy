/** Worked examples of the tree's behaviour, stated on the functional model
    and on the class. */
module AvlScenarios {
  import opened AvlTree
  import opened AvlRotations
  import opened AvlOperations
  import opened AvlMap

  function Leaf1<D>(k: int, d: D): Tree<D> { Node(k, d, Leaf, Leaf, 0) }

  /** Inserting 1, 2, 3 in that order makes the root lean right by two
      after the third insertion; one left rotation yields root 2 with
      children 1 and 3. */
  lemma AscendingInsertsRotateLeft<D>(a: D, b: D, c: D)
    ensures
      var t2 := FindAndInsert(FindAndInsert(Leaf, 1, a), 2, b);
      var u := t2.(right := FindAndInsert(t2.right, 3, c));
      t2 == Node(1, a, Leaf, Leaf1(2, b), 1) &&
      BalanceFactor(u) == 2 && BalanceFactor(u.right) == 1 &&
      FindAndInsert(t2, 3, c) == EnsureBalance(u) == UpdateHeight(RotateLeft(u)) &&
      FindAndInsert(t2, 3, c) == Node(2, b, Leaf1(1, a), Leaf1(3, c), 1)
  {
    var t1 := FindAndInsert(Leaf, 1, a);
    assert t1 == Leaf1(1, a);
    assert FindAndInsert(Leaf, 2, b) == Leaf1(2, b);
    var t2 := FindAndInsert(t1, 2, b);
    assert t2 == EnsureBalance(Node(1, a, Leaf, Leaf1(2, b), 0));
    assert t2 == Node(1, a, Leaf, Leaf1(2, b), 1);
    assert FindAndInsert(Leaf1(2, b), 3, c) == EnsureBalance(Node(2, b, Leaf, Leaf1(3, c), 0));
    assert FindAndInsert(Leaf1(2, b), 3, c) == Node(2, b, Leaf, Leaf1(3, c), 1);
    var u := Node(1, a, Leaf, Node(2, b, Leaf, Leaf1(3, c), 1), 1);
    assert FindAndInsert(t2, 3, c) == EnsureBalance(u);
    assert BalanceFactor(u) == 2 && BalanceFactor(u.right) == 1;
    assert EnsureBalance(u) == UpdateHeight(RotateLeft(u));
  }

  /** Inserting 5, 3, 8, 1, 4 and then removing 5, which has two children,
      brings its in-order predecessor 4 to the root; the removal returns
      5's data and the in-order keys are 1, 3, 4, 8. */
  lemma TwoChildRemovalPromotesPredecessor<D>(d5: D, d3: D, d8: D, d1: D, d4: D)
    ensures
      var t := FindAndInsert(FindAndInsert(FindAndInsert(FindAndInsert(
                 FindAndInsert(Leaf, 5, d5), 3, d3), 8, d8), 1, d1), 4, d4);
      t == Node(5, d5, Node(3, d3, Leaf1(1, d1), Leaf1(4, d4), 1), Leaf1(8, d8), 2) &&
      SwapNodes(t).key == 4 &&
      FindAndRemove(t, 5) ==
        Some((Node(4, d4, Node(3, d3, Leaf1(1, d1), Leaf, 1), Leaf1(8, d8), 2), d5))
  {
    var n1, n3, n4, n8 := Leaf1(1, d1), Leaf1(3, d3), Leaf1(4, d4), Leaf1(8, d8);
    InsertingFiveThreeEight(d5, d3, d8);
    var t3 := Node(5, d5, n3, n8, 1);
    assert FindAndInsert(Leaf, 1, d1) == n1;
    assert FindAndInsert(Leaf, 4, d4) == n4;
    var l4 := Node(3, d3, n1, Leaf, 1);
    assert FindAndInsert(n3, 1, d1) == EnsureBalance(Node(3, d3, n1, Leaf, 0)) == l4;
    var t4 := Node(5, d5, l4, n8, 2);
    assert FindAndInsert(t3, 1, d1) == EnsureBalance(Node(5, d5, l4, n8, 1)) == t4;
    var l5 := Node(3, d3, n1, n4, 1);
    assert FindAndInsert(l4, 4, d4) == EnsureBalance(l5) == l5;
    var t5 := Node(5, d5, l5, n8, 2);
    assert FindAndInsert(t4, 4, d4) == EnsureBalance(t5) == t5;
    RemovingRootOfFive(d5, d3, d8, d1, d4);
  }

  /** The first three insertions of TwoChildRemovalPromotesPredecessor
      need no rotation. */
  lemma InsertingFiveThreeEight<D>(d5: D, d3: D, d8: D)
    ensures FindAndInsert(FindAndInsert(FindAndInsert(Leaf, 5, d5), 3, d3), 8, d8) ==
      Node(5, d5, Leaf1(3, d3), Leaf1(8, d8), 1)
  {
    var n3, n5, n8 := Leaf1(3, d3), Leaf1(5, d5), Leaf1(8, d8);
    assert FindAndInsert(Leaf, 5, d5) == n5;
    assert FindAndInsert(Leaf, 3, d3) == n3;
    assert FindAndInsert(Leaf, 8, d8) == n8;
    var t2 := Node(5, d5, n3, Leaf, 1);
    assert FindAndInsert(n5, 3, d3) == EnsureBalance(Node(5, d5, n3, Leaf, 0)) == t2;
    var t3 := Node(5, d5, n3, n8, 1);
    assert FindAndInsert(t2, 8, d8) == EnsureBalance(t3) == t3;
  }

  /** The removal half of TwoChildRemovalPromotesPredecessor: 4 and 5
      exchange places, then 5 is cut off without any rotation. */
  lemma RemovingRootOfFive<D>(d5: D, d3: D, d8: D, d1: D, d4: D)
    ensures
      var n1, n4, n8 := Leaf1(1, d1), Leaf1(4, d4), Leaf1(8, d8);
      var t5 := Node(5, d5, Node(3, d3, n1, n4, 1), n8, 2);
      HeightCheck(t5) && SwapNodes(t5).key == 4 &&
      FindAndRemove(t5, 5) == Some((Node(4, d4, Node(3, d3, n1, Leaf, 1), n8, 2), d5))
  {
    var n1, n4, n8 := Leaf1(1, d1), Leaf1(4, d4), Leaf1(8, d8);
    var l5 := Node(3, d3, n1, n4, 1);
    var t5 := Node(5, d5, l5, n8, 2);
    assert HeightCheck(Leaf1(0, d1).left);
    assert HeightCheck(n1) && HeightCheck(n4) && HeightCheck(n8);
    assert HeightCheck(l5);
    assert HeightCheck(t5);
    SwappedLeftOfFive(d5, d3, d1, d4);
    RemovingFiveBelowThree(d5, d3, d1);
    var s := SwapNodes(t5);
    assert s == Node(4, d4, Node(3, d3, n1, Leaf1(5, d5), 1), n8, 2);
    var l4 := Node(3, d3, n1, Leaf, 1);
    var r := Node(4, d4, l4, n8, 2);
    assert IopRemove(t5) == (EnsureBalance(r), d5);
    assert EnsureBalance(r) == r;
    assert FindAndRemove(t5, 5) == Some(RemoveNode(t5));
  }

  /** The predecessor search below 5: 4 is the rightmost node of the left
      subtree, and 5 takes its place. */
  lemma SwappedLeftOfFive<D>(d5: D, d3: D, d1: D, d4: D)
    ensures
      var n1, n4, n5 := Leaf1(1, d1), Leaf1(4, d4), Leaf1(5, d5);
      var l5 := Node(3, d3, n1, n4, 1);
      Rightmost(l5) == n4 && ReplaceRightmost(l5, 5, d5) == Node(3, d3, n1, n5, 1)
  {
    var n1, n4, n5 := Leaf1(1, d1), Leaf1(4, d4), Leaf1(5, d5);
    var l5 := Node(3, d3, n1, n4, 1);
    assert Rightmost(l5) == Rightmost(n4) == n4;
    assert ReplaceRightmost(n4, 5, d5) == n5;
    assert ReplaceRightmost(l5, 5, d5) == l5.(right := ReplaceRightmost(n4, 5, d5));
  }

  /** Removing 5 again from its new position leaves 3 over 1, and no
      rotation is needed. */
  lemma RemovingFiveBelowThree<D>(d5: D, d3: D, d1: D)
    ensures
      var n1, n5 := Leaf1(1, d1), Leaf1(5, d5);
      var s5 := Node(3, d3, n1, n5, 1);
      HeightCheck(s5) && RemoveRightmost(s5) == (Node(3, d3, n1, Leaf, 1), d5)
  {
    var n1, n5 := Leaf1(1, d1), Leaf1(5, d5);
    var s5 := Node(3, d3, n1, n5, 1);
    assert HeightCheck(Leaf1(0, d1).left);
    assert HeightCheck(n1) && HeightCheck(n5);
    assert HeightCheck(s5);
    assert RemoveRightmost(n5) == (Leaf, d5);
    assert RemoveRightmost(s5) == (EnsureBalance(Node(3, d3, n1, Leaf, 1)), d5);
  }

  /** A client of the class: what it can conclude from the contracts
      alone. */
  method Client()
  {
    var tree := new AVL<string>();
    tree.Insert(5, "five");
    tree.Insert(3, "three");
    tree.Insert(5, "FIVE");
    var f := tree.Find(5);
    assert f == Ok("five");
    var r := tree.Remove(5);
    assert r == Ok("five");
    var c := tree.Contains(5);
    assert !c;
    f := tree.Find(5);
    assert f == Err(NotFound);
    r := tree.Remove(5);
    assert r == Err(NotFound);
    var ok := tree.RunDebuggingChecks();
    assert ok;
    tree.ClearTree();
    tree.ClearTree();
    var e := tree.Empty();
    assert e;
  }
}
