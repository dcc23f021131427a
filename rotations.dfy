/** The four rotations and `_ensureBalance`, which restores the balance of
    one node whose children are AVL trees whose heights differ by at most
    two. */
module AvlRotations {
  import opened AvlTree

  /** `_rotateLeft`: the right child y of x becomes the subtree root, x
      becomes y's left child and takes over y's old left subtree; x's
      height is updated before y's. */
  function RotateLeft<D>(t: Tree<D>): (r: Tree<D>)
    requires t.Node? && t.right.Node?
    ensures r.Node? && Entries(r) == Entries(t)
    ensures r.key == t.right.key && r.right == t.right.right
    ensures r.left.Node? && r.left.key == t.key && r.left.left == t.left && r.left.right == t.right.left
    ensures HeightCheck(t.left) && HeightCheck(t.right) ==> HeightCheck(r)
  {
    var y := t.right;
    var x := UpdateHeight(t.(right := y.left));
    UpdateHeight(y.(left := x))
  }

  /** `_rotateRight`: the mirror image of `_rotateLeft`. */
  function RotateRight<D>(t: Tree<D>): (r: Tree<D>)
    requires t.Node? && t.left.Node?
    ensures r.Node? && Entries(r) == Entries(t)
    ensures r.key == t.left.key && r.left == t.left.left
    ensures r.right.Node? && r.right.key == t.key && r.right.right == t.right && r.right.left == t.left.right
    ensures HeightCheck(t.left) && HeightCheck(t.right) ==> HeightCheck(r)
  {
    var y := t.left;
    var x := UpdateHeight(t.(left := y.right));
    UpdateHeight(y.(right := x))
  }

  /** `_rotateRightLeft`: a right rotation of the right child, then a left
      rotation of the node itself. */
  function RotateRightLeft<D>(t: Tree<D>): (r: Tree<D>)
    requires t.Node? && t.right.Node? && t.right.left.Node?
    ensures r.Node? && Entries(r) == Entries(t)
    ensures HeightCheck(t.left) && HeightCheck(t.right) ==> HeightCheck(r)
  {
    RotateLeft(t.(right := RotateRight(t.right)))
  }

  /** `_rotateLeftRight`: a left rotation of the left child, then a right
      rotation of the node itself. */
  function RotateLeftRight<D>(t: Tree<D>): (r: Tree<D>)
    requires t.Node? && t.left.Node? && t.left.right.Node?
    ensures r.Node? && Entries(r) == Entries(t)
    ensures HeightCheck(t.left) && HeightCheck(t.right) ==> HeightCheck(r)
  {
    RotateRight(t.(left := RotateLeft(t.left)))
  }

  /** `_ensureBalance`: if the node leans by more than one to the right,
      a left rotation (right child balanced or right-leaning) or a
      right-left rotation (right child left-leaning); symmetrically on the
      left; then the node's height is recorded. The children's recorded
      heights are assumed correct, as the source assumes. */
  function EnsureBalance<D>(t: Tree<D>): (r: Tree<D>)
    requires t.Node? ==> HeightCheck(t.left) && HeightCheck(t.right)
    ensures r.Leaf? <==> t.Leaf?
    ensures Entries(r) == Entries(t)
    ensures t.Node? ==> HeightCheck(r)
  {
    if t.Leaf? then t
    else
      CachedHeightIsDepth(t.left);
      CachedHeightIsDepth(t.right);
      var b := BalanceFactor(t);
      var rotated :=
        if b > 1 then
          CachedHeightIsDepth(t.right.left);
          CachedHeightIsDepth(t.right.right);
          if BalanceFactor(t.right) >= 0 then RotateLeft(t) else RotateRightLeft(t)
        else if b < -1 then
          CachedHeightIsDepth(t.left.left);
          CachedHeightIsDepth(t.left.right);
          if BalanceFactor(t.left) <= 0 then RotateRight(t) else RotateLeftRight(t)
        else t;
      UpdateHeight(rotated)
  }

  // ---------------------------------------------------------------------
  // Rebalancing restores the AVL invariants

  /** A node whose right child is two taller than its left child and is
      not left-leaning becomes balanced by a left rotation; the height
      becomes that of the old right child, or one more. */
  lemma RotateLeftRebalances<D>(t: Tree<D>)
    requires t.Node? && t.right.Node?
    requires HeightCheck(t.left) && BalanceCheck(t.left) && HeightCheck(t.right) && BalanceCheck(t.right)
    requires GetHeight(t.right) == GetHeight(t.left) + 2
    requires BalanceFactor(t.right) >= 0
    ensures BalanceCheck(RotateLeft(t))
    ensures GetHeight(t.right) <= GetHeight(RotateLeft(t)) <= GetHeight(t.right) + 1
  {
    var r := RotateLeft(t);
    var y := t.right;
    CachedHeightIsDepth(t.left);
    CachedHeightIsDepth(y.left);
    CachedHeightIsDepth(y.right);
    assert BalanceCheck(r.left);
  }

  /** The mirror image of RotateLeftRebalances. */
  lemma RotateRightRebalances<D>(t: Tree<D>)
    requires t.Node? && t.left.Node?
    requires HeightCheck(t.left) && BalanceCheck(t.left) && HeightCheck(t.right) && BalanceCheck(t.right)
    requires GetHeight(t.left) == GetHeight(t.right) + 2
    requires BalanceFactor(t.left) <= 0
    ensures BalanceCheck(RotateRight(t))
    ensures GetHeight(t.left) <= GetHeight(RotateRight(t)) <= GetHeight(t.left) + 1
  {
    var r := RotateRight(t);
    var y := t.left;
    CachedHeightIsDepth(t.right);
    CachedHeightIsDepth(y.left);
    CachedHeightIsDepth(y.right);
    assert BalanceCheck(r.right);
  }

  /** A node whose right child is two taller than its left child and is
      left-leaning becomes balanced by a right-left rotation, as tall as
      the old right child. */
  lemma RotateRightLeftRebalances<D>(t: Tree<D>)
    requires t.Node? && t.right.Node?
    requires HeightCheck(t.left) && BalanceCheck(t.left) && HeightCheck(t.right) && BalanceCheck(t.right)
    requires GetHeight(t.right) == GetHeight(t.left) + 2
    requires BalanceFactor(t.right) < 0
    ensures t.right.left.Node?
    ensures BalanceCheck(RotateRightLeft(t))
    ensures GetHeight(RotateRightLeft(t)) == GetHeight(t.right)
  {
    var y := t.right;
    CachedHeightIsDepth(t.left);
    CachedHeightIsDepth(y.left);
    CachedHeightIsDepth(y.right);
    var z := y.left;
    CachedHeightIsDepth(z.left);
    CachedHeightIsDepth(z.right);
    var r := RotateRightLeft(t);
    var a := Node(t.key, t.data, t.left, z.left, 1 + Max(GetHeight(t.left), GetHeight(z.left)));
    var c := Node(y.key, y.data, z.right, y.right, 1 + Max(GetHeight(z.right), GetHeight(y.right)));
    assert r == Node(z.key, z.data, a, c, 1 + Max(GetHeight(a), GetHeight(c)));
    assert BalanceCheck(a) && BalanceCheck(c);
  }

  /** The mirror image of RotateRightLeftRebalances. */
  lemma RotateLeftRightRebalances<D>(t: Tree<D>)
    requires t.Node? && t.left.Node?
    requires HeightCheck(t.left) && BalanceCheck(t.left) && HeightCheck(t.right) && BalanceCheck(t.right)
    requires GetHeight(t.left) == GetHeight(t.right) + 2
    requires BalanceFactor(t.left) > 0
    ensures t.left.right.Node?
    ensures BalanceCheck(RotateLeftRight(t))
    ensures GetHeight(RotateLeftRight(t)) == GetHeight(t.left)
  {
    var y := t.left;
    CachedHeightIsDepth(t.right);
    CachedHeightIsDepth(y.left);
    CachedHeightIsDepth(y.right);
    var z := y.right;
    CachedHeightIsDepth(z.left);
    CachedHeightIsDepth(z.right);
    var r := RotateLeftRight(t);
    var a := Node(y.key, y.data, y.left, z.left, 1 + Max(GetHeight(y.left), GetHeight(z.left)));
    var c := Node(t.key, t.data, z.right, t.right, 1 + Max(GetHeight(z.right), GetHeight(t.right)));
    assert r == Node(z.key, z.data, a, c, 1 + Max(GetHeight(a), GetHeight(c)));
    assert BalanceCheck(a) && BalanceCheck(c);
  }

  /** After `_ensureBalance` on a node whose children are balanced with
      checked heights and whose balance factor is within two, the subtree
      is balanced. Its height is at least the taller child's and at most
      one more; a node that was already balanced only has its height
      recorded. The in-order entries are unchanged, so the order check
      holds afterwards exactly when it held before. */
  lemma EnsureBalanceRestores<D>(t: Tree<D>)
    requires t.Node?
    requires HeightCheck(t.left) && BalanceCheck(t.left) && HeightCheck(t.right) && BalanceCheck(t.right)
    requires -2 <= BalanceFactor(t) <= 2
    ensures BalanceCheck(EnsureBalance(t))
    ensures OrderCheck(EnsureBalance(t)) <==> OrderCheck(t)
    ensures Max(GetHeight(t.left), GetHeight(t.right)) <= GetHeight(EnsureBalance(t))
    ensures GetHeight(EnsureBalance(t)) <= 1 + Max(GetHeight(t.left), GetHeight(t.right))
    ensures -1 <= BalanceFactor(t) <= 1 ==> EnsureBalance(t) == UpdateHeight(t)
  {
    SameEntriesSameOrder(t, EnsureBalance(t));
    CachedHeightIsDepth(t.left);
    CachedHeightIsDepth(t.right);
    var b := BalanceFactor(t);
    if b > 1 {
      if BalanceFactor(t.right) >= 0 {
        RotateLeftRebalances(t);
      } else {
        RotateRightLeftRebalances(t);
      }
    } else if b < -1 {
      if BalanceFactor(t.left) <= 0 {
        RotateRightRebalances(t);
      } else {
        RotateLeftRightRebalances(t);
      }
    }
  }
}
