/** Why the AVL invariants bound the height: a balanced tree with checked
    heights has at least exponentially many nodes in its height, so every
    root-to-leaf descent is O(log n) steps long. */
module AvlBounds {
  import opened AvlTree

  /** The fewest nodes a balanced tree of height h can have. */
  function MinNodes(h: int): nat
    decreases h
  {
    if h < 0 then 0 else if h == 0 then 1 else 1 + MinNodes(h - 1) + MinNodes(h - 2)
  }

  function Pow2(n: nat): nat
  {
    if n == 0 then 1 else 2 * Pow2(n - 1)
  }

  lemma {:induction false} MinNodesMonotone(a: int, b: int)
    requires a <= b
    ensures MinNodes(a) <= MinNodes(b)
    decreases b - a
  {
    if a < b {
      MinNodesMonotone(a, b - 1);
    }
  }

  /** Every balanced tree with checked heights has at least
      MinNodes(height) nodes. */
  lemma {:induction false} BalancedHasMinNodes<D>(t: Tree<D>)
    requires HeightCheck(t) && BalanceCheck(t)
    ensures Size(t) >= MinNodes(GetHeight(t))
  {
    if t.Node? {
      BalancedHasMinNodes(t.left);
      BalancedHasMinNodes(t.right);
      CachedHeightIsDepth(t.left);
      CachedHeightIsDepth(t.right);
      var hl, hr := GetHeight(t.left), GetHeight(t.right);
      var h := GetHeight(t);
      assert Size(t) == Size(t.left) + 1 + Size(t.right);
      if h > 0 {
        assert MinNodes(h) == 1 + MinNodes(h - 1) + MinNodes(h - 2);
        if hl <= hr {
          assert hr == h - 1 && h - 2 <= hl;
          MinNodesMonotone(h - 2, hl);
        } else {
          assert hl == h - 1 && h - 2 <= hr;
          MinNodesMonotone(h - 2, hr);
        }
      }
    }
  }

  /** MinNodes grows at least as fast as 2 to the half height. */
  lemma {:induction false} MinNodesExponential(h: int)
    requires h >= -1
    ensures MinNodes(h) + 1 >= Pow2((h + 1) / 2)
    decreases h
  {
    if h >= 1 {
      MinNodesExponential(h - 2);
      MinNodesMonotone(h - 2, h - 1);
      assert (h + 1) / 2 == (h - 1) / 2 + 1;
    }
  }

  /** The height bound: an AVL tree of height h holds at least
      2^((h+1)/2) - 1 nodes, that is, h < 2 log2(n + 1) + 1. */
  lemma HeightIsLogarithmic<D>(t: Tree<D>)
    requires IsAvl(t)
    ensures Pow2((Depth(t) + 1) / 2) <= Size(t) + 1
  {
    CachedHeightIsDepth(t);
    BalancedHasMinNodes(t);
    MinNodesExponential(GetHeight(t));
  }
}
