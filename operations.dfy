/** The recursive operations behind `find`, `insert` and `remove`: each
    takes the subtree in a slot and returns the subtree that the slot holds
    afterwards, rebalancing every node on the way back up. */
module AvlOperations {
  import opened AvlTree
  import opened AvlRotations

  datatype Option<T> = None | Some(value: T)

  // ---------------------------------------------------------------------
  // Lemmas on sequences of entries and on maps used below

  lemma IncreasingDropMiddle<D>(a: seq<(int, D)>, x: (int, D), b: seq<(int, D)>)
    requires StrictlyIncreasing(a + [x] + b)
    ensures StrictlyIncreasing(a + b)
  {
    var s, u := a + [x] + b, a + b;
    forall i, j | 0 <= i < j < |u| ensures u[i].0 < u[j].0 {
      var i', j' := if i < |a| then i else i + 1, if j < |a| then j else j + 1;
      assert u[i] == s[i'] && u[j] == s[j'];
    }
  }

  lemma IncreasingPrefix<D>(a: seq<(int, D)>, b: seq<(int, D)>)
    requires StrictlyIncreasing(a + b)
    ensures StrictlyIncreasing(a)
  {
    forall i, j | 0 <= i < j < |a| ensures a[i].0 < a[j].0 {
      assert (a + b)[i] == a[i] && (a + b)[j] == a[j];
    }
  }

  lemma MapRemoveFromUnion<D>(l: map<int, D>, k: int, d: D, r: map<int, D>, x: int)
    requires x != k && x !in r
    ensures (l - {x}) + map[k := d] + r == (l + map[k := d] + r) - {x}
  {
    var u, v := (l - {x}) + map[k := d] + r, (l + map[k := d] + r) - {x};
    assert u.Keys == v.Keys;
    forall y | y in u ensures u[y] == v[y] { }
  }

  lemma MapRemoveFromUnionRight<D>(l: map<int, D>, k: int, d: D, r: map<int, D>, x: int)
    requires x != k && x !in l
    ensures l + map[k := d] + (r - {x}) == (l + map[k := d] + r) - {x}
  {
    var u, v := l + map[k := d] + (r - {x}), (l + map[k := d] + r) - {x};
    assert u.Keys == v.Keys;
    forall y | y in u ensures u[y] == v[y] { }
  }

  lemma MapRemoveMiddle<D>(l: map<int, D>, k: int, d: D, r: map<int, D>)
    requires k !in l && k !in r
    ensures l + r == (l + map[k := d] + r) - {k}
  {
    var u, v := l + r, (l + map[k := d] + r) - {k};
    assert u.Keys == v.Keys;
    forall y | y in u ensures u[y] == v[y] { }
  }

  lemma MapUpdateInUnion<D>(l: map<int, D>, k: int, d: D, r: map<int, D>, x: int, e: D)
    requires x != k && x !in r
    ensures l[x := e] + map[k := d] + r == (l + map[k := d] + r)[x := e]
  {
    var u, v := l[x := e] + map[k := d] + r, (l + map[k := d] + r)[x := e];
    assert u.Keys == v.Keys;
    forall y | y in u ensures u[y] == v[y] { }
  }

  lemma MapUpdateInUnionRight<D>(l: map<int, D>, k: int, d: D, r: map<int, D>, x: int, e: D)
    requires x != k
    ensures l + map[k := d] + r[x := e] == (l + map[k := d] + r)[x := e]
  {
    var u, v := l + map[k := d] + r[x := e], (l + map[k := d] + r)[x := e];
    assert u.Keys == v.Keys;
    forall y | y in u ensures u[y] == v[y] { }
  }

  // ---------------------------------------------------------------------
  // find

  /** `_find`: the slot holding `key`, or the null slot where the search
      stopped. */
  function FindSlot<D>(t: Tree<D>, key: int): (r: Tree<D>)
    ensures r.Node? ==> r.key == key && key in Keys(t)
  {
    if t.Leaf? then t
    else if key == t.key then t
    else if key < t.key then FindSlot(t.left, key)
    else FindSlot(t.right, key)
  }

  /** In an ordered tree the search stops at a node exactly when the key
      is stored, and that node holds the key's data. */
  lemma {:induction false} FindSlotFinds<D>(t: Tree<D>, key: int)
    requires OrderCheck(t)
    ensures FindSlot(t, key).Node? <==> key in ToMap(t)
    ensures FindSlot(t, key).Node? ==> FindSlot(t, key).data == ToMap(t)[key]
  {
    MapKeysAreKeys(t);
    if t.Node? {
      MapKeysAreKeys(t.left);
      MapKeysAreKeys(t.right);
      if key < t.key {
        FindSlotFinds(t.left, key);
      } else if key > t.key {
        FindSlotFinds(t.right, key);
      }
    }
  }

  // ---------------------------------------------------------------------
  // insert

  /** `_find_and_insert`: descends to the null slot where `key` belongs and
      creates a node there, calling `_ensureBalance` on every node on the
      way back. A key that is already present leaves the tree as it is. */
  function FindAndInsert<D>(t: Tree<D>, key: int, data: D): (r: Tree<D>)
    requires HeightCheck(t)
    ensures r.Node? && HeightCheck(r)
  {
    if t.Leaf? then NewNode(key, data)
    else if key == t.key then t
    else if key < t.key then EnsureBalance(t.(left := FindAndInsert(t.left, key, data)))
    else EnsureBalance(t.(right := FindAndInsert(t.right, key, data)))
  }

  /** Rebalancing after the left subtree of an AVL node was replaced by
      an AVL tree with smaller keys that is as tall or one taller. */
  lemma InsertedLeftRebalances<D>(t: Tree<D>, l: Tree<D>)
    requires t.Node? && IsAvl(t) && IsAvl(l)
    requires forall k :: k in Keys(l) ==> k < t.key
    requires GetHeight(t.left) <= GetHeight(l) <= GetHeight(t.left) + 1
    ensures HeightCheck(t.(left := l).left) && HeightCheck(t.(left := l).right)
    ensures IsAvl(EnsureBalance(t.(left := l)))
    ensures GetHeight(t) <= GetHeight(EnsureBalance(t.(left := l))) <= GetHeight(t) + 1
  {
    CachedHeightIsDepth(t.left);
    CachedHeightIsDepth(t.right);
    CachedHeightIsDepth(l);
    EnsureBalanceRestores(t.(left := l));
  }

  /** The mirror image of InsertedLeftRebalances. */
  lemma InsertedRightRebalances<D>(t: Tree<D>, r: Tree<D>)
    requires t.Node? && IsAvl(t) && IsAvl(r)
    requires forall k :: k in Keys(r) ==> t.key < k
    requires GetHeight(t.right) <= GetHeight(r) <= GetHeight(t.right) + 1
    ensures HeightCheck(t.(right := r).left) && HeightCheck(t.(right := r).right)
    ensures IsAvl(EnsureBalance(t.(right := r)))
    ensures GetHeight(t) <= GetHeight(EnsureBalance(t.(right := r))) <= GetHeight(t) + 1
  {
    CachedHeightIsDepth(t.left);
    CachedHeightIsDepth(t.right);
    CachedHeightIsDepth(r);
    EnsureBalanceRestores(t.(right := r));
  }

  /** Inserting adds `key` to the key set. */
  lemma {:induction false} InsertKeys<D>(t: Tree<D>, key: int, data: D)
    requires HeightCheck(t)
    ensures Keys(FindAndInsert(t, key, data)) == Keys(t) + {key}
  {
    var r := FindAndInsert(t, key, data);
    if t.Node? && key != t.key {
      if key < t.key {
        InsertKeys(t.left, key, data);
        SameEntriesSameContents(t.(left := FindAndInsert(t.left, key, data)), r);
      } else {
        InsertKeys(t.right, key, data);
        SameEntriesSameContents(t.(right := FindAndInsert(t.right, key, data)), r);
      }
    }
  }

  /** Inserting into an AVL tree gives an AVL tree whose height grows by
      at most one. */
  lemma {:induction false} InsertCorrect<D>(t: Tree<D>, key: int, data: D)
    requires IsAvl(t)
    ensures IsAvl(FindAndInsert(t, key, data))
    ensures GetHeight(t) <= GetHeight(FindAndInsert(t, key, data)) <= GetHeight(t) + 1
  {
    if t.Node? && key != t.key {
      if key < t.key {
        var l := FindAndInsert(t.left, key, data);
        InsertCorrect(t.left, key, data);
        InsertKeys(t.left, key, data);
        InsertedLeftRebalances(t, l);
      } else {
        var l := FindAndInsert(t.right, key, data);
        InsertCorrect(t.right, key, data);
        InsertKeys(t.right, key, data);
        InsertedRightRebalances(t, l);
      }
    }
  }

  /** Inserting into an AVL tree binds `key` to `data` when `key` was
      absent and leaves the map unchanged when it was present. */
  lemma {:induction false} InsertUpdatesMap<D>(t: Tree<D>, key: int, data: D)
    requires HeightCheck(t) && OrderCheck(t)
    ensures ToMap(FindAndInsert(t, key, data)) ==
      if key in ToMap(t) then ToMap(t) else ToMap(t)[key := data]
  {
    var r := FindAndInsert(t, key, data);
    if t.Node? && key != t.key {
      MapKeysAreKeys(t.left);
      MapKeysAreKeys(t.right);
      if key < t.key {
        var l := FindAndInsert(t.left, key, data);
        InsertUpdatesMap(t.left, key, data);
        SameEntriesSameContents(t.(left := l), r);
        assert ToMap(r) == ToMap(l) + map[t.key := t.data] + ToMap(t.right);
        if key !in ToMap(t) {
          MapUpdateInUnion(ToMap(t.left), t.key, t.data, ToMap(t.right), key, data);
        }
      } else {
        var l := FindAndInsert(t.right, key, data);
        InsertUpdatesMap(t.right, key, data);
        SameEntriesSameContents(t.(right := l), r);
        assert ToMap(r) == ToMap(t.left) + map[t.key := t.data] + ToMap(l);
        if key !in ToMap(t) {
          MapUpdateInUnionRight(ToMap(t.left), t.key, t.data, ToMap(t.right), key, data);
        }
      }
    }
  }

  /** Inserting a key that is already stored returns the very same tree:
      every rebalancing on the way back finds a balanced node. */
  lemma {:induction false} InsertLeavesPresentKey<D>(t: Tree<D>, key: int, data: D)
    requires IsAvl(t) && key in Keys(t)
    ensures FindAndInsert(t, key, data) == t
  {
    if key != t.key {
      var t' := if key < t.key then t.(left := FindAndInsert(t.left, key, data))
                else t.(right := FindAndInsert(t.right, key, data));
      if key < t.key {
        InsertLeavesPresentKey(t.left, key, data);
      } else {
        InsertLeavesPresentKey(t.right, key, data);
      }
      assert t' == t;
      EnsureBalanceRestores(t);
      assert UpdateHeight(t) == t;
    }
  }

  /** `insert` followed by `find`: the search for the key stops at a node,
      which holds the new data unless the key was already stored. */
  lemma InsertThenFind<D>(t: Tree<D>, key: int, data: D)
    requires IsAvl(t)
    ensures FindSlot(FindAndInsert(t, key, data), key).Node?
    ensures key !in Keys(t) ==> FindSlot(FindAndInsert(t, key, data), key).data == data
  {
    InsertCorrect(t, key, data);
    InsertUpdatesMap(t, key, data);
    MapKeysAreKeys(t);
    FindSlotFinds(FindAndInsert(t, key, data), key);
  }

  // ---------------------------------------------------------------------
  // remove

  /** The in-order predecessor of a two-child node: the rightmost node of
      its left subtree. */
  function Rightmost<D>(t: Tree<D>): (r: Tree<D>)
    requires t.Node?
    ensures r.Node? && r.right.Leaf?
    ensures |Entries(t)| > 0 && Entries(t)[|Entries(t)| - 1] == (r.key, r.data)
  {
    if t.right.Leaf? then t else Rightmost(t.right)
  }

  /** The arrangement of a subtree's nodes and their recorded heights,
      with keys and data erased. */
  datatype Skeleton = Empty | Branch(left: Skeleton, right: Skeleton, height: int)

  function Shape<D>(t: Tree<D>): Skeleton
  {
    if t.Leaf? then Empty else Branch(Shape(t.left), Shape(t.right), t.height)
  }

  /** The subtree with the key and data of its rightmost node replaced,
      every node keeping its position and its height. */
  function ReplaceRightmost<D>(t: Tree<D>, key: int, data: D): (r: Tree<D>)
    requires t.Node?
    ensures r.Node? && GetHeight(r) == GetHeight(t) && r.left == t.left
    ensures Shape(r) == Shape(t)
    ensures var m := Rightmost(t); Rightmost(r) == Node(key, data, m.left, Leaf, m.height)
    ensures |Entries(t)| > 0
    ensures Entries(r) == Entries(t)[..|Entries(t)| - 1] + [(key, data)]
    ensures HeightCheck(t) ==> HeightCheck(r)
    ensures BalanceCheck(t) ==> BalanceCheck(r)
  {
    if t.right.Leaf? then t.(key := key, data := data)
    else
      var e, e' := Entries(t), Entries(t.right);
      assert e == Entries(t.left) + [(t.key, t.data)] + e';
      assert e[..|e| - 1] == Entries(t.left) + [(t.key, t.data)] + e'[..|e'| - 1];
      t.(right := ReplaceRightmost(t.right, key, data))
  }

  /** `_swap_nodes(node, iop)`: the target node and its in-order
      predecessor exchange places. Key and data move with the node; every
      position keeps its height, so the two nodes' heights are exchanged
      too. The target now sits where the predecessor was, with no right
      child, and the predecessor at the top of the subtree. */
  function SwapNodes<D>(t: Tree<D>): (r: Tree<D>)
    requires t.Node? && t.left.Node?
    ensures r.Node? && r.left.Node? && r.right == t.right && r.height == t.height
    ensures Shape(r) == Shape(t)
    ensures var m := Rightmost(t.left);
      r.key == m.key && r.data == m.data &&
      Rightmost(r.left) == Node(t.key, t.data, m.left, Leaf, m.height)
    ensures GetHeight(r.left) == GetHeight(t.left)
    ensures var e := Entries(t.left);
      |e| > 0 && (r.key, r.data) == e[|e| - 1] &&
      Entries(r.left) == e[..|e| - 1] + [(t.key, t.data)]
    ensures HeightCheck(t) ==> HeightCheck(r)
    ensures BalanceCheck(t) ==> BalanceCheck(r)
  {
    var iop := Rightmost(t.left);
    Node(iop.key, iop.data, ReplaceRightmost(t.left, t.key, t.data), t.right, t.height)
  }

  /** In an ordered tree the node brought to the top by SwapNodes holds the
      in-order predecessor of the target: the largest key below it. */
  lemma SwapNodesPicksPredecessor<D>(t: Tree<D>)
    requires t.Node? && t.left.Node? && OrderCheck(t)
    ensures SwapNodes(t).key in Keys(t.left)
    ensures SwapNodes(t).key < t.key
    ensures forall k :: k in Keys(t) && k < t.key ==> k <= SwapNodes(t).key
  {
    var e := Entries(t.left);
    var p := SwapNodes(t).key;
    EntriesGiveKeys(t.left);
    EntriesGiveKeys(t.right);
    OrderCheckIffIncreasing(t.left);
    assert p == e[|e| - 1].0;
    forall k | k in Keys(t) && k < t.key ensures k <= p {
      if k in Keys(t.left) {
        var i :| 0 <= i < |e| && e[i].0 == k;
      }
    }
  }

  /** The second `_iopRemove` after the swap: descends right to the moved
      target, which has no right child, replaces it by its left child (the
      `_remove` case for at most one child) and calls `_ensureBalance` on
      every node on the way back. Returns the new subtree and the removed
      node's data. */
  function RemoveRightmost<D>(t: Tree<D>): (r: (Tree<D>, D))
    requires t.Node? && HeightCheck(t)
    ensures HeightCheck(r.0)
    ensures |Entries(t)| > 0
    ensures Entries(r.0) == Entries(t)[..|Entries(t)| - 1]
    ensures r.1 == Entries(t)[|Entries(t)| - 1].1
  {
    if t.right.Leaf? then (t.left, t.data)
    else
      var sub := RemoveRightmost(t.right);
      var e, e' := Entries(t), Entries(t.right);
      assert e == Entries(t.left) + [(t.key, t.data)] + e';
      assert e[..|e| - 1] == Entries(t.left) + [(t.key, t.data)] + e'[..|e'| - 1];
      (EnsureBalance(t.(right := sub.0)), sub.1)
  }

  /** `_iopRemove(targetNode)`: swaps a two-child node with its in-order
      predecessor, removes it from its new position and rebalances the
      node now at the top. Returns the new subtree and the target's data. */
  function IopRemove<D>(t: Tree<D>): (r: (Tree<D>, D))
    requires t.Node? && t.left.Node? && HeightCheck(t)
    ensures HeightCheck(r.0)
    ensures Entries(r.0) == Entries(t.left) + Entries(t.right)
    ensures r.1 == t.data
  {
    var s := SwapNodes(t);
    var sub := RemoveRightmost(s.left);
    var e := Entries(t.left);
    assert Entries(sub.0) + [(s.key, s.data)] == e;
    (EnsureBalance(s.(left := sub.0)), sub.1)
  }

  /** `_remove`: a node without children leaves a null slot, a node with
      one child is replaced by that child, and a node with two children is
      removed through its in-order predecessor. Returns the new subtree and
      the removed node's data. */
  function RemoveNode<D>(t: Tree<D>): (r: (Tree<D>, D))
    requires t.Node? && HeightCheck(t)
    ensures HeightCheck(r.0)
    ensures Entries(r.0) == Entries(t.left) + Entries(t.right)
    ensures r.1 == t.data
  {
    if t.left.Leaf? && t.right.Leaf? then (Leaf, t.data)
    else if t.left.Node? && t.right.Leaf? then (t.left, t.data)
    else if t.left.Leaf? && t.right.Node? then (t.right, t.data)
    else IopRemove(t)
  }

  /** `_find_and_remove`: descends to the node holding `key`, removes it
      with `_remove`, and calls `_ensureBalance` on every node on the way
      back. None stands for the NotFound error, raised at the null slot
      before anything has changed. */
  function FindAndRemove<D>(t: Tree<D>, key: int): (r: Option<(Tree<D>, D)>)
    requires HeightCheck(t)
    ensures r.Some? ==> HeightCheck(r.value.0) && key in Keys(t)
  {
    if t.Leaf? then None
    else if key == t.key then Some(RemoveNode(t))
    else if key < t.key then
      match FindAndRemove(t.left, key)
      case None => None
      case Some(sub) => Some((EnsureBalance(t.(left := sub.0)), sub.1))
    else
      match FindAndRemove(t.right, key)
      case None => None
      case Some(sub) => Some((EnsureBalance(t.(right := sub.0)), sub.1))
  }

  /** Rebalancing after the left subtree of a balanced node with checked
      heights was replaced by an AVL tree at most one shorter, the result
      being ordered. */
  lemma RemovedLeftRebalances<D>(t: Tree<D>, l: Tree<D>)
    requires t.Node? && HeightCheck(t) && BalanceCheck(t) && IsAvl(t.right) && IsAvl(l)
    requires OrderCheck(t.(left := l))
    requires GetHeight(t.left) - 1 <= GetHeight(l) <= GetHeight(t.left)
    ensures IsAvl(EnsureBalance(t.(left := l)))
    ensures GetHeight(t) - 1 <= GetHeight(EnsureBalance(t.(left := l))) <= GetHeight(t)
  {
    CachedHeightIsDepth(t.left);
    CachedHeightIsDepth(t.right);
    CachedHeightIsDepth(l);
    EnsureBalanceRestores(t.(left := l));
  }

  /** The mirror image of RemovedLeftRebalances. */
  lemma RemovedRightRebalances<D>(t: Tree<D>, r: Tree<D>)
    requires t.Node? && HeightCheck(t) && BalanceCheck(t) && IsAvl(t.left) && IsAvl(r)
    requires OrderCheck(t.(right := r))
    requires GetHeight(t.right) - 1 <= GetHeight(r) <= GetHeight(t.right)
    ensures IsAvl(EnsureBalance(t.(right := r)))
    ensures GetHeight(t) - 1 <= GetHeight(EnsureBalance(t.(right := r))) <= GetHeight(t)
  {
    CachedHeightIsDepth(t.left);
    CachedHeightIsDepth(t.right);
    CachedHeightIsDepth(r);
    EnsureBalanceRestores(t.(right := r));
  }

  /** Dropping the last in-order entry keeps a tree ordered. */
  lemma PrefixOrdered<D>(a: Tree<D>, b: Tree<D>)
    requires OrderCheck(a) && |Entries(a)| > 0
    requires Entries(b) == Entries(a)[..|Entries(a)| - 1]
    ensures OrderCheck(b)
  {
    var e := Entries(a);
    assert e == e[..|e| - 1] + [e[|e| - 1]];
    OrderCheckIffIncreasing(a);
    IncreasingPrefix(e[..|e| - 1], [e[|e| - 1]]);
    OrderCheckIffIncreasing(b);
  }

  /** Removing the rightmost node of an AVL tree gives an AVL tree at most
      one shorter. */
  lemma {:induction false} RemoveRightmostCorrect<D>(t: Tree<D>)
    requires t.Node? && IsAvl(t)
    ensures IsAvl(RemoveRightmost(t).0)
    ensures GetHeight(t) - 1 <= GetHeight(RemoveRightmost(t).0) <= GetHeight(t)
  {
    CachedHeightIsDepth(t.left);
    CachedHeightIsDepth(t.right);
    if t.right.Node? {
      var sub := RemoveRightmost(t.right);
      RemoveRightmostCorrect(t.right);
      var t' := t.(right := sub.0);
      assert Entries(t') == Entries(RemoveRightmost(t).0);
      PrefixOrdered(t, t');
      RemovedRightRebalances(t, sub.0);
    }
  }

  /** Removing a two-child node of an AVL tree through its in-order
      predecessor gives an AVL tree at most one shorter. */
  lemma IopRemoveCorrect<D>(t: Tree<D>)
    requires t.Node? && t.left.Node? && IsAvl(t)
    ensures IsAvl(IopRemove(t).0)
    ensures GetHeight(t) - 1 <= GetHeight(IopRemove(t).0) <= GetHeight(t)
  {
    var s := SwapNodes(t);
    var el, er := Entries(t.left), Entries(t.right);
    var p, kd := el[..|el| - 1], (t.key, t.data);
    var iop := el[|el| - 1];
    assert el == p + [iop];
    OrderCheckIffIncreasing(t);
    assert Entries(t) == p + [iop] + ([kd] + er);
    IncreasingDropMiddle(p, iop, [kd] + er);
    assert p + ([kd] + er) == (p + [kd]) + er;
    IncreasingPrefix(p + [kd], er);
    OrderCheckIffIncreasing(s.left);
    RemoveRightmostCorrect(s.left);
    var sub := RemoveRightmost(s.left);
    var t'' := s.(left := sub.0);
    assert Entries(t'') == el + er;
    IncreasingDropMiddle(el, kd, er);
    OrderCheckIffIncreasing(t'');
    RemovedLeftRebalances(s, sub.0);
  }

  /** `_remove` on a node of an AVL tree gives an AVL tree at most one
      shorter. */
  lemma RemoveNodeCorrect<D>(t: Tree<D>)
    requires t.Node? && IsAvl(t)
    ensures IsAvl(RemoveNode(t).0)
    ensures GetHeight(t) - 1 <= GetHeight(RemoveNode(t).0) <= GetHeight(t)
  {
    CachedHeightIsDepth(t.left);
    CachedHeightIsDepth(t.right);
    if t.left.Node? && t.right.Node? {
      IopRemoveCorrect(t);
    }
  }

  /** `_remove` on a node of an ordered tree removes exactly the node's key
      from the key set and from the map. */
  lemma RemoveNodeContents<D>(t: Tree<D>)
    requires t.Node? && HeightCheck(t) && OrderCheck(t)
    ensures Keys(RemoveNode(t).0) == Keys(t) - {t.key}
    ensures ToMap(RemoveNode(t).0) == ToMap(t) - {t.key}
  {
    var r := RemoveNode(t).0;
    var el, er := Entries(t.left), Entries(t.right);
    EntriesGiveKeys(r);
    EntriesGiveKeys(t.left);
    EntriesGiveKeys(t.right);
    SeqKeysAppend(el, er);
    EntriesGiveMap(r);
    EntriesGiveMap(t.left);
    EntriesGiveMap(t.right);
    SeqToMapAppend(el, er);
    MapKeysAreKeys(t.left);
    MapKeysAreKeys(t.right);
    MapRemoveMiddle(ToMap(t.left), t.key, t.data, ToMap(t.right));
  }

  /** Removing from an ordered tree fails exactly when the key is absent;
      otherwise exactly that key leaves the key set. */
  lemma {:induction false} RemoveKeys<D>(t: Tree<D>, key: int)
    requires HeightCheck(t) && OrderCheck(t)
    ensures FindAndRemove(t, key).None? <==> key !in Keys(t)
    ensures FindAndRemove(t, key).Some? ==>
      Keys(FindAndRemove(t, key).value.0) == Keys(t) - {key}
  {
    if t.Node? {
      if key == t.key {
        RemoveNodeContents(t);
      } else if key < t.key {
        RemoveKeys(t.left, key);
        var sub := FindAndRemove(t.left, key);
        if sub.Some? {
          SameEntriesSameContents(t.(left := sub.value.0), FindAndRemove(t, key).value.0);
        }
      } else {
        RemoveKeys(t.right, key);
        var sub := FindAndRemove(t.right, key);
        if sub.Some? {
          SameEntriesSameContents(t.(right := sub.value.0), FindAndRemove(t, key).value.0);
        }
      }
    }
  }

  /** A successful removal from an AVL tree gives an AVL tree at most one
      shorter. */
  lemma {:induction false} RemoveCorrect<D>(t: Tree<D>, key: int)
    requires IsAvl(t)
    ensures FindAndRemove(t, key).Some? ==>
      var r := FindAndRemove(t, key).value.0;
      IsAvl(r) && GetHeight(t) - 1 <= GetHeight(r) <= GetHeight(t)
  {
    if t.Node? {
      if key == t.key {
        RemoveNodeCorrect(t);
      } else if key < t.key {
        RemoveCorrect(t.left, key);
        RemoveKeys(t.left, key);
        var sub := FindAndRemove(t.left, key);
        if sub.Some? {
          var t' := t.(left := sub.value.0);
          RemovedLeftRebalances(t, sub.value.0);
          SameEntriesSameOrder(t', FindAndRemove(t, key).value.0);
        }
      } else {
        RemoveCorrect(t.right, key);
        RemoveKeys(t.right, key);
        var sub := FindAndRemove(t.right, key);
        if sub.Some? {
          var t' := t.(right := sub.value.0);
          RemovedRightRebalances(t, sub.value.0);
          SameEntriesSameOrder(t', FindAndRemove(t, key).value.0);
        }
      }
    }
  }

  /** A successful removal returns the key's data and unbinds the key. */
  lemma {:induction false} RemoveUpdatesMap<D>(t: Tree<D>, key: int)
    requires IsAvl(t)
    ensures FindAndRemove(t, key).Some? ==>
      key in ToMap(t) &&
      FindAndRemove(t, key).value.1 == ToMap(t)[key] &&
      ToMap(FindAndRemove(t, key).value.0) == ToMap(t) - {key}
  {
    if t.Node? {
      MapKeysAreKeys(t);
      MapKeysAreKeys(t.left);
      MapKeysAreKeys(t.right);
      if key == t.key {
        RemoveNodeContents(t);
      } else if key < t.key {
        RemoveUpdatesMap(t.left, key);
        var sub := FindAndRemove(t.left, key);
        if sub.Some? {
          var t' := t.(left := sub.value.0);
          SameEntriesSameContents(t', FindAndRemove(t, key).value.0);
          MapRemoveFromUnion(ToMap(t.left), t.key, t.data, ToMap(t.right), key);
        }
      } else {
        RemoveUpdatesMap(t.right, key);
        var sub := FindAndRemove(t.right, key);
        if sub.Some? {
          var t' := t.(right := sub.value.0);
          SameEntriesSameContents(t', FindAndRemove(t, key).value.0);
          MapRemoveFromUnionRight(ToMap(t.left), t.key, t.data, ToMap(t.right), key);
        }
      }
    }
  }
}
