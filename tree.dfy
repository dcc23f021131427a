/** The node structure of the AVL tree, the height and balance-factor
    helpers, the debugging checks, and the abstract views of a subtree
    (its in-order entries, its key set and its key-to-data map). */
module AvlTree {

  /** A subtree slot: Leaf is a null `TreeNode*`, Node is a `TreeNode` with
      its key, its data, its two child slots and its cached height. */
  datatype Tree<D> = Leaf | Node(key: int, data: D, left: Tree<D>, right: Tree<D>, height: int)

  function Max(a: int, b: int): int { if a < b then b else a }

  /** The `TreeNode(key, data)` constructor: no children, height 0. */
  function NewNode<D>(key: int, data: D): (r: Tree<D>)
    ensures r.Node? && r.left == Leaf && r.right == Leaf
    ensures IsAvl(r)
    ensures Entries(r) == [(key, data)] && Keys(r) == {key} && ToMap(r) == map[key := data]
  {
    var r := Node(key, data, Leaf, Leaf, 0);
    assert HeightCheck(r.left) && BalanceCheck(r.left) && OrderCheck(r.left);
    r
  }

  /** `_get_height`: -1 for a null slot, the recorded height otherwise. */
  function GetHeight<D>(t: Tree<D>): int
  {
    if t.Leaf? then -1 else t.height
  }

  /** `_get_balance_factor`: 0 for a null slot, otherwise the recorded
      height of the right child minus that of the left child. */
  function BalanceFactor<D>(t: Tree<D>): int
  {
    if t.Leaf? then 0 else GetHeight(t.right) - GetHeight(t.left)
  }

  /** `_updateHeight`: recomputes one node's height from its children's
      recorded heights, without recursing. */
  function UpdateHeight<D>(t: Tree<D>): (r: Tree<D>)
    ensures r.Leaf? <==> t.Leaf?
    ensures t.Node? ==> r.key == t.key && r.data == t.data && r.left == t.left && r.right == t.right
    ensures Entries(r) == Entries(t)
    ensures t.Node? && HeightCheck(t.left) && HeightCheck(t.right) ==> HeightCheck(r)
  {
    if t.Leaf? then t
    else t.(height := 1 + Max(GetHeight(t.left), GetHeight(t.right)))
  }

  /** The true height of a subtree, computed from its shape alone. */
  function Depth<D>(t: Tree<D>): (d: int)
    ensures d >= -1
    ensures d == -1 <==> t.Leaf?
  {
    if t.Leaf? then -1 else 1 + Max(Depth(t.left), Depth(t.right))
  }

  /** The number of nodes of a subtree. */
  function Size<D>(t: Tree<D>): nat
  {
    if t.Leaf? then 0 else Size(t.left) + 1 + Size(t.right)
  }

  /** `_debugHeightCheck`: every recorded height is one more than the
      larger recorded height of the node's children. */
  predicate HeightCheck<D>(t: Tree<D>)
  {
    t.Leaf? ||
    (HeightCheck(t.left) && HeightCheck(t.right) &&
     t.height == 1 + Max(GetHeight(t.left), GetHeight(t.right)))
  }

  /** `_debugBalanceCheck`: every node's balance factor is -1, 0 or 1. */
  predicate BalanceCheck<D>(t: Tree<D>)
  {
    t.Leaf? ||
    (BalanceCheck(t.left) && BalanceCheck(t.right) &&
     -1 <= BalanceFactor(t) <= 1)
  }

  /** `_debugOrderCheck`: every key in a left subtree is smaller than the
      node's key and every key in a right subtree is larger. */
  predicate OrderCheck<D>(t: Tree<D>)
  {
    t.Leaf? ||
    (OrderCheck(t.left) && OrderCheck(t.right) &&
     (forall k :: k in Keys(t.left) ==> k < t.key) &&
     (forall k :: k in Keys(t.right) ==> t.key < k))
  }

  /** `runDebuggingChecks`: all three debugging checks hold. */
  predicate IsAvl<D>(t: Tree<D>)
  {
    HeightCheck(t) && BalanceCheck(t) && OrderCheck(t)
  }

  /** The in-order sequence of (key, data) pairs, the order in which
      `printInOrder` visits the nodes. */
  function Entries<D>(t: Tree<D>): seq<(int, D)>
  {
    if t.Leaf? then [] else Entries(t.left) + [(t.key, t.data)] + Entries(t.right)
  }

  /** The set of keys stored in a subtree. */
  function Keys<D>(t: Tree<D>): set<int>
  {
    if t.Leaf? then {} else Keys(t.left) + {t.key} + Keys(t.right)
  }

  /** The key-to-data map a subtree stands for. */
  function ToMap<D>(t: Tree<D>): map<int, D>
  {
    if t.Leaf? then map[] else ToMap(t.left) + map[t.key := t.data] + ToMap(t.right)
  }

  /** The map described by a sequence of entries, later entries winning. */
  function SeqToMap<D>(s: seq<(int, D)>): map<int, D>
  {
    if s == [] then map[] else map[s[0].0 := s[0].1] + SeqToMap(s[1..])
  }

  /** The keys appearing in a sequence of entries. */
  function SeqKeys<D>(s: seq<(int, D)>): set<int>
  {
    set i | 0 <= i < |s| :: s[i].0
  }

  /** Entries whose keys strictly increase from left to right. */
  predicate StrictlyIncreasing<D>(s: seq<(int, D)>)
  {
    forall i, j :: 0 <= i < j < |s| ==> s[i].0 < s[j].0
  }

  // ---------------------------------------------------------------------
  // Lemmas about the helpers and the checks

  /** A checked recorded height is the true height: -1 exactly for a null
      slot, the node's `height` field otherwise. */
  lemma {:induction false} CachedHeightIsDepth<D>(t: Tree<D>)
    requires HeightCheck(t)
    ensures GetHeight(t) == Depth(t)
    ensures GetHeight(t) == -1 <==> t.Leaf?
    ensures t.Node? ==> GetHeight(t) == t.height >= 0
  {
    if t.Node? {
      CachedHeightIsDepth(t.left);
      CachedHeightIsDepth(t.right);
    }
  }

  /** With checked heights the balance factor is the difference of the
      children's true heights, so a balanced node's children differ in
      height by at most one. */
  lemma BalanceFactorIsDepthDifference<D>(t: Tree<D>)
    requires HeightCheck(t)
    ensures t.Leaf? ==> BalanceFactor(t) == 0
    ensures t.Node? ==> BalanceFactor(t) == Depth(t.right) - Depth(t.left)
    ensures t.Node? && BalanceCheck(t) ==> -1 <= Depth(t.right) - Depth(t.left) <= 1
  {
    if t.Node? {
      CachedHeightIsDepth(t.left);
      CachedHeightIsDepth(t.right);
    }
  }

  lemma SeqToMapAppend<D>(a: seq<(int, D)>, b: seq<(int, D)>)
    ensures SeqToMap(a + b) == SeqToMap(a) + SeqToMap(b)
  {
    if a != [] {
      assert (a + b)[1..] == a[1..] + b;
      SeqToMapAppend(a[1..], b);
      var x := map[a[0].0 := a[0].1];
      var m1, m2 := SeqToMap(a[1..]), SeqToMap(b);
      assert SeqToMap(a + b) == x + (m1 + m2);
      assert SeqToMap(a) == x + m1;
      MapUnionAssoc(x, m1, m2);
    } else {
      assert a + b == b;
      var m := SeqToMap(b);
      assert map[] + m == m;
    }
  }

  lemma SeqToMapSingleton<D>(k: int, d: D)
    ensures SeqToMap([(k, d)]) == map[k := d]
  {
    var m := [(k, d)];
    assert m[1..] == [];
    var x: map<int, D> := map[];
    assert map[k := d] + x == map[k := d];
  }

  lemma MapUnionAssoc<K, V>(a: map<K, V>, b: map<K, V>, c: map<K, V>)
    ensures a + (b + c) == (a + b) + c
  {
    var l, r := a + (b + c), (a + b) + c;
    assert l.Keys == r.Keys;
    forall k | k in l ensures l[k] == r[k] {
      if k in c { } else if k in b { } else { }
    }
  }

  lemma SeqKeysAppend<D>(a: seq<(int, D)>, b: seq<(int, D)>)
    ensures SeqKeys(a + b) == SeqKeys(a) + SeqKeys(b)
  {
    forall k | k in SeqKeys(a + b) ensures k in SeqKeys(a) + SeqKeys(b) {
      var i :| 0 <= i < |a + b| && (a + b)[i].0 == k;
      if i >= |a| { assert b[i - |a|].0 == k; }
    }
    forall k | k in SeqKeys(a) + SeqKeys(b) ensures k in SeqKeys(a + b) {
      if k in SeqKeys(a) {
        var i :| 0 <= i < |a| && a[i].0 == k;
        assert (a + b)[i].0 == k;
      } else {
        var i :| 0 <= i < |b| && b[i].0 == k;
        assert (a + b)[|a| + i].0 == k;
      }
    }
  }

  /** The key set of a subtree is the set of keys of its in-order
      entries. */
  lemma {:induction false} EntriesGiveKeys<D>(t: Tree<D>)
    ensures Keys(t) == SeqKeys(Entries(t))
  {
    if t.Node? {
      EntriesGiveKeys(t.left);
      EntriesGiveKeys(t.right);
      var l, m, r := Entries(t.left), [(t.key, t.data)], Entries(t.right);
      SeqKeysAppend(l, m);
      SeqKeysAppend(l + m, r);
      assert m[0].0 == t.key;
      assert SeqKeys(m) == {t.key};
    }
  }

  /** The map of a subtree is the map of its in-order entries. */
  lemma {:induction false} EntriesGiveMap<D>(t: Tree<D>)
    ensures ToMap(t) == SeqToMap(Entries(t))
  {
    if t.Node? {
      EntriesGiveMap(t.left);
      EntriesGiveMap(t.right);
      var l, m, r := Entries(t.left), [(t.key, t.data)], Entries(t.right);
      SeqToMapSingleton(t.key, t.data);
      calc {
        ToMap(t);
        ToMap(t.left) + map[t.key := t.data] + ToMap(t.right);
        SeqToMap(l) + SeqToMap(m) + SeqToMap(r);
        { SeqToMapAppend(l, m); }
        SeqToMap(l + m) + SeqToMap(r);
        { SeqToMapAppend(l + m, r); }
        SeqToMap(l + m + r);
      }
    }
  }

  /** The keys of a subtree's map are its key set. */
  lemma {:induction false} MapKeysAreKeys<D>(t: Tree<D>)
    ensures ToMap(t).Keys == Keys(t)
  {
    if t.Node? {
      MapKeysAreKeys(t.left);
      MapKeysAreKeys(t.right);
    }
  }

  /** Two subtrees with the same in-order entries store the same keys and
      the same map. */
  lemma SameEntriesSameContents<D>(a: Tree<D>, b: Tree<D>)
    requires Entries(a) == Entries(b)
    ensures Keys(a) == Keys(b) && ToMap(a) == ToMap(b)
  {
    EntriesGiveKeys(a);
    EntriesGiveKeys(b);
    EntriesGiveMap(a);
    EntriesGiveMap(b);
  }

  lemma StrictlyIncreasingJoin<D>(l: seq<(int, D)>, x: (int, D), r: seq<(int, D)>)
    ensures StrictlyIncreasing(l + [x] + r) <==>
      (StrictlyIncreasing(l) && StrictlyIncreasing(r) &&
       (forall k :: k in SeqKeys(l) ==> k < x.0) &&
       (forall k :: k in SeqKeys(r) ==> x.0 < k))
  {
    var s := l + [x] + r;
    if StrictlyIncreasing(s) {
      forall i, j | 0 <= i < j < |l| ensures l[i].0 < l[j].0 { assert s[i] == l[i] && s[j] == l[j]; }
      forall i, j | 0 <= i < j < |r| ensures r[i].0 < r[j].0 {
        assert s[|l| + 1 + i] == r[i] && s[|l| + 1 + j] == r[j];
      }
      forall k | k in SeqKeys(l) ensures k < x.0 {
        var i :| 0 <= i < |l| && l[i].0 == k;
        assert s[i] == l[i] && s[|l|] == x;
      }
      forall k | k in SeqKeys(r) ensures x.0 < k {
        var i :| 0 <= i < |r| && r[i].0 == k;
        assert s[|l| + 1 + i] == r[i] && s[|l|] == x;
      }
    }
    if StrictlyIncreasing(l) && StrictlyIncreasing(r) &&
       (forall k :: k in SeqKeys(l) ==> k < x.0) &&
       (forall k :: k in SeqKeys(r) ==> x.0 < k)
    {
      forall i, j | 0 <= i < j < |s| ensures s[i].0 < s[j].0 {
        if i < |l| { assert s[i].0 in SeqKeys(l); }
        if |l| < j { assert s[j].0 in SeqKeys(r); }
      }
    }
  }

  /** The order check holds exactly when the in-order keys strictly
      increase. */
  lemma {:induction false} OrderCheckIffIncreasing<D>(t: Tree<D>)
    ensures OrderCheck(t) <==> StrictlyIncreasing(Entries(t))
  {
    if t.Node? {
      OrderCheckIffIncreasing(t.left);
      OrderCheckIffIncreasing(t.right);
      EntriesGiveKeys(t.left);
      EntriesGiveKeys(t.right);
      StrictlyIncreasingJoin(Entries(t.left), (t.key, t.data), Entries(t.right));
    }
  }

  /** Rearranging the nodes without changing the in-order entries keeps
      the order check, the key set and the map. */
  lemma SameEntriesSameOrder<D>(a: Tree<D>, b: Tree<D>)
    requires Entries(a) == Entries(b)
    ensures OrderCheck(a) <==> OrderCheck(b)
    ensures Keys(a) == Keys(b) && ToMap(a) == ToMap(b)
  {
    OrderCheckIffIncreasing(a);
    OrderCheckIffIncreasing(b);
    SameEntriesSameContents(a, b);
  }
}
