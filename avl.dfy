/** The `AVL` class: a key-to-data map kept as an AVL tree whose root slot
    is `head`. Every public member keeps the three debugging checks true. */
module AvlMap {
  import opened AvlTree
  import opened AvlOperations

  /** The one failure of `find` and `remove`: the key is not stored. */
  datatype Error = NotFound
  datatype Result<T> = Ok(value: T) | Err(error: Error)

  class AVL<D> {
    var head: Tree<D>

    /** The class invariant: the tree passes `runDebuggingChecks`. */
    ghost predicate Valid()
      reads this
    {
      IsAvl(head)
    }

    /** The map the tree stands for. */
    ghost function Contents(): map<int, D>
      reads this
    {
      ToMap(head)
    }

    /** `AVL()`: the head pointer starts out null. */
    constructor ()
      ensures Valid() && head.Leaf? && Contents() == map[]
    {
      head := Leaf;
    }

    /** `find`: the data stored for `key`, or NotFound. */
    method Find(key: int) returns (r: Result<D>)
      requires Valid()
      ensures key in Contents() ==> r == Ok(Contents()[key])
      ensures key !in Contents() ==> r == Err(NotFound)
    {
      var slot := FindSlot(head, key);
      FindSlotFinds(head, key);
      if slot.Leaf? {
        r := Err(NotFound);
      } else {
        r := Ok(slot.data);
      }
    }

    /** `contains`: whether `key` is stored; never fails. */
    method Contains(key: int) returns (b: bool)
      requires Valid()
      ensures b <==> key in Contents()
    {
      var slot := FindSlot(head, key);
      FindSlotFinds(head, key);
      b := slot.Node?;
    }

    /** `insert`: binds `key` to `data`; a key that is already stored keeps
        its data and the tree is left as it is. */
    method Insert(key: int, data: D)
      requires Valid()
      modifies this
      ensures Valid()
      ensures Contents() ==
        if key in old(Contents()) then old(Contents()) else old(Contents())[key := data]
      ensures key in old(Contents()) ==> head == old(head)
    {
      InsertCorrect(head, key, data);
      InsertUpdatesMap(head, key, data);
      if key in Contents() {
        MapKeysAreKeys(head);
        FindSlotFinds(head, key);
        InsertLeavesPresentKey(head, key, data);
      }
      head := FindAndInsert(head, key, data);
    }

    /** `remove`: unbinds `key` and returns its data, or fails with
        NotFound and changes nothing. */
    method Remove(key: int) returns (r: Result<D>)
      requires Valid()
      modifies this
      ensures Valid()
      ensures key in old(Contents()) ==>
        r == Ok(old(Contents())[key]) && Contents() == old(Contents()) - {key}
      ensures key !in old(Contents()) ==> r == Err(NotFound) && head == old(head)
    {
      RemoveCorrect(head, key);
      RemoveKeys(head, key);
      RemoveUpdatesMap(head, key);
      MapKeysAreKeys(head);
      match FindAndRemove(head, key)
      case None =>
        r := Err(NotFound);
      case Some(sub) =>
        head := sub.0;
        r := Ok(sub.1);
    }

    /** `empty`: whether the head pointer is null. */
    method Empty() returns (b: bool)
      ensures b <==> head.Leaf?
      ensures b <==> Contents() == map[]
    {
      MapKeysAreKeys(head);
      b := head.Leaf?;
    }

    /** `clear_tree`: removes the key at the root until the tree is empty. */
    method ClearTree()
      requires Valid()
      modifies this
      ensures Valid() && head.Leaf? && Contents() == map[]
    {
      while head.Node?
        invariant Valid()
        decreases |Contents()|
      {
        MapKeysAreKeys(head);
        ghost var before := Contents();
        var removed := Remove(head.key);
        assert |Contents().Keys| < |before.Keys|;
      }
    }

    /** `runDebuggingChecks`: whether the height, balance and order checks
        all pass on the whole tree. Every public member keeps `Valid()`, so
        on a tree built through them the answer is always true. */
    method RunDebuggingChecks() returns (ok: bool)
      ensures ok <==> HeightCheck(head) && BalanceCheck(head) && OrderCheck(head)
      ensures ok <==> Valid()
    {
      ok := IsAvl(head);
    }
  }
}
