# AVL tree map, modelled and verified in Dafny

This project models the `AVL` class template of `avl/AVL.h`. The class is a
key-to-data map kept as a height-balanced binary search tree. Each node
stores its key, its data, two child pointers and a cached subtree height.

- `insert` descends to a null slot, creates a node there and calls
  `_ensureBalance` on every ancestor as the recursion returns.
- `remove` has three cases, by the number of children the node has. For a
  node with two children it swaps the node with its in-order predecessor
  (`_swap_nodes`), removes the node from its new position and rebalances
  on the way back.
- `_ensureBalance` picks one of the four rotations by the balance factors
  of the node and of its taller child, then records the node's height.
- `runDebuggingChecks` checks three things: every cached height is
  correct, every balance factor is within one, and the keys are in binary
  search tree order.

The model is mixed, like the source:

- `tree.dfy` (module `AvlTree`) holds the value layer. The datatype `Tree`
  has `Leaf` for a null pointer and `Node` for a `TreeNode`. Next to it are
  the pure helpers `_get_height`, `_get_balance_factor` and
  `_updateHeight` and the three debugging checks. It also defines three
  abstract views of a subtree: its in-order entries, its key set and its
  map.
- `rotations.dfy` (module `AvlRotations`) holds the four rotations and
  `_ensureBalance`.
- `operations.dfy` (module `AvlOperations`) holds the recursive helpers
  behind `find`, `insert` and `remove`. Each one takes the subtree in a
  `TreeNode*&` slot and returns the subtree the slot holds afterwards.
- `avl.dfy` (module `AvlMap`) holds the class `AVL`. Its field `head`
  stands for `head_`, and its methods update that field. `ClearTree` is the
  source's `while (head_)` loop.
- `bounds.dfy` (module `AvlBounds`) proves the logarithmic height bound
  that the invariants guarantee.
- `scenarios.dfy` (module `AvlScenarios`) works through two concrete
  examples and a client of the class.

Keys are `int`. The data type is a type parameter `D`.

Choices the header leaves open:

- Inserting a key that is already stored keeps the existing binding. The
  tree is returned unchanged.
- `find` and `remove` of an absent key fail with `Err(NotFound)`, which
  stands for the thrown `std::runtime_error`. The failure is raised at the
  null slot, before any rebalancing, so the tree is left as it was.

The bodies of `find`, `insert`, `remove`, the rotations and `_swap_nodes`
live in `avl/AVL.hpp`, and avl/AVL.hpp is not part of this model. Those
operations follow their declarations and doc comments in `avl/AVL.h`, using
the standard AVL algorithm they describe. Two assumptions come from that:

- `_ensureBalance` chooses a single rotation when the taller child is
  balanced or leans the same way. It chooses a double rotation when the
  taller child leans the other way.
- `_ensureBalance` always ends by updating the node's height, as its
  comment says (lines 129-135).

The in-order predecessor is the rightmost node of the left subtree, as in
the comments at lines 103-110.

## Model

| member | source | states |
|---|---|---|
| AvlTree.NewNode | avl/AVL.h:69-70 | a fresh node has no children and height 0, which passes all three debugging checks; it stores exactly the one entry |
| AvlTree.UpdateHeight | avl/AVL.h:122-127 | only the height changes (key, data, children and in-order entries are kept); if the children's heights are correct, the node's height becomes correct |
| AvlTree.GetHeight | avl/AVL.h:146-161 | definition: -1 for a null slot, the recorded `height` otherwise |
| AvlTree.BalanceFactor | avl/AVL.h:163-174 | definition: 0 for a null slot, otherwise the right child's recorded height minus the left child's |
| AvlTree.HeightCheck | avl/AVL.h:221 | definition of `_debugHeightCheck`: every recorded height is one more than the larger recorded height of its children |
| AvlTree.BalanceCheck | avl/AVL.h:222 | definition of `_debugBalanceCheck`: every balance factor is -1, 0 or 1 |
| AvlTree.OrderCheck | avl/AVL.h:223 | definition of `_debugOrderCheck`: every key of a left subtree is smaller than the node's key and every key of a right subtree is larger |
| AvlTree.IsAvl | avl/AVL.h:219 | definition of what `runDebuggingChecks` returns: all three checks hold |
| AvlTree.CachedHeightIsDepth | avl/AVL.h:146-161 | under the height check, `_get_height` is the true height of the subtree: -1 exactly for a null slot, the recorded `height` (at least 0) otherwise |
| AvlTree.BalanceFactorIsDepthDifference | avl/AVL.h:163-174 | `_get_balance_factor` is 0 for a null slot and otherwise is the right child's true height minus the left child's; on a balanced node that difference is within one |
| AvlTree.OrderCheckIffIncreasing | avl/AVL.h:221-223 | `_debugOrderCheck` holds exactly when the in-order keys strictly increase (both directions) |
| AvlTree.EntriesGiveKeys | avl/AVL.h:213-215 | the key set of a subtree is the set of keys met by the in-order traversal |
| AvlTree.EntriesGiveMap | avl/AVL.h:213-215 | the map of a subtree is the map built from its in-order entries |
| AvlTree.MapKeysAreKeys | avl/AVL.h:61-71 | the keys of a subtree's map are exactly the keys stored in its nodes |
| AvlTree.SameEntriesSameContents | avl/AVL.h:137-144 | two subtrees with the same in-order entries store the same key set and the same map |
| AvlTree.SameEntriesSameOrder | avl/AVL.h:137-144 | rearranging nodes without changing the in-order entries keeps the order check (both directions), the key set and the map |
| AvlRotations.RotateLeft | avl/AVL.h:137-141 | the right child becomes the root with the old root as its left child, which takes over the right child's left subtree; the in-order entries are unchanged, and correct child heights give correct heights after the rotation |
| AvlRotations.RotateRight | avl/AVL.h:137-142 | the mirror of the left rotation: the left child becomes the root with the old root as its right child, which takes over the left child's right subtree; the entries are unchanged and the heights stay correct |
| AvlRotations.RotateRightLeft | avl/AVL.h:137-143 | the right-left double rotation keeps the in-order entries and correct heights |
| AvlRotations.RotateLeftRight | avl/AVL.h:137-144 | the left-right double rotation keeps the in-order entries and correct heights |
| AvlRotations.EnsureBalance | avl/AVL.h:129-135 | a null slot stays null; the in-order entries are unchanged; if the children's heights are correct, the node's recorded height is correct afterwards |
| AvlRotations.RotateLeftRebalances | avl/AVL.h:137-141 | a node whose right child is two taller and does not lean left becomes balanced by a left rotation; the new height is the old right child's, or one more |
| AvlRotations.RotateRightRebalances | avl/AVL.h:137-142 | the mirror: a left child two taller that does not lean right is fixed by a right rotation |
| AvlRotations.RotateRightLeftRebalances | avl/AVL.h:137-143 | a right child two taller that leans left has a left child, and a right-left rotation balances the node at the old right child's height |
| AvlRotations.RotateLeftRightRebalances | avl/AVL.h:137-144 | the mirror: a left child two taller that leans right is fixed by a left-right rotation at its height |
| AvlRotations.EnsureBalanceRestores | avl/AVL.h:129-135 | with a balance factor within two, the result has every balance factor within one; the order check holds after exactly when it held before; the height is between the taller child's and one more; an already balanced node only has its height recorded |
| AvlOperations.FindSlot | avl/AVL.h:86-87 | `_find` stops at a node only when that node holds the key, and the key is stored in the tree |
| AvlOperations.FindSlotFinds | avl/AVL.h:82-87 | in an ordered tree `_find` stops at a node exactly when the key is in the map, and that node's data is the key's data |
| AvlOperations.FindAndInsert | avl/AVL.h:93-95 | `_find_and_insert` always leaves a node in the slot, and the cached heights stay correct |
| AvlOperations.InsertedLeftRebalances | avl/AVL.h:93-95 | after the left subtree grows by at most one with smaller keys, `_ensureBalance` gives an AVL subtree at most one taller |
| AvlOperations.InsertedRightRebalances | avl/AVL.h:93-95 | the mirror for the right subtree |
| AvlOperations.InsertKeys | avl/AVL.h:51 | the key set after `insert` is the old key set plus the key |
| AvlOperations.InsertCorrect | avl/AVL.h:93-95 | insertion into an AVL tree passes all three debugging checks and grows the height by at most one |
| AvlOperations.InsertUpdatesMap | avl/AVL.h:51 | the map after `insert` binds the key to the data if the key was absent and is unchanged if it was present |
| AvlOperations.InsertLeavesPresentKey | avl/AVL.h:93-95 | inserting a stored key returns the very same tree: no rotation and no height change anywhere |
| AvlOperations.InsertThenFind | avl/AVL.h:50-51 | after `insert`, `_find` of the key stops at a node, and that node holds the new data when the key was absent |
| AvlOperations.Rightmost | avl/AVL.h:103-110 | the in-order predecessor search ends at a node without a right child that holds the last in-order entry |
| AvlOperations.ReplaceRightmost | avl/AVL.h:112-120 | putting the target's key and data at the predecessor's position keeps the shape and every recorded height; the node there keeps the predecessor's left child and height and gets the target's key and data; only the last in-order entry changes |
| AvlOperations.SwapNodes | avl/AVL.h:112-120 | the predecessor's key and data move to the top and the target's to the predecessor's position, with the predecessor's left child and height and no right child; the shape and every position's height are kept, so the two nodes' heights are exchanged, and both checks are kept |
| AvlOperations.SwapNodesPicksPredecessor | avl/AVL.h:103-110 | in an ordered tree the node brought to the top is the largest key below the target, and it comes from the left subtree |
| AvlOperations.RemoveRightmost | avl/AVL.h:103-110 | removing the moved target drops exactly the last in-order entry and returns its data; heights stay correct |
| AvlOperations.IopRemove | avl/AVL.h:103-110 | `_iopRemove` removes exactly the target's entry, keeping the order of the others, and returns the target's data |
| AvlOperations.RemoveNode | avl/AVL.h:89-91 | `_remove` (no child, one child, two children) removes exactly the node's own entry and returns its data |
| AvlOperations.FindAndRemove | avl/AVL.h:96-98 | `_find_and_remove` succeeds only for a stored key and keeps the cached heights correct |
| AvlOperations.RemovedLeftRebalances | avl/AVL.h:96-98 | after the left subtree shrinks by at most one, `_ensureBalance` gives an AVL subtree at most one shorter |
| AvlOperations.RemovedRightRebalances | avl/AVL.h:96-98 | the mirror for the right subtree |
| AvlOperations.PrefixOrdered | avl/AVL.h:103-110 | dropping the last in-order entry keeps a tree ordered |
| AvlOperations.RemoveRightmostCorrect | avl/AVL.h:103-110 | removing the rightmost node of an AVL tree gives an AVL tree at most one shorter |
| AvlOperations.IopRemoveCorrect | avl/AVL.h:103-120 | two-child removal through the predecessor gives an AVL tree at most one shorter |
| AvlOperations.RemoveNodeCorrect | avl/AVL.h:89-91 | `_remove` on an AVL tree gives an AVL tree at most one shorter |
| AvlOperations.RemoveNodeContents | avl/AVL.h:89-91 | `_remove` removes exactly the node's key from the key set and from the map |
| AvlOperations.RemoveKeys | avl/AVL.h:52 | in an ordered tree removal fails exactly when the key is absent; otherwise the key set loses exactly that key |
| AvlOperations.RemoveCorrect | avl/AVL.h:96-98 | a successful removal from an AVL tree passes all three debugging checks and shrinks the height by at most one |
| AvlOperations.RemoveUpdatesMap | avl/AVL.h:52 | a successful removal returns the key's data and the new map is the old one without the key |
| AvlMap.AVL.constructor | avl/AVL.h:45-47 | the head pointer starts null: the tree is valid and the map is empty |
| AvlMap.AVL.Find | avl/AVL.h:49-50 | `find` returns the key's data when the key is stored and fails with NotFound otherwise |
| AvlMap.AVL.Contains | avl/AVL.h:54-58 | `contains` never fails and is true exactly when the key is stored |
| AvlMap.AVL.Insert | avl/AVL.h:51 | the tree stays valid; the map gains the binding if the key was absent, and the tree is unchanged if it was present |
| AvlMap.AVL.Remove | avl/AVL.h:52 | the tree stays valid; a stored key's data is returned and the key is unbound; an absent key gives NotFound and nothing changes |
| AvlMap.AVL.Empty | avl/AVL.h:178-184 | `empty` is true exactly when the head is null, which is exactly when the map is empty |
| AvlMap.AVL.ClearTree | avl/AVL.h:186-193 | removing the head's key until the head is null ends, with a valid empty tree |
| AvlMap.AVL.RunDebuggingChecks | avl/AVL.h:217-223 | the result is true exactly when the height, balance and order checks all hold, that is exactly when the class invariant holds |
| AvlBounds.BalancedHasMinNodes | avl/AVL.h:129-135 | a balanced tree with correct heights has at least the minimum node count for its height (the Fibonacci-like recurrence) |
| AvlBounds.MinNodesExponential | avl/AVL.h:129-135 | that minimum grows at least like 2 to the half height |
| AvlBounds.HeightIsLogarithmic | avl/AVL.h:217-223 | a tree that passes the debugging checks has height h with 2^((h+1)/2) <= n + 1, where n is the number of nodes |
| AvlScenarios.AscendingInsertsRotateLeft | avl/AVL.h:137-141 | after inserting 1 and 2, inserting 3 makes the root lean right by two with a right-leaning right child; `_ensureBalance` then does one left rotation, giving root 2 with children 1 and 3 |
| AvlScenarios.InsertingFiveThreeEight | avl/AVL.h:93-95 | inserting 5, 3, 8 needs no rotation and gives root 5 with children 3 and 8 |
| AvlScenarios.SwappedLeftOfFive | avl/AVL.h:103-120 | below 5 the predecessor is 4, and 5 takes its place |
| AvlScenarios.RemovingFiveBelowThree | avl/AVL.h:103-110 | removing 5 again from the predecessor's position leaves 3 over 1 without a rotation |
| AvlScenarios.RemovingRootOfFive | avl/AVL.h:103-120 | removing the two-child root 5 swaps it with 4, cuts it off without a rotation and returns 5's data |
| AvlScenarios.TwoChildRemovalPromotesPredecessor | avl/AVL.h:103-120 | inserting 5, 3, 8, 1, 4 and removing 5 brings the predecessor 4 to the root and returns 5's data |

## Left out

- The bodies in avl/AVL.hpp are not part of this model. `find`, `insert`, `remove`, `_find`, `_find_and_insert`, `_find_and_remove`, `_remove`, `_iopRemove`, `_swap_nodes`, `_ensureBalance` and the rotations follow their declarations and doc comments.
- Pointer rewiring in place. Each helper that writes through a `TreeNode*&` slot becomes a function that returns the new subtree, and the class assigns the result to `head`. Aliasing between node pointers is not modelled.
- The two-argument `_iopRemove(targetNode, iopAncestor)`. It searches for the predecessor and removes the target in one recursion. The model does it in two descents: `SwapNodes` finds the predecessor, then `RemoveRightmost` goes down again and rebalances on the way back. Both visit the same path and rebalance the same nodes.
- The `const K&` and `const D&` members, which store references to memory owned by the caller. Keys and data are values owned by the node.
- The destructor, which only calls `clear_tree` and frees memory. Memory is not modelled.
- The concrete exception type `std::runtime_error`. Failure is the `Err(NotFound)` result, or `None` in the recursive helpers.
- `printVertical`, `printInOrder` and `_printInOrder`, which only write to the console. The in-order sequence `Entries` stands in for the traversal as a value.
- Keys of any ordered type `K`. Keys are `int`.
- cpp-class/main.cpp. It computes a cube's volume in floating point and prints it, and it does not use the tree.
