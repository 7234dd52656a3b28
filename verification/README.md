# AVL tree of integers, modelled in Dafny

This project models the AVL tree in `AvlTree.java` and `AvlNode.java`. The
tree is a set of distinct `int` keys kept as a self-balancing binary search
tree. It offers these operations:

- `add`, `delete` and `contains` (which returns the depth of the key's node, or -1);
- `size`;
- an ascending iterator;
- a constructor from an array, and a copy constructor;
- the static helper `findMinNodes`, the minimum node count of an AVL tree of height h.

The model is functional. A tree is the datatype
`Tree = Nil | Node(key, height, left, right)` with a cached height in every
node. The original keeps parent links, and uses them for these things:

- walking back up to rebalance after an insertion or deletion (`adjustTree`);
- finding a successor that lies above a node (`getSuccessor`);
- putting a rotated or spliced-out node's replacement into the parent's
  child slot (`AvlTree.java:543-550`, `600-607`, `686-695`);
- returning the new root of a rotated subtree from `rotateNode`
  (`AvlTree.java:470`).

The model has no parent links. Insertion and deletion recurse down and call
`Adjust` on every ancestor on the way back. That is one step of
`adjustTree`: rotate the node if the children's heights differ by more than
one, otherwise recompute its height. A rotation or a splice returns the new
subtree, and the caller one level up stores it in the child slot it
descended through; the value returned at the top is the new root. The
successor is found by descending from the root.

The code throws `IllegalArgumentException` for internal errors that a
correct caller never triggers. The model keeps none of them as an error
path. Some become preconditions that the model proves every caller meets:

- `rotateRight` and `rotateLeft` without the child to promote
  (`AvlTree.java:529-533` and `588-590`): `RotateRight` and `RotateLeft`
  require that child;
- `updateHeight` on null (`AvlTree.java:649-651`): `UpdateHeight` requires
  a node;
- `rotateByScenario` without the child or grandchild a scenario rotates
  around (`AvlTree.java:488-505`): `RotateByScenario` requires `CanRotate`,
  and `ChooseScenario` ensures it;
- `rotateNode` with no grandchild on the taller side
  (`AvlTree.java:417-420`, `445-448`): `TallerChildHasChild` proves a side
  two levels taller than its sibling has a child.

The others cannot arise in the model at all:

- `removeNode` on a node with two children (`AvlTree.java:669-671`):
  `Remove` splices a node out only when it has at most one child, and
  `RemoveMin` splices out the leftmost node, which has no left child;
- `addHelper` on null (`AvlTree.java:327-329`): `Insert` handles the empty
  subtree by building the new node;
- `getSuccessor` on null (`AvlTree.java:272-274`): `Successor` takes a key,
  not a node;
- the `default` branch of `rotateByScenario` (`AvlTree.java:511`):
  `Scenario` has exactly four constructors.

The "no rotation took
place" test in `adjustTree` compares references. The model compares values;
when the two tests differ, the rotated subtree already has correct heights,
so recomputing its height changes nothing.

Modules:

- `AvlNode` (`avl_node.dfy`): the node record, its constructor and its setters.
- `TreeShape` (`tree_shape.dfy`): the views a tree is described by (key set,
  in-order sequence, node count) and the invariants:
  - search-tree order;
  - correct cached heights, with an absent child counting as -1;
  - the balance bound of one.
- `Rotations` (`rotations.dfy`):
  - the single rotations;
  - the choice among the four rebalancing scenarios;
  - `rotateByScenario`, `rotateNode` and one step of the rebalancing walk.
- `AvlTrees` (`avl_tree.dfy`):
  - `add` (with `addHelper`), `delete` (with `removeNode` and the successor swap), `contains` and `findNode`;
  - `size`;
  - the array constructor.
- `TreeIteration` (`iteration.dfy`): `getMin`, `getSuccessor`, the iterator and the copy constructor.
- `MinNodes` (`min_nodes.dfy`): `findMinNodes`, and why its value is the minimum.
- `Scenarios` (`scenarios.dfy`): worked cases of the public operations.
- `Wrappers` (`wrappers.dfy`): an `Option` type.

## Model

| member | source | states |
|---|---|---|
| AvlNode.NewNode | AvlNode.java:29-36 | a new node holds the given key, has height 0 and has no children |
| AvlNode.Height | AvlTree.java:633-639 | the height of an absent subtree is -1; otherwise it is the node's cached height |
| AvlNode.SetKey | AvlNode.java:49-51 | only the key changes; the height and both child slots are kept |
| AvlNode.SetHeight | AvlNode.java:56-65 | reading the height back gives the value set; the key and the children are kept |
| AvlNode.SetLeftChild | AvlNode.java:91-94 | only the left slot is replaced |
| AvlNode.RemoveLeftChild | AvlNode.java:99-101 | only the left slot is cleared; the key, the height and the right child are kept |
| AvlNode.SetRightChild | AvlNode.java:114-117 | only the right slot is replaced |
| AvlNode.RemoveRightChild | AvlNode.java:122-124 | only the right slot is cleared; the key, the height and the left child are kept |
| TreeShape.HeightLowerBound | AvlTree.java:633-656 | with correct cached heights, only an absent subtree has height -1; a node has height at least 0 |
| TreeShape.CachedHeightIsShapeHeight | AvlTree.java:645-656 | when every node's height was set by `updateHeight`, the cached height equals the height computed from the shape |
| TreeShape.BstNodeCountIsKeyCount | AvlTree.java:239-242 | in a search tree no key occurs twice, so the node count is the number of distinct keys |
| Rotations.UpdateHeight | AvlTree.java:645-656 | recomputes only the height; with correct children it makes the node's height correct |
| Rotations.RotateLeft | AvlTree.java:583-627 | the right child becomes the subtree root; the old root becomes its left child and takes over the old inner grandchild; the in-order sequence is unchanged; both recomputed heights are correct |
| Rotations.RotateRight | AvlTree.java:526-570 | the mirror image of the left rotation, with the same guarantees |
| Rotations.TallerChildHasChild | AvlTree.java:413-420 | a child more than one level taller than its sibling has a child, so the "no grandchild" error is never raised |
| Rotations.ChooseScenario | AvlTree.java:417-471 | the taller side decides between the Right and Left scenarios; the double rotation is chosen when the inner grandchild is the only one, or when both exist and it is strictly taller; otherwise, ties included, the single rotation is chosen; the rotation's required children are present |
| Rotations.ScenarioFollowsGrandchildHeights | AvlTree.java:417-471 | with correct heights the decision is one comparison: double rotation exactly when the inner grandchild is strictly taller than the outer one |
| Rotations.RotateByScenario | AvlTree.java:484-515 | given `CanRotate` (the child, and for a double rotation the grandchild, that the scenario rotates around is present), every scenario keeps the in-order sequence and yields correct heights |
| Rotations.RotateNode | AvlTree.java:401-474 | a node for which `NeedsRotation` fails (children's heights differ by at most one) comes back unchanged; otherwise the rotated subtree keeps the in-order sequence and has correct heights |
| Rotations.Adjust | AvlTree.java:366-390 | one step of the walk yields correct heights and keeps the in-order sequence, the key set, the node count and search-tree order |
| Rotations.RotateLeftRebalances | AvlTree.java:583-627 | on a right side two levels too tall whose outer grandchild is at least as tall as the inner one, the left rotation restores the AVL shape and grows the subtree by at most one level |
| Rotations.RotateRightRebalances | AvlTree.java:526-570 | the mirror image for the left side |
| Rotations.RotateRightLeftRebalances | AvlTree.java:496-501 | on a right side two levels too tall whose inner grandchild is strictly taller, the double rotation restores the AVL shape at the right child's old height |
| Rotations.RotateLeftRightRebalances | AvlTree.java:503-509 | the mirror image for the left side |
| Rotations.AdjustRestoresBalance | AvlTree.java:366-474 | at a node whose children are AVL-shaped and differ in height by at most two, one step restores the AVL shape; without a rotation the height is one more than the taller child's; with one it is the taller child's height or one more |
| AvlTrees.Empty | AvlTree.java:75-78 | the empty tree is valid, holds no keys and has size 0 |
| AvlTrees.Size | AvlTree.java:239-242 | the size is the number of distinct keys stored |
| AvlTrees.FindNode | AvlTree.java:299-311 | a node found holds the key searched for; in a search tree every stored key is found |
| AvlTrees.SearchDirection | AvlTree.java:306-310 | in a search tree a key below the node's key can only be on the left, and one above it only on the right |
| AvlTrees.Insert | AvlTree.java:324-356 | the key set gains exactly the new key; a new node is counted; a key already present leaves the tree untouched |
| AvlTrees.InsertKeepsShape | AvlTree.java:141-147 | insertion with the rebalancing walk keeps the AVL shape and grows the height by at most one |
| AvlTrees.InsertKeepsBst | AvlTree.java:324-356 | insertion keeps search-tree order, and reports an addition exactly when the key was absent |
| AvlTrees.InsertKeepsAvl | AvlTree.java:126-158 | insertion keeps all three invariants |
| AvlTrees.Add | AvlTree.java:126-158 | the result is true exactly when the key was absent; the key set becomes the old set plus the key; the size grows by one on success; on a present key nothing changes |
| AvlTrees.MinKey | AvlTree.java:276-281 | the leftmost key is the first in-order key and, in a search tree, the smallest |
| AvlTrees.RemoveMin | AvlTree.java:664-697 | splicing out the leftmost node removes the first in-order key and nothing else, and keeps heights correct |
| AvlTrees.RemoveMinKeepsShape | AvlTree.java:664-697 | splicing out the leftmost node keeps the AVL shape and lowers the height by at most one |
| AvlTrees.RemoveMinKeepsBst | AvlTree.java:664-697 | splicing out the leftmost node keeps search-tree order and removes exactly the minimum key |
| AvlTrees.RemoveMinKeepsAvl | AvlTree.java:664-697 | all three invariants survive removing the minimum |
| AvlTrees.Remove | AvlTree.java:170-209 | removing a present key removes exactly one node and keeps heights correct |
| AvlTrees.RemoveKeepsShape | AvlTree.java:664-697 | removal with the rebalancing walk keeps the AVL shape and lowers the height by at most one |
| AvlTrees.SuccessorSwapKeepsBst | AvlTree.java:176-186 | giving a node with two children its successor's key and splicing the successor out keeps search-tree order and removes exactly the node's old key |
| AvlTrees.RemoveKeepsBst | AvlTree.java:170-209 | removal keeps search-tree order and removes exactly the key |
| AvlTrees.RemoveKeepsAvl | AvlTree.java:170-209 | removal keeps all three invariants |
| AvlTrees.Delete | AvlTree.java:170-209 | the result is true exactly when the key was present; the key set loses exactly the key; the size drops by one on success; on an absent key nothing changes |
| AvlTrees.AddThenDelete | AvlTree.java:126-209 | adding an absent key and then deleting it both succeed and give back the original key set and size |
| AvlTrees.DeleteThenAdd | AvlTree.java:126-209 | deleting a present key and then adding it both succeed and give back the original key set and size |
| AvlTrees.DepthIsUnique | AvlTree.java:217-234 | in a search tree a key sits at exactly one depth |
| AvlTrees.Contains | AvlTree.java:217-234 | the result is -1 exactly when the key is absent; otherwise it is the depth of the key's node (root = 0), at most the tree's height |
| AvlTrees.FromArray | AvlTree.java:86-94 | the tree built from an array is valid, holds exactly the array's distinct values and has one node per distinct value; an entry is accepted exactly when it is the value's first occurrence |
| TreeIteration.GetMin | AvlTree.java:703-714 | the walk down left children gives the first in-order key; an empty tree has none |
| TreeIteration.Successor | AvlTree.java:268-291 | in a search tree the successor is the smallest key greater than the given one; there is none exactly when no key is greater |
| TreeIteration.SuccessorIsNextInOrder | AvlTree.java:268-291 | the successor of the i-th in-order key is the (i+1)-th, and the last key has none |
| TreeIteration.Iterator | AvlTree.java:734-738 | a fresh iterator points at the first in-order key, or at nothing for an empty tree |
| TreeIteration.Next | AvlTree.java:740-756 | callable when `HasNext` holds (the cursor holds a key); returns the cursor's key and moves the cursor to the smallest stored key larger than it, or to nothing after the largest |
| TreeIteration.Elements | AvlTree.java:724-756 | iteration yields the in-order sequence: strictly ascending, exactly the stored keys, `size` of them |
| TreeIteration.Copy | AvlTree.java:104-112 | the copy is valid and has the same keys, size and iteration order as the original |
| MinNodes.FindMinNodes | AvlTree.java:48-69 | returns N(h) for h >= 0, where N(0) = 1, N(1) = 2 and N(h) = N(h-1) + N(h-2) + 1; returns -1 for a negative h |
| MinNodes.MinNodeCountGrows | AvlTree.java:38-48 | N never decreases as the height grows |
| MinNodes.AvlHasAtLeastMinNodes | AvlTree.java:38-48 | every AVL-shaped tree of height h has at least N(h) nodes |
| MinNodes.SparsestIsMinimal | AvlTree.java:38-48 | for every height h there is an AVL tree with exactly N(h) nodes, so N(h) is the minimum |
| Scenarios.MinNodesTable | AvlTree.java:48-69 | the first five values are 1, 2, 4, 7, 12 |
| Scenarios.StraightLineAdjusts | AvlTree.java:422-428 | a root whose taller right child has only its outer grandchild needs a rotation, gets the RR scenario (a single left rotation), and ends with the middle key on top of the other two |
| Scenarios.OuterGrandchildRebalances | AvlTree.java:324-356 | inserting the largest key under a root whose only child is the middle key leaves the middle key on top of the other two |
| Scenarios.AscendingBuild | AvlTree.java:126-158 | adding 10, 20, 30 leaves the valid three-node tree rooted at 20, the result of the single left rotation |
| Scenarios.AscendingThree | AvlTree.java:126-158 | after adding 10, 20, 30, `contains` finds 10 and 30 at depth 1 and 20 at depth 0 |
| Scenarios.ZigZagAdjusts | AvlTree.java:450-457 | a root whose taller left child has only its inner grandchild needs a rotation, gets the LR scenario (the left-right double rotation), and ends with the middle key on top of the other two |
| Scenarios.InnerGrandchildRebalances | AvlTree.java:324-356 | inserting the middle key under a root with a single smaller child leaves it on top of the other two |
| Scenarios.ZigZagThree | AvlTree.java:126-158 | adding 30, 10, 20 leaves the valid three-node tree rooted at 20, the result of the double rotation |
| Scenarios.BuildWithRepeat | AvlTree.java:86-94 | building from 5, 3, 3, 8 accepts every entry but the second 3 |
| Scenarios.RepeatedKey | AvlTree.java:86-94 | the tree built from 5, 3, 3, 8 has size 3 and iterates as 3, 5, 8 |
| Scenarios.DeleteFromSeven | AvlTree.java:170-209 | adding 1 to 7 and then deleting 4 leaves a valid tree of six nodes iterating as 1, 2, 3, 5, 6, 7 |

## Left out

- Parent links and `setParent` / `getParent` (AvlNode.java:70-80) have no counterpart. The model has no parent links, so the bookkeeping that rotations and `removeNode` do to keep them consistent is not modelled either. For the same reason, `setLeftChild` / `setRightChild` not reparenting the new child has no counterpart.
- TreeIteration.Successor: the upward branch of `getSuccessor` climbs parent links to the first ancestor reached from its left. The model finds the same node by descending from the root: the last node at which the search turned left. The result is the same key; the walk is different.
- The exception handlers that print a message and carry on (in `add`, `delete` and the iterator's `next`) are not modelled. Each error they catch is either a precondition the model proves is met or cannot arise at all, as listed above. So the partial update where `add` returns false after attaching the node cannot happen in the model.
- The iterator's `remove` (it throws `UnsupportedOperationException`) is not modelled, nor is the `Iterable` plumbing. A tree changed during iteration is not modelled either: the model's iterator walks an immutable value.
- TreeIteration.Next: requires a next key. The original dereferences a null cursor when it has none.
- TreeIteration.Copy: the deep copy's independence from the original is a heap-aliasing property with no meaning for immutable values. Only equal contents are stated.
- MinNodes.FindMinNodes: 32-bit `int` overflow for large h is not modelled; the model computes with unbounded integers.
- Keys are unbounded integers. Java `int` keys never overflow in the tree code, since keys are only compared and copied.
- The `null` guards of the array constructor and the copy constructor are left out: a sequence or tree value cannot be null.
- AvlTrees.Remove: requires the key to be present. The public `delete` checks this with `findNode` before removing anything, as the original does.
