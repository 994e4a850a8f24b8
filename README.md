# Red-black tree with parent pointers, in Dafny

This project models `RedBlackTree<T>` of `RBTree/RedBlackTree.h` and
`RBTree/RedBlackTree.cpp`, instantiated at `int`. It is a binary search tree of
heap nodes. Each node carries a key, a colour (RED or BLACK) and parent, left
and right pointers. The tree owns a root pointer. Its operations are:

- `insert`: a search descent, then `insertFixup`.
- `remove`: a search, three unlink cases using `transplant` and `minimum`, then
  `deleteFixup`.
- `leftRotate` and `rightRotate`, shared by both fix-up loops.

The model is imperative, like the source.

- `Links.Node` is a class with the five fields of `Node<T>`.
- `RBTree.RedBlackTree` is a class with the `root` field. Its methods write the
  same fields, in the same order, as the C++ code.
- Each tree carries two ghost fields:
  - `T`, a `Tree<Node>` value (module `TreeModel`);
  - `Repr`, its set of nodes.
- `Valid()` ties the heap to `T`:
  - the nodes of `T` are distinct;
  - `Repr` is exactly those nodes;
  - `root` points to the root of `T`;
  - every node's five fields hold what `T` prescribes (`Links.Info`, `Links.Agrees`).
- Every mutating method is proved against a function on tree values:
  - `ReplaceAt`, `PromoteAt` (a rotation), `PaintAt`;
  - `Unlink` (what remove does to the node it deletes);
  - `RecolorUp`, `RotateUp`, `ZigZag` (the insertFixup branches);
  - `RotateUp`, `FarNephewFix`, `RedNephewFix` and `PaintAt` (the deleteFixup branches).
- Properties are proved about those functions:
  - the in-order key sequence is kept;
  - keys are added or removed by one;
  - sortedness;
  - the red-black rules, in module `Coloring`;
  - the loop states of the two fix-up loops, in module `Fixups`.

Where the C++ code and its documentation disagree, the model follows the code:

- `insert` sends keys equal to a node's key to the right, so duplicate keys are
  stored. `remove` deletes the first node its search meets with that key. That
  node need not hold the first occurrence in order: inserting 5 three times gives
  a black 5 with a red 5 on each side, and `remove(5)` deletes the root, the
  second 5 in order. As a key sequence, a sorted one loses exactly one v, so the
  result is the same sequence as removing the first v.
- Two inputs of `remove` dereference a null pointer, and the model states each as
  a precondition (`Fixups.RemoveCrashes`):
  - line 65 dereferences a null pointer when the successor is the removed node's
    right child and has no right child;
  - line 134 dereferences a null pointer when deleteFixup starts on the empty
    position left by a black leaf that was not the root.
- `insert` dereferences a null pointer at line 200 when the new node's parent is a
  red root: the grandparent it reads there is null (`Fixups.InsertCrashes`). A
  red-black tree never has a red root, but `remove` can leave one.
  `Fixups.RemoveLeavesRedRoot` shows a case: the black root 1 with a red right
  child 2. Removing 1 splices in the red 2, and deleteFixup, started on a red
  node, changes nothing. `Remove` states the resulting tree for such cases.
  Inserting 3 then reaches line 200. The model's `Insert` requires a red-black
  tree, so it never reaches that line.
- `deleteFixup` has no final blackening of the node it stops on, and it is
  called on the successor once that node stands in the removed node's place.
  Because of this, `remove` does not in general restore the red-black rules, and
  the model does not claim it does. It proves only what holds:
  - the keys and their order;
  - that the loop terminates;
  - that every sibling and nephew it dereferences exists;
  - that each branch produces the tree its colour writes and rotations give;
  - that the red-nephew branches, which end the loop, repair the extra black
    within the parent's subtree (`Fixups.RedNephewRepairs`).

## Model

| member | source | states |
|---|---|---|
| Links.Node.constructor | RBTree/RedBlackTree.h:11-21 | A new node holds the value, is RED, and its parent, left and right pointers are null. |
| RBTree.RedBlackTree.constructor | RBTree/RedBlackTree.cpp:4-5 | The new tree is empty: root is null, the tree value is Nil, no nodes. |
| RBTree.RedBlackTree.Transplant | RBTree/RedBlackTree.cpp:14-27 | v takes u's place: u's parent (or the root when u has none) points to v, v's parent becomes u's parent, and every other node keeps all its fields. |
| RBTree.RedBlackTree.Minimum | RBTree/RedBlackTree.cpp:30-35 | Returns the leftmost node of the subtree; it has no left child, holds the first key of the subtree in order, and when the keys are sorted no key of the subtree is smaller. |
| RBTree.RedBlackTree.LeftRotate | RBTree/RedBlackTree.cpp:87-106 | Field by field: x's right child y takes x's place under x's parent (or as root), x becomes y's left child, y's former left child becomes x's right child with x as its parent; keys, colours and every other node are unchanged; the root changes exactly when x was the root. |
| RBTree.RedBlackTree.RightRotate | RBTree/RedBlackTree.cpp:109-128 | The mirror image of LeftRotate, field by field. |
| RBTree.RedBlackTree.LeftRotateAt | RBTree/RedBlackTree.cpp:87-106 | On the tree value: a left rotation at the node's position; the node set and the in-order key sequence are unchanged. |
| RBTree.RedBlackTree.RightRotateAt | RBTree/RedBlackTree.cpp:109-128 | On the tree value: a right rotation at the node's position; the node set and the in-order key sequence are unchanged. |
| RBTree.RedBlackTree.Paint | RBTree/RedBlackTree.cpp:201-206 | Colouring one node changes that node's colour in the tree value and nothing else; the nodes and keys are unchanged. |
| RBTree.RedBlackTree.RaiseChild | RBTree/RedBlackTree.cpp:136-141 | The child on side d turns black, the node red, and the node is rotated away from d, so the child takes its place; keys unchanged. |
| TreeModel.RotationsInverse | RBTree/RedBlackTree.cpp:87-128 | A right rotation undoes a left rotation. |
| TreeModel.RotLKeeps | RBTree/RedBlackTree.cpp:87-106 | A left rotation keeps the in-order keys, the set of nodes and their distinctness. |
| TreeModel.RotRKeeps | RBTree/RedBlackTree.cpp:109-128 | A right rotation keeps the in-order keys, the set of nodes and their distinctness. |
| TreeModel.PromoteAtKeeps | RBTree/RedBlackTree.cpp:87-128 | A rotation anywhere in the tree keeps the whole tree's in-order keys, nodes and distinctness. |
| RBTree.RedBlackTree.FindParent | RBTree/RedBlackTree.cpp:246-256 | The descent stops at the empty position of v's insertion path (left on smaller, right otherwise), and its parent is the last node visited (null for an empty tree). |
| RBTree.RedBlackTree.Attach | RBTree/RedBlackTree.cpp:258-266 | The new node is linked as the root or as its parent's left or right child by comparing keys; the tree value gains exactly that leaf. |
| RBTree.RedBlackTree.PlaceLeaf | RBTree/RedBlackTree.cpp:245-266 | A fresh red node holding v is linked at the end of v's insertion path (left on smaller, right otherwise): the tree is the old one with that red leaf put at the empty position the descent reaches. Exactly that node joins the tree, the key multiset gains exactly v (at its sorted place on sorted keys), and insertFixup's loop state holds at it. |
| RBTree.RedBlackTree.Insert | RBTree/RedBlackTree.cpp:243-270 | From a red-black tree: exactly one fresh node is added and it holds v, the key multiset gains exactly v, a sorted key sequence gets v at its sorted place, the red-black rules hold again, and in an empty tree the new node becomes the black root. |
| TreeModel.InsertInorder | RBTree/RedBlackTree.cpp:250-266 | A leaf with key v placed where the descent ends inserts v into the sorted in-order sequence. |
| TreeModel.InsertSortedKeeps | RBTree/RedBlackTree.cpp:243-270 | Sorted insertion adds exactly one v to the multiset and keeps the sequence sorted. |
| TreeModel.InsertSortedCount | RBTree/RedBlackTree.cpp:243-270 | Sorted insertion adds exactly one v to the key multiset, whatever the sequence. |
| TreeModel.InsertSortedOrdered | RBTree/RedBlackTree.cpp:243-270 | Sorted insertion into a sorted sequence gives a sorted sequence. |
| Fixups.InsertPlaced | RBTree/RedBlackTree.cpp:243-269 | The new red leaf starts insertFixup's loop state, and the key sequence gains exactly v. |
| Fixups.InsertStarts | RBTree/RedBlackTree.cpp:258-269 | A red leaf at an empty position of a red-black tree satisfies insertFixup's loop state. |
| RBTree.RedBlackTree.InsertFixup | RBTree/RedBlackTree.cpp:197-240 | From its loop state, the loop terminates, the result satisfies the red-black rules, and the nodes and in-order keys are unchanged. |
| RBTree.RedBlackTree.RecolorFamily | RBTree/RedBlackTree.cpp:202-207 | The red-uncle branch: parent and uncle turn black, grandparent red, and the loop state holds at the grandparent. |
| RBTree.RedBlackTree.LeftBlackUncle | RBTree/RedBlackTree.cpp:208-216 | The black-uncle branch for a left parent (with the extra rotation for an inner child) leaves no red-red edge and a black node at the grandparent's position. |
| RBTree.RedBlackTree.RightBlackUncle | RBTree/RedBlackTree.cpp:227-235 | The mirror image of LeftBlackUncle. |
| Fixups.RecolorFixes | RBTree/RedBlackTree.cpp:202-207 | Recolouring keeps insertFixup's loop state, with the grandparent as the node being fixed. |
| Fixups.RotateFixes | RBTree/RedBlackTree.cpp:208-216 | The rotation branch leaves no red-red edge, a black node at the grandparent's position and the red node being fixed just below. |
| Fixups.InsertFixed | RBTree/RedBlackTree.cpp:199-239 | When the loop stops (node at the root or parent black), blackening the root yields a red-black tree. |
| Coloring.GrandparentBlack | RBTree/RedBlackTree.cpp:199-200 | The grandparent of the only red-red edge exists and is black. |
| Coloring.RecolorUpRepairs | RBTree/RedBlackTree.cpp:202-206 | Recolouring keeps the black height and balance of the grandparent's subtree and removes the red-red edge below it. |
| Coloring.RotateUpRepairs | RBTree/RedBlackTree.cpp:213-215 | Recolouring and rotating the parent up keeps the black height and leaves no red-red edge. |
| Coloring.ZigZagRepairs | RBTree/RedBlackTree.cpp:209-215 | The double rotation for an inner child keeps the black height and leaves no red-red edge. |
| Coloring.BalancedIffUniform | RBTree/RedBlackTree.cpp:197-240 | The black-height rule that insertFixup restores, stated recursively, is equivalent to "every path to an empty subtree meets the same number of black nodes". |
| RBTree.RedBlackTree.Remove | RBTree/RedBlackTree.cpp:38-84 | Search left on smaller, right on larger. If v is not found, or not present, nothing changes. If it is found, exactly the found node, which holds v and is the first node holding v that the search meets, leaves the tree, and the key multiset loses exactly one v. A sorted key sequence becomes the sorted sequence with one v removed, and stays sorted. When the found node has at most one child and it or the child taking its place is red, the tree is the old one with that node unlinked. |
| RBTree.RedBlackTree.RemoveAt | RBTree/RedBlackTree.cpp:46-80 | Once the node is found: it alone leaves the tree, and the keys are those of the tree with that node unlinked, in the same order, after deleteFixup as well. With at most one child, when the node or the child taking its place is red, the tree is exactly the old one with the node unlinked (deleteFixup changes nothing there). |
| RBTree.RedBlackTree.SpliceOut | RBTree/RedBlackTree.cpp:51-58 | A node with an empty side is replaced by its child on the other side (possibly null); it and nothing else leaves the tree. |
| RBTree.RedBlackTree.ReplaceBySuccessor | RBTree/RedBlackTree.cpp:59-75 | A node with two children is replaced by the leftmost node of its right subtree, which takes its colour; the removed colour returned is the successor's own. |
| RBTree.RedBlackTree.PullUpSuccessor | RBTree/RedBlackTree.cpp:63-64 | When the successor is the right child, it rises into the node's place with the node's left subtree and colour. |
| RBTree.RedBlackTree.MoveSuccessor | RBTree/RedBlackTree.cpp:66-75 | Otherwise the successor is first spliced out of its place, then takes the node's place, both subtrees and colour. |
| RBTree.RedBlackTree.PullUp | RBTree/RedBlackTree.cpp:61-74 | Field by field: the pointer writes of the direct-child case. |
| RBTree.RedBlackTree.SwapIn | RBTree/RedBlackTree.cpp:68-74 | Field by field: the pointer writes that put the detached successor in the node's place. |
| RBTree.RedBlackTree.SwapInSuccessor | RBTree/RedBlackTree.cpp:68-74 | The detached successor y takes z's place with z's subtrees and colour and its own key; z leaves the node set and y joins it. |
| TreeModel.UnlinkKeeps | RBTree/RedBlackTree.cpp:46-75 | Unlinking a node keeps the in-order keys of its two subtrees in order and drops exactly that node. |
| TreeModel.RemoveKeys | RBTree/RedBlackTree.cpp:46-80 | Unlinking the node at a position drops exactly that node and exactly one copy of its key; on sorted keys the resulting key sequence is the one with the first occurrence of that key removed (the node itself need not be the first holding it), and it stays sorted. |
| TreeModel.SuccessorSplice | RBTree/RedBlackTree.cpp:59-75 | Splicing the successor out and then putting it in the node's place is unlinking the node. |
| TreeModel.LeftmostFirst | RBTree/RedBlackTree.cpp:30-35 | The leftmost node holds the first key in order, the smallest one when the keys are sorted. |
| TreeModel.SearchFound | RBTree/RedBlackTree.cpp:40-45 | A position found by the search holds v. |
| TreeModel.SearchComplete | RBTree/RedBlackTree.cpp:40-45 | The search finds only present keys, and on sorted keys it finds every present key. |
| TreeModel.RemoveFirstSorted | RBTree/RedBlackTree.cpp:46-80 | In a sorted sequence, dropping one occurrence of v is dropping the first and keeps it sorted. |
| TreeModel.RemoveAbsent | RBTree/RedBlackTree.cpp:40-84 | Removing an absent value changes nothing. |
| Fixups.RemoveFixing | RBTree/RedBlackTree.cpp:77-78 | When a black colour leaves the tree (and the line-134 crash is avoided), deleteFixup's loop state holds at the vacated position. |
| Fixups.RemoveCrashesReachable | RBTree/RedBlackTree.cpp:63-65 | Red-black trees exist on which remove reaches each null dereference (lines 65 and 134). |
| Fixups.RemoveLeavesRedRoot | RBTree/RedBlackTree.cpp:200 | A red-black tree exists (black 1 over a red right child 2) whose root removal leaves a red root, after which inserting 3 reaches the null grandparent dereference of insertFixup. |
| Links.SuccessorParent | RBTree/RedBlackTree.cpp:63 | The successor's parent is the removed node exactly when the successor is its right child. |
| RBTree.RedBlackTree.DeleteFixup | RBTree/RedBlackTree.cpp:131-194 | From its loop state, the loop terminates, the nodes and in-order keys are unchanged, and every sibling and nephew it dereferences exists. Started on a red node, it changes nothing: there is no final blackening. |
| RBTree.RedBlackTree.DeleteFixLeft | RBTree/RedBlackTree.cpp:134-162 | One round for a left child keeps the loop state and decreases the measure (depth, plus one for a black node). |
| RBTree.RedBlackTree.DeleteFixRight | RBTree/RedBlackTree.cpp:163-192 | The mirror image of DeleteFixLeft. |
| RBTree.RedBlackTree.LeftRedSibling | RBTree/RedBlackTree.cpp:136-141 | Red sibling: sibling black, parent red, parent rotated left; the node is now below its red parent, and the new sibling exists. |
| RBTree.RedBlackTree.RightRedSibling | RBTree/RedBlackTree.cpp:166-171 | The mirror image of LeftRedSibling. |
| RBTree.RedBlackTree.LeftBlackNephews | RBTree/RedBlackTree.cpp:142-146 | Both nephews black: the tree is the old one with the sibling painted red, and the loop state moves up to the parent, which keeps its colour. |
| RBTree.RedBlackTree.RightBlackNephews | RBTree/RedBlackTree.cpp:172-176 | The mirror image of LeftBlackNephews. |
| RBTree.RedBlackTree.LeftBlackSibling | RBTree/RedBlackTree.cpp:142-161 | With a black sibling, one of the nephew cases runs: the nodes and keys are unchanged, the loop state holds at the new x, which is either the parent (keeping its colour) or the root. |
| RBTree.RedBlackTree.RightBlackSibling | RBTree/RedBlackTree.cpp:172-191 | The mirror image of LeftBlackSibling. |
| RBTree.RedBlackTree.LeftRedNephew | RBTree/RedBlackTree.cpp:148-161 | A red nephew: the tree is the old one with the parent's subtree replaced by RedNephewFix (the near-nephew rotation when the far nephew is black, then the far-nephew case); nodes and in-order keys unchanged. |
| RBTree.RedBlackTree.RightRedNephew | RBTree/RedBlackTree.cpp:178-191 | The mirror image of LeftRedNephew. |
| RBTree.RedBlackTree.LeftNearNephew | RBTree/RedBlackTree.cpp:148-154 | Far nephew black: near nephew black, sibling red, sibling rotated right; the new sibling exists. |
| RBTree.RedBlackTree.RightNearNephew | RBTree/RedBlackTree.cpp:178-184 | The mirror image of LeftNearNephew. |
| RBTree.RedBlackTree.LeftFarNephew | RBTree/RedBlackTree.cpp:155-160 | The tree is the old one with the parent's subtree replaced by FarNephewFix: the sibling takes the parent's colour, parent and far nephew turn black, and the sibling rises into the parent's place; nodes and in-order keys unchanged. |
| RBTree.RedBlackTree.RightFarNephew | RBTree/RedBlackTree.cpp:185-190 | The mirror image of LeftFarNephew. |
| Fixups.SiblingOfDoubleBlack | RBTree/RedBlackTree.cpp:135-143 | The sibling of a node with an extra black is a node, and a red sibling has two children, so each dereference in the loop body is of a node. |
| Fixups.SiblingPaintedRed | RBTree/RedBlackTree.cpp:142-146 | Painting the sibling red moves the extra black to the parent. |
| Fixups.RedSiblingRotated | RBTree/RedBlackTree.cpp:136-141 | After the red-sibling rotation the node's new sibling, the former near nephew, exists. |
| Fixups.FarNephewLocal | RBTree/RedBlackTree.cpp:155-160 | The colour writes and the rotation of the far-nephew case, applied in the source's order to a subtree, give FarNephewFix. |
| Fixups.FarNephewFixAt | RBTree/RedBlackTree.cpp:155-160 | The same writes at any position of the tree replace the parent's subtree by FarNephewFix. |
| Fixups.NearNephewAt | RBTree/RedBlackTree.cpp:148-154 | The near-nephew rotation below the parent is a replacement of the parent's subtree. |
| Fixups.NearNephewRotated | RBTree/RedBlackTree.cpp:148-154 | On a black sibling with a red near and a black far nephew, the rotation gives a black, balanced subtree of the same black height whose far child is red, and keeps red-red freedom. |
| Fixups.FarNephewRepairs | RBTree/RedBlackTree.cpp:155-160 | When the node's side is one black short of its black sibling, whose far nephew is red, FarNephewFix is balanced, has the black height the parent's subtree should have, keeps the parent's colour on top with black children, and keeps red-red freedom. |
| Fixups.RedNephewRepairs | RBTree/RedBlackTree.cpp:147-161 | The same repair for both red-nephew cases, through RedNephewFix. |

## Left out

- printTree (RedBlackTree.cpp:273-284) writes to standard output. It is I/O and is not modelled.
- getRoot (RedBlackTree.cpp:287-290) returns the root pointer. Callers read the `root` field.
- The destructor and destroyTree (RedBlackTree.cpp:8-11, 293-300) release memory. Deallocation, including the `delete` at line 80, is not modelled: the removed node just leaves `Repr`.
- The template is modelled only at `int`, the instantiation of line 303. Keys are unbounded Dafny integers, so comparisons are exact.
- The program that drives the tree is not part of this model.
- RBTree.RedBlackTree.Remove: requires that the tree be balanced. Without equal black heights, deleteFixup can meet a null sibling and dereference it.
- RBTree.RedBlackTree.Remove: requires that the node's removal reach neither null dereference (lines 65 and 134, `Fixups.RemoveCrashes`). In C++ both are undefined behaviour.
- RBTree.RedBlackTree.Remove: does not state that the red-black rules hold afterwards. deleteFixup neither blackens the node it stops on nor guarantees the black heights when started at the successor's new place, so the source does not keep them in general.
- RBTree.RedBlackTree.Remove: because it ensures neither balance nor the red-black rules, the model cannot apply Insert or Remove to the tree a Remove leaves. `Fixups.RemoveLeavesRedRoot` shows that Insert can then crash at line 200.
- RBTree.RedBlackTree.DeleteFixup: its loop state records the balanced tree remove started from and the extra black at the current node. It proves termination, the keys and the non-null dereferences, but not the black-height repair of the whole loop. The repair made by the red-nephew branches, which end the loop, is proved within the parent's subtree (`Fixups.RedNephewRepairs`).
- RBTree.RedBlackTree.Insert: requires a red-black tree. On a red root, insertFixup dereferences the null grandparent at line 200 (`Fixups.InsertCrashes`), and its reasoning depends on the rules holding before the insertion. The descent and linking of lines 245-266 are the method PlaceLeaf.
- RBTree.RedBlackTree.RemoveAt: the three unlink cases and the successor moves are separate methods (SpliceOut, ReplaceBySuccessor, PullUpSuccessor, MoveSuccessor, PullUp, SwapIn, SwapInSuccessor). Each holds the same field writes, in the same order, as the inline code of lines 51-74.
- RBTree.RedBlackTree.DeleteFixup: each branch of the loop body is a separate method (LeftBlackSibling and LeftRedNephew group the nephew cases, and so do their mirror images). The colour writes and rotations of one branch of insertFixup or deleteFixup are spelled out in RecolorFamily, LeftBlackUncle, RightBlackUncle, RaiseChild and Paint.
