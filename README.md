# Trees: red-black, AVL and plain binary search trees

This project models the three in-place search-tree containers of the `trees`
package and proves properties of the model:

- `RBTree` is a red-black tree with a sentinel node `nil`, after chapter 13 of
  Cormen, Leiserson and Rivest's *Introduction to Algorithms*. It covers
  rotations, insertion with `insertRBfixUp`, lookup, `transplantRBTree`, and
  removal with `deleteRBfixUp`.
- `AVLTree` stores a balance factor in every node. It covers rotations,
  insertion with `balanceForInsertingNode` and `rotating`, lookup,
  `transplant`, deletion with `balanceForDeletingNode`, and the `isBalanced`
  check.
- `BinaryTree` is a search tree with no sentinel and no rebalancing. It uses
  `null` for missing links. It covers `searchNode`, minimum and maximum,
  successor and predecessor, `insertNode`, `transplant` and `removeNode`.

How the model is built:

- Each container is a Dafny `class`. The Java `Node` objects live in an arena
  `nodes: seq<Slot>`. A slot holds a key, a value, an extra field (the colour,
  the balance factor, or nothing) and the `left`, `right` and `parent` links,
  given as arena indices.
- Index `NIL` (0) is the sentinel `nil` of `RBTree` and `AVLTree`. The Java
  statements write the sentinel's links too, and the model writes them as
  well. In `BinaryTree`, index `NIL` stands for `null`, and its slot is never
  written.
- Every method runs the Java statements on the arena. The `BinaryTree`
  removal methods are the exception: they run the corrected statements
  (see Findings), and the as-written statements are modelled as functions
  beside them. The ghost field `T`
  follows the tree shape the statements build. `Linked` ties the arena to
  `T`. `Valid` adds the search-tree order, and for `RBTree` the five
  red-black properties.
- Cursors and loop variables are described by a zipper: a path of frames up
  to the root.
- What each operation does to the shape is given by specification functions
  on `Tree` values, with lemmas about them: `Avl.InsertShape`,
  `Avl.DeleteShape`, `Bst.InsertShape`, `Bst.RemoveShape`, and the case
  lemmas of `RedBlack`.

Modules, in the order they build on each other:

- `Shapes` and `ShapeFacts`: trees, arenas, paths, keys and contents, and
  rotations.
- `Splice`: transplant and the removal of a node.
- `RedBlack`, `RBArena`, `RBRemoval`, `RBDelete` and `RBTrees`: the
  red-black tree.
- `Avl`, `AvlArena` and `AvlTrees`: the AVL tree.
- `Bst`, `BstArena` and `BinaryTrees`: the plain tree.

## Model

| member | source | states |
|---|---|---|
| RBTrees.RBTree.constructor | src/trees/RBTree.java:29-30 | a new tree has root `nil`, holds no entries, and satisfies the red-black properties |
| RBTrees.RBTree.LeftRotate | src/trees/RBTree.java:58-74 | the arena afterwards stores the shape rotated left at x; in-order keys, entries, colours and the sentinel slot are unchanged |
| RBTrees.RBTree.RightRotate | src/trees/RBTree.java:83-99 | mirror of LeftRotate: the shape rotated right at x; keys, entries and colours are unchanged |
| RBTrees.RBTree.GetNodeByKey | src/trees/RBTree.java:185-197 | returns the node holding `key` with its value, or `nil` exactly when no entry has `key` |
| RBTrees.RBTree.InsertNodeInRBTree | src/trees/RBTree.java:108-134 | the tree is still a red-black search tree, and its entries are the old ones with `key` mapped to `value`; for a key already present, only that node's value changes in the shape |
| RBTrees.RBTree.InsertRBFixUp | src/trees/RBTree.java:142-179 | from a red node hung at an empty position of a red-black tree, the loop restores properties 1-5 without changing the entries |
| RBTrees.RBTree.InsertFixUpLeft | src/trees/RBTree.java:144-159 | one round with the parent a left child: the fix-up invariant is kept and the cursor moves closer to the root |
| RBTrees.RBTree.InsertFixUpRight | src/trees/RBTree.java:160-175 | mirror of InsertFixUpLeft |
| RBTrees.RBTree.InsertCase3 | src/trees/RBTree.java:156-158 | the parent turns black, the grandparent red, and the rotation lifts the parent; the invariant holds at the new shape |
| RBTrees.RBTree.TransplantRBTree | src/trees/RBTree.java:204-214 | the arena is `Splice.Transplant` of the old one, including the sentinel's writes; the root becomes v exactly when u's parent was `nil` |
| RBTrees.RBTree.GetNodeWithMinimumKey | src/trees/RBTree.java:266-275 | returns no node for an empty subtree; otherwise the end of the left spine, whose key is the subtree's least |
| RBTrees.RBTree.RemoveNodeFromRBTree | src/trees/RBTree.java:224-257 | the tree is still a red-black search tree without `key`; the answer is true exactly when `key` was present, and a false answer leaves the arena and root unchanged |
| RBTrees.RBTree.RemoveWithSuccessor | src/trees/RBTree.java:237-252 | the successor found by `Splice.Spine` on z's right subtree takes z's place, subtrees and colour; x's position below it and the successor's own colour (`yOriginalColor`) are returned for the fix-up |
| RBTrees.RBTree.SpliceAdjacent | src/trees/RBTree.java:240-251 | the two-child branch when the successor is z's right child: the removal state `Removed` holds at x |
| RBTrees.RBTree.SpliceSuccessor | src/trees/RBTree.java:243-251 | the two-child branch when the successor lies deeper: `Removed` holds at x |
| RBTrees.RBTree.DeleteRBFixUp | src/trees/RBTree.java:284-338 | after a black node left the tree, the loop and the final painting of x restore properties 1-5, keep the entries, and return true |
| RBTrees.RBTree.DeleteFixUpLeft | src/trees/RBTree.java:286-309 | one round with x a left child: the invariant is kept, and a measure of depth and colour drops |
| RBTrees.RBTree.DeleteFixUpRight | src/trees/RBTree.java:310-333 | mirror of DeleteFixUpLeft |
| RBTrees.RBTree.DeleteCase1 | src/trees/RBTree.java:288-293 | red sibling: after the recolouring and rotation, x has a black sibling and a red parent |
| RBTrees.RBTree.DeleteCase3 | src/trees/RBTree.java:298-303 | near child red and far child black: after the rotation at w, the new sibling is black with a red far child |
| RBTrees.RBTree.DeleteCase4 | src/trees/RBTree.java:304-308 | red far child: after the recolouring and rotation at the parent, the whole tree needs only its root painted black |
| RedBlack.PlugRedBlack | src/trees/RBTree.java:19-22 | the tree is red-black exactly when the cursor's subtree and the frames above it satisfy the balance, no-red-red and black-root conditions |
| RedBlack.RevalueRedBlack | src/trees/RBTree.java:110-114 | overwriting a value keeps the red-black properties |
| RedBlack.BlackenRoot | src/trees/RBTree.java:178 | painting the root black makes a balanced tree with no red-red pair red-black, with keys and entries unchanged |
| RedBlack.InsertStart | src/trees/RBTree.java:121-131 | a new red node with `nil` children, hung in a red-black tree, satisfies the insertion fix-up invariant |
| RedBlack.InsertDone | src/trees/RBTree.java:143 | when the parent is black, or z is the root, only the root's colour can be wrong |
| RedBlack.InsertGrandparent | src/trees/RBTree.java:143-145 | a red parent has a black grandparent above it |
| RedBlack.InsertRecolor | src/trees/RBTree.java:146-150 | case 1, red uncle: the recolouring keeps the invariant at the grandparent |
| RedBlack.InsertRotateParent | src/trees/RBTree.java:152-155 | case 2: rotating at the parent makes z an outer grandchild and keeps the invariant |
| RedBlack.InsertRotateGrandparent | src/trees/RBTree.java:156-158 | case 3: the recolouring and rotation keep the invariant and leave a black parent |
| RedBlack.DeleteSplice | src/trees/RBTree.java:230-256 | cutting out a node with an empty child keeps a red-black tree when the node was red, and sets up the deletion invariant when it was black |
| RedBlack.DeleteDone | src/trees/RBTree.java:336 | a red x, or x at the root, painted black gives a red-black tree |
| RedBlack.DeleteSibling | src/trees/RBTree.java:287 | a black x below the root has a real sibling w |
| RedBlack.DeleteRedSibling | src/trees/RBTree.java:288-293 | case 1 keeps the invariant, with a red parent and a black sibling |
| RedBlack.DeleteRecolor | src/trees/RBTree.java:294-296 | case 2 keeps the invariant with x moved to its parent |
| RedBlack.DeleteRotateSibling | src/trees/RBTree.java:298-303 | case 3 keeps the invariant and gives w a red far child |
| RedBlack.DeleteRotateParent | src/trees/RBTree.java:304-308 | case 4 leaves a tree satisfying the invariant at the root |
| AvlTrees.AVLTree.constructor | src/trees/AVLTree.java:11-12 | a new tree has root `nil`, holds no entries, and every factor is within -1..1 |
| AvlTrees.AVLTree.LeftRotate | src/trees/AVLTree.java:243-259 | the arena stores the shape rotated left at x; in-order keys and entries are unchanged |
| AvlTrees.AVLTree.RightRotate | src/trees/AVLTree.java:261-277 | mirror of LeftRotate |
| AvlTrees.AVLTree.GetNodeByKey | src/trees/AVLTree.java:29-41 | returns the node holding `key`, or `nil` exactly when no entry has `key`, and the position the search stopped at |
| AvlTrees.AVLTree.GetNodeWithMinimumKey | src/trees/AVLTree.java:43-52 | returns no node for an empty subtree; otherwise the end of the left spine, holding the least key |
| AvlTrees.AVLTree.InsertNodeInAVLTree | src/trees/AVLTree.java:54-79 | the result is `Avl.InsertShape` of the old shape; it is a search tree with factors in -1..1 and entries old[key := value]; the answer is true |
| AvlTrees.AVLTree.BalanceForInsertingNode | src/trees/AVLTree.java:147-172 | the walk from the new node produces `Avl.Climb` of its position and returns true |
| AvlTrees.AVLTree.BumpParent | src/trees/AVLTree.java:153-158 | the parent's factor goes up by one when the cursor is its right child and down by one otherwise; nothing else changes |
| AvlTrees.AVLTree.Rotating | src/trees/AVLTree.java:81-145 | the arena stores `Avl.Rotating` of y; afterwards z's factor is 0 unless a single rotation leaves z on top with a nonzero factor |
| AvlTrees.AVLTree.SingleLeft | src/trees/AVLTree.java:88-97 | the table row for a right-heavy y whose child does not lean left, then one left rotation |
| AvlTrees.AVLTree.SingleRight | src/trees/AVLTree.java:115-124 | mirror of SingleLeft |
| AvlTrees.AVLTree.DoubleLeft | src/trees/AVLTree.java:98-114 | the table row for a child leaning left, then the two rotations; z's factor ends at 0 |
| AvlTrees.AVLTree.LiftLeft | src/trees/AVLTree.java:112-113 | `rightRotate(z)` then `leftRotate(y)` store the doubly rotated shape |
| AvlTrees.AVLTree.DoubleRight | src/trees/AVLTree.java:125-141 | mirror of DoubleLeft |
| AvlTrees.AVLTree.LiftRight | src/trees/AVLTree.java:139-140 | mirror of LiftLeft |
| AvlTrees.AVLTree.SetFactor | src/trees/AVLTree.java:90-95 | one balance-factor write: only that node's factor changes; the shape, keys and entries stay as they were |
| AvlTrees.AVLTree.Transplant | src/trees/AVLTree.java:230-241 | the arena is `Splice.Transplant` of the old one, including the sentinel's writes; the root becomes v exactly when u's parent was `nil` |
| AvlTrees.AVLTree.DeleteNodeFromAVLTree | src/trees/AVLTree.java:174-203 | the result and answer are `Avl.DeleteShape` of the old shape: a search tree without `key`; the answer is `Returned(false)` exactly when `key` was absent, and then the arena and root are unchanged |
| AvlTrees.AVLTree.RemoveWithSuccessor | src/trees/AVLTree.java:186-201 | the successor takes z's place and subtrees and keeps its factor; x's position is `Avl.Replacement` |
| AvlTrees.AVLTree.SpliceAdjacent | src/trees/AVLTree.java:187-199 | the two-child branch when the successor is z's right child |
| AvlTrees.AVLTree.SpliceSuccessor | src/trees/AVLTree.java:192-199 | the two-child branch when the successor lies deeper |
| AvlTrees.AVLTree.BalanceForDeletingNode | src/trees/AVLTree.java:205-228 | the walk from x produces `Avl.DeletionWalk` of its position |
| AvlTrees.AVLTree.DropParent | src/trees/AVLTree.java:209-214 | the parent's factor goes down by one when the cursor is its right child and up by one otherwise |
| AvlTrees.AVLTree.IsBalanced | src/trees/AVLTree.java:279-287 | true exactly when every stored factor in x's subtree is within -1..1 |
| Avl.BoundedNode | src/trees/AVLTree.java:280-285 | a subtree is bounded exactly when its root's factor is within -1..1 and both children are bounded |
| Avl.Rotating | src/trees/AVLTree.java:81-145 | `rotating` on shapes keeps the in-order keys and the entries |
| Avl.FactorsRotateLeft | src/trees/AVLTree.java:243-259 | a left rotation leaves the stored factors, in in-order, unchanged |
| Avl.FactorsRotateRight | src/trees/AVLTree.java:261-277 | a right rotation leaves the stored factors unchanged |
| Avl.RotatingBounded | src/trees/AVLTree.java:88-141 | the factors `rotating` writes are within -1..1, and after a single rotation the lifted child leans towards y |
| Avl.RotatingChild | src/trees/AVLTree.java:88-141 | where z ends up and its factor: on top with 0 when it leaned with y, below the lifted grandchild with 0 after a double rotation |
| Avl.ClimbStep | src/trees/AVLTree.java:152-169 | one round of the insertion walk keeps factors within -1..1 and keeps keys and entries, with or without the rotation |
| Avl.Climb | src/trees/AVLTree.java:147-172 | the whole insertion walk keeps the keys and entries and leaves every factor within -1..1 |
| Avl.ClimbRotationStops | src/trees/AVLTree.java:162-166 | once the walk has moved up, a rotation leaves the cursor's factor at 0 and ends the walk |
| Avl.InsertShape | src/trees/AVLTree.java:54-79 | inserting into a tree with factors within -1..1 keeps them there |
| Avl.InsertShapeSpec | src/trees/AVLTree.java:54-79 | insertion gives a search tree with factors within -1..1 holding the old entries with `key` mapped to `value` |
| Avl.Shrink | src/trees/AVLTree.java:208-226 | the deletion walk, as written, keeps keys and entries, and stops before `rotating` only below the root |
| Avl.DeletionWalk | src/trees/AVLTree.java:205-228 | the walk from x, including the read of `nil`'s key, keeps keys and entries |
| Avl.DeleteShapeSpec | src/trees/AVLTree.java:174-203 | deletion gives a search tree holding the old entries without `key`; `Returned(false)` exactly when `key` was absent, and then the tree is unchanged |
| Avl.AscendingExample | src/trees/AVLTree.java:88-97 | inserting 10, 20 and 30 gives 20 on top of 10 and 30, with every factor 0 |
| Avl.DriftExample | src/trees/AVLTree.java:98-111 | a double rotation reached by insertion leaves factors within -1..1 that differ from the true height differences |
| BinaryTrees.BinaryTree.constructor | src/trees/BinaryTree.java:8 | a new tree has root `null` and holds no entries |
| BinaryTrees.BinaryTree.SearchNode | src/trees/BinaryTree.java:22-34 | returns the node holding `key` with its value, or `null` exactly when no entry has `key` |
| BinaryTrees.BinaryTree.NodeWithMinimumKey | src/trees/BinaryTree.java:36-43 | `null` exactly for an empty subtree; otherwise the end of its left spine, whose key is the subtree's least |
| BinaryTrees.BinaryTree.NodeWithMaximumKey | src/trees/BinaryTree.java:45-52 | `null` exactly for an empty subtree; otherwise the end of its right spine, whose key is the subtree's greatest |
| BinaryTrees.BinaryTree.SuccessorNode | src/trees/BinaryTree.java:54-67 | `null` for `null`; for a node, `null` exactly when its key is the greatest, otherwise the node holding the next greater key |
| BinaryTrees.BinaryTree.PredecessorNode | src/trees/BinaryTree.java:69-82 | `null` for `null`; for a node, `null` exactly when its key is the least, otherwise the node holding the next smaller key |
| BinaryTrees.BinaryTree.InsertNode | src/trees/BinaryTree.java:84-111 | the result is `Bst.InsertShape`: a search tree with entries old[key := value]; an existing key only gets its value rewritten |
| BinaryTrees.BinaryTree.HangFresh | src/trees/BinaryTree.java:95-110 | the walk from the root and the links on the compared side hang the new node where the search for `key` ended |
| BinaryTrees.BinaryTree.Transplant | src/trees/BinaryTree.java:113-126 | the arena is `BstArena.Hang` of the old one, so v's parent link is set in the root case too (see Findings); the root becomes v exactly when u had no parent |
| BinaryTrees.BinaryTree.RemoveNode | src/trees/BinaryTree.java:128-148 | the result is `Bst.RemoveShape`: a search tree holding the old entries without `key`; for an absent key, the arena and root are unchanged |
| BinaryTrees.BinaryTree.RemoveWithSuccessor | src/trees/BinaryTree.java:137-147 | the corrected two-child branch (see Findings): the successor, not the maximum, is moved into y's place |
| BinaryTrees.BinaryTree.SpliceAdjacent | src/trees/BinaryTree.java:144-146 | corrected statements for a successor that is y's right child: it takes y's place and left subtree, and that subtree's parent link names it, not y |
| BinaryTrees.BinaryTree.SpliceSuccessor | src/trees/BinaryTree.java:139-146 | corrected statements for a deeper successor: its right child takes its place, then it takes y's place and both subtrees |
| Bst.NextKeys | src/trees/BinaryTree.java:54-67 | in a search tree, the next greater key after a node's is the first key of its right subtree, else the first key after its position; there is none when both are empty |
| Bst.PrevKeys | src/trees/BinaryTree.java:69-82 | mirror of NextKeys, for the next smaller key |
| Bst.MaxKey | src/trees/BinaryTree.java:45-52 | the end of a right spine holds the greatest key, and the keys end with it |
| Bst.InsertShapeSpec | src/trees/BinaryTree.java:84-111 | insertion gives a search tree with entries old[key := value], reusing the old nodes when the key was present and adding one node otherwise |
| Bst.RemoveShapeSpec | src/trees/BinaryTree.java:128-148 | removal, with the successor in the two-child case, gives a search tree holding the old entries without `key`, and changes nothing when `key` is absent |
| Bst.LostKeyExample | src/trees/BinaryTree.java:138-146 | with the right subtree's maximum as written, removing 2 from 2(1, 4(3, -)) loses the entry 3; the corrected removal keeps it |
| Bst.DisorderExample | src/trees/BinaryTree.java:138-146 | with the right subtree's maximum as written, removing 2 from 2(1, 4(3, 5)) leaves a tree out of order; the corrected removal does not |
| BstArena.Hang | src/trees/BinaryTree.java:113-126 | the corrected transplant never writes the `null` slot and keeps the arena's size |
| BstArena.CutOneStep | src/trees/BinaryTree.java:133-136 | removing a node with an empty child by the corrected transplant leaves an arena that stores an ordered tree holding every entry but the removed one |
| BstArena.CutAdjacentStep | src/trees/BinaryTree.java:144-146 | the corrected statements for a successor that is y's right child store `Bst.Spliced`, ordered and without y's entry |
| BstArena.CutSuccessorStep | src/trees/BinaryTree.java:139-146 | the corrected statements for a deeper successor store `Bst.Spliced`, ordered and without y's entry |
| BstArena.LeafStep | src/trees/BinaryTree.java:90-110 | a new node linked at the position the search ended leaves an arena storing an ordered tree with the new entry added |
| Bst.SplicedAsWritten | src/trees/BinaryTree.java:133-147 | with an empty child it agrees with the corrected `Bst.Spliced`; with two children the right subtree's greatest key moves into the node's place and the keys of its left subtree are missing from what remains |
| Bst.RemoveAsWritten | src/trees/BinaryTree.java:128-148 | removeNode as written agrees with the corrected `Bst.RemoveShape` unless the node holding `key` has two children |
| BstArena.TransplantAsWritten | src/trees/BinaryTree.java:113-126 | transplant as written keeps every link inside the arena, and the root is the old one or v |
| BstArena.TwoChildAsWritten | src/trees/BinaryTree.java:138-146 | the two-child branch as written keeps every link inside the arena |
| BstArena.StaleRootExample | src/trees/BinaryTree.java:113-117 | after insert 1, 2 and removeNode(1), node 2 is the root but its parent link still names 1; removeNode(2) then leaves 2 the root |
| BstArena.ParentLinkExample | src/trees/BinaryTree.java:144-146 | removing 2 from 2(1, 3) as written makes 3 the root with left child 1, but 1's parent link names the removed node 2 |

## Left out

- Printing: the `print*InorderWalk` methods (src/trees/RBTree.java:345-356, src/trees/AVLTree.java:289-300, src/trees/BinaryTree.java:150-161) and the debug print at src/trees/AVLTree.java:207 are console output only.
- Generic keys and `Comparable`: keys are `int` and `compareTo` is integer comparison; values are a type parameter.
- Object identity and allocation: a `new Node` is the next arena index. Removed nodes stay in the arena, unreachable; garbage collection is not modelled.
- Balance factors are unbounded integers. Java's `int` cannot overflow here, because the modelled walks keep every factor within -2..2.
- AvlTrees.AVLTree.InsertNodeInAVLTree: also requires that every stored factor is within -1..1. The constructor and insertion keep that, but the deletion model does not promise it, so insertion after a deletion is not covered.
- AvlTrees.AVLTree.DeleteNodeFromAVLTree: the model follows `balanceForDeletingNode` only until it reads the key of `nil` (outcome `NilKeyRead`, a null dereference in Java) or is about to call `rotating` (outcome `RotationReached`; the rotation and the rest of the walk are not modelled). No balance claim is made for deletion: its stop test reads the child's factor after the parent's was written (src/trees/AVLTree.java:215), and that can leave wrong factors.
- Avl.Rotating: the double-rotation rows (src/trees/AVLTree.java:99-111, 126-138) are modelled as written. They write z's factor twice and never the lifted grandchild's. Only "every factor stays within -1..1" is proved, not that factors equal height differences (Avl.DriftExample shows they can differ).
- RBTrees.RBTree.InsertRBFixUp: the proof shows that every round moves the cursor closer to the root, so the loop ends. The bound of at most two rotations is not stated.
- RBTrees.RBTree.GetNodeWithMinimumKey and AvlTrees.AVLTree.GetNodeWithMinimumKey: Java's `null` result for a `nil` argument is `None`.
- BinaryTrees.BinaryTree.Transplant, BinaryTrees.BinaryTree.RemoveNode, BinaryTrees.BinaryTree.RemoveWithSuccessor, BinaryTrees.BinaryTree.SpliceAdjacent, BinaryTrees.BinaryTree.SpliceSuccessor: these run the corrected statements, not the Java ones (see Findings): the minimum of the right subtree, not the maximum, takes the node's place; that node keeps x's left subtree; the moved subtree's parent link is set with `x.left.parent = x`; and transplant sets v's parent link in the root case too. The as-written versions are the functions `BstArena.TransplantAsWritten`, `BstArena.TwoChildAsWritten` and `Bst.RemoveAsWritten`. The as-written removal has no ordering claim; only the examples exhibit it.

## Findings

| source | as written | input that shows it | evidently intended | confidence | as-written member | corrected member |
|---|---|---|---|---|---|---|
| src/trees/BinaryTree.java:113-117 | when u is the root, `transplant` sets `root = v` and returns, so v's parent link still names u | insert 1, insert 2, removeNode(1), removeNode(2): key 2 is still the root | v's parent link is set, to `null`, in the root case too | high; not executed | BstArena.StaleRootExample | BstArena.CutOneStep |
| src/trees/BinaryTree.java:138 | the two-child branch moves the *maximum* of y's right subtree into y's place, dropping that node's left subtree | insert 2, 1, 4, 3 then removeNode(2): key 3 is lost (with 5 also inserted, the order breaks) | the successor, the *minimum* of the right subtree, takes y's place | high; not executed | Bst.LostKeyExample | Bst.RemoveShapeSpec |
| src/trees/BinaryTree.java:146 | `y.left.parent = y` points the moved left subtree at the removed node | insert 2, 1, 3 then removeNode(2): node 1's parent link names the removed node 2 | `x.left.parent = x` | high; not executed | BstArena.ParentLinkExample | BstArena.CutAdjacentStep |
