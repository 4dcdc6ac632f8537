# Binary search tree, modelled in Dafny

This project models `binary-search-tree.js`. That file defines a `Node` class, which holds a value and a `left` and `right` link, and a `BinarySearchTree` class, which holds a `root`. The tree class has these operations:

- `insert`: iterative descent.
- `insertRecursively`: inner `addNode`.
- `find`: explicit stack.
- `findRecursively`: inner `search`.
- The three depth-first traversals, each an inner `traverse` pushing onto a result array.
- `bfs`: FIFO queue.
- `remove`: inner `removeNode` and `findMin`.
- `isBalanced`: inner `getHeight` with a `-1` sentinel.
- `findSecondHighest`.

How the source maps onto Dafny:

- **Nodes are values.** A subtree is the datatype `Trees.Tree`: `Nil` for a `null` link, `Node(left, val, right)` otherwise.
- **The tree object is a class.** `SearchTree.BinarySearchTree` has the one field `root: Tree`.
- **Mutations reassign `root`.** Every method that the source writes as a mutation of nodes reassigns `root` to the updated tree.
- **Loops stay loops.** The `insert` descent, the `find` stack, the `bfs` queue, `findMin` and the spine walks of `findSecondHighest` are `while` loops with invariants.
- **Recursive inner functions are Dafny functions.** `addNode`, `search`, `removeNode` and `getHeight` become recursive functions. The three `traverse` closures become recursive methods that thread the result array through.

Each loop or function is proved against an independent specification:

- **Lookups.** The first node in pre-order that holds the value, and membership in the tree's multiset of values.
- **Traversals.** The recursive pre-, in- and post-order sequences, and a level-by-level order.
- **Removal and insertion.** Their effect on the value multiset and on the ordering invariant.
- **Balance.** The height and the AVL balance predicate.
- **Second highest.** The next-to-last element of the in-order sequence.

The ordering invariant is the one `insert` keeps: values smaller than a node's value go left, and all others, including equal values, go right. So the invariant is `left < val <= right`.

## Model

| member | source | states |
|---|---|---|
| SearchTree.BinarySearchTree.constructor | binary-search-tree.js:10-12 | the new tree's root is the given root, and `Nil` (the source's `null`) when none is given |
| SearchTree.BinarySearchTree.Insert | binary-search-tree.js:17-42 | the loop's new root is `InsertTree(old root, val)`: one more occurrence of `val`, and the ordering invariant is kept |
| Insertion.InsertTreeSpec | binary-search-tree.js:17-42 | insertion adds exactly one occurrence of the value; an empty tree becomes a single leaf |
| Insertion.InsertTreeOrdered | binary-search-tree.js:26-38 | descending left on `<` and right otherwise keeps `left < val <= right` |
| Insertion.PlugExtend | binary-search-tree.js:23-39 | one descent step extends the path from the root by the node left behind |
| Insertion.BuildIterativelySpec | binary-search-tree.js:17-42 | repeated `insert` from an empty tree holds exactly the inserted values and keeps the ordering |
| SearchTree.BinarySearchTree.InsertRecursively | binary-search-tree.js:47-72 | the new root is a leaf for an empty tree, else `addNode` of the old root; on an ordered tree it is unchanged exactly when `val` is already held, else equal to `insert`'s result |
| Insertion.AddNodeSpec | binary-search-tree.js:53-68 | `addNode` leaves the tree unchanged when it meets an equal value on the way down, and otherwise attaches the same leaf as `insert` |
| Insertion.OnDescentPathOrdered | binary-search-tree.js:54-66 | on an ordered tree the descent meets an equal value exactly when the tree holds it |
| Insertion.AddNodeOrdered | binary-search-tree.js:53-70 | on an ordered tree `addNode` is the identity for a held value and `insert` otherwise |
| Insertion.BuildersAgreeOnDistinct | binary-search-tree.js:17-72 | for insertion sequences without repeats, `insert` and `insertRecursively` build the same tree |
| Insertion.BuildersDifferOnRepeat | binary-search-tree.js:60-66 | with a repeated value they differ: `insertRecursively` drops the repeat (sizes 2 and 1 for `5, 5`) |
| SearchTree.BinarySearchTree.Find | binary-search-tree.js:77-101 | the result is the first node in pre-order holding `val`; it is found exactly when some node holds `val`, and it is a node of the tree holding `val` |
| Lookup.StackTop | binary-search-tree.js:84-98 | popping the top node either returns it (when it holds the value) or pushes its present children, keeping the search outcome and shrinking the pending nodes |
| Lookup.StackStep | binary-search-tree.js:91-97 | pushing the right then the left child in place of a node not holding the value preserves the outcome |
| Lookup.FirstPreOrderSpec | binary-search-tree.js:77-101 | a node is found exactly when the value is held, and the found node holds it and is a subtree of the tree |
| Lookup.FirstPreOrderIsFirst | binary-search-tree.js:84-98 | the pre-order sequence is a prefix without the value, then the found node's subtree, then the rest |
| SearchTree.BinarySearchTree.FindRecursively | binary-search-tree.js:106-126 | the result is `search` from the root (none for an empty tree); any node returned holds `val`; on an ordered tree it is found exactly when held |
| Lookup.SearchSound | binary-search-tree.js:111-122 | whatever the shape, `search` returns only a subtree holding the value |
| Lookup.SearchComplete | binary-search-tree.js:111-122 | on an ordered tree `search` finds the value exactly when some node holds it |
| Traversals.TraversePreOrder | binary-search-tree.js:133-140 | the closure appends exactly the pre-order sequence of the subtree to the result |
| SearchTree.BinarySearchTree.DfsPreOrder | binary-search-tree.js:131-143 | the result is the pre-order sequence of the tree |
| Traversals.PreOrderContents | binary-search-tree.js:131-143 | pre-order lists every node once, is empty exactly for an empty tree, and starts with the root |
| Traversals.TraverseInOrder | binary-search-tree.js:150-157 | the closure appends exactly the in-order sequence of the subtree |
| SearchTree.BinarySearchTree.DfsInOrder | binary-search-tree.js:148-160 | the result is the in-order sequence, which is sorted on an ordered tree |
| Traversals.InOrderContents | binary-search-tree.js:148-160 | in-order lists every node once and is empty exactly for an empty tree |
| Traversals.InOrderSorted | binary-search-tree.js:148-160 | on an ordered tree the in-order sequence is non-decreasing |
| Traversals.TraversePostOrder | binary-search-tree.js:167-174 | the closure appends exactly the post-order sequence of the subtree |
| SearchTree.BinarySearchTree.DfsPostOrder | binary-search-tree.js:165-177 | the result is the post-order sequence of the tree |
| Traversals.PostOrderContents | binary-search-tree.js:165-177 | post-order lists every node once, is empty exactly for an empty tree, and ends with the root |
| SearchTree.BinarySearchTree.Bfs | binary-search-tree.js:182-204 | the result is the level order of the tree: the values of each level left to right, level after level |
| Traversals.QueueFront | binary-search-tree.js:190-201 | taking the front node emits its value and appends its present children, left first, to a queue of present nodes that holds fewer pending nodes |
| Traversals.QueueOrderIsPending | binary-search-tree.js:190-201 | a queue holding the rest of one level followed by the start of the next emits exactly that level's rest and then the levels below |
| Traversals.QueueOrderOfTree | binary-search-tree.js:184-201 | the queue seeded with the root, when present, emits the level order |
| Traversals.LevelOrderOfTree | binary-search-tree.js:182-204 | level order lists every node once, is empty exactly for an empty tree, and starts with the root |
| SearchTree.BinarySearchTree.Remove | binary-search-tree.js:210-248 | the new root is `removeNode(val, old root)`; a value not held leaves the tree as it was; on an ordered tree one occurrence of `val` is removed and the ordering is kept |
| Removal.RemoveAbsent | binary-search-tree.js:213-240 | removing a value no node holds is a no-op, whatever the shape |
| Removal.RemoveSpec | binary-search-tree.js:213-240 | on an ordered tree the values lose exactly one occurrence of `val` (none if absent), and the ordering is kept |
| Removal.FindMin | binary-search-tree.js:242-247 | the loop ends at the leftmost node of the subtree |
| Trees.LeftmostIsMinimum | binary-search-tree.js:235-237 | in an ordered subtree the leftmost node holds a least value, the in-order successor |
| Removal.SuccessorRemovalSplices | binary-search-tree.js:235-237 | removing the successor's value from the right subtree splices out its leftmost node, which never has two children |
| Roundtrips.RemoveOnlyCopy | binary-search-tree.js:210-248 | after removing the only node holding a value, `find` misses it and the in-order sequence is one shorter and still sorted |
| Roundtrips.InsertedAreFound | binary-search-tree.js:17-126 | after a run of `insert`, both lookups find exactly the inserted values |
| Balance.GetHeightSpec | binary-search-tree.js:254-267 | the sentinel pass returns the height when every node is balanced and -1 otherwise |
| SearchTree.BinarySearchTree.IsBalanced | binary-search-tree.js:253-270 | the result is true exactly when every node's subtrees differ in height by at most one |
| SearchTree.BinarySearchTree.FindSecondHighest | binary-search-tree.js:276-307 | the result is the next-to-last value of the in-order sequence, none for fewer than two nodes |
| Trees.RightmostIsMaximum | binary-search-tree.js:283-286 | in an ordered tree the right-spine walk ends at a greatest value |
| SecondHighest.LeftOfMaximum | binary-search-tree.js:288-295 | when the rightmost node has a left subtree, the answer is that subtree's rightmost value |
| SecondHighest.SpineParent | binary-search-tree.js:297-304 | the spine walk stops at the node whose right child is the rightmost node |
| SecondHighest.SpineTestExact | binary-search-tree.js:300 | on the right spine, a node's right child equals the rightmost node exactly when that node is the spine parent, so the structural test stops where the identity test `===` does |
| SecondHighest.ParentOfMaximum | binary-search-tree.js:297-304 | otherwise the answer is the value of the rightmost node's parent on the right spine |
| SecondHighest.SecondHighestIsSecondLargest | binary-search-tree.js:272-307 | on an ordered tree an answer exists exactly for two or more nodes, and it is a greatest value once one occurrence of the maximum is set aside |
| Examples.SampleBuilt | binary-search-tree.js:17-42 | inserting 5, 3, 8, 1, 4, 7, 9 builds the expected three-level tree |
| Examples.SamplePreOrder | binary-search-tree.js:131-143 | its pre-order is 5, 3, 1, 4, 8, 7, 9 |
| Examples.SampleInOrder | binary-search-tree.js:148-160 | its in-order is 1, 3, 4, 5, 7, 8, 9 |
| Examples.SamplePostOrder | binary-search-tree.js:165-177 | its post-order is 1, 4, 3, 7, 9, 8, 5 |
| Examples.SampleLevelOrder | binary-search-tree.js:182-204 | its level order, which `bfs` emits, is 5, 3, 8, 1, 4, 7, 9 |
| SearchTree.SampleSession | binary-search-tree.js:10-42 | a tree made with no argument and given 5, 3, 8, 1, 4, 7, 9 by `insert` walks in order as 1, 3, 4, 5, 7, 8, 9 and has 8 as its second highest |
| Examples.SampleSecondHighest | binary-search-tree.js:276-307 | its second highest value is 8 |
| Examples.SmallSecondHighest | binary-search-tree.js:277-279 | none for the tree of 5 alone; 3 for the tree of 5, 3 |
| Examples.SampleRemoveRoot | binary-search-tree.js:224-238 | removing the root 5 promotes its successor 7 |
| Examples.SampleBalanced | binary-search-tree.js:253-270 | the sample has height 3 and is balanced; a three-node chain is not |
| Examples.MedianFirstBalanced | binary-search-tree.js:253-270 | median-first insertion of 1..7 yields height 3 (balanced) |
| Examples.IncreasingUnbalanced | binary-search-tree.js:253-270 | increasing insertion of 1..5 yields the unbalanced sentinel |
| Examples.EmptyTree | binary-search-tree.js:131-307 | on the empty tree the traversals are empty, no value is found, the height is 0 and there is no second highest |

### Points where the code decides

- **Ordering direction.** The code of `insert` (lines 25-40) sends a value equal to a node's value to the right. So the ordering invariant is `left < val <= right`, not `left <= val < right`.
- **`insert` and `insertRecursively` differ on repeated values.** Their doc comments (lines 14-15 and 44-45) describe the same insertion. But `addNode` (lines 54-66) does nothing when the value equals the current node's. So `insertRecursively` drops repeated values, while `insert` adds them to the right. `Insertion.BuildersAgreeOnDistinct` and `Insertion.BuildersDifferOnRepeat` state both sides.
- **Second highest of 5, 3, 8, 1, 4, 7, 9.** The code walks the right spine to 9, which has no left child, and returns its parent's value, 8. `Examples.SampleSecondHighest` states 8.
- **`remove` returns nothing.** The doc comment at lines 206-208 says `remove` returns the removed node. The code returns nothing, so `Remove` has no out-parameter.

## Left out

- `module.exports` (line 310) and the `return this` chaining of `insert` and `insertRecursively`. The methods update `root` and return nothing.
- Node identity and aliasing. A node is its subtree value:
  - `find` and `findRecursively` return the found subtree.
  - The `parent.right === curNode` identity test of `findSecondHighest` becomes structural equality. `SecondHighest.SpineTestExact` proves that the structural test succeeds only at the spine parent, which is where the identity test succeeds.
  - A root passed to the constructor and shared with a caller is not modelled as shared.
- In-place link updates. The effect of `insert`, `addNode` and `removeNode` on node objects is modelled by rebuilding the path from the root (`Insertion.Plug`, `Removal.RemoveNode`). Overwriting `node.val` during successor promotion is a new node with the successor's value.
- Values are integers. JavaScript's loose truthiness, `NaN` and mixed-type comparisons are not modelled. `===` and `<` are integer equality and order.
- The complexity claims (single pass for `isBalanced`, O(h) descents) are not stated.
