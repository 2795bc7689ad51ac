# Trees, binary search trees and adjacent-element algorithms

This project is a Dafny model of the two hand-written algorithmic parts of the
cxx-reminder repository, with proofs about them.

- `src/Trees.cpp`:
  - general trees built from `Node`, whose node holds a value, its parent and an
    ordered list of children;
  - the recursive pre-, in- and post-order traversals of `Node`;
  - the non-recursive depth-first traversal (explicit stack, children pushed in
    reverse) and breadth-first traversal (explicit queue) of `Node`;
  - the unbalanced binary search tree `NodeBST`, with `Insert`, `Find` and
    `Delete`: equal keys go left, and delete handles a leaf, one child, and
    two children (the node takes the maximum of its left subtree);
  - the `NodeBST` overloads of the in-order, depth-first and breadth-first traversals.
- `src/Algorithms.cpp`, lines 26-94: the helpers `adjacent_reduce`,
  `adjacent_inclusive_scan` and `adjacent_exclusive_scan`.

The model has four files:

- **`Trees.dfy`** (module `Trees`):
  - `Tree` is the value of a general subtree.
  - `PreOrder`, `InOrder` and `PostOrder` are the recursive traversals, as
    functions that return the visited values instead of printing them.
  - `Node` is a class with the source's fields (`data`, `parent`, `children`)
    and `AddChild`, `IsRoot` and `IsLeaf`. `IsRoot` and `IsLeaf` are
    predicates defined exactly as in the source.
  - A ghost `depth` on each node (the source's own notion of depth) makes
    following child links inside a set of nodes end (`Closed`: every child is
    in the set and deeper than its parent), and `TreeOf` reads a node's
    subtree off the heap as a `Tree`. `Closed` does not exclude a node listed
    under two parents; `TreeOf` then reads its subtree under each.
  - `TraverseDepthFirst` and `TraverseBreadthFirst` are methods with the
    source's loops, proved equal to pre-order and to level order.
- **`SearchTree.dfy`** (module `SearchTree`):
  - `BinTree` is the value of a binary search tree.
  - `TreeInsert`, `Reaches` (the search `Find` makes) and `TreeDelete` are
    the operations on that value.
  - Lemmas state the search-tree ordering, the multiset of values, sortedness
    of in-order, and the relation of the binary traversals to the general ones.
- **`SearchTreeNodes.dfy`** (module `SearchTreeNodes`):
  - `NodeBST` is a class with the source's fields (`data`, `parent`, `left`,
    `right`), a ghost footprint `Repr`, a validity invariant `Valid` and an
    abstraction `Model` to `BinTree`.
  - `Insert` and `Delete` are methods that change the links in place, and
    `Find` is a function.
  - Each is proved to do to the linked tree what the matching `SearchTree`
    operation does to its value.
  - The three BST traversals are here too: recursive in-order, stack and queue.
- **`Algorithms.dfy`** (module `AdjacentAlgorithms`):
  - `AdjacentReduce` is a function over a left-to-right `TransformReduce`.
  - The two scans are methods that write into an `array` from a start
    position, proved against the reference functions `InclusiveScan` and
    `ExclusiveScan`.

## Model

| member | source | states |
|---|---|---|
| Trees.TraversalLengths | src/Trees.cpp:52-90 | pre-order, in-order and post-order each list exactly as many values as the subtree has nodes |
| Trees.TraversalsArePermutations | src/Trees.cpp:52-90 | post-order and in-order visit the same multiset of values as pre-order: every node exactly once |
| Trees.InOrderSmallFanOut | src/Trees.cpp:64-78 | the general in-order (first half of the children rounded down, the node, the rest) puts the node first when there is at most one child, and between the two children when there are two, as a binary in-order does |
| Trees.AppendLeaf | src/Trees.cpp:30-34 | a new leaf appended last among the children comes last in pre-order and just before its parent in post-order, and adds one to the size |
| Trees.LevelOrderIsPermutation | src/Trees.cpp:109-123 | breadth-first (level) order visits every node exactly once: it is a permutation of pre-order and has as many values as the tree has nodes |
| Trees.Node.constructor | src/Trees.cpp:20-24 | a new node holds the value, points to the given parent and has no children |
| Trees.Node.AddChild | src/Trees.cpp:30-34 | appends one fresh childless node holding the value, whose parent is this node and whose depth is one more, to the end of the children, and returns it; nothing else changes; a closed set of nodes holding this node stays closed with the child added |
| Trees.LeafTraversal | src/Trees.cpp:41-44 | a node is a leaf exactly when its subtree's pre-order is its own value alone |
| Trees.ChildrenTrees | src/Trees.cpp:46-49 | the subtree of a node has one child subtree per child pointer, in the same order |
| Trees.PreOrderStackReversed | src/Trees.cpp:104-105 | pushing a node's children in reverse puts the first child on top, so the stack then yields the children's pre-orders in order |
| Trees.TraverseDepthFirst | src/Trees.cpp:92-107 | the stack-based traversal visits the values in exactly the recursive pre-order |
| Trees.LevelPendingStep | src/Trees.cpp:114-122 | taking the front of the current level and queueing its children leaves the same remaining level order |
| Trees.TraverseBreadthFirst | src/Trees.cpp:109-123 | the queue-based traversal visits the values level by level, left to right: the level order of the tree |
| SearchTree.InsertElements | src/Trees.cpp:221-247 | insert adds exactly one occurrence of the value to the tree's multiset |
| SearchTree.InsertKeepsBST | src/Trees.cpp:221-247 | insert keeps the ordering: left values at most the node's, right values greater |
| SearchTree.ReachesIffMember | src/Trees.cpp:249-267 | on a search tree the search reaches a node holding x exactly when x is stored |
| SearchTree.DeleteAbsent | src/Trees.cpp:271-282 | deleting a value the search does not reach leaves the tree unchanged |
| SearchTree.DeleteElements | src/Trees.cpp:269-374 | deleting a value that is present removes exactly one occurrence |
| SearchTree.DeleteKeepsBST | src/Trees.cpp:269-374 | delete keeps the search-tree ordering |
| SearchTree.DeleteShrinks | src/Trees.cpp:269-374 | delete adds no value |
| SearchTree.MaxIsLargest | src/Trees.cpp:352-361 | on a search tree the end of the right spine holds the largest value, and that value is stored |
| SearchTree.RemoveMaxElements | src/Trees.cpp:352-362 | removing the end of the right spine removes exactly its value |
| SearchTree.RemoveMaxKeepsBST | src/Trees.cpp:352-362 | removing the end of the right spine keeps the ordering |
| SearchTree.InOrderElements | src/Trees.cpp:376-394 | the binary in-order lists every stored value once |
| SearchTree.InOrderSorted | src/Trees.cpp:465 | the in-order of a search tree is non-decreasing |
| SearchTree.PreOrderAsTree | src/Trees.cpp:396-418 | the binary pre-order (node, left, right) is the general pre-order of the same tree seen with children left then right |
| SearchTree.PreOrderElements | src/Trees.cpp:396-418 | the binary pre-order lists every stored value once |
| SearchTree.LevelOrderElements | src/Trees.cpp:420-441 | breadth-first order lists every stored value once |
| SearchTreeNodes.NodeBST.constructor | src/Trees.cpp:179-183 | a new node holds the value, points to the given parent, has no children and is a one-value tree |
| SearchTreeNodes.NodeBST.Insert | src/Trees.cpp:221-247 | the linked tree becomes TreeInsert of its old value; the returned node is fresh, holds the value, has no children and hangs from a node of the old tree; no old node's value changes; the tree stays valid |
| SearchTreeNodes.NodeBST.Find | src/Trees.cpp:249-267 | returns null exactly when the search does not reach the value; otherwise a node of the subtree that holds the value |
| SearchTreeNodes.FindIffStored | src/Trees.cpp:194-196 | on a search tree Find returns a node exactly when the value is stored |
| SearchTreeNodes.LeafHoldsOnlyItself | src/Trees.cpp:208-211 | a node is a leaf exactly when its subtree holds its own value and nothing else |
| SearchTreeNodes.NodeBST.Delete | src/Trees.cpp:269-374 | the subtree that takes the node's place (`sub`: the node itself, or its only child when the node itself held the value and had at most one child) stands for TreeDelete of the old value and is linked to the old parent; the return value is, by case, the parent of the removed position, null for a lone root leaf, the child for a one-child root, the relabelled root itself in the two-child case; a value that is not reached returns null and changes nothing |
| SearchTreeNodes.NodeBST.Unlink | src/Trees.cpp:285-351 | a leaf is unlinked and a one-child node's child (`sub`, null for a leaf) takes its place under the parent and stands for TreeDelete of the old value; the return value is the parent, or the child (null for a leaf) at the root |
| SearchTreeNodes.NodeBST.UnlinkAsWritten | src/Trees.cpp:307-351 | as written, the promoted child keeps pointing at the removed node, so the parent's subtree is no longer valid and a promoted root does not answer IsRoot |
| SearchTreeNodes.NodeBST.MaxOfLeft | src/Trees.cpp:355-360 | walking right from the left child ends on the node of the right spine with no right child, which holds the maximum of the left subtree |
| SearchTreeNodes.NodeBST.TakeMaxOfLeft | src/Trees.cpp:352-372 | in the two-child case the node takes the maximum of its left subtree, that node is deleted, the tree stands for TreeDelete of the old deleted value, and the node itself is returned at the root, else its parent |
| SearchTreeNodes.DeleteSeenFromRoot | src/Trees.cpp:474-477 | a caller holding only the root sees the effect of Delete: after inserting 23 and 11 below 30 and deleting 23, the depth-first traversal from the root is exactly [30, 11] |
| SearchTreeNodes.TraverseInOrder | src/Trees.cpp:376-394 | the recursive traversal returns the in-order of the linked tree (an empty list for no node) |
| SearchTreeNodes.InOrderIsSortedContents | src/Trees.cpp:465 | on a search tree the in-order traversal lists every stored value once, non-decreasing |
| SearchTreeNodes.PushChildren | src/Trees.cpp:408-416 | pushing the right child and then the left child pushes the present children in reverse |
| SearchTreeNodes.TraverseDepthFirst | src/Trees.cpp:396-418 | the stack-based traversal visits the values in exactly the binary pre-order |
| SearchTreeNodes.EnqueueChildren | src/Trees.cpp:432-439 | the queue gains the present children, left then right |
| SearchTreeNodes.TraverseBreadthFirst | src/Trees.cpp:420-441 | the queue-based traversal visits the values level by level, left to right |
| AdjacentAlgorithms.TransformReduceIsFold | src/Algorithms.cpp:37 | transform_reduce over two ranges, evaluated left to right, is the left fold of reduce over transform(first[i], second[i]) |
| AdjacentAlgorithms.AdjacentReduceIsFold | src/Algorithms.cpp:29-38 | for a non-empty range adjacent_reduce is the left fold of reduce from accInit over transform(xs[i], xs[i+1]) for i = 0 .. n-2 |
| AdjacentAlgorithms.AdjacentReduceSingle | src/Algorithms.cpp:37 | on a one-element range accInit comes back unchanged |
| AdjacentAlgorithms.AdjacentReduceSnoc | src/Algorithms.cpp:29-38 | appending an element folds one more pair, (old last, new), into the result |
| AdjacentAlgorithms.InclusiveScan | src/Algorithms.cpp:46-63 | one output per input element |
| AdjacentAlgorithms.InclusiveScanAt | src/Algorithms.cpp:51-60 | out[0] = xs[0] and out[i] = accOp(out[i-1], transformOp(xs[i], xs[i-1])) for 1 <= i < n |
| AdjacentAlgorithms.InclusiveScanPrefix | src/Algorithms.cpp:54-59 | the scan of a prefix is the prefix of the scan: each output depends only on the inputs up to it |
| AdjacentAlgorithms.AdjacentInclusiveScan | src/Algorithms.cpp:46-63 | writes exactly the inclusive scan into the n cells from `out`, changes no other cell, and returns one past the last cell written (`out` itself for empty input) |
| AdjacentAlgorithms.ExclusiveScan | src/Algorithms.cpp:71-94 | one output per input element, for any length but 1 |
| AdjacentAlgorithms.ExclusiveScanAt | src/Algorithms.cpp:76-91 | out[0] = accInit, out[1] = accOp(accInit, xs[0]) and out[i+1] = accOp(out[i], transformOp(xs[i], xs[i-1])) for 1 <= i <= n-2 |
| AdjacentAlgorithms.ExclusiveScanPrefix | src/Algorithms.cpp:85-90 | the scan of a prefix of length at least 2 is the prefix of the scan |
| AdjacentAlgorithms.ExclusiveScanIgnoresLast | src/Algorithms.cpp:83-89 | the last input element is never read: replacing it changes no output |
| AdjacentAlgorithms.ExclusiveIsShiftedInclusive | src/Algorithms.cpp:71-94 | when accOp(accInit, xs[0]) == xs[0], the exclusive scan is accInit followed by the inclusive scan of all but the last element |
| AdjacentAlgorithms.ExclusiveIsShiftedInclusiveSum | src/Algorithms.cpp:459-461 | with + and 0, exclusive out[i+1] equals inclusive out[i] for 0 <= i <= n-2 |
| AdjacentAlgorithms.AdjacentExclusiveScan | src/Algorithms.cpp:71-94 | writes exactly the exclusive scan into the n cells from `out`, changes no other cell, and returns one past the last cell written (`out` itself for empty input) |

## Left out

- `printf` in every traversal: each traversal returns the sequence of visited values instead.
- Heap deallocation (`delete this`, `~Node`, `~NodeBST`): Dafny has no deallocation, so removed nodes simply become unreachable.
  - `~NodeBST` frees `m_left` and `m_right` (src/Trees.cpp:184-188), so in the source `delete this` in the one-child case also frees the promoted child.
  - The model keeps the promoted child alive, as the comment at src/Trees.cpp:307 intends.
- SearchTreeNodes.NodeBST.Delete: re-points the promoted child's `parent` to the removed node's parent, which the source never does. `UnlinkAsWritten` models the code as written (see Findings).
- Trees.TraverseDepthFirst: requires a node, since pushing a null node makes the source dereference it.
  - This also applies to Trees.TraverseBreadthFirst, SearchTreeNodes.TraverseDepthFirst and SearchTreeNodes.TraverseBreadthFirst.
  - The recursive traversals accept "no node" in the source and return nothing for it. The `NodeBST` in-order traversal models that. The general recursive traversals are functions on `Tree` values, read off non-null nodes by `TreeOf`.
- The demo drivers `Trees()` and `BinarySearchTree()` (src/Trees.cpp:125-162, 442-481) and the demo functions of `src/Algorithms.cpp`: they call the modelled operations on fixed inputs and print. Only the driver's pattern of deleting through the root and traversing from it again is modelled, by `DeleteSeenFromRoot` on a smaller tree.
- `int` is unbounded in the model. Node values are only compared, never computed in the tree code. The accumulators of the algorithms are generic, so no wrap-around arises in the model.
- AdjacentAlgorithms.AdjacentReduce: fixes the left-to-right evaluation order of `std::transform_reduce`. The standard allows regrouping, which only matters for a `reduce` that is not associative and commutative. The order chosen is the one the formula comment at src/Algorithms.cpp:408 describes.
- The scans read each input with `prev = std::move(*begin)` (src/Algorithms.cpp:58, 89). With mutable input iterators that leaves the input elements moved-from. The input is a `seq` value in the model, so it cannot show this.
- The output iterator of the scans is a position in an `array`. An output range that overlaps the input is not modelled, since the input is a value (`seq`).
- `adjacent_reduce` on an empty range and `adjacent_exclusive_scan` on a one-element range are undefined behaviour in the source (the `--end`). These are preconditions of `AdjacentReduce` and `AdjacentExclusiveScan`.
- The `Node` default constructor and the `NodeBST` default constructor (value 0, no parent) are not modelled separately: they are the constructors called with 0 and null.
- Every other file of the repository (concurrency, I/O, ranges, data structures, traits, math module, graphs, main) is not part of this model.

## Findings

| source | as written | input that shows it | evidently intended | confidence | as-written member | corrected member |
|---|---|---|---|---|---|---|
| src/Trees.cpp:307-351 | deleting a node with one child links the child to the node's parent, but leaves the child's `m_parent` pointing at the deleted node | tree 30 with left child 23, whose left child is 11; `Delete(23)` leaves 11 under 30 with `m_parent` = the deleted node 23; deleting a one-child root returns a new root whose `IsRoot()` is false | the child points back to its new parent (null at the root), so parent links stay consistent | not executed | SearchTreeNodes.NodeBST.UnlinkAsWritten | SearchTreeNodes.NodeBST.Unlink |
