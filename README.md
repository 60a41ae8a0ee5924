# Recursion exercises, modelled in Dafny

The repository holds three Ruby exercises. This project models each of them and proves properties about the model.

- **Binary search tree.** A merge sort (`merge_sort`, `_merge_helper`) and a `BinarySearchTree` constructor. The constructor sorts an array and builds a balanced tree from it by repeatedly choosing the middle element (`build_tree`). Tree nodes come from `BinaryTreeNode`, which has a data field, two optional children, a comparison that follows the data, and `has_left?` / `has_right?` / `has_children?`.
- **Fibonacci list.** `fib_rec(n)` builds the first n + 1 Fibonacci numbers; `fibonnaci_sequence` rejects negative lengths.
- **Knight's travails.** `KnightTravalis#knight_moves` does a breadth-first search for the shortest knight path between two squares of a square board. Each square is queued as a `ReverseTreeNode`, which points to the node it was reached from. `_min_moves_data` then walks back from the last node to recover the route.

Layout, one Dafny module per source file:

- `tree_array_sort.dfy` (`TreeArraySort`): the merge specification `Merge`, the loop `MergeHelper` proved equal to it, and `MergeSort`. Elements are compared by an integer key, so stability can be stated.
- `tree_node.dfy` (`TreeNode`): nodes as a `Tree` datatype with the node predicates and the comparison.
- `binary_tree.dfy` (`BinaryTree`): `BuildTree`, the constructor as written and as corrected, and balance, height and search-tree order.
- `fibonacci.dfy` (`Fibonacci`).
- `reverse_tree.dfy` (`ReverseTree`): `ReverseTreeNode` as a class with constant fields. A ghost list of ancestors makes the parent chain finite.
- `knight_travalis.dfy` (`KnightTravalis`): the search as a class whose loops are proved against knight paths.

The sort keeps duplicates, although a comment says it removes them.

- The comment at `binary_tree.rb:20` says the array is sorted and its duplicates removed.
- The `merge_sort` / `_merge_helper` code keeps every element, duplicates included, and takes the left element on ties.
- The model proves exactly that: the output is a permutation of the input, sorted, and stable.
- It also proves that the built tree is a binary search tree exactly when the sort result is strictly ascending (`BinaryTree.InitializeIsBst`). For a sort that returns a sorted array, that means free of duplicates.

## Model

| member | source | states |
|---|---|---|
| Fibonacci.FibRec | fibonacci-sequence-recursion/main.rb:20-34 | the list for n has n + 1 entries, starts 0, 1, and each new last entry is the sum of the two before it |
| Fibonacci.FibRecIsFib | fibonacci-sequence-recursion/main.rb:20-34 | entry i of `fib_rec(n)` is the i-th Fibonacci number of an independent recursive definition, for every i <= n |
| Fibonacci.FibRecRecurrence | fibonacci-sequence-recursion/main.rb:29-31 | every entry after the first two is the sum of the two entries before it |
| Fibonacci.FibRecPrefix | fibonacci-sequence-recursion/main.rb:29-31 | for n <= m the list for n is a prefix of the list for m: extending the length only appends |
| Fibonacci.FibonacciSequence | fibonacci-sequence-recursion/main.rb:9-18 | fails with InvalidEntryError exactly when the length is negative; otherwise returns `fib_rec`'s list, of length n + 1, whose entries are the Fibonacci numbers |
| TreeArraySort.MergeHelper | binary-search-tree/lib/tree_array_sort.rb:23-56 | the loop's result is the merge of the two arrays; it is sorted when both inputs are; it is a permutation of their concatenation and as long as both together |
| TreeArraySort.MergeLength | binary-search-tree/lib/tree_array_sort.rb:23-56 | the merge is as long as its two inputs together |
| TreeArraySort.MergePermutation | binary-search-tree/lib/tree_array_sort.rb:23-56 | the merge holds exactly the elements of the two inputs, with multiplicity (no duplicate is dropped) |
| TreeArraySort.MergeHead | binary-search-tree/lib/tree_array_sort.rb:33-42 | the first element taken is the smaller head, the left head on a tie, or the only head left |
| TreeArraySort.MergeSorted | binary-search-tree/lib/tree_array_sort.rb:23-56 | merging two ascending arrays gives an ascending array |
| TreeArraySort.MergeStable | binary-search-tree/lib/tree_array_sort.rb:35-42 | among elements with equal keys, the left input's come first, each side in its own order |
| TreeArraySort.Split | binary-search-tree/lib/tree_array_sort.rb:11-16 | the two halves concatenate back to the array; the left half has floor(n/2) elements and the right half the rest |
| TreeArraySort.MergeSort | binary-search-tree/lib/tree_array_sort.rb:1-21 | arrays of length <= 1 come back unchanged; the result is ascending, a permutation of the input, and equally long |
| TreeArraySort.MergeSortStable | binary-search-tree/lib/tree_array_sort.rb:1-21 | for every key, the elements carrying it keep their input order |
| TreeNode.NewNode | binary-search-tree/lib/tree_node.rb:5-10 | the node holds the given data and children |
| TreeNode.NewNodeDefaults | binary-search-tree/lib/tree_node.rb:5-10 | with no arguments the node holds 0 and no children |
| TreeNode.HasLeft | binary-search-tree/lib/tree_node.rb:23-35 | true exactly when the left child is present |
| TreeNode.HasRight | binary-search-tree/lib/tree_node.rb:37-49 | true exactly when the right child is present |
| TreeNode.HasChildren | binary-search-tree/lib/tree_node.rb:51-64 | true exactly when at least one child is present, false exactly when both are nil |
| TreeNode.HasChildrenIsEither | binary-search-tree/lib/tree_node.rb:23-64 | `has_left?` / `has_right?` are false exactly when that child is nil; `has_children?` is true exactly when either child is present |
| TreeNode.Compare | binary-search-tree/lib/tree_node.rb:16-21 | the result is -1, 0 or 1, with its sign following the order of the data |
| TreeNode.CompareAntisymmetric | binary-search-tree/lib/tree_node.rb:16-21 | comparing the other way round negates the result |
| BinaryTree.BuildTree | binary-search-tree/binary_tree.rb:29-55 | crossed bounds give nil; otherwise a node, and the tree has one node per index of [lo, hi] |
| BinaryTree.BuildTreeInorder | binary-search-tree/binary_tree.rb:29-55 | the inorder sequence of the tree built over [lo, hi] is exactly a[lo..hi] |
| BinaryTree.BuildTreeRoot | binary-search-tree/binary_tree.rb:42-51 | the root holds the floor midpoint, the left subtree the elements before it and the right subtree those after it |
| BinaryTree.BuildTreeSizeBalanced | binary-search-tree/binary_tree.rb:38-53 | at every node the right subtree has as many nodes as the left or one more |
| BinaryTree.BuildTreeMinimumHeight | binary-search-tree/binary_tree.rb:29-32 | the built tree is height-balanced, has height floor(log2 n), and no tree with the same number of nodes is lower |
| BinaryTree.BuildTreeIsBst | binary-search-tree/binary_tree.rb:29-53 | the built tree is a binary search tree exactly when the range is strictly ascending |
| BinaryTree.InitializeAsWritten | binary-search-tree/binary_tree.rb:11-25 | the constructor as written: an empty array gives a nil root |
| BinaryTree.InitializeAsWrittenExtraNil | binary-search-tree/binary_tree.rb:22-24 | as written, a non-empty array gives one node more than it has elements, whose datum is nil and comes last in order |
| BinaryTree.InitializeAsWrittenSingleton | binary-search-tree/binary_tree.rb:24 | as written, [5] gives root 5 with a right child whose datum is nil |
| BinaryTree.Initialize | binary-search-tree/binary_tree.rb:11-25 | corrected constructor: nil for the empty array; otherwise the inorder sequence is the sorted array, with one node per element; size- and height-balanced |
| BinaryTree.InitializeIsBst | binary-search-tree/binary_tree.rb:20-24 | the corrected tree is a binary search tree exactly when the sort result is strictly ascending (for a sorting `treeMergeSort`: free of duplicates) |
| ReverseTree.ReverseTreeNode.constructor | knight-travalis/lib/reverse_tree.rb:5-8 | the node holds the given data and parent, and its ancestors are the parent followed by the parent's ancestors |
| ReverseTree.ReverseTreeNode.TraceAncestory | knight-travalis/lib/reverse_tree.rb:13-24 | the loop returns the node's own data followed by the data of each ancestor up to the root |
| ReverseTree.ReverseTreeNode.TraceShape | knight-travalis/lib/reverse_tree.rb:13-24 | the trace has one entry per node up to the root, starts with this node's data, lists each ancestor's data in turn, and ends with the root, which has no parent |
| ReverseTree.ReverseTreeNode.AncestorLinks | knight-travalis/lib/reverse_tree.rb:5-11 | each ancestor's parent is the next ancestor, and the last ancestor has no parent |
| ReverseTree.ReverseTreeNode.RouteIsReversedTrace | knight-travalis/lib/reverse_tree.rb:13-24 | the route, root first, is the trace reversed |
| ReverseTree.ReverseTreeNode.RouteLength | knight-travalis/main.rb:91-99 | the route has one entry per node from the root down to this one |
| KnightTravalis.KnightTravalis.constructor | knight-travalis/main.rb:19-31 | the board size is the argument, 8 when none is given |
| KnightTravalis.KnightTravalis.IsValid | knight-travalis/main.rb:111-129 | a square is accepted exactly when it is not in the history and both coordinates lie in [0, board_size) |
| KnightTravalis.KnightTravalis.AddArrays | knight-travalis/main.rb:131-149 | IndexError exactly when the lengths differ; otherwise the element-wise sum |
| KnightTravalis.KnightTravalis.EnqueueMoves | knight-travalis/main.rb:60-70 | IndexError exactly when the square is not a pair; otherwise the queue keeps its contents and gains only unvisited on-board squares, each one knight move below the current node; the squares of the new nodes are, in `@movement_set` order, exactly the sums `_valid?` accepts, already queued ones included; every knight move from the current square then lands on a visited or queued square |
| KnightTravalis.KnightTravalis.ValidMovesMembers | knight-travalis/main.rb:60-69 | a square is among the accepted moves exactly when some move of the set reaches it and `_valid?` accepts it |
| KnightTravalis.KnightTravalis.ValidMovesCorner | knight-travalis/main.rb:60-69 | from [0, 0] on an 8 x 8 board with only the corner visited, exactly [2, 1] and then [1, 2] are pushed |
| KnightTravalis.KnightTravalis.KnightMoves | knight-travalis/main.rb:33-74 | fails exactly when the start is not a pair and is not the target; otherwise the reported squares form a knight path from the start whose end is the target exactly when the target was reached; when reached, no knight path to the target is shorter; when not reached, no knight path reaches the target |
| KnightTravalis.KnightTravalis.SearchStepExpand | knight-travalis/main.rb:46-72 | one pass that expands a non-target square keeps the breadth-first invariant, and the termination measure goes down |
| KnightTravalis.KnightTravalis.SearchStepReached | knight-travalis/main.rb:48-53 | dequeuing the target ends the search at the least depth any knight path allows |
| KnightTravalis.KnightTravalis.SearchExit | knight-travalis/main.rb:46-73 | when the loop stops, the current node holds the target exactly when it was reached; if it was not, no knight path reaches the target |
| KnightTravalis.KnightTravalis.SearchFailure | knight-travalis/main.rb:60-62 | `_add_arrays` can only fail when expanding the start square, so only when the start is not a pair |
| KnightTravalis.KnightTravalis.ClosedReachesAll | knight-travalis/main.rb:46-72 | once the queue is empty, the history holds every square a knight path from the start reaches |
| KnightTravalis.KnightTravalis.DescendsRoute | knight-travalis/main.rb:91-99 | the route of a queued node is a knight path from the start, with one square per node, ending at the node's square |
| KnightTravalis.KnightTravalis.MinMovesData | knight-travalis/main.rb:78-99 | the loop gives the node's route from the root, and its count equals the number of squares on that route |
| KnightTravalis.KnightTravalis.MovesNeededCountsSquares | knight-travalis/main.rb:84-102 | the count `_min_moves_data` reports is one more than the number of moves on the route; for a search that starts on its target it is 1 with no move made |

## Left out

- `pretty_print` (binary_tree.rb:57-71) and the script lines at binary_tree.rb:75-77: text output only. They build no state the model needs.
- The `puts` in `knight_moves` and the result string of `_min_moves_data` (main.rb:73, 100-108): text formatting. The model returns the squares and the count the text would show.
- `tree_merge_sort` and the `TreeSort` module that `BinarySearchTree` includes: TreeSort is not part of this model. The sort the constructor calls is a function parameter. The model assumes no link between it and `merge_sort`.
- The `attr_accessor` setters: the modelled code never changes a node after building it. `build_tree` sets both children straight after creating the node, which the model states as building the node with its children.
- `_merge_helper` empties its argument arrays with `shift`. MergeHelper works on values. `merge_sort` never reads those arrays again.
- MergeHelper: `flatten!` would also splice out the elements of arrays that are themselves arrays. The model treats elements as atomic values.
- MergeSort: elements are compared through an integer key instead of Ruby's `<=` on arbitrary comparable objects. MergeSort is defined over the merge specification `Merge`, and MergeHelper is proved equal to it.
- BuildTree: requires `lo > hi` or indices within the array. Ruby returns nil for an index past the end and wraps negative indices. The only out-of-range call, the constructor's one past the end, is modelled by padding the array with one nil (`WithNilPastEnd`).
- IsValid: requires at least two coordinates. Ruby would raise on a shorter array. It is only ever called on the sum of a square and a move.
- FibRec: takes a natural number. Ruby's `fib_rec` recurses without end on a negative argument. It is only reached through `fibonnaci_sequence`, which rejects negatives.
- The messages of InvalidEntryError and IndexError are not modelled.
- InitializeAsWritten and Initialize: the default `tree_array=[]` of `initialize` is not a separate entry point. Both members give a nil root for the empty array, which is what `BinarySearchTree.new` with no argument builds.
- ReverseTreeNode: the `nil` defaults of `initialize` are not modelled. Every caller passes the data, and the parent is passed explicitly (null for the root).
- KnightMoves: the model does not state that the search allocates fresh nodes. `movesNeeded` in its result is the corrected move count (see Findings); the count as written is `MinMovesData`'s.
- The `@movement_set.each` block of `knight_moves` is the separate method EnqueueMoves.

## Findings

| source | as written | input that shows it | evidently intended | confidence | as-written member | corrected member |
|---|---|---|---|---|---|---|
| binary-search-tree/binary_tree.rb:24 | `build_tree(tree_array, 0, tree_array.length)` passes the length as the inclusive end index, so it reads one element past the end | `BinarySearchTree.new([5])`: the root 5 gets a right child whose datum is nil; every non-empty array gets such an extra node | end index `tree_array.length - 1`, one node per element | high; not executed | BinaryTree.InitializeAsWrittenSingleton | BinaryTree.Initialize |
| knight-travalis/main.rb:84-102 | `moves_needed` starts at 0 and goes up once per node on the route, the start included, and is then reported as the number of moves | `knight_moves([3, 3], [3, 3])`: the route is the start alone, no move is made, and 1 move is reported; in general the report is one more than the moves | the number of squares on the route minus one | high; not executed | KnightTravalis.KnightTravalis.MovesNeededCountsSquares | KnightTravalis.KnightTravalis.KnightMoves |
