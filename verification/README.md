# Sorted collections, a maxiphobic heap, binary trees and dictionary graphs, in Dafny

This project models the core of a Java teaching library of data structures (package `org.uma.ed.datastructures`) and proves properties of the model. It covers:

- **Sorted collections.** `SortedArraySet` is a strictly increasing array with a capacity that doubles. `SortedArrayBag` is an array of (element, occurrences) bins. `SortedLinkedBag` is a linked chain of such bins with a pointer to its last node. `SortedArrayDictionary` is an array of entries sorted by key.
- **`MaxiphobicHeap`.** A weight-biased leftist heap whose merge puts the heaviest of three candidate subtrees on the left. Its bulk constructor merges one-node heaps pairwise through a queue.
- **`BinaryTree`.** Recursive size, height, sum, maximum, count, leaves, the three depth-first listings and the breadth-first listing.
- **Dictionary graphs.** `DictionaryGraph` is undirected and keeps every edge in both neighbour sets. `DictionaryDiGraph` is directed and keeps a successor set per vertex.
- **Traversals and paths.** `BFTPaths` and `DFTPaths` traverse from a source with a queue or a stack of pending edges. They record each vertex's parent and rebuild paths from it. `Dijkstra` computes shortest-path costs, and `dijkstraPaths` also the paths, with a priority queue and lazy deletion.

Every operation is a Dafny function or method over immutable values:

- Arrays are sequences plus an explicit capacity.
- Linked chains are sequences of bins.
- Trees are algebraic datatypes.
- Dictionaries are maps.
- Graphs are maps from a vertex to a set of vertices. The traversals take a map from a vertex to a successor sequence, whose order stands for the hash-set iteration order.

Java exceptions are the `Err` side of a `Result`, named after the exception class. Java's `null` is `None`.

Where the code does something other than its documentation promises, the model follows the code:

- `DFTPaths.pathTo` on an unvisited vertex raises `GraphException`.
- `BFTPaths.pathTo` on an unvisited vertex returns the one-vertex list `[destination]`.
- `dijkstraPaths` maps the source to cost 0 and the *empty* path, while every other vertex's path starts at the source.
- `DictionaryDiGraph.addVertex` on an existing vertex drops its outgoing edges (`DictionaryDiGraph.AddVertexDropsOutgoing`).
- `DictionaryGraph.deleteEdge` and `DictionaryDiGraph.deleteDiEdge` do not check their endpoints, so an unknown source fails with `NullPointerException`.
- `SortedLinkedBag.delete` of the only occurrence of the only element leaves `last` pointing at the removed node (`SortedLinkedBag.DeleteSoleNodeLeavesLast`). The model keeps that stale pointer, and its validity predicate only constrains `last` when the chain is non-empty.

Where the code is evidently wrong, the model has two parts. An "as written" member reproduces the defect, with a lemma that exhibits it on a concrete input. A corrected member carries the intended properties. See "## Findings".

Files, one module each:

| file | module |
|---|---|
| `wrappers.dfy` | `Wrappers`: `Option`, `Result` and the exception names |
| `sorted_seqs.dfy` | `SortedSeqs`: strictly increasing sequences, insertion positions, the binary searches |
| `bins.dfy` | `Bins`: sequences of (element, occurrences) bins shared by both sorted bags |
| `sorted_array_set.dfy`, `sorted_array_bag.dfy`, `sorted_linked_bag.dfy`, `sorted_array_dictionary.dfy` | the four sorted collections |
| `maxiphobic_heap.dfy`, `binary_tree.dfy` | the heap and the binary-tree algorithms |
| `adjacency.dfy` | `Adjacency`: edge sets of adjacency maps, vertex removal, the edge and predecessor collection loops |
| `dictionary_graph.dfy`, `dictionary_di_graph.dfy` | the two dictionary graphs |
| `traversal.dfy` | `Traversal`: the pending-edge traversal loop shared by breadth- and depth-first traversal, spanning trees, paths from parent links |
| `bft_paths.dfy`, `dft_paths.dfy` | `BreadthFirstPaths` (FIFO) and `DepthFirstPaths` (LIFO) |
| `dijkstra.dfy` | `Dijkstra`: both variants, with their loop invariant and its preservation |

## Model

| member | source | states |
|---|---|---|
| MaxiphobicHeap.WeightIsCount | codes/project.dataStructures.Java.students/src/main/java/org/uma/ed/datastructures/heap/MaxiphobicHeap.java:242-248 | In a tree whose every node caches one plus its children's weights, the root's weight is the number of nodes and the size of the element multiset, so `size()` counts the elements. |
| MaxiphobicHeap.RootIsMinimum | codes/project.dataStructures.Java.students/src/main/java/org/uma/ed/datastructures/heap/MaxiphobicHeap.java:52-57 | In a heap-ordered tree the root element is at most every element of the tree. |
| MaxiphobicHeap.Merge | codes/project.dataStructures.Java.students/src/main/java/org/uma/ed/datastructures/heap/MaxiphobicHeap.java:274-312 | Merging with an empty operand returns the other operand unchanged, and the result holds exactly the elements of both operands, multiplicities included. |
| MaxiphobicHeap.MergeShape | codes/project.dataStructures.Java.students/src/main/java/org/uma/ed/datastructures/heap/MaxiphobicHeap.java:282-308 | The root comes from the operand with the smaller root, the first one on a tie. The root's weight is the sum of the operands' weights. The left child is the heaviest of the three candidates: winner's left, winner's right and the loser. |
| MaxiphobicHeap.Arrange | codes/project.dataStructures.Java.students/src/main/java/org/uma/ed/datastructures/heap/MaxiphobicHeap.java:294-306 | The two conditional swaps put a heaviest candidate first while keeping the three candidates, their elements and their total weight. |
| MaxiphobicHeap.MergeValid | codes/project.dataStructures.Java.students/src/main/java/org/uma/ed/datastructures/heap/MaxiphobicHeap.java:274-312 | Merging two valid heaps gives a valid heap: every node's cached weight is correct, the heap order holds, and the weight is the sum of the operands' weights. |
| MaxiphobicHeap.MergeIsMaxiphobic | codes/project.dataStructures.Java.students/src/main/java/org/uma/ed/datastructures/heap/MaxiphobicHeap.java:290-308 | After a merge the left child holds at least a third of the nodes below the root, and the right child holds the rest. |
| MaxiphobicHeap.MergeChildren | codes/project.dataStructures.Java.students/src/main/java/org/uma/ed/datastructures/heap/MaxiphobicHeap.java:336-343 | Merging the root's two children gives a valid heap holding every element but the root, with weight one less. |
| MaxiphobicHeap.EmptyHeap | codes/project.dataStructures.Java.students/src/main/java/org/uma/ed/datastructures/heap/MaxiphobicHeap.java:78-80 | A new heap is valid and holds no element. |
| MaxiphobicHeap.IsEmpty | codes/project.dataStructures.Java.students/src/main/java/org/uma/ed/datastructures/heap/MaxiphobicHeap.java:233-235 | Holds exactly when the heap holds no element. |
| MaxiphobicHeap.Size | codes/project.dataStructures.Java.students/src/main/java/org/uma/ed/datastructures/heap/MaxiphobicHeap.java:242-244 | The size is the number of elements, counted with multiplicity. |
| MaxiphobicHeap.Clear | codes/project.dataStructures.Java.students/src/main/java/org/uma/ed/datastructures/heap/MaxiphobicHeap.java:255-257 | After `clear` the heap is valid and empty. |
| MaxiphobicHeap.Insert | codes/project.dataStructures.Java.students/src/main/java/org/uma/ed/datastructures/heap/MaxiphobicHeap.java:264-269 | `insert(x)` keeps the heap valid, adds exactly one `x` and grows the size by one. |
| MaxiphobicHeap.Minimum | codes/project.dataStructures.Java.students/src/main/java/org/uma/ed/datastructures/heap/MaxiphobicHeap.java:321-327 | Fails with `EmptyHeapException` exactly on an empty heap. Otherwise it returns an element that is at most every element. |
| MaxiphobicHeap.DeleteMinimum | codes/project.dataStructures.Java.students/src/main/java/org/uma/ed/datastructures/heap/MaxiphobicHeap.java:336-343 | Fails with `EmptyHeapException` exactly on an empty heap. Otherwise it keeps the heap valid, removes one occurrence of the minimum and nothing else, and shrinks the size by one. |
| MaxiphobicHeap.PopStep | codes/project.dataStructures.Java.students/src/main/java/org/uma/ed/datastructures/heap/MaxiphobicHeap.java:321-343 | On a non-empty heap, the minimum plus the elements left by `deleteMinimum` are the original elements, and the minimum is at most every remaining element. |
| MaxiphobicHeap.PopAll | codes/project.dataStructures.Java.students/src/main/java/org/uma/ed/datastructures/heap/MaxiphobicHeap.java:321-343 | Repeating `minimum` then `deleteMinimum` until empty lists the heap's elements as a permutation in non-decreasing order. |
| MaxiphobicHeap.Singletons | codes/project.dataStructures.Java.students/src/main/java/org/uma/ed/datastructures/heap/MaxiphobicHeap.java:148-154 | Each input element becomes a one-node tree, in input order. |
| MaxiphobicHeap.SingletonsElements | codes/project.dataStructures.Java.students/src/main/java/org/uma/ed/datastructures/heap/MaxiphobicHeap.java:148-154 | The one-node trees together hold exactly the input elements. |
| MaxiphobicHeap.QueueStep | codes/project.dataStructures.Java.students/src/main/java/org/uma/ed/datastructures/heap/MaxiphobicHeap.java:123-129 | Replacing the first two queued trees by their merge, enqueued at the back, keeps every tree valid and the queue's elements unchanged. |
| MaxiphobicHeap.Of | codes/project.dataStructures.Java.students/src/main/java/org/uma/ed/datastructures/heap/MaxiphobicHeap.java:113-154 | Building by pairwise queue merging gives a valid heap holding exactly the input multiset, and it is empty exactly for empty input. |
| MaxiphobicHeap.CopyTreeIsIdentical | codes/project.dataStructures.Java.students/src/main/java/org/uma/ed/datastructures/heap/MaxiphobicHeap.java:210-217 | Copying a tree node by node gives a structurally equal tree: same elements, cached weights and shape. |
| MaxiphobicHeap.CopyOf | codes/project.dataStructures.Java.students/src/main/java/org/uma/ed/datastructures/heap/MaxiphobicHeap.java:205-207 | The copy equals the original heap. |
| BinaryTree.SizeCountsElements | codes/project.dataStructures.Java.students/src/main/java/org/uma/ed/datastructures/tree/BinaryTree.java:96-106 | `BinaryTree.Size` models `size`. `size` equals the number of elements of the tree, counted with multiplicity. |
| BinaryTree.HeightAtMostSize | codes/project.dataStructures.Java.students/src/main/java/org/uma/ed/datastructures/tree/BinaryTree.java:118-128 | `BinaryTree.Height` models `height`. The height never exceeds the size, and a non-empty tree has height at least one. |
| BinaryTree.SumIsSumOfPreorder | codes/project.dataStructures.Java.students/src/main/java/org/uma/ed/datastructures/tree/BinaryTree.java:136-146 | `BinaryTree.Sum` models `sum`. `sum` equals the sum of the preorder listing. |
| BinaryTree.Maximum | codes/project.dataStructures.Java.students/src/main/java/org/uma/ed/datastructures/tree/BinaryTree.java:157-174 | Fails with `NoSuchElementException` exactly on the empty tree. Otherwise it returns an element of the tree that is at least every element. |
| BinaryTree.CountIsMultiplicity | codes/project.dataStructures.Java.students/src/main/java/org/uma/ed/datastructures/tree/BinaryTree.java:184-196 | `BinaryTree.Count` models `count`. `count(t, x)` is the multiplicity of `x` among the tree's elements. |
| BinaryTree.LeavesAreChildlessNodes | codes/project.dataStructures.Java.students/src/main/java/org/uma/ed/datastructures/tree/BinaryTree.java:205-229 | `BinaryTree.Leaves` models `leaves`. `leaves` lists exactly the elements of the childless nodes, in left-to-right (preorder) order of the subtrees. |
| BinaryTree.PreorderIsPermutation | codes/project.dataStructures.Java.students/src/main/java/org/uma/ed/datastructures/tree/BinaryTree.java:238-253 | `BinaryTree.Preorder` models `preorder`. The preorder listing is a permutation of the tree's elements, of length `size`. |
| BinaryTree.InorderIsPermutation | codes/project.dataStructures.Java.students/src/main/java/org/uma/ed/datastructures/tree/BinaryTree.java:285-300 | `BinaryTree.Inorder` models `inorder`. The inorder listing is a permutation of the tree's elements, of length `size`. |
| BinaryTree.PostorderIsPermutation | codes/project.dataStructures.Java.students/src/main/java/org/uma/ed/datastructures/tree/BinaryTree.java:262-276 | `BinaryTree.Postorder` models the intended `postorder`. The corrected postorder listing is a permutation of the tree's elements, of length `size`. |
| BinaryTree.PostorderAsWrittenIsPermutation | codes/project.dataStructures.Java.students/src/main/java/org/uma/ed/datastructures/tree/BinaryTree.java:262-276 | `BinaryTree.PostorderAsWritten` models `postorder` as written. The postorder as written still lists every element once, so the defect is in the order only. |
| BinaryTree.RootPositions | codes/project.dataStructures.Java.students/src/main/java/org/uma/ed/datastructures/tree/BinaryTree.java:238-276 | The root is first in preorder and last in both postorder listings. |
| BinaryTree.PostorderAsWrittenDiffers | codes/project.dataStructures.Java.students/src/main/java/org/uma/ed/datastructures/tree/BinaryTree.java:268-276 | On the left-leaning chain 1-2-3, the postorder as written gives [2, 3, 1] where postorder is [3, 2, 1]. |
| BinaryTree.PostorderAsWrittenAgreesOnShallowTrees | codes/project.dataStructures.Java.students/src/main/java/org/uma/ed/datastructures/tree/BinaryTree.java:268-276 | When both children have at most one node, the postorder as written is correct, which is why small examples hide the defect. |
| BinaryTree.BreadthFirst | codes/project.dataStructures.Java.students/src/main/java/org/uma/ed/datastructures/tree/BinaryTree.java:309-333 | The queue loop lists the tree level by level, left to right. The listing is a permutation of the elements of length `size`, with the root first when the tree is non-empty. |
| BinaryTree.BfsIsLevelOrder | codes/project.dataStructures.Java.students/src/main/java/org/uma/ed/datastructures/tree/BinaryTree.java:309-333 | Draining the queue that starts from the root gives the concatenation of the tree's levels, top to bottom. |
| SortedSeqs.PositionSplits | codes/project.dataStructures.Java.students/src/main/java/org/uma/ed/datastructures/set/SortedArraySet.java:269-294 | In a strictly increasing sequence, every entry before the insertion position of `x` is below `x`, and every entry from it on is at least `x`. |
| SortedSeqs.MemberAtPosition | codes/project.dataStructures.Java.students/src/main/java/org/uma/ed/datastructures/set/SortedArraySet.java:269-294 | `x` is present exactly when the entry at its insertion position is `x`. |
| SortedSeqs.Finder | codes/project.dataStructures.Java.students/src/main/java/org/uma/ed/datastructures/set/SortedArraySet.java:269-294 | The binary search reports found exactly when `x` is present, and its index is the insertion position in both cases. |
| SortedSeqs.ArraysBinarySearch | codes/project.dataStructures.Java.students/src/main/java/org/uma/ed/datastructures/bag/SortedArrayBag.java:218-231 | `Arrays.binarySearch` returns the index of `x` when present, and minus one minus the insertion position otherwise. |
| SortedSeqs.InsertAtPosition | codes/project.dataStructures.Java.students/src/main/java/org/uma/ed/datastructures/set/SortedArraySet.java:302-317 | Shifting the tail right and placing an absent `x` at its insertion position keeps the sequence strictly increasing and adds exactly `x`. |
| SortedSeqs.RemoveAtKeepsOrder | codes/project.dataStructures.Java.students/src/main/java/org/uma/ed/datastructures/set/SortedArraySet.java:336-345 | Shifting the tail left over position `p` keeps the sequence strictly increasing and removes exactly the element at `p`. |
| SortedSeqs.DistinctLength | codes/project.dataStructures.Java.students/src/main/java/org/uma/ed/datastructures/set/SortedArraySet.java:42-49 | A strictly increasing sequence has as many members as entries, so `size` is the set's cardinality. |
| SortedArraySet.SizeIsCardinality | codes/project.dataStructures.Java.students/src/main/java/org/uma/ed/datastructures/set/SortedArraySet.java:240-251 | `size` is the number of members, and `isEmpty` holds exactly when there are none. |
| SortedArraySet.New | codes/project.dataStructures.Java.students/src/main/java/org/uma/ed/datastructures/set/SortedArraySet.java:60-67 | Fails with `IllegalArgumentException` exactly when the initial capacity is not positive. Otherwise the set is valid and empty. |
| SortedArraySet.Empty | codes/project.dataStructures.Java.students/src/main/java/org/uma/ed/datastructures/set/SortedArraySet.java:112-114 | An empty set of the default capacity 16. |
| SortedArraySet.EnsureCapacity | codes/project.dataStructures.Java.students/src/main/java/org/uma/ed/datastructures/set/SortedArraySet.java:256-260 | The contents are kept and room is left for one more element. The capacity either stays or doubles. |
| SortedArraySet.Contains | codes/project.dataStructures.Java.students/src/main/java/org/uma/ed/datastructures/set/SortedArraySet.java:324-328 | Holds exactly when `x` is a member. |
| SortedArraySet.Insert | codes/project.dataStructures.Java.students/src/main/java/org/uma/ed/datastructures/set/SortedArraySet.java:302-317 | The members become the old ones plus `x`, in strictly increasing order. The size grows by one exactly when `x` was absent. |
| SortedArraySet.Delete | codes/project.dataStructures.Java.students/src/main/java/org/uma/ed/datastructures/set/SortedArraySet.java:336-345 | The corrected `delete`: the members become the old ones minus `x`, the order is kept, and the size shrinks by one exactly when `x` was present. |
| SortedArraySet.DeleteAsWritten | codes/project.dataStructures.Java.students/src/main/java/org/uma/ed/datastructures/set/SortedArraySet.java:336-345 | Fails with an index-out-of-bounds error exactly when `x` is present and the array is full. Otherwise it agrees with the corrected `delete`. |
| SortedArraySet.DeleteAsWrittenFailsOnFullSet | codes/project.dataStructures.Java.students/src/main/java/org/uma/ed/datastructures/set/SortedArraySet.java:336-345 | The set built by `of(1)` has capacity one, and deleting 1 from it fails. |
| SortedArraySet.InsertThenContains | codes/project.dataStructures.Java.students/src/main/java/org/uma/ed/datastructures/set/SortedArraySet.java:302-328 | After `insert(x)`, `contains(y)` holds exactly when `y` is `x` or was contained before. |
| SortedArraySet.DeleteThenContains | codes/project.dataStructures.Java.students/src/main/java/org/uma/ed/datastructures/set/SortedArraySet.java:324-345 | After `delete(x)`, `contains(y)` holds exactly when `y` is not `x` and was contained before. |
| SortedArraySet.DeleteUndoesInsert | codes/project.dataStructures.Java.students/src/main/java/org/uma/ed/datastructures/set/SortedArraySet.java:302-345 | Deleting a freshly inserted absent element restores the original sequence. |
| SortedArraySet.Minimum | codes/project.dataStructures.Java.students/src/main/java/org/uma/ed/datastructures/set/SortedArraySet.java:352-358 | Fails with `NoSuchElementException` exactly on the empty set. Otherwise it returns a member that is at most every member. |
| SortedArraySet.Maximum | codes/project.dataStructures.Java.students/src/main/java/org/uma/ed/datastructures/set/SortedArraySet.java:365-371 | Fails with `NoSuchElementException` exactly on the empty set. Otherwise it returns a member that is at least every member. |
| SortedArraySet.Clear | codes/project.dataStructures.Java.students/src/main/java/org/uma/ed/datastructures/set/SortedArraySet.java:216-224 | Leaves a valid empty set with the same capacity and comparator. |
| SortedArraySet.Append | codes/project.dataStructures.Java.students/src/main/java/org/uma/ed/datastructures/set/SortedArraySet.java:413-418 | Appending an element above the maximum adds it at the end and keeps the set valid. The capacity is kept when there was room. |
| SortedArraySet.AppendAll | codes/project.dataStructures.Java.students/src/main/java/org/uma/ed/datastructures/set/SortedArraySet.java:204-206 | Appending an ascending run above the maximum adds exactly that run. No growth happens when the run fits. |
| SortedArraySet.CopyOf | codes/project.dataStructures.Java.students/src/main/java/org/uma/ed/datastructures/set/SortedArraySet.java:196-209 | The copy has the same elements and comparator. Its capacity is the source's size, or the default 16 for an empty source. |
| SortedArraySet.InsertAll | codes/project.dataStructures.Java.students/src/main/java/org/uma/ed/datastructures/set/SortedArraySet.java:167-173 | Inserting a sequence one element at a time adds exactly its members. |
| SortedArraySet.Of | codes/project.dataStructures.Java.students/src/main/java/org/uma/ed/datastructures/set/SortedArraySet.java:137-143 | The built set is valid and its members are exactly the given elements. |
| SortedArraySet.From | codes/project.dataStructures.Java.students/src/main/java/org/uma/ed/datastructures/set/SortedArraySet.java:167-173 | The built set is valid and its members are exactly the iterated elements. |
| SortedArraySet.Union | codes/project.dataStructures.Java.students/src/main/java/org/uma/ed/datastructures/set/SortedArraySet.java:527-579 | Fails with `IllegalArgumentException` exactly when the comparators differ. Otherwise it returns a valid sorted set whose members are the union of the operands'. |
| SortedArraySet.Intersection | codes/project.dataStructures.Java.students/src/main/java/org/uma/ed/datastructures/set/SortedArraySet.java:482-521 | Fails with `IllegalArgumentException` exactly when the comparators differ. Otherwise it returns a valid sorted set whose members are the intersection of the operands'. |
| SortedArraySet.Difference | codes/project.dataStructures.Java.students/src/main/java/org/uma/ed/datastructures/set/SortedArraySet.java:440-476 | Fails with `IllegalArgumentException` exactly when the comparators differ. Otherwise it returns a valid sorted set whose members are those of the first operand not in the second. |
| Bins.ExpandIsContents | codes/project.dataStructures.Java.students/src/main/java/org/uma/ed/datastructures/bag/SortedArrayBag.java:35 | Listing each bin's element as many times as its count gives the bag's multiset. |
| Bins.TotalIsLength | codes/project.dataStructures.Java.students/src/main/java/org/uma/ed/datastructures/bag/SortedArrayBag.java:56-59 | With positive counts, the sum of the counts is the number of listed elements and the size of the multiset. |
| Bins.ContentsCount | codes/project.dataStructures.Java.students/src/main/java/org/uma/ed/datastructures/bag/SortedArrayBag.java:239-249 | In well-formed bins, an element without a bin has multiplicity zero, and an element with a bin has that bin's count as its multiplicity. |
| Bins.WellFormedMembers | codes/project.dataStructures.Java.students/src/main/java/org/uma/ed/datastructures/bag/SortedArrayBag.java:56-59 | In well-formed bins, an element is in the bag exactly when it has a bin. |
| Bins.ExpandSorted | codes/project.dataStructures.Java.students/src/main/java/org/uma/ed/datastructures/bag/SortedArrayBag.java:322-359 | The listing of well-formed bins is non-decreasing and starts at the first bin's element. |
| SortedArrayBag.SizeIsCardinality | codes/project.dataStructures.Java.students/src/main/java/org/uma/ed/datastructures/bag/SortedArrayBag.java:206-213 | `size` is the number of elements counted with multiplicity, and `isEmpty` holds exactly when there is no bin. |
| SortedArrayBag.New | codes/project.dataStructures.Java.students/src/main/java/org/uma/ed/datastructures/bag/SortedArrayBag.java:66-74 | Fails with `IllegalArgumentException` exactly when the initial capacity is not positive. Otherwise the bag is valid and empty. |
| SortedArrayBag.Empty | codes/project.dataStructures.Java.students/src/main/java/org/uma/ed/datastructures/bag/SortedArrayBag.java:80-82 | An empty bag of the default capacity 16. |
| SortedArrayBag.EnsureCapacity | codes/project.dataStructures.Java.students/src/main/java/org/uma/ed/datastructures/bag/SortedArrayBag.java:233-237 | Keeps the bins and the size, and leaves room for one more bin. The old slots stay as a prefix of the new array. |
| SortedArrayBag.FoundIsMember | codes/project.dataStructures.Java.students/src/main/java/org/uma/ed/datastructures/bag/SortedArrayBag.java:218-231 | The search finds `x` exactly when `x` is in the bag. |
| SortedArrayBag.Finder | codes/project.dataStructures.Java.students/src/main/java/org/uma/ed/datastructures/bag/SortedArrayBag.java:218-231 | Reports found exactly when `x` is in the bag, with the index of its bin or the insertion position among the bins. |
| SortedArrayBag.Occurrences | codes/project.dataStructures.Java.students/src/main/java/org/uma/ed/datastructures/bag/SortedArrayBag.java:239-249 | Returns the multiplicity of `x`, which is 0 for an absent element. |
| SortedArrayBag.Insert | codes/project.dataStructures.Java.students/src/main/java/org/uma/ed/datastructures/bag/SortedArrayBag.java:251-269 | The corrected `insert`: adds exactly one `x`, keeps the bag valid and grows the size by one. |
| SortedArrayBag.InsertAsWritten | codes/project.dataStructures.Java.students/src/main/java/org/uma/ed/datastructures/bag/SortedArrayBag.java:251-269 | Fails with an index-out-of-bounds error exactly when `x` is new, its position is below the size and the size reaches the grown capacity. Otherwise it leaves the same bins and size as the corrected `insert`. |
| SortedArrayBag.InsertAsWrittenSafeWithoutRepeats | codes/project.dataStructures.Java.students/src/main/java/org/uma/ed/datastructures/bag/SortedArrayBag.java:251-269 | While every element occurs once, the insert as written never fails. |
| SortedArrayBag.InsertAsWrittenOnRepeatedElement | codes/project.dataStructures.Java.students/src/main/java/org/uma/ed/datastructures/bag/SortedArrayBag.java:251-269 | A bag holding sixteen 1s in a 16-slot array fails on inserting 2. |
| SortedArrayBag.Delete | codes/project.dataStructures.Java.students/src/main/java/org/uma/ed/datastructures/bag/SortedArrayBag.java:271-287 | The corrected `delete`: removes one occurrence of `x` if present and nothing else. The bag stays valid, and the size shrinks by one exactly when `x` was present. |
| SortedArrayBag.DeleteAsWritten | codes/project.dataStructures.Java.students/src/main/java/org/uma/ed/datastructures/bag/SortedArrayBag.java:271-287 | Fails with an index-out-of-bounds error exactly when `x` occurs once and the size reaches the capacity. Otherwise it leaves the same bins and size as the corrected `delete`. |
| SortedArrayBag.DeleteAsWrittenOnFullBag | codes/project.dataStructures.Java.students/src/main/java/org/uma/ed/datastructures/bag/SortedArrayBag.java:271-287 | A one-slot bag holding a single 1 fails on deleting 1. |
| SortedArrayBag.InsertDeleteOccurrences | codes/project.dataStructures.Java.students/src/main/java/org/uma/ed/datastructures/bag/SortedArrayBag.java:239-287 | `insert(x)` raises only the multiplicity of `x`, by one. `delete(x)` lowers only the multiplicity of `x`, by one if it was positive. |
| SortedArrayBag.Minimum | codes/project.dataStructures.Java.students/src/main/java/org/uma/ed/datastructures/bag/SortedArrayBag.java:301-307 | Fails with `NoSuchElementException` exactly on the empty bag. Otherwise it returns an element at most every element. |
| SortedArrayBag.Maximum | codes/project.dataStructures.Java.students/src/main/java/org/uma/ed/datastructures/bag/SortedArrayBag.java:309-315 | The corrected `maximum`, reading the last bin: fails exactly on the empty bag, and otherwise returns an element at least every element. |
| SortedArrayBag.MaximumAsWritten | codes/project.dataStructures.Java.students/src/main/java/org/uma/ed/datastructures/bag/SortedArrayBag.java:309-315 | Fails on the empty bag, and agrees with the corrected `maximum` when no element repeats. |
| SortedArrayBag.MaximumAsWrittenOnRepeatedElement | codes/project.dataStructures.Java.students/src/main/java/org/uma/ed/datastructures/bag/SortedArrayBag.java:309-315 | For the bag {1, 1}, the maximum as written reads an empty slot. |
| SortedArrayBag.Clear | codes/project.dataStructures.Java.students/src/main/java/org/uma/ed/datastructures/bag/SortedArrayBag.java:289-299 | Leaves a valid empty bag over the same array. |
| SortedArrayBag.Iterate | codes/project.dataStructures.Java.students/src/main/java/org/uma/ed/datastructures/bag/SortedArrayBag.java:322-359 | The iterator yields each bin's element as many times as its count, bin by bin. That is a non-decreasing permutation of the bag's elements. |
| SortedArrayBag.CopyOf | codes/project.dataStructures.Java.students/src/main/java/org/uma/ed/datastructures/bag/SortedArrayBag.java:150-198 | Grouping the runs of a sorted iteration into bins gives a valid bag whose iteration is the source's iteration. It holds the same elements and has the same size. |
| SortedArrayBag.InsertAll | codes/project.dataStructures.Java.students/src/main/java/org/uma/ed/datastructures/bag/SortedArrayBag.java:105-130 | With the corrected `insert`, inserting a sequence one element at a time adds exactly its elements and never fails. |
| SortedArrayBag.Of | codes/project.dataStructures.Java.students/src/main/java/org/uma/ed/datastructures/bag/SortedArrayBag.java:105-109 | With the corrected `insert`, the built bag is valid and holds exactly the given elements. |
| SortedArrayBag.InsertAlike | codes/project.dataStructures.Java.students/src/main/java/org/uma/ed/datastructures/bag/SortedArrayBag.java:251-269 | Both inserts depend only on the live bins, the size, the capacity and the comparator: bags equal in these fail alike and stay alike. |
| SortedArrayBag.InsertAllAsWritten | codes/project.dataStructures.Java.students/src/main/java/org/uma/ed/datastructures/bag/SortedArrayBag.java:124-130 | Inserting through the insert as written fails only with `ArrayIndexOutOfBoundsException`, and otherwise leaves a valid bag with the same comparator. |
| SortedArrayBag.InsertAllAsWrittenTracks | codes/project.dataStructures.Java.students/src/main/java/org/uma/ed/datastructures/bag/SortedArrayBag.java:124-130 | Inserting through the insert as written fails exactly when, at some step, the insert as written fails on the bag the corrected inserts have built so far. Otherwise it ends with the same bins, size and capacity as the corrected `InsertAll`. |
| SortedArrayBag.OfAsWritten | codes/project.dataStructures.Java.students/src/main/java/org/uma/ed/datastructures/bag/SortedArrayBag.java:105-109 | `of` as written fails with `ArrayIndexOutOfBoundsException` exactly when the insert as written fails on some prefix's corrected bag. Otherwise it holds exactly the given elements, in the same bins as the corrected `Of`. |
| SortedArrayBag.InsertOnes | codes/project.dataStructures.Java.students/src/main/java/org/uma/ed/datastructures/bag/SortedArrayBag.java:251-256 | Inserting 1s into a bag whose only bin holds 1 raises that bin's count by their number and never grows the array. |
| SortedArrayBag.OfAsWrittenOnRepeatedElement | codes/project.dataStructures.Java.students/src/main/java/org/uma/ed/datastructures/bag/SortedArrayBag.java:105-109 | `of` with sixteen 1s and then 2 overruns the default 16-slot array as written, while the corrected `Of` holds all seventeen elements. |
| SortedLinkedBag.SizeIsCardinality | codes/project.dataStructures.Java.students/src/main/java/org/uma/ed/datastructures/bag/SortedLinkedBag.java:151-163 | `size` is the number of elements counted with multiplicity, and `isEmpty` holds exactly when the chain has no node. |
| SortedLinkedBag.Empty | codes/project.dataStructures.Java.students/src/main/java/org/uma/ed/datastructures/bag/SortedLinkedBag.java:60-65 | A new bag is valid and holds nothing. |
| SortedLinkedBag.Clear | codes/project.dataStructures.Java.students/src/main/java/org/uma/ed/datastructures/bag/SortedLinkedBag.java:169-174 | Leaves a valid empty bag of size zero. |
| SortedLinkedBag.Finder | codes/project.dataStructures.Java.students/src/main/java/org/uma/ed/datastructures/bag/SortedLinkedBag.java:209-224 | The linear search reports found exactly when `x` is in the bag. It stops at the node holding `x` or at the insertion position. |
| SortedLinkedBag.FoundIsMember | codes/project.dataStructures.Java.students/src/main/java/org/uma/ed/datastructures/bag/SortedLinkedBag.java:209-224 | The search finds `x` exactly when `x` is in the bag. |
| SortedLinkedBag.Occurrences | codes/project.dataStructures.Java.students/src/main/java/org/uma/ed/datastructures/bag/SortedLinkedBag.java:298-308 | Returns the multiplicity of `x`, which is 0 for an absent element. |
| SortedLinkedBag.Minimum | codes/project.dataStructures.Java.students/src/main/java/org/uma/ed/datastructures/bag/SortedLinkedBag.java:314-321 | Fails with `NoSuchElementException` exactly on the empty bag. Otherwise it returns an element at most every element. |
| SortedLinkedBag.Maximum | codes/project.dataStructures.Java.students/src/main/java/org/uma/ed/datastructures/bag/SortedLinkedBag.java:327-334 | Fails with `NoSuchElementException` exactly on the empty bag. Otherwise it returns the last node's element, which is at least every element. |
| SortedLinkedBag.Insert | codes/project.dataStructures.Java.students/src/main/java/org/uma/ed/datastructures/bag/SortedLinkedBag.java:230-256 | Adds exactly one `x` and keeps the chain ascending. The size grows by one, and `last` still names the final node. |
| SortedLinkedBag.Placed | codes/project.dataStructures.Java.students/src/main/java/org/uma/ed/datastructures/bag/SortedLinkedBag.java:234-253 | The chain after an insert is well formed and holds one more `x`. Its final node is `x` exactly when `x` was inserted past the end. |
| SortedLinkedBag.Delete | codes/project.dataStructures.Java.students/src/main/java/org/uma/ed/datastructures/bag/SortedLinkedBag.java:262-292 | Removes one occurrence of `x` if present and nothing else, keeping the bag valid. The size shrinks by one exactly when `x` was present. |
| SortedLinkedBag.DropOneLast | codes/project.dataStructures.Java.students/src/main/java/org/uma/ed/datastructures/bag/SortedLinkedBag.java:275-281 | The final node survives a delete unless it was unlinked, in which case its predecessor becomes final. |
| SortedLinkedBag.DeleteSoleNodeLeavesLast | codes/project.dataStructures.Java.students/src/main/java/org/uma/ed/datastructures/bag/SortedLinkedBag.java:268-273 | Deleting the only occurrence of the only element empties the chain but leaves `last` naming the removed node. |
| SortedLinkedBag.Append | codes/project.dataStructures.Java.students/src/main/java/org/uma/ed/datastructures/bag/SortedLinkedBag.java:385-399 | Appending an element at least the maximum adds one occurrence and makes it the final node. |
| SortedLinkedBag.AppendIterates | codes/project.dataStructures.Java.students/src/main/java/org/uma/ed/datastructures/bag/SortedLinkedBag.java:385-399 | After `append(x)` the iteration is the old iteration followed by `x`. |
| SortedLinkedBag.AppendAllIterates | codes/project.dataStructures.Java.students/src/main/java/org/uma/ed/datastructures/bag/SortedLinkedBag.java:129-135 | Appending a non-decreasing run extends the iteration by exactly that run. |
| SortedLinkedBag.CopyOf | codes/project.dataStructures.Java.students/src/main/java/org/uma/ed/datastructures/bag/SortedLinkedBag.java:129-136 | Appending the source's sorted iteration gives a valid bag whose iteration is exactly that sequence. |
| SortedLinkedBag.InsertAll | codes/project.dataStructures.Java.students/src/main/java/org/uma/ed/datastructures/bag/SortedLinkedBag.java:88-113 | Inserting a sequence one element at a time adds exactly its elements. |
| SortedLinkedBag.Of | codes/project.dataStructures.Java.students/src/main/java/org/uma/ed/datastructures/bag/SortedLinkedBag.java:88-92 | The built bag is valid and holds exactly the given elements. |
| SortedLinkedBag.UnionLoopContents | codes/project.dataStructures.Java.students/src/main/java/org/uma/ed/datastructures/bag/SortedLinkedBag.java:421-462 | The corrected merge loop holds each element with the sum of its two counts. |
| SortedLinkedBag.Union | codes/project.dataStructures.Java.students/src/main/java/org/uma/ed/datastructures/bag/SortedLinkedBag.java:415-463 | The corrected `union`: the bag stays valid and gains every occurrence of `that`. |
| SortedLinkedBag.UnionAsWritten | codes/project.dataStructures.Java.students/src/main/java/org/uma/ed/datastructures/bag/SortedLinkedBag.java:415-463 | The `union` as written keeps the bag well formed, with its size matching its chain. |
| SortedLinkedBag.UnionAsWrittenLosesOccurrences | codes/project.dataStructures.Java.students/src/main/java/org/uma/ed/datastructures/bag/SortedLinkedBag.java:426-431 | For {1} ∪ {2, 2} the loop as written appends a single 2, where the union holds two. |
| SortedLinkedBag.UnionIntoEmpty | codes/project.dataStructures.Java.students/src/main/java/org/uma/ed/datastructures/bag/SortedLinkedBag.java:416-420 | An empty bag takes the union by appending the iteration of `that`, and ends up holding exactly its elements. |
| SortedLinkedBag.InterLoopContents | codes/project.dataStructures.Java.students/src/main/java/org/uma/ed/datastructures/bag/SortedLinkedBag.java:484-530 | The merge loop keeps each common element with the smaller of its two counts. |
| SortedLinkedBag.Intersection | codes/project.dataStructures.Java.students/src/main/java/org/uma/ed/datastructures/bag/SortedLinkedBag.java:479-532 | The bag stays valid and holds each element with the smaller of its two multiplicities. |
| SortedLinkedBag.DiffLoopContents | codes/project.dataStructures.Java.students/src/main/java/org/uma/ed/datastructures/bag/SortedLinkedBag.java:551-605 | The merge loop leaves each element with max(0, a − b) occurrences. |
| SortedLinkedBag.Difference | codes/project.dataStructures.Java.students/src/main/java/org/uma/ed/datastructures/bag/SortedLinkedBag.java:548-607 | The bag stays valid and holds each element with its multiplicity minus that in `that`, floored at zero. |
| SortedArrayDictionary.SizeIsCardinality | codes/project.dataStructures.Java.students/src/main/java/org/uma/ed/datastructures/dictionary/SortedArrayDictionary.java:158-166 | `size` is the number of keys, and `isEmpty` holds exactly for the empty map. |
| SortedArrayDictionary.New | codes/project.dataStructures.Java.students/src/main/java/org/uma/ed/datastructures/dictionary/SortedArrayDictionary.java:46-53 | Fails with `IllegalArgumentException` exactly when the initial capacity is not positive. Otherwise the dictionary is valid and empty, with that capacity. |
| SortedArrayDictionary.Empty | codes/project.dataStructures.Java.students/src/main/java/org/uma/ed/datastructures/dictionary/SortedArrayDictionary.java:59-77 | An empty dictionary of the default capacity 16. |
| SortedArrayDictionary.EnsureCapacity | codes/project.dataStructures.Java.students/src/main/java/org/uma/ed/datastructures/dictionary/SortedArrayDictionary.java:204-208 | Keeps the entries and leaves room for one more. The capacity stays or doubles. |
| SortedArrayDictionary.FoundIsKey | codes/project.dataStructures.Java.students/src/main/java/org/uma/ed/datastructures/dictionary/SortedArrayDictionary.java:171-183 | The search finds `k` exactly when `k` is a key. |
| SortedArrayDictionary.Finder | codes/project.dataStructures.Java.students/src/main/java/org/uma/ed/datastructures/dictionary/SortedArrayDictionary.java:171-183 | Reports found exactly when `k` is a key, at the index of its entry, and otherwise the insertion position. |
| SortedArrayDictionary.ValueOf | codes/project.dataStructures.Java.students/src/main/java/org/uma/ed/datastructures/dictionary/SortedArrayDictionary.java:185-195 | Returns the value bound to `k`, or nothing (Java's null) when `k` is not a key. |
| SortedArrayDictionary.IsDefinedAt | codes/project.dataStructures.Java.students/src/main/java/org/uma/ed/datastructures/dictionary/SortedArrayDictionary.java:197-202 | Holds exactly when `k` is a key. |
| SortedArrayDictionary.Insert | codes/project.dataStructures.Java.students/src/main/java/org/uma/ed/datastructures/dictionary/SortedArrayDictionary.java:210-224 | The map becomes the old one with `k` bound to `v`, replacing any old binding. The size grows by one exactly when `k` is new. |
| SortedArrayDictionary.Delete | codes/project.dataStructures.Java.students/src/main/java/org/uma/ed/datastructures/dictionary/SortedArrayDictionary.java:226-236 | The corrected `delete`: the map loses `k` and nothing else. The size shrinks by one exactly when `k` was a key. |
| SortedArrayDictionary.DeleteAsWritten | codes/project.dataStructures.Java.students/src/main/java/org/uma/ed/datastructures/dictionary/SortedArrayDictionary.java:226-236 | Fails with an index-out-of-bounds error exactly when `k` is a key and the array is full. Otherwise it agrees with the corrected `delete`. |
| SortedArrayDictionary.DeleteAsWrittenFailsWhenFull | codes/project.dataStructures.Java.students/src/main/java/org/uma/ed/datastructures/dictionary/SortedArrayDictionary.java:226-236 | A full one-entry dictionary of capacity one fails on deleting its key. |
| SortedArrayDictionary.ClearAsWritten | codes/project.dataStructures.Java.students/src/main/java/org/uma/ed/datastructures/dictionary/SortedArrayDictionary.java:238-245 | The `clear` as written leaves the map and the size unchanged. |
| SortedArrayDictionary.ClearAsWrittenKeepsEntries | codes/project.dataStructures.Java.students/src/main/java/org/uma/ed/datastructures/dictionary/SortedArrayDictionary.java:238-245 | A dictionary binding 1 still binds it after `clear`. |
| SortedArrayDictionary.Clear | codes/project.dataStructures.Java.students/src/main/java/org/uma/ed/datastructures/dictionary/SortedArrayDictionary.java:238-245 | The corrected `clear` leaves an empty map with the same capacity. |
| SortedArrayDictionary.Minimum | codes/project.dataStructures.Java.students/src/main/java/org/uma/ed/datastructures/dictionary/SortedArrayDictionary.java:247-254 | Fails with `NoSuchElementException` exactly on the empty map. Otherwise it returns a binding of the map whose key is at most every key. |
| SortedArrayDictionary.Maximum | codes/project.dataStructures.Java.students/src/main/java/org/uma/ed/datastructures/dictionary/SortedArrayDictionary.java:256-263 | Fails with `NoSuchElementException` exactly on the empty map. Otherwise it returns a binding of the map whose key is at least every key. |
| SortedArrayDictionary.CopyOf | codes/project.dataStructures.Java.students/src/main/java/org/uma/ed/datastructures/dictionary/SortedArrayDictionary.java:138-151 | The copy has the same entries and map, with at least the default capacity. |
| SortedArrayDictionary.SortKeepsMap | codes/project.dataStructures.Java.students/src/main/java/org/uma/ed/datastructures/dictionary/SortedArrayDictionary.java:86 | Stably sorting the entries by key orders them and keeps the map they denote, with the later of equal keys winning. |
| SortedArrayDictionary.Of | codes/project.dataStructures.Java.students/src/main/java/org/uma/ed/datastructures/dictionary/SortedArrayDictionary.java:84-104 | The dictionary is valid and binds each key to the value of its last entry in the argument list. The capacity is the number of entries, or 16 for none. |
| Adjacency.InEdgeSet | codes/project.dataStructures.Java.students/src/main/java/org/uma/ed/datastructures/graph/DictionaryDiGraph.java:124-139 | A pair is an edge exactly when its first vertex is a key whose set holds the second. |
| Adjacency.RemoveVertex | codes/project.dataStructures.Java.students/src/main/java/org/uma/ed/datastructures/graph/DictionaryDiGraph.java:106-116 | Removing a vertex drops its key and every edge touching it, and nothing else. |
| Adjacency.CollectEdges | codes/project.dataStructures.Java.students/src/main/java/org/uma/ed/datastructures/graph/DictionaryDiGraph.java:124-139 | Iterating every key and every member of its set, in any order, collects exactly the edge set. |
| Adjacency.CollectPredecessors | codes/project.dataStructures.Java.students/src/main/java/org/uma/ed/datastructures/graph/DictionaryDiGraph.java:160-177 | Scanning every key, in any order, collects exactly the keys whose set holds `d`. |
| DictionaryGraph.Empty | codes/project.dataStructures.Java.students/src/main/java/org/uma/ed/datastructures/graph/DictionaryGraph.java:34-46 | A new graph is empty and symmetric. |
| DictionaryGraph.AddVertex | codes/project.dataStructures.Java.students/src/main/java/org/uma/ed/datastructures/graph/DictionaryGraph.java:84-88 | Adds the vertex with no neighbours if new. Existing vertices keep their sets, the edge set is unchanged, and symmetry is kept. |
| DictionaryGraph.AddVertexIdempotent | codes/project.dataStructures.Java.students/src/main/java/org/uma/ed/datastructures/graph/DictionaryGraph.java:84-88 | Adding a vertex twice is the same as adding it once. |
| DictionaryGraph.SymmetricIffReversible | codes/project.dataStructures.Java.students/src/main/java/org/uma/ed/datastructures/graph/DictionaryGraph.java:91-125 | The adjacency is symmetric exactly when the edge set is closed under reversal. |
| DictionaryGraph.AddEdge | codes/project.dataStructures.Java.students/src/main/java/org/uma/ed/datastructures/graph/DictionaryGraph.java:91-102 | Fails with `GraphException` exactly when an endpoint is not a vertex. Otherwise it adds the edge in both directions, changes nothing else, and keeps symmetry. |
| DictionaryGraph.DeleteEdge | codes/project.dataStructures.Java.students/src/main/java/org/uma/ed/datastructures/graph/DictionaryGraph.java:105-112 | On a symmetric graph, fails exactly when the first endpoint is not a vertex. Otherwise it removes both directions of the edge, nothing else, and keeps symmetry. |
| DictionaryGraph.DeleteVertex | codes/project.dataStructures.Java.students/src/main/java/org/uma/ed/datastructures/graph/DictionaryGraph.java:115-125 | Removes the vertex and every edge touching it, and keeps symmetry. |
| DictionaryGraph.IsEmpty | codes/project.dataStructures.Java.students/src/main/java/org/uma/ed/datastructures/graph/DictionaryGraph.java:79-81 | Holds exactly when the graph has no vertex, and then it has no edge. |
| DictionaryGraph.Vertices | codes/project.dataStructures.Java.students/src/main/java/org/uma/ed/datastructures/graph/DictionaryGraph.java:128-130 | The vertices are the keys. |
| DictionaryGraph.Edges | codes/project.dataStructures.Java.students/src/main/java/org/uma/ed/datastructures/graph/DictionaryGraph.java:133-148 | Every (vertex, successor) pair, with an edge given as the ordered pair of its endpoints; so on a symmetric graph the result is closed under reversal. |
| DictionaryGraph.NumberOfEdges | codes/project.dataStructures.Java.students/src/main/java/org/uma/ed/datastructures/graph/DictionaryGraph.java:156-158 | The number of (vertex, successor) pairs, counting each edge between two different vertices once per orientation. |
| DictionaryGraph.Successors | codes/project.dataStructures.Java.students/src/main/java/org/uma/ed/datastructures/graph/DictionaryGraph.java:161-166 | Fails with `GraphException` exactly for an unknown vertex. Otherwise it returns exactly the vertices joined to it, each of which lists it back on a symmetric graph. |
| DictionaryGraph.Degree | codes/project.dataStructures.Java.students/src/main/java/org/uma/ed/datastructures/graph/DictionaryGraph.java:169-174 | Fails with `GraphException` exactly for an unknown vertex. Otherwise it returns the number of neighbours. |
| DictionaryDiGraph.Empty | codes/project.dataStructures.Java.students/src/main/java/org/uma/ed/datastructures/graph/DictionaryDiGraph.java:33-45 | A new digraph is empty and closed. |
| DictionaryDiGraph.AddVertex | codes/project.dataStructures.Java.students/src/main/java/org/uma/ed/datastructures/graph/DictionaryDiGraph.java:83-85 | The vertex gets an empty successor set even if it existed. Its outgoing edges go, its incoming ones stay, and closedness is kept. |
| DictionaryDiGraph.AddVertexDropsOutgoing | codes/project.dataStructures.Java.students/src/main/java/org/uma/ed/datastructures/graph/DictionaryDiGraph.java:83-85 | Re-adding vertex 1 of the digraph 1→2 loses the edge 1→2. |
| DictionaryDiGraph.AddDiEdge | codes/project.dataStructures.Java.students/src/main/java/org/uma/ed/datastructures/graph/DictionaryDiGraph.java:88-97 | Fails with `GraphException` exactly when the source or the destination is not a vertex. Otherwise it adds exactly that edge and keeps the graph closed. |
| DictionaryDiGraph.DeleteDiEdge | codes/project.dataStructures.Java.students/src/main/java/org/uma/ed/datastructures/graph/DictionaryDiGraph.java:100-103 | Fails with `NullPointerException` exactly for an unknown source, whose missing set is dereferenced. Otherwise it removes exactly that edge and keeps the graph closed. |
| DictionaryDiGraph.DeleteVertex | codes/project.dataStructures.Java.students/src/main/java/org/uma/ed/datastructures/graph/DictionaryDiGraph.java:106-116 | For a present vertex, drops it and every edge touching it. An absent vertex changes nothing. Closedness is kept. |
| DictionaryDiGraph.IsEmpty | codes/project.dataStructures.Java.students/src/main/java/org/uma/ed/datastructures/graph/DictionaryDiGraph.java:78-80 | Holds exactly when the graph has no vertex, and then it has no edge. |
| DictionaryDiGraph.Vertices | codes/project.dataStructures.Java.students/src/main/java/org/uma/ed/datastructures/graph/DictionaryDiGraph.java:119-121 | The vertices are the keys. |
| DictionaryDiGraph.Edges | codes/project.dataStructures.Java.students/src/main/java/org/uma/ed/datastructures/graph/DictionaryDiGraph.java:124-139 | A pair is in `edges()` exactly when the destination is in the source's successor set. |
| DictionaryDiGraph.NumberOfEdges | codes/project.dataStructures.Java.students/src/main/java/org/uma/ed/datastructures/graph/DictionaryDiGraph.java:147-149 | The size of the edge set. |
| DictionaryDiGraph.Successors | codes/project.dataStructures.Java.students/src/main/java/org/uma/ed/datastructures/graph/DictionaryDiGraph.java:152-157 | Fails with `GraphException` exactly for an unknown vertex. Otherwise it returns exactly the destinations of its edges. |
| DictionaryDiGraph.Predecessors | codes/project.dataStructures.Java.students/src/main/java/org/uma/ed/datastructures/graph/DictionaryDiGraph.java:160-177 | Fails with `GraphException` exactly for an unknown vertex. Otherwise it returns exactly the sources of edges into it. |
| DictionaryDiGraph.InDegree | codes/project.dataStructures.Java.students/src/main/java/org/uma/ed/datastructures/graph/DictionaryDiGraph.java:180-186 | Fails with `GraphException` exactly for an unknown vertex. Otherwise it returns the number of predecessors. |
| DictionaryDiGraph.OutDegree | codes/project.dataStructures.Java.students/src/main/java/org/uma/ed/datastructures/graph/DictionaryDiGraph.java:189-194 | Fails with `GraphException` exactly for an unknown vertex. Otherwise it returns the number of successors. |
| Traversal.Pushes | codes/project.dataStructures.Java.students/src/main/java/org/uma/ed/datastructures/graph/BFTPaths.java:42-47 | Exactly the successors not yet visited are pushed, each as an edge from the vertex just visited. |
| Traversal.Pop | codes/project.dataStructures.Java.students/src/main/java/org/uma/ed/datastructures/graph/DFTPaths.java:29-34 | The stack hands out the most recently pushed pending edge and the queue the oldest. Every other pending edge stays. |
| Traversal.Step | codes/project.dataStructures.Java.students/src/main/java/org/uma/ed/datastructures/graph/BFTPaths.java:30-48 | One round of the loop keeps the traversal invariant and makes progress, or fails with `GraphException` at a reachable vertex missing from the graph. |
| Traversal.Finish | codes/project.dataStructures.Java.students/src/main/java/org/uma/ed/datastructures/graph/BFTPaths.java:30-49 | When the frontier empties, the result is a spanning tree whose visited set is exactly the reachable set. |
| Traversal.Traverse | codes/project.dataStructures.Java.students/src/main/java/org/uma/ed/datastructures/graph/BFTPaths.java:21-50 | Fails with `GraphException` exactly when some reachable vertex is not in the graph. Otherwise every reachable vertex and nothing else is visited once, the source first with the null parent, and every other vertex's parent was visited earlier and has it as a successor. |
| Traversal.TraversalOnce | codes/project.dataStructures.Java.students/src/main/java/org/uma/ed/datastructures/graph/BFTPaths.java:35-39 | In a spanning tree the traversal lists every visited vertex exactly once. |
| Traversal.SpanningTreeRanked | codes/project.dataStructures.Java.students/src/main/java/org/uma/ed/datastructures/graph/BFTPaths.java:37-40 | In a spanning tree every parent comes earlier in the traversal than its child. |
| Traversal.PathFrom | codes/project.dataStructures.Java.students/src/main/java/org/uma/ed/datastructures/graph/BFTPaths.java:60-72 | Following parents back from `v` gives a sequence ending at `v` in which each entry is the parent of the next. It starts at a vertex without a parent, and is `[v]` when `v` has no entry. |
| Traversal.PathFromSource | codes/project.dataStructures.Java.students/src/main/java/org/uma/ed/datastructures/graph/BFTPaths.java:60-72 | In a spanning tree, the path of a visited vertex starts at the source, follows edges and ends at it, and the source's own path is `[source]`. |
| BreadthFirstPaths.Of | codes/project.dataStructures.Java.students/src/main/java/org/uma/ed/datastructures/graph/BFTPaths.java:21-58 | The FIFO traversal fails with `GraphException` exactly when a reachable vertex is missing from the graph. Otherwise it yields a spanning tree rooted at the source that visits exactly the reachable vertices, each once. |
| BreadthFirstPaths.PathTo | codes/project.dataStructures.Java.students/src/main/java/org/uma/ed/datastructures/graph/BFTPaths.java:60-72 | Ends at the destination and follows the parent links. An unvisited destination gives `[destination]` without failing. |
| BreadthFirstPaths.PathToVisited | codes/project.dataStructures.Java.students/src/main/java/org/uma/ed/datastructures/graph/BFTPaths.java:60-72 | For a visited vertex the path starts at the source, follows edges and ends at it. `pathTo(source)` is `[source]`. |
| DepthFirstPaths.Of | codes/project.dataStructures.Java.students/src/main/java/org/uma/ed/datastructures/graph/DFTPaths.java:21-59 | The LIFO traversal fails with `GraphException` exactly when a reachable vertex is missing from the graph. Otherwise it yields a spanning tree rooted at the source that visits exactly the reachable vertices, each once. |
| DepthFirstPaths.PathTo | codes/project.dataStructures.Java.students/src/main/java/org/uma/ed/datastructures/graph/DFTPaths.java:61-78 | Fails with `GraphException` exactly for an unvisited destination. Otherwise it ends at the destination and follows the parent links. |
| DepthFirstPaths.PathToVisited | codes/project.dataStructures.Java.students/src/main/java/org/uma/ed/datastructures/graph/DFTPaths.java:61-78 | For a visited vertex the path exists, starts at the source, follows edges and ends at it. `pathTo(source)` is `[source]`. |
| Dijkstra.CompareTo | codes/project.dataStructures.Java.students/src/main/java/org/uma/ed/datastructures/graph/Dijkstra.java:43-47 | Extensions compare by total cost alone: negative, zero or positive as the cost is below, equal to or above the other's. |
| Dijkstra.ComparePaths | codes/project.dataStructures.Java.students/src/main/java/org/uma/ed/datastructures/graph/Dijkstra.java:105-109 | Path extensions compare as their cost-only views do, so the path plays no part. |
| Dijkstra.OrderIgnoresPath | codes/project.dataStructures.Java.students/src/main/java/org/uma/ed/datastructures/graph/Dijkstra.java:105-109 | Two pairs of path extensions with the same costs compare alike, whatever their endpoints and paths. |
| Dijkstra.MinimumExists | codes/project.dataStructures.Java.students/src/main/java/org/uma/ed/datastructures/graph/Dijkstra.java:149 | A non-empty queue holds an extension of least cost, which is what `first()` returns. |
| Dijkstra.Expand | codes/project.dataStructures.Java.students/src/main/java/org/uma/ed/datastructures/graph/Dijkstra.java:160-166 | Exactly one extension per successor is queued. It leaves the finalized vertex, costs that vertex's cost plus the edge weight, and carries its path plus the successor. |
| Dijkstra.Start | codes/project.dataStructures.Java.students/src/main/java/org/uma/ed/datastructures/graph/Dijkstra.java:128-145 | Before the loop the source alone is finalized, recorded with cost 0 and the empty path. |
| Dijkstra.StartKeeps | codes/project.dataStructures.Java.students/src/main/java/org/uma/ed/datastructures/graph/Dijkstra.java:128-145 | The initial state satisfies the loop invariant. |
| Dijkstra.DiscardKeeps | codes/project.dataStructures.Java.students/src/main/java/org/uma/ed/datastructures/graph/Dijkstra.java:152 | Lazy deletion: dropping a popped extension whose destination is already finalized keeps the invariant. |
| Dijkstra.FinalizeWitness | codes/project.dataStructures.Java.students/src/main/java/org/uma/ed/datastructures/graph/Dijkstra.java:154-158 | The recorded path of the newly finalized vertex is a path from the source whose weight is the recorded cost. |
| Dijkstra.FinalizeOptimal | codes/project.dataStructures.Java.students/src/main/java/org/uma/ed/datastructures/graph/Dijkstra.java:149-158 | With non-negative weights, the cost of a cheapest queued extension to an unfinalized vertex is no more than the weight of any path to that vertex. |
| Dijkstra.FinalizeKeeps | codes/project.dataStructures.Java.students/src/main/java/org/uma/ed/datastructures/graph/Dijkstra.java:152-167 | Finalizing the destination of a cheapest extension keeps the loop invariant and shrinks the set of remaining vertices. |
| Dijkstra.NextKeepsRecords | codes/project.dataStructures.Java.students/src/main/java/org/uma/ed/datastructures/graph/Dijkstra.java:84-96 | A pop records at most its own destination and never overwrites a recorded vertex. |
| Dijkstra.Step | codes/project.dataStructures.Java.students/src/main/java/org/uma/ed/datastructures/graph/Dijkstra.java:147-169 | One round keeps the invariant and either finalizes a vertex or shrinks the queue. Earlier records are untouched, and at most one vertex is newly recorded. |
| Dijkstra.InvShortest | codes/project.dataStructures.Java.students/src/main/java/org/uma/ed/datastructures/graph/Dijkstra.java:125-172 | Under the invariant every recorded cost is the least path weight, every recorded path witnesses it, and every recorded vertex is reachable. |
| Dijkstra.DrainedMissesRemaining | codes/project.dataStructures.Java.students/src/main/java/org/uma/ed/datastructures/graph/Dijkstra.java:147-150 | If the queue empties while vertices remain, some vertex is unreachable from the source. |
| Dijkstra.AllFinalized | codes/project.dataStructures.Java.students/src/main/java/org/uma/ed/datastructures/graph/Dijkstra.java:147 | If no vertex remains, every vertex is reachable and recorded with its shortest cost and a witnessing path. |
| Dijkstra.DijkstraPathsAsWritten | codes/project.dataStructures.Java.students/src/main/java/org/uma/ed/datastructures/graph/Dijkstra.java:125-172 | Fails exactly when the source is not a vertex (`GraphException`) or some vertex is unreachable (the empty-queue failure). Otherwise every vertex gets its shortest cost and a witnessing path, and the source gets (0, []). |
| Dijkstra.DijkstraPaths | codes/project.dataStructures.Java.students/src/main/java/org/uma/ed/datastructures/graph/Dijkstra.java:125-172 | The corrected loop, which also stops on an empty queue: fails exactly for an unknown source. Otherwise it records exactly the reachable vertices with shortest costs and witnessing paths, and the source with (0, []). |
| Dijkstra.Costs | codes/project.dataStructures.Java.students/src/main/java/org/uma/ed/datastructures/graph/Dijkstra.java:64-100 | The cost-only result has the same keys, each with the cost of its path record. |
| Dijkstra.CostsShortest | codes/project.dataStructures.Java.students/src/main/java/org/uma/ed/datastructures/graph/Dijkstra.java:64-100 | The costs of a shortest-path record are shortest-path costs. |
| Dijkstra.DijkstraAsWritten | codes/project.dataStructures.Java.students/src/main/java/org/uma/ed/datastructures/graph/Dijkstra.java:64-100 | Fails exactly when the source is not a vertex or some vertex is unreachable. Otherwise every vertex is mapped to its shortest-path cost, and the source to 0. |
| Dijkstra.Dijkstra | codes/project.dataStructures.Java.students/src/main/java/org/uma/ed/datastructures/graph/Dijkstra.java:64-100 | The corrected loop: fails exactly for an unknown source. Otherwise it maps exactly the reachable vertices to their shortest-path costs, and the source to 0. |

## Left out

- Comparators are not objects here. Elements and keys are `int` with their natural order, and a `comparatorId` number stands for the comparator's identity where the code compares comparators (`checkSameComparator`).
- The overloads of `union`, `intersection` and `difference` in `SortedLinkedBag` that take a general `Bag` are not modelled. `union(Bag)` inserts each element of the argument one at a time (SortedLinkedBag.java:405-409). `intersection(Bag)` and `difference(Bag)` iterate this bag and call `delete` on the chain they are walking (SortedLinkedBag.java:468-474 and 537-543). They mutate the bag while iterating it, and their meaning rests on the `Bag` interface and its iterator, which are not part of this model. Only the overloads taking a `SortedLinkedBag` are modelled.
- SortedLinkedBag.Union and SortedLinkedBag.UnionAsWritten take the argument as a separate value, because Dafny values cannot alias. The Java `b.union(b)` passes the receiver itself: on equal elements it adds the node's count to itself and then adds the already doubled count to `size` (SortedLinkedBag.java:451-454), so `size` ends at three times the original while the counts sum to twice it. The model does not show that self-union. `intersection` and `difference` with the receiver itself give the same result as with a copy, so they need no such note.
- `toString`, `equals`, `hashCode`, the demo programs, and the JDK-backed collaborators (`JDKHashDictionary`, `JDKHashSet`, `JDKArrayList`, `JDKQueue`, `JDKPriorityQueue`) are not part of this model. They are replaced by Dafny maps, sets, sequences and multisets.
- The iteration order of hash sets and dictionaries is not modelled. The loops that iterate them pick the next element with `:|`. The traversals take a successor *sequence* per vertex, so they are proved for every iteration order.
- The priority queue's tie-breaking is not modelled. Dijkstra's loop pops *some* least-cost extension, and the proofs hold for every choice.
- Integer overflow is not modelled. `BinaryTree.sum`, heap weights, sizes and Dijkstra's accumulated costs are unbounded integers, whereas Java's `int` would wrap on huge inputs.
- Negative edge weights: Dijkstra's weights are `nat`. The Java code accepts any `Integer` weight, but its result is only meaningful for non-negative ones.
- The weighted graph itself, `WeightedGraph` and its `successors`, is not part of this model. It is a map from a vertex to a map from successor to weight, and the Dijkstra members require every successor to be a vertex (`Closed`), which the weighted graph classes maintain.
- Running time is not modelled: the amortised capacity doubling, the O(log n) binary searches and the merge's O(log n) bound. `MaxiphobicHeap.MergeIsMaxiphobic` states the weight ratio the logarithmic bound rests on, not the bound itself.
- The heap's merge mutates and reuses nodes, so the Java `copyOf` exists to avoid aliasing. The model is immutable, so the copy is the original value.
- `BreadthFirstPaths`: the fewest-edges property of breadth-first paths is not stated. The model proves only that the traversal is a spanning tree of the reachable vertices.
- `BreadthFirstPaths.PathTo` and `DepthFirstPaths.PathTo` require that every parent precedes its child in the traversal. Every traversal produced by `Of` meets this (`Traversal.SpanningTreeRanked`), but the Java methods make no such demand on arbitrary parent maps.
- DictionaryGraph.Edges returns ordered pairs, one per orientation, because the `Edge` record is not part of this model. This assumes `Edge` equality compares the two endpoints in order, so `new Edge<>(u, v)` and `new Edge<>(v, u)` are different members of the hash set (DictionaryGraph.java:133-148). If `Edge` equality ignored orientation, `edges()` would keep one of the two.
- DictionaryGraph.NumberOfEdges counts those ordered pairs under the same assumption. With an orientation-blind `Edge`, `numberOfEdges()` would count each edge between two different vertices once, about half the model's number.
- `DictionaryGraph.DeleteEdge` states its failure condition and its effect on the edge set only for symmetric graphs, which are the only graphs the class builds. On a non-symmetric map it states just the failure's exception and the unchanged vertex set.
- `SortedLinkedBag.UnionAsWritten` states only that the result is a valid bag, because its contents are wrong. `SortedLinkedBag.UnionAsWrittenLosesOccurrences` shows the loss, and `SortedLinkedBag.Union` states the intended contents.
- SortedArrayBag.MaximumAsWritten states its result only for the empty bag and for bags without repeated elements. On other bags it may read an unused slot, which `SortedArrayBag.MaximumAsWrittenOnRepeatedElement` exhibits.
- SortedArraySet.DeleteAsWritten returns only the error on its failing path. The Java loop has already shifted the later elements left, one slot each, before the read past the end throws, and `size` is not decremented (SortedArraySet.java:336-345). The state the exception leaves behind is not modelled.
- SortedArrayDictionary.DeleteAsWritten likewise returns only the error. The entries after the deleted one have already been shifted left when the read past the end throws, and `size` is unchanged (SortedArrayDictionary.java:227-236).
- SortedArrayBag.InsertAsWritten likewise returns only the error. The shift runs downward, so its first store is the one past the array and no bin has moved yet. But `ensureCapacity` may already have replaced the array by a copy twice as long, and that grown array stays in the bag (SortedArrayBag.java:233-237 and 257-266).
- SortedArrayBag.DeleteAsWritten likewise returns only the error. The element's count has already dropped to zero and the later bins have shifted left when the read past the end throws, while `bins` and `size` are unchanged (SortedArrayBag.java:276-284).
- SortedArrayDictionary.Of takes the entries as a sequence value. The Java `of` sorts the caller's argument array in place (SortedArrayDictionary.java:86), a side effect on the caller that the model does not show.
- Iterators are modelled as the sequence they yield, not as objects with `hasNext` and `next`. So concurrent modification during iteration, and `next` past the end, are not modelled.

## Findings

| source | as written | input that shows it | evidently intended | confidence | as-written member | corrected member |
|---|---|---|---|---|---|---|
| codes/project.dataStructures.Java.students/src/main/java/org/uma/ed/datastructures/tree/BinaryTree.java:268-276 | `buildPostorder` lists each child with `buildPreorder`, not with itself, and then appends the root | the chain 1 → left 2 → left 3 gives [2, 3, 1] | [3, 2, 1]: each child in postorder, then the root | not executed | BinaryTree.PostorderAsWrittenDiffers | BinaryTree.PostorderIsPermutation |
| codes/project.dataStructures.Java.students/src/main/java/org/uma/ed/datastructures/set/SortedArraySet.java:336-345 | `delete` shifts the tail left with a loop that reads `elements[i + 1]` up to `i = size - 1` | deleting 1 from the full set `of(1)` of capacity 1 reads index 1 | read only up to `size - 1`, so a full set can be deleted from | not executed | SortedArraySet.DeleteAsWrittenFailsOnFullSet | SortedArraySet.Delete |
| codes/project.dataStructures.Java.students/src/main/java/org/uma/ed/datastructures/bag/SortedArrayBag.java:252-269 | `insert` of a new element shifts bins right by looping up to the element count `size` instead of the bin count | sixteen 1s in a 16-slot array, then inserting 2 | shift only the live bins | not executed | SortedArrayBag.InsertAsWrittenOnRepeatedElement | SortedArrayBag.Insert |
| codes/project.dataStructures.Java.students/src/main/java/org/uma/ed/datastructures/bag/SortedArrayBag.java:105-109 | `of` and `from` build the bag through the defective `insert`, so they inherit its overrun | `of(1, 1, 1, 1, 1, 1, 1, 1, 1, 1, 1, 1, 1, 1, 1, 1, 2)` overruns the default 16-slot array | build the bag through an `insert` that shifts only the live bins | not executed | SortedArrayBag.OfAsWrittenOnRepeatedElement | SortedArrayBag.Of |
| codes/project.dataStructures.Java.students/src/main/java/org/uma/ed/datastructures/bag/SortedArrayBag.java:272-287 | `delete` of a last occurrence shifts bins left reading one slot past the bin count, bounded by the element count `size` | a one-slot bag holding a single 1, then deleting 1 | shift only the live bins | not executed | SortedArrayBag.DeleteAsWrittenOnFullBag | SortedArrayBag.Delete |
| codes/project.dataStructures.Java.students/src/main/java/org/uma/ed/datastructures/bag/SortedArrayBag.java:310-315 | `maximum` reads the bin at index `size - 1`, the element count, not the bin count | the bag {1, 1} reads the empty slot 1 | read the bin at index `bins - 1` | not executed | SortedArrayBag.MaximumAsWrittenOnRepeatedElement | SortedArrayBag.Maximum |
| codes/project.dataStructures.Java.students/src/main/java/org/uma/ed/datastructures/bag/SortedLinkedBag.java:426-431 | once the receiver is exhausted, `union` appends each remaining element of the argument once through `append`, dropping its other occurrences | {1} ∪ {2, 2} gives the chain 1×1, 2×1 | append the bin with all its occurrences, giving 1×1, 2×2 | not executed | SortedLinkedBag.UnionAsWrittenLosesOccurrences | SortedLinkedBag.Union |
| codes/project.dataStructures.Java.students/src/main/java/org/uma/ed/datastructures/dictionary/SortedArrayDictionary.java:227-236 | `delete` shifts entries left reading `entries[i + 1]` up to `i = size - 1` | deleting key 1 from a full one-entry dictionary of capacity 1 | read only up to `size - 1` | not executed | SortedArrayDictionary.DeleteAsWrittenFailsWhenFull | SortedArrayDictionary.Delete |
| codes/project.dataStructures.Java.students/src/main/java/org/uma/ed/datastructures/dictionary/SortedArrayDictionary.java:239-245 | `clear` does not reset the entry count, so the entries stay | a dictionary binding 1, cleared, still binds 1 | set the size to 0 | not executed | SortedArrayDictionary.ClearAsWrittenKeepsEntries | SortedArrayDictionary.Clear |
| codes/project.dataStructures.Java.students/src/main/java/org/uma/ed/datastructures/graph/Dijkstra.java:147-150 | the loop runs until every vertex is finalized and takes `first()` without checking the queue; `dijkstra` has the same loop at lines 80-81 | a graph with a vertex unreachable from the source empties the queue, and `first()` throws | stop when the queue is empty and return the reachable vertices only | not executed | Dijkstra.DijkstraPathsAsWritten | Dijkstra.DijkstraPaths |
