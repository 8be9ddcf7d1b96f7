# Verified model of the XueZhang data-structure labs

This project models five classes from a Java coursework repository and proves their
properties in Dafny. Each class keeps its imperative form. The five classes are:

- **`HeapPQ`** (lab10): a priority queue over a binary min-heap.
  - The entries sit in an index list whose slot 0 is a `null` sentinel. The parent of slot `i` is slot `i / 2`.
  - `insert` appends the entry and sifts it up.
  - `removeMin` moves the last entry to slot 1 and sifts it down.
  - The keys are ordered by a `Comparator`. `checkKey` rejects a key the comparator throws on.
- **`ArrayBinaryTree`** (lab13): a binary tree stored in an array.
  - The node at index `i` has its children at `2i` and `2i + 1`.
  - The array doubles when an index does not fit. `maxIndex` records the largest index used.
  - `elements()` lists the elements in preorder.
- **`LinkedBinaryTree`** (lab9): a binary tree of nodes with parent, left and right links.
  - Its operations are `addRoot`, `insertLeft`, `insertRight`, `remove` (of a node with at most one child), `attach`, `sibling` and preorder `positions`.
- **`StringSet`** (lab3): a set of strings in a singly linked list, kept in ascending `compareTo` order, with a size counter.
- **`CheckBraces`** (HW5): the brace-matching loop.
  - It scans the whole contents of the input file, read into one string, with a stack of opening braces and records the expected closer.
  - It stops with error 2 at a closer that has nothing open, and with error 1 at a closer that does not match.

Every exception the Java code throws becomes an `Err` value of `Outcomes.Result`, and a `null` reference becomes `None`. The modules are:

- `Outcomes`: the shared result types.
- `Heaps`: `HeapPQ`. The class keeps its backing list as a `seq` field.
- `ArrayTree`: `ArrayBinaryTree`. The class keeps a real `array` that `ExpandArray` replaces.
- `LinkedShape` and `LinkedTree`: `LinkedBinaryTree`.
  - The nodes are records in an arena (`map<int, BTNode>`) keyed by node id.
  - A ghost `Tree` value gives the shape, and the class invariant says that the links of the arena encode it exactly.
- `StringSets`: `StringSet`. It uses real heap-allocated `Node` objects, with a ghost `spine` listing them from the head.
- `Braces`: the brace loop as a method, together with the function `Check` that specifies it.

Two of the proved facts describe behaviour of the code as written:

- `ArrayBinaryTree.insertRight` does not check for an existing right child. It overwrites that child and still increments `size`.
- After a mismatch, `CheckBraces` leaves `expect` set to the closer of the last opener pushed. That is not necessarily the opener the stray closer met (`Braces.StaleExpect`).

## Model

| member | source | states |
|---|---|---|
| Heaps.NaturalOrder | XueZhang/lab10/HeapPQ.java:36-41 | the default comparator on integer keys is a total preorder and orders `a` before `b` exactly when `a <= b` |
| Heaps.RootIsLeast | XueZhang/lab10/HeapPQ.java:68-72 | in a heap-ordered list the key at slot 1 orders no later than the key at any live slot (induction on the parent chain) |
| Heaps.RootIsMinimum | XueZhang/lab10/HeapPQ.java:68-72 | the entry at slot 1 has a key no greater than that of every stored entry |
| Heaps.LastToRoot | XueZhang/lab10/HeapPQ.java:103 | moving the last entry to slot 1 keeps the sentinel layout for one entry fewer and breaks heap order only below slot 1; the removed root leaves the multiset and still bounds every key |
| Heaps.LeastOfAll | XueZhang/lab10/HeapPQ.java:94-119 | a key bounding every live slot bounds every stored entry |
| Heaps.SmallerChild | XueZhang/lab10/HeapPQ.java:106-109 | the child that sift-down picks (the right one only when the left is strictly greater) orders no later than either child |
| Heaps.NoChildren | XueZhang/lab10/HeapPQ.java:105 | when sift-down reaches a slot without children, heap order holds throughout |
| Heaps.AppendLeaf | XueZhang/lab10/HeapPQ.java:81 | appending an accepted entry at slot `size + 1` keeps the layout, adds exactly that entry to the multiset, and breaks heap order only at the new slot |
| Heaps.SwapKeys | XueZhang/lab10/HeapPQ.java:150-154 | swapping two live slots exchanges their keys, leaves every other key in place and keeps the multiset of entries |
| Heaps.SwapUp | XueZhang/lab10/HeapPQ.java:83-86 | swapping a slot with its strictly greater parent moves the only break in heap order up to the parent and keeps the entries |
| Heaps.SwapDown | XueZhang/lab10/HeapPQ.java:110-113 | swapping a slot with its smaller, strictly smaller child moves the only break in heap order down to that child, keeps the entries and keeps every lower bound on the keys |
| Heaps.HeapPQ.constructor | XueZhang/lab10/HeapPQ.java:44-49 | a new queue holds only the sentinel, has size 0, and satisfies the heap invariant |
| Heaps.HeapPQ.IsEmpty | XueZhang/lab10/HeapPQ.java:61-63 | a valid queue is empty exactly when its list holds only the sentinel |
| Heaps.HeapPQ.Min | XueZhang/lab10/HeapPQ.java:68-72 | fails with `EmptyPriorityQueue` exactly when size is 0; otherwise returns the entry at slot 1, whose key orders no later than every stored key |
| Heaps.HeapPQ.Swap | XueZhang/lab10/HeapPQ.java:150-154 | exchanges the two slots and leaves every other slot and the length unchanged |
| Heaps.HeapPQ.Insert | XueZhang/lab10/HeapPQ.java:78-89 | rejects a key the comparator throws on with `InvalidKey`, changing nothing; otherwise returns the new entry, grows the size by one, adds exactly that entry to the multiset, and keeps the heap invariant |
| Heaps.HeapPQ.SiftUpStep | XueZhang/lab10/HeapPQ.java:83-86 | one pass of the sift-up loop: the break in heap order moves from `i` to `i / 2` and the entries are unchanged as a multiset |
| Heaps.HeapPQ.RemoveMin | XueZhang/lab10/HeapPQ.java:94-119 | fails with `EmptyPriorityQueue` on an empty queue, changing nothing; otherwise returns the old slot-1 entry, removes exactly it from the multiset, shrinks the size by one, keeps the heap invariant, and the returned key bounds every remaining key |
| Heaps.HeapPQ.SiftDown | XueZhang/lab10/HeapPQ.java:104-116 | the sift-down loop restores heap order over the `size - 1` live entries, keeps the multiset of entries and keeps any lower bound on the keys |
| Heaps.HeapPQ.SmallerChildOf | XueZhang/lab10/HeapPQ.java:106-109 | the chosen child is a child of `i` within the live slots, and its key is no greater than any child's |
| Heaps.HeapPQ.SiftDownStep | XueZhang/lab10/HeapPQ.java:110-113 | one pass of the sift-down loop: the break in heap order moves from `i` to `j`, the entries are unchanged as a multiset, and lower bounds are kept |
| Heaps.HeapPQ.SettledDown | XueZhang/lab10/HeapPQ.java:114-115 | when the smaller child is not strictly smaller, sift-down may stop: heap order holds everywhere |
| ArrayTree.BelowBound | XueZhang/lab13/ArrayBinaryTree.java:124-140 | every index in the subtree at `v` is at least `v` |
| ArrayTree.BelowRoot | XueZhang/lab13/ArrayBinaryTree.java:118-121 | every index from 1 on lies in the subtree at index 1 |
| ArrayTree.BelowChild | XueZhang/lab13/ArrayBinaryTree.java:124-140 | the subtree at a child index `2v` or `2v + 1` lies inside the subtree at `v` |
| ArrayTree.BelowSplit | XueZhang/lab13/ArrayBinaryTree.java:266-273 | every proper descendant of `v` lies in the subtree of one of its two children |
| ArrayTree.BelowNested | XueZhang/lab13/ArrayBinaryTree.java:143-148 | two subtrees that share an index are nested |
| ArrayTree.SiblingsDisjoint | XueZhang/lab13/ArrayBinaryTree.java:266-273 | the subtrees at `2v` and `2v + 1` share no index |
| ArrayTree.JoinDistinct | XueZhang/lab13/ArrayBinaryTree.java:266-273 | a node followed by two disjoint duplicate-free runs of positions has no duplicates |
| ArrayTree.ArrayBinaryTree.constructor | XueZhang/lab13/ArrayBinaryTree.java:58-64 | a fresh array of capacity `cap`, size 0, `maxIndex` 0, every slot empty |
| ArrayTree.ArrayBinaryTree.Default | XueZhang/lab13/ArrayBinaryTree.java:53-55 | an empty tree with capacity `CAPACITY` (100) |
| ArrayTree.ArrayBinaryTree.IsEmpty | XueZhang/lab13/ArrayBinaryTree.java:70 | under the invariant, the size counter is zero exactly when index 1 holds no node |
| ArrayTree.ArrayBinaryTree.AncestorOccupied | XueZhang/lab13/ArrayBinaryTree.java:143-148 | every ancestor index of a node holds a node |
| ArrayTree.ArrayBinaryTree.UpdateMaxIndex | XueZhang/lab13/ArrayBinaryTree.java:73 | `maxIndex` becomes the larger of its old value and `i` |
| ArrayTree.ArrayBinaryTree.HasLeft | XueZhang/lab13/ArrayBinaryTree.java:100-104 | true exactly when index `2v` holds a node: the `maxIndex` shortcut never hides a child |
| ArrayTree.ArrayBinaryTree.HasRight | XueZhang/lab13/ArrayBinaryTree.java:111-115 | true exactly when index `2v + 1` holds a node: the `maxIndex` shortcut never hides a child |
| ArrayTree.ArrayBinaryTree.IsInternal | XueZhang/lab13/ArrayBinaryTree.java:84-86 | true exactly when some node has `v` as its parent index |
| ArrayTree.ArrayBinaryTree.IsExternal | XueZhang/lab13/ArrayBinaryTree.java:89-91 | true exactly when no node has `v` as its parent index |
| ArrayTree.ArrayBinaryTree.Root | XueZhang/lab13/ArrayBinaryTree.java:118-121 | index 1 when it holds a node, otherwise `EmptyTree` |
| ArrayTree.ArrayBinaryTree.Left | XueZhang/lab13/ArrayBinaryTree.java:124-129 | `2v` when it holds a node, otherwise `BoundaryViolation` |
| ArrayTree.ArrayBinaryTree.Right | XueZhang/lab13/ArrayBinaryTree.java:135-140 | `2v + 1` when it holds a node, otherwise `BoundaryViolation` |
| ArrayTree.ArrayBinaryTree.Parent | XueZhang/lab13/ArrayBinaryTree.java:143-148 | `BoundaryViolation` exactly at the root; otherwise a node of which `v` is a child |
| ArrayTree.ArrayBinaryTree.ParentChildRoundTrip | XueZhang/lab13/ArrayBinaryTree.java:124-148 | `parent(left(v)) == v` and `parent(right(v)) == v`, and every non-root node is the left or right child of its parent |
| ArrayTree.ArrayBinaryTree.Children | XueZhang/lab13/ArrayBinaryTree.java:151-159 | exactly the nodes whose parent index is `v`, in ascending order (left before right) |
| ArrayTree.ArrayBinaryTree.Positions | XueZhang/lab13/ArrayBinaryTree.java:162-168 | exactly the occupied indices, each once, in ascending order |
| ArrayTree.ArrayBinaryTree.ElementsOf | XueZhang/lab13/ArrayBinaryTree.java:171-177 | one element per given position |
| ArrayTree.ArrayBinaryTree.ElementsOfConcat | XueZhang/lab13/ArrayBinaryTree.java:266-273 | the elements of two runs of positions are the elements of each, concatenated |
| ArrayTree.ArrayBinaryTree.ElementsOfJoin | XueZhang/lab13/ArrayBinaryTree.java:266-273 | the elements of a node and two runs are its element followed by the runs' elements |
| ArrayTree.ArrayBinaryTree.Iterator | XueZhang/lab13/ArrayBinaryTree.java:171-177 | the elements of all nodes, one per occupied index, in ascending index order |
| ArrayTree.ArrayBinaryTree.Preorder | XueZhang/lab13/ArrayBinaryTree.java:266-273 | every position the preorder of a subtree lists holds a node |
| ArrayTree.ArrayBinaryTree.PreorderSound | XueZhang/lab13/ArrayBinaryTree.java:266-273 | the preorder of `v` lists only indices of the subtree at `v` |
| ArrayTree.ArrayBinaryTree.PreorderComplete | XueZhang/lab13/ArrayBinaryTree.java:266-273 | the preorder of `v` lists every node of the subtree at `v` |
| ArrayTree.ArrayBinaryTree.PreorderDistinct | XueZhang/lab13/ArrayBinaryTree.java:266-273 | the preorder of `v` lists no index twice |
| ArrayTree.ArrayBinaryTree.PreorderVisitsAll | XueZhang/lab13/ArrayBinaryTree.java:256-260 | the preorder from the root starts at the root and lists every node of the tree exactly once |
| ArrayTree.ArrayBinaryTree.PreorderSplit | XueZhang/lab13/ArrayBinaryTree.java:266-273 | the preorder elements of a subtree are its node's element, then its left subtree's, then its right subtree's |
| ArrayTree.ArrayBinaryTree.PreorderElements | XueZhang/lab13/ArrayBinaryTree.java:266-273 | reading a subtree's elements directly off the array gives the elements at its preorder positions |
| ArrayTree.ArrayBinaryTree.ElementsFrom | XueZhang/lab13/ArrayBinaryTree.java:266-273 | appends to `list` exactly the subtree's elements in preorder: the node's, then the left subtree's, then the right subtree's (tied to the preorder positions by `PreorderElements`) |
| ArrayTree.ArrayBinaryTree.Elements | XueZhang/lab13/ArrayBinaryTree.java:256-260 | the elements in preorder from the root; without a root, the null dereference (or, with a one-slot array, the out-of-bounds read) the code runs into |
| ArrayTree.ArrayBinaryTree.Replace | XueZhang/lab13/ArrayBinaryTree.java:180-183 | returns the old element, stores the new one at `v`, and leaves every other slot unchanged |
| ArrayTree.ArrayBinaryTree.Place | XueZhang/lab13/ArrayBinaryTree.java:208-219 | storing a node under an occupied parent keeps the invariant, counts the node, raises `maxIndex`, and changes no other slot |
| ArrayTree.ArrayBinaryTree.AddRoot | XueZhang/lab13/ArrayBinaryTree.java:186-193 | `NonEmptyTree` on a non-empty tree and an out-of-bounds failure on a one-slot array, both changing nothing; otherwise index 1 holds `e`, the size grows by one, and nothing else changes |
| ArrayTree.ArrayBinaryTree.ExpandArray | XueZhang/lab13/ArrayBinaryTree.java:196-205 | afterwards `i` fits; the capacity is the old one times a power of two and at most `2i` when it grew; every slot, the size and `maxIndex` are kept |
| ArrayTree.ArrayBinaryTree.InsertLeft | XueZhang/lab13/ArrayBinaryTree.java:208-219 | `InvalidPosition` when `2v` is occupied, changing nothing; otherwise returns `2v`, which holds `e`; the size grows by one; `maxIndex` is raised; no other slot changes |
| ArrayTree.ArrayBinaryTree.InsertRight | XueZhang/lab13/ArrayBinaryTree.java:226-235 | returns `2v + 1`, which holds `e`; the size grows by one even when a right child was overwritten; no other slot changes |
| ArrayTree.BuildExpression | XueZhang/lab13/Tester.java:42-57 | the tester's insertions give `*` at 1, `2` at 2, `+` at 3, `6` at 6 and `5` at 7, and nothing else in those subtrees |
| ArrayTree.ExpressionScenario | XueZhang/lab13/Tester.java:42-59 | `elements()` of the tester's tree is `* 2 + 6 5`; a second left child for the root is refused with `InvalidPosition` |
| LinkedShape.LinkedKeys | XueZhang/lab9/LinkedBinaryTree.java:319-324 | every node of a linked shape has a record in the arena |
| LinkedShape.LinkedFrame | XueZhang/lab9/LinkedBinaryTree.java:275-288 | linkage depends only on the links of the shape's own nodes |
| LinkedShape.LinkedReparent | XueZhang/lab9/LinkedBinaryTree.java:275-288 | changing only the root's parent link hangs the same shape below the new parent |
| LinkedShape.LinkedLocal | XueZhang/lab9/LinkedBinaryTree.java:52-73 | in a linked shape, a node lacks the outer parent exactly when it is the root; its parent has it as a child; its children link back; its two children differ |
| LinkedShape.PreorderIds | XueZhang/lab9/LinkedBinaryTree.java:342-350 | the preorder lists exactly the ids of the shape |
| LinkedShape.PreorderDistinct | XueZhang/lab9/LinkedBinaryTree.java:342-350 | the preorder of a shape without repeated ids lists each id once |
| LinkedShape.WithoutConcat | XueZhang/lab9/LinkedBinaryTree.java:260-291 | dropping an id from a concatenation drops it from each part |
| LinkedShape.WithoutAbsent | XueZhang/lab9/LinkedBinaryTree.java:260-291 | dropping an absent id changes nothing |
| LinkedShape.SpliceAbsent | XueZhang/lab9/LinkedBinaryTree.java:260-291 | splicing out an id not in the shape changes nothing |
| LinkedShape.UnlinkAt | XueZhang/lab9/LinkedBinaryTree.java:275-288 | the relinking of `remove` changes only the parent's link to `v` (now to the only child) and the child's parent link (now to `v`'s parent) |
| LinkedShape.SpliceLinked | XueZhang/lab9/LinkedBinaryTree.java:260-291 | removing a node with at most one child from a linked shape leaves the spliced shape linked, without repeated ids, with exactly that id gone |
| LinkedShape.SpliceLeft | XueZhang/lab9/LinkedBinaryTree.java:275-288 | the same, when the removed node lies in the left subtree |
| LinkedShape.SpliceRight | XueZhang/lab9/LinkedBinaryTree.java:275-288 | the same, when the removed node lies in the right subtree |
| LinkedShape.SpliceRoot | XueZhang/lab9/LinkedBinaryTree.java:275-288 | the same, when the removed node is the root: its only child, if any, takes its place |
| LinkedShape.LinkedRemovable | XueZhang/lab9/LinkedBinaryTree.java:260-291 | a node whose record lacks a child has an empty subtree on that side wherever it occurs in the shape |
| LinkedShape.SplicePreorder | XueZhang/lab9/LinkedBinaryTree.java:260-291 | after removal the preorder is the old one with that node dropped and the others in the same order |
| LinkedShape.GraftLinked | XueZhang/lab9/LinkedBinaryTree.java:298-313 | hanging a linked subtree below an empty link of `v` gives a linked shape |
| LinkedShape.GraftRoot | XueZhang/lab9/LinkedBinaryTree.java:298-313 | hanging a subtree does not change the root |
| LinkedShape.GraftIds | XueZhang/lab9/LinkedBinaryTree.java:298-313 | hanging a disjoint subtree into an empty link adds exactly its ids and repeats none |
| LinkedShape.GraftAbsent | XueZhang/lab9/LinkedBinaryTree.java:298-313 | hanging below an id not in the shape changes nothing |
| LinkedShape.ShiftNodesAt | XueZhang/lab9/LinkedBinaryTree.java:298-313 | each record of the renumbered donor arena is the donor record at the id moved back by the offset, with its links moved up |
| LinkedShape.ShiftIdsAt | XueZhang/lab9/LinkedBinaryTree.java:298-313 | renumbering moves each id of the shape up by the offset |
| LinkedShape.ShiftDistinct | XueZhang/lab9/LinkedBinaryTree.java:298-313 | renumbering keeps ids apart |
| LinkedShape.ShiftLinked | XueZhang/lab9/LinkedBinaryTree.java:298-313 | a renumbered linked shape is linked in the renumbered arena |
| LinkedShape.AdoptedAt | XueZhang/lab9/LinkedBinaryTree.java:303-312 | each record of the merged arena comes from the host unchanged, from `v` with its new child, from the renumbered donor, or from the donor's root with `v` as its new parent |
| LinkedShape.AdoptLinked | XueZhang/lab9/LinkedBinaryTree.java:303-312 | the merged arena links the grafted shape, and that shape has no repeated ids and holds the ids of host and donor |
| LinkedShape.AdoptedIds | XueZhang/lab9/LinkedBinaryTree.java:303-312 | the merged arena has a record for each node of the two shapes and no other |
| LinkedShape.AdoptedKeys | XueZhang/lab9/LinkedBinaryTree.java:303-312 | the merged arena keeps every element, moves the donor's ids up by the offset, and leaves the other link of `v` alone |
| LinkedShape.AdoptSound | XueZhang/lab9/LinkedBinaryTree.java:303-312 | the merged arena is a valid arena for the grafted shape with the same root, and keeps every element |
| LinkedTree.LinkedBinaryTree.constructor | XueZhang/lab9/LinkedBinaryTree.java:29-32 | an empty, valid tree with no root and no nodes |
| LinkedTree.LinkedBinaryTree.LinksAt | XueZhang/lab9/LinkedBinaryTree.java:52-91 | in a valid tree only the root lacks a parent; a parent has the node as a child; children link back; a node's two children differ |
| LinkedTree.LinkedBinaryTree.ValidConsistent | XueZhang/lab9/LinkedBinaryTree.java:52-91 | the link facts of `LinksAt` hold for every node |
| LinkedTree.LinkedBinaryTree.ChildrenOf | XueZhang/lab9/LinkedBinaryTree.java:145-153 | the nodes naming `v` as parent are exactly its left and right children |
| LinkedTree.LinkedBinaryTree.IsInternal | XueZhang/lab9/LinkedBinaryTree.java:52-55 | true exactly when some node names `v` as its parent |
| LinkedTree.LinkedBinaryTree.IsExternal | XueZhang/lab9/LinkedBinaryTree.java:61-64 | true exactly when no node names `v` as its parent |
| LinkedTree.LinkedBinaryTree.IsRoot | XueZhang/lab9/LinkedBinaryTree.java:70-73 | true exactly when `v` has no parent |
| LinkedTree.LinkedBinaryTree.Root | XueZhang/lab9/LinkedBinaryTree.java:96-100 | `EmptyTree` exactly when there are no nodes; otherwise a parentless node |
| LinkedTree.LinkedBinaryTree.Left | XueZhang/lab9/LinkedBinaryTree.java:106-113 | `BoundaryViolation` exactly when there is no left child; otherwise a node whose parent is `v` |
| LinkedTree.LinkedBinaryTree.Right | XueZhang/lab9/LinkedBinaryTree.java:119-126 | `BoundaryViolation` exactly when there is no right child; otherwise a node whose parent is `v` |
| LinkedTree.LinkedBinaryTree.Parent | XueZhang/lab9/LinkedBinaryTree.java:132-139 | `BoundaryViolation` exactly at the root; otherwise a node that has `v` as a child |
| LinkedTree.LinkedBinaryTree.Children | XueZhang/lab9/LinkedBinaryTree.java:145-153 | exactly the nodes naming `v` as parent, at most two, left before right |
| LinkedTree.LinkedBinaryTree.Sibling | XueZhang/lab9/LinkedBinaryTree.java:194-209 | succeeds exactly when another node shares `v`'s parent, and returns such a node; otherwise `BoundaryViolation` |
| LinkedTree.LinkedBinaryTree.Replace | XueZhang/lab9/LinkedBinaryTree.java:181-187 | returns the old element, stores the new one, and changes no link |
| LinkedTree.LinkedBinaryTree.AddRoot | XueZhang/lab9/LinkedBinaryTree.java:216-222 | `NonEmptyTree` on a non-empty tree, changing nothing; otherwise a single parentless, childless node holding `e` becomes the root and the size is 1 |
| LinkedTree.LinkedBinaryTree.InsertLeft | XueZhang/lab9/LinkedBinaryTree.java:228-238 | `InvalidPosition` when `v` has a left child, changing nothing; otherwise a new leaf holding `e` becomes that child, the shape gains it, and the size grows by one |
| LinkedTree.LinkedBinaryTree.InsertRight | XueZhang/lab9/LinkedBinaryTree.java:244-254 | the same for the right child |
| LinkedTree.LinkedBinaryTree.Remove | XueZhang/lab9/LinkedBinaryTree.java:260-291 | `InvalidPosition` for a node with two children, changing nothing; otherwise returns its element, splices it out of the shape (its only child takes its place, or becomes the root), and shrinks the size by one |
| LinkedTree.LinkedBinaryTree.Detach | XueZhang/lab9/LinkedBinaryTree.java:275-288 | the branches of the relinking compute exactly the arena with `v` unlinked, and the new root reference |
| LinkedTree.LinkedBinaryTree.RemoveSound | XueZhang/lab9/LinkedBinaryTree.java:260-291 | removal leaves a valid arena for the spliced shape, with exactly `v` gone, the preorder otherwise unchanged, and the only child as the root when the root goes |
| LinkedTree.LinkedBinaryTree.Adopt | XueZhang/lab9/LinkedBinaryTree.java:303-312 | hangs a renumbered copy of the donor below the empty link; the shape becomes the graft, the root and size are kept, and all elements of both trees are kept |
| LinkedTree.LinkedBinaryTree.AdoptArena | XueZhang/lab9/LinkedBinaryTree.java:303-312 | the merged arena is well-formed for the grafted shape and keeps the elements of both arenas |
| LinkedTree.LinkedBinaryTree.Merge | XueZhang/lab9/LinkedBinaryTree.java:303-312 | copying the donor's records under shifted ids and linking its root below `v` gives the merged arena |
| LinkedTree.LinkedBinaryTree.Attach | XueZhang/lab9/LinkedBinaryTree.java:298-313 | `InvalidPosition` for an internal node, changing nothing; `EmptyTree` when a donor's counter is non-zero without a root (after the left donor, if any, has been attached); otherwise the non-empty donors are grafted left and right; the root, the size and the host's elements are kept, and each grafted node holds the element of the donor node it copies |
| LinkedTree.LinkedBinaryTree.PreorderPositions | XueZhang/lab9/LinkedBinaryTree.java:342-350 | appends the ids of the subtree at `v` in preorder |
| LinkedTree.LinkedBinaryTree.Positions | XueZhang/lab9/LinkedBinaryTree.java:158-163 | no positions when the counter is zero; `EmptyTree` when the counter is non-zero without a root; otherwise the preorder of the shape |
| LinkedTree.LinkedBinaryTree.PreorderExact | XueZhang/lab9/LinkedBinaryTree.java:158-163 | the preorder of a valid tree lists each of its nodes exactly once |
| LinkedTree.LinkedBinaryTree.Iterator | XueZhang/lab9/LinkedBinaryTree.java:168-175 | the elements in the order of `Positions`, with the same failure cases |
| StringSets.CompareZero | XueZhang/lab3/StringSet.java:80 | `compareTo` is zero exactly on equal strings |
| StringSets.CompareFlip | XueZhang/lab3/StringSet.java:87 | swapping the arguments of `compareTo` negates it |
| StringSets.LessTransitive | XueZhang/lab3/StringSet.java:80-86 | the `compareTo` order is transitive |
| StringSets.LessTotal | XueZhang/lab3/StringSet.java:80-95 | two different strings are ordered one way or the other, and the order is irreflexive and asymmetric |
| StringSets.InsertSortedSound | XueZhang/lab3/StringSet.java:70-103 | inserting into a strictly sorted list keeps it strictly sorted, adds exactly `s`, and changes nothing when `s` is present |
| StringSets.InsertAt | XueZhang/lab3/StringSet.java:87-95 | inserting before the first greater string is sorted insertion |
| StringSets.EraseSound | XueZhang/lab3/StringSet.java:109-133 | erasing keeps the list strictly sorted, drops exactly `s`, and changes nothing when `s` is absent |
| StringSets.EraseAt | XueZhang/lab3/StringSet.java:119-128 | erasing the string at place `k` of a strictly sorted list cuts out that place |
| StringSets.Strings | XueZhang/lab3/StringSet.java:44-52 | one string per node, the node's element |
| StringSets.NodesDistinct | XueZhang/lab3/StringSet.java:44-52 | nodes holding strictly ascending strings are distinct |
| StringSets.StringSet.constructor | XueZhang/lab3/StringSet.java:19-22 | an empty list with the counter at 0 |
| StringSets.StringSet.EmptyIffNone | XueZhang/lab3/StringSet.java:29-36 | while the counter is kept, `isEmpty` holds exactly when there are no strings |
| StringSets.StringSet.Find | XueZhang/lab3/StringSet.java:44-52 | `null` exactly when `s` is absent; otherwise the first node holding `s` |
| StringSets.StringSet.Contains | XueZhang/lab3/StringSet.java:58-63 | true exactly when `s` is in the set |
| StringSets.StringSet.Insert | XueZhang/lab3/StringSet.java:70-103 | the contents become the sorted insertion of `s`; the counter grows by one exactly when `s` was absent, and nothing changes when it was present |
| StringSets.StringSet.Place | XueZhang/lab3/StringSet.java:72-96 | an absent string is linked in at its sorted place |
| StringSets.StringSet.FindPlace | XueZhang/lab3/StringSet.java:80-87 | the walk stops at the last node smaller than `s`, or at the head when the head is already greater |
| StringSets.StringSet.LinkFirst | XueZhang/lab3/StringSet.java:87-90 | a new node holding `s` goes in front of the old head |
| StringSets.StringSet.LinkAfter | XueZhang/lab3/StringSet.java:91-95 | a new node holding `s` goes after `b`, and every other node keeps its order |
| StringSets.StringSet.Unlink | XueZhang/lab3/StringSet.java:112-129 | reports whether `s` was present, and the contents become the old ones without `s` |
| StringSets.StringSet.Predecessor | XueZhang/lab3/StringSet.java:122-125 | the walk stops at the node just before `r` |
| StringSets.StringSet.DropHead | XueZhang/lab3/StringSet.java:119-120 | the list loses exactly its first node |
| StringSets.StringSet.CutAfter | XueZhang/lab3/StringSet.java:126-128 | the list loses exactly the node after `b` |
| StringSets.StringSet.Remove | XueZhang/lab3/StringSet.java:109-133 | as written: the contents lose `s` but the counter stays as it was |
| StringSets.StringSet.RemoveCounted | XueZhang/lab3/StringSet.java:109-133 | corrected: the contents lose `s` and the counter drops by one exactly when `s` was present |
| StringSets.StaleSizeExample | XueZhang/lab3/StringSet.java:109-133 | inserting "a" and removing it leaves no strings, yet `isEmpty` is false |
| StringSets.CountedExample | XueZhang/lab3/StringSet.java:109-133 | with the corrected removal the same calls leave an empty set |
| Braces.Closer | XueZhang/HW5/CheckBraces.java:56-61 | the `expect` value for an opener is a closing brace |
| Braces.Opener | XueZhang/HW5/CheckBraces.java:65-106 | the opener each closer must meet, and the closer of that opener is the closer itself |
| Braces.Step | XueZhang/HW5/CheckBraces.java:54-106 | an opener is pushed and sets `expect`; a closer on an empty stack gives error 2; otherwise it pops, giving error 1 when the opener does not match; any other character changes nothing |
| Braces.Run | XueZhang/HW5/CheckBraces.java:53-107 | the scan stops at the first error, at a closing brace, with error 1 or 2 (an empty stack for 2), and runs to the end exactly when there is no error |
| Braces.RunAppend | XueZhang/HW5/CheckBraces.java:53-107 | scanning `a + b` is scanning `a`, then, if there was no error, scanning `b` from there |
| Braces.LastIgnored | XueZhang/HW5/CheckBraces.java:53 | the loop bound `length() - 1` leaves the last character out, so it never affects the result |
| Braces.CheckBraces | XueZhang/HW5/CheckBraces.java:53-107 | the loop computes exactly the position, stack, `expect` and error code of `Check` |
| Braces.NestedPasses | XueZhang/HW5/CheckBraces.java:53-107 | properly nested text, followed by any character, passes with no error and an empty stack |
| Braces.RunNested | XueZhang/HW5/CheckBraces.java:53-107 | scanning nested text keeps the stack as it was, gives no error, and leaves `expect` as the closer of the last opener |
| Braces.RunNestedPiece | XueZhang/HW5/CheckBraces.java:53-107 | the same for a single piece of nested text |
| Braces.UnclosedNoError | XueZhang/HW5/CheckBraces.java:53-107 | openers left unclosed at the end give no error and stay on the stack |
| Braces.NoOpenerExample | XueZhang/HW5/CheckBraces.java:65-69 | a closer with nothing open stops the scan there with error 2 |
| Braces.StaleExpect | XueZhang/HW5/CheckBraces.java:70-74 | after a mismatch, `expect` still names the closer of the last opener pushed |

## Left out

- Console output is not modelled: the `print` of `StringSet`, the messages of `insert` and `remove`, `toString` of `ArrayBinaryTree`, and the tester's printing.
- `CheckBraces` reading its input file and reporting the result (lines 20-51 and 112-123) is not modelled. The model starts from the file's contents as one string. The Java string has as many characters as the file has bytes (lines 35-38), padded with NUL characters when the file holds multi-byte characters; the model takes the string as given.
- Java's 32-bit `int` is modelled as an unbounded integer. Overflow of sizes, indices and the capacity doubling is not modelled.
- StringSets.CompareTo: strings are sequences of Unicode scalar values, not of UTF-16 code units as in Java. On text outside the Basic Multilingual Plane the order differs, because Java compares a surrogate pair by its first code unit.
- Braces.CheckBraces: the input is a sequence of Unicode scalar values, not of UTF-16 code units as in Java. On text outside the Basic Multilingual Plane the loop bound `length() - 1` and the stop position `i` count differently.
- `ArrayTree.ArrayBinaryTree.constructor`: requires `cap >= 1`. A zero or negative capacity makes the Java constructor throw while writing `T[0]`, and that path is not modelled.
- Checks that a position is a node of this tree (`checkPosition`, with `instanceof` and `null`) are preconditions (`Occupied(v)`, `v in nodes`). A foreign or null position is not modelled.
- `HeapPQ` takes its comparator as a value. A comparator is modelled as a total preorder on the keys it accepts. The default `DefaultComparator` appears only for integer keys (`Heaps.NaturalOrder`). A comparator that throws is modelled by `accepts`, and that is all `checkKey` (`Heaps.HeapPQ.CheckKey`) does.
- `HeapPQ.size`, `ArrayBinaryTree.size`, `ArrayBinaryTree.isRoot`, and `LinkedBinaryTree.size`, `isEmpty`, `hasLeft` and `hasRight` are modelled as plain functions with no contract beyond their definition.
- `LinkedTree.LinkedBinaryTree.Attach`: hangs renumbered copies of the two donor trees, not the donors' own nodes. The sharing of nodes between host and donors after `attach` is not modelled, and the donors are required to be distinct from the host and from each other.
- `LinkedTree.LinkedBinaryTree.Remove`: a removed node is taken out of the arena, so it is no longer a position. The Java node object itself lives on with stale links.
- The size counter of `LinkedBinaryTree` is not tied to the node count, because `attach` leaves it unchanged.
- `StringSet` does not model a `null` string argument.
- The expression-tree builder (`preorderBuild`, `ExpressionTree`), the iterator classes of lab7 and lab8, and `Cai.java` (Project1) are not part of this model.
- The Java `LinkedBinaryTree.createNode` and the `BTPos.setElement` helpers are folded into the operations that use them.

## Findings

| source | as written | input that shows it | evidently intended | confidence | as-written member | corrected member |
|---|---|---|---|---|---|---|
| XueZhang/lab3/StringSet.java:109-133 | `remove` unlinks the node but never decrements `size`, although its comment says it does | `insert("a")` then `remove("a")`: the set holds no strings but `isEmpty()` returns false | decrement `size` when a string is removed | not executed | StringSets.StaleSizeExample | StringSets.StringSet.RemoveCounted |
