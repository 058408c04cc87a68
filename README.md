# cprg304 containers and algorithms in Dafny

This project models the core of a Java course library. Four groups are modelled, and the verifier checks each against a specification:

1. Containers:
   - `MyArrayList`: a growable array with capacity 10 that doubles when full.
   - `MyDLL`: a doubly linked list with `MyDLLNode` nodes.
   - `MyStack`: a stack over `MyArrayList`.
   - `MyQueue`: a queue over `MyDLL`.
   - The iterators of all four.
2. `BSTree`: a binary search tree of `BSTreeNode`s, with in-order, pre-order and post-order iterators.
3. `Sort`: six in-place array sorts. Each takes a `Comparator` and also has a natural-order form.
4. Two application classes:
   - `WordEntry` and its `FileLocation`: the record a word-tracking program keeps for each word.
   - `XMLParser`: a line-by-line tag checker that keeps a stack of open tags and a queue of errors.

How Java constructs are represented:

- In the container, tree and parser classes, Java `null` arguments are `Option.None`. The `WordEntry` and `FileLocation` methods and the sorts take non-null arguments; see "## Left out".
- Thrown exceptions are `Result.Err` values carrying a `Fault`.
- Arrays of references are `array<Option<E>>`, so a null slot is visible.
- Each container class carries a ghost `Contents` sequence, and every method is specified on it.
- The binary search tree's nodes carry a ghost `Tree` value. The pure functions and lemmas of module `TreeModel` state the search-tree properties.
- Each sort is specified by `Sorted` and by a multiset permutation on `a[..]`.
- `WordEntry` keeps a ghost `Locations` sequence of `Location` values that mirrors its `FileLocation` objects.
- `XMLParser` is specified by the pure functions `TagClosed`, `ScanFrom`, `ProcessedLine` and `ParseFrom` over the stack and queue contents.

Files:

- `common.dfy`: `Option`, `Fault`, `Result` and two sequence helpers.
- `array_list.dfy`, `linked_list.dfy`, `stack.dfy`, `queue.dfy`: the containers.
- `tree_model.dfy`, `bst.dfy`: the tree.
- `sort.dfy`: the sorts.
- `words.dfy`: the word entry.
- `xml.dfy`: the XML parser.

## Model

| member | source | states |
|---|---|---|
| Common.Wrapped | assignment2StartingCode/src/implementations/MyArrayList.java:291-295 | the array `toArray` returns holds each element, in order, as a non-null slot |
| Common.Reverse | assignment2StartingCode/src/implementations/MyStack.java:101-109 | position `i` of the result is element `n-1-i` of the input: the top-first order of the stack's arrays |
| ArrayList.MyArrayList.constructor | assignment2StartingCode/src/implementations/MyArrayList.java:33-35 | a new list is empty and its buffer has the default capacity |
| ArrayList.MyArrayList.Size | assignment2StartingCode/src/implementations/MyArrayList.java:43-46 | the size is the number of elements held |
| ArrayList.MyArrayList.IsEmpty | assignment2StartingCode/src/implementations/MyArrayList.java:239-241 | true exactly when no element is held |
| ArrayList.MyArrayList.Clear | assignment2StartingCode/src/implementations/MyArrayList.java:52-54 | the list becomes empty; the buffer and its stale slots are left untouched |
| ArrayList.MyArrayList.CheckCapacity | assignment2StartingCode/src/implementations/MyArrayList.java:111-121 | when the buffer is full, it is replaced by a fresh one `MULTIPLIER` times as long, holding the old slots first and null slots after them; otherwise nothing changes; either way there is room for one more element |
| ArrayList.MyArrayList.ShiftToRight | assignment2StartingCode/src/implementations/MyArrayList.java:85-90 | slots `index+1..size` receive the slot to their left; all other slots keep their values |
| ArrayList.MyArrayList.AddAt | assignment2StartingCode/src/implementations/MyArrayList.java:67-83 | an index outside `0..size` gives IndexOutOfBounds (checked before null); a null element gives NullPointer; on error the list and buffer are unchanged; otherwise the element is inserted at `index` |
| ArrayList.MyArrayList.Add | assignment2StartingCode/src/implementations/MyArrayList.java:100-108 | a null element gives NullPointer and leaves everything unchanged; otherwise the element is appended and the result is true |
| ArrayList.MyArrayList.AddAll | assignment2StartingCode/src/implementations/MyArrayList.java:132-143 | a null list gives NullPointer; otherwise its elements are appended in iteration order and the result is true |
| ArrayList.MyArrayList.Get | assignment2StartingCode/src/implementations/MyArrayList.java:153-158 | returns the element at a valid index; any other index gives IndexOutOfBounds |
| ArrayList.MyArrayList.RemoveAt | assignment2StartingCode/src/implementations/MyArrayList.java:168-184 | at a valid index, returns that element, closes the gap and nulls the vacated last slot; otherwise gives IndexOutOfBounds and changes nothing |
| ArrayList.MyArrayList.RemoveElement | assignment2StartingCode/src/implementations/MyArrayList.java:194-208 | null gives NullPointer; an absent element gives null and no change; otherwise the first occurrence is removed and returned |
| ArrayList.MyArrayList.Set | assignment2StartingCode/src/implementations/MyArrayList.java:220-231 | a bad index gives IndexOutOfBounds, then a null element gives NullPointer, each without change; otherwise the element is replaced and the old one returned |
| ArrayList.MyArrayList.Contains | assignment2StartingCode/src/implementations/MyArrayList.java:251-261 | null gives NullPointer; otherwise true exactly when the element is held |
| ArrayList.MyArrayList.ToArrayInto | assignment2StartingCode/src/implementations/MyArrayList.java:273-283 | null gives NullPointer; a large enough array receives the elements in order, and its slots past them keep their values; a short array is replaced by a fresh one of exactly the list's size |
| ArrayList.MyArrayList.ToArray | assignment2StartingCode/src/implementations/MyArrayList.java:291-295 | a fresh array holding the elements in order |
| ArrayList.MyArrayList.Iterator | assignment2StartingCode/src/implementations/MyArrayList.java:303-306 | a fresh iterator over this list, positioned at the first element |
| ArrayList.ArrayListIterator.constructor | assignment2StartingCode/src/implementations/MyArrayList.java:303-306 | the cursor starts at 0 |
| ArrayList.ArrayListIterator.HasNext | assignment2StartingCode/src/implementations/MyArrayList.java:308-310 | true exactly when the cursor is before the end |
| ArrayList.ArrayListIterator.Next | assignment2StartingCode/src/implementations/MyArrayList.java:313-318 | returns the element under the cursor and advances; at the end gives NoSuchElement |
| LinkedList.MyDLLNode.Linked | assignment2StartingCode/src/implementations/MyDLLNode.java:24-28 | a node with the given element, predecessor and successor |
| LinkedList.MyDLLNode.constructor | assignment2StartingCode/src/implementations/MyDLLNode.java:35-37 | a node with the given element and no neighbours |
| LinkedList.MyDLLNode.SetElement | assignment2StartingCode/src/implementations/MyDLLNode.java:53-55 | the element changes and the links do not |
| LinkedList.MyDLLNode.SetPrev | assignment2StartingCode/src/implementations/MyDLLNode.java:71-73 | the predecessor changes and nothing else does |
| LinkedList.MyDLLNode.SetNext | assignment2StartingCode/src/implementations/MyDLLNode.java:89-91 | the successor changes and nothing else does |
| LinkedList.MyDLLNode.GetElement | assignment2StartingCode/src/implementations/MyDLLNode.java:44-46 | the node's element |
| LinkedList.MyDLLNode.GetPrev | assignment2StartingCode/src/implementations/MyDLLNode.java:62-64 | the node's predecessor, null at the head |
| LinkedList.MyDLLNode.GetNext | assignment2StartingCode/src/implementations/MyDLLNode.java:80-82 | the node's successor, null at the tail |
| LinkedList.FirstPosition | assignment2StartingCode/src/implementations/MyDLL.java:306-324 | -1 exactly when the element is absent; otherwise the 1-based position of its first occurrence |
| LinkedList.FirstPositionAt | assignment2StartingCode/src/implementations/MyDLL.java:306-324 | the first occurrence at index `k` gives position `k+1` |
| LinkedList.MyDLL.constructor | assignment2StartingCode/src/implementations/MyDLL.java:23-25 | a new list is empty |
| LinkedList.MyDLL.Size | assignment2StartingCode/src/implementations/MyDLL.java:33-35 | the size is the number of elements |
| LinkedList.MyDLL.IsEmpty | assignment2StartingCode/src/implementations/MyDLL.java:273-275 | true exactly when no element is held |
| LinkedList.MyDLL.Clear | assignment2StartingCode/src/implementations/MyDLL.java:41-46 | the list is empty, with no head and no tail |
| LinkedList.MyDLL.GetNodeAt | assignment2StartingCode/src/implementations/MyDLL.java:92-109 | the walk from the head (first half) or from the tail (second half) returns the node at `index` |
| LinkedList.MyDLL.LinkFirst | assignment2StartingCode/src/implementations/MyDLL.java:69-76 | the new node becomes the head, and its element goes in front |
| LinkedList.MyDLL.LinkLast | assignment2StartingCode/src/implementations/MyDLL.java:77-80 | the new node becomes the tail, and its element goes at the end |
| LinkedList.MyDLL.LinkBefore | assignment2StartingCode/src/implementations/MyDLL.java:81-88 | the new node is spliced in before the node at `index`, and its element is inserted there |
| LinkedList.MyDLL.AddAt | assignment2StartingCode/src/implementations/MyDLL.java:58-90 | null gives NullPointer (checked before the index); an index outside `0..size` gives IndexOutOfBounds; on error the list and its nodes are unchanged; otherwise the element is inserted at `index` |
| LinkedList.MyDLL.Add | assignment2StartingCode/src/implementations/MyDLL.java:119-133 | null gives NullPointer and no change; otherwise the element is appended and the result is true |
| LinkedList.MyDLL.AddAll | assignment2StartingCode/src/implementations/MyDLL.java:143-158 | null gives NullPointer; an empty list gives false and no change; otherwise the elements are appended and the result is true |
| LinkedList.MyDLL.Get | assignment2StartingCode/src/implementations/MyDLL.java:168-174 | returns the element at a valid index; any other index gives IndexOutOfBounds |
| LinkedList.MyDLL.Unlink | assignment2StartingCode/src/implementations/MyDLL.java:190-200 | the node is bypassed, with head and tail moved when it was an end, and its element leaves the sequence |
| LinkedList.MyDLL.RemoveAt | assignment2StartingCode/src/implementations/MyDLL.java:184-204 | at a valid index returns that element and removes it; otherwise gives IndexOutOfBounds with no change |
| LinkedList.MyDLL.RemoveElement | assignment2StartingCode/src/implementations/MyDLL.java:214-241 | null gives NullPointer; an absent element gives null and no change; otherwise the first occurrence is unlinked and returned |
| LinkedList.MyDLL.Set | assignment2StartingCode/src/implementations/MyDLL.java:254-265 | a bad index gives IndexOutOfBounds, then null gives NullPointer, each without change; otherwise the element is replaced and the old one returned; the nodes stay the same |
| LinkedList.MyDLL.Contains | assignment2StartingCode/src/implementations/MyDLL.java:285-297 | null gives NullPointer; otherwise true exactly when the element is held |
| LinkedList.MyDLL.IndexOf | assignment2StartingCode/src/implementations/MyDLL.java:306-324 | null gives NullPointer; otherwise the 1-based position of the first occurrence, or -1 |
| LinkedList.MyDLL.ToArrayInto | assignment2StartingCode/src/implementations/MyDLL.java:336-357 | null gives NullPointer; the elements are written in order; a longer array gets null just after them and keeps its other slots; a short array is replaced by a fresh one of exactly the list's size |
| LinkedList.MyDLL.ToArray | assignment2StartingCode/src/implementations/MyDLL.java:365-374 | a fresh array holding the elements in order |
| LinkedList.MyDLL.Iterator | assignment2StartingCode/src/implementations/MyDLL.java:382-385 | a fresh iterator over the list's nodes and elements, at the first one |
| LinkedList.DLLIterator.constructor | assignment2StartingCode/src/implementations/MyDLL.java:382-385 | the cursor starts at the head |
| LinkedList.DLLIterator.HasNext | assignment2StartingCode/src/implementations/MyDLL.java:387-389 | true exactly when elements remain |
| LinkedList.DLLIterator.Next | assignment2StartingCode/src/implementations/MyDLL.java:392-399 | returns the next element in list order and advances; at the end gives NoSuchElement |
| Stack.TopDistance | assignment2StartingCode/src/implementations/MyStack.java:162-172 | -1 exactly when absent; otherwise the 1-based distance from the top of the occurrence nearest the top |
| Stack.TopDistanceAt | assignment2StartingCode/src/implementations/MyStack.java:162-172 | an occurrence at index `k` with none above it is at distance `size-k` |
| Stack.MyStack.constructor | assignment2StartingCode/src/implementations/MyStack.java:28-31 | a new stack is empty |
| Stack.MyStack.Push | assignment2StartingCode/src/implementations/MyStack.java:40-46 | null gives NullPointer and no change; otherwise the element goes on top |
| Stack.MyStack.Pop | assignment2StartingCode/src/implementations/MyStack.java:55-60 | an empty stack gives EmptyStack; otherwise the top is removed and returned |
| Stack.MyStack.Peek | assignment2StartingCode/src/implementations/MyStack.java:69-74 | an empty stack gives EmptyStack; otherwise returns the top |
| Stack.MyStack.Clear | assignment2StartingCode/src/implementations/MyStack.java:80-83 | the stack becomes empty |
| Stack.MyStack.IsEmpty | assignment2StartingCode/src/implementations/MyStack.java:91-93 | true exactly when the stack holds nothing |
| Stack.MyStack.ToArray | assignment2StartingCode/src/implementations/MyStack.java:101-109 | a fresh array holding the elements top first |
| Stack.MyStack.ToArrayInto | assignment2StartingCode/src/implementations/MyStack.java:121-136 | null gives NullPointer; the elements are written top first; a longer array gets null just after them and keeps its other slots; a short array is replaced by a fresh one of exactly the stack's size |
| Stack.MyStack.Contains | assignment2StartingCode/src/implementations/MyStack.java:146-151 | null gives NullPointer; otherwise true exactly when the element is on the stack |
| Stack.MyStack.Search | assignment2StartingCode/src/implementations/MyStack.java:162-172 | null gives NullPointer; otherwise the 1-based distance from the top, or -1 |
| Stack.MyStack.Iterator | assignment2StartingCode/src/implementations/MyStack.java:180-183 | a fresh iterator that yields the elements top first |
| Stack.MyStack.Equals | assignment2StartingCode/src/implementations/MyStack.java:207-219 | null gives NullPointer; otherwise true exactly when both stacks hold the same elements in the same order |
| Stack.MyStack.Size | assignment2StartingCode/src/implementations/MyStack.java:227-229 | the number of elements |
| Stack.MyStack.StackOverflow | assignment2StartingCode/src/implementations/MyStack.java:237-240 | always false |
| Stack.StackIterator.constructor | assignment2StartingCode/src/implementations/MyStack.java:180-183 | the cursor starts at the top index |
| Stack.StackIterator.HasNext | assignment2StartingCode/src/implementations/MyStack.java:185-187 | true exactly when the cursor is not below the bottom |
| Stack.StackIterator.Next | assignment2StartingCode/src/implementations/MyStack.java:190-195 | returns the element under the cursor and moves down; below the bottom gives NoSuchElement |
| Queue.MyQueue.constructor | assignment2StartingCode/src/implementations/MyQueue.java:24-27 | a new queue is empty |
| Queue.MyQueue.Enqueue | assignment2StartingCode/src/implementations/MyQueue.java:36-41 | null gives NullPointer and no change; otherwise the element joins at the back |
| Queue.MyQueue.Dequeue | assignment2StartingCode/src/implementations/MyQueue.java:50-55 | an empty queue gives EmptyQueue; otherwise the front is removed and returned |
| Queue.MyQueue.Peek | assignment2StartingCode/src/implementations/MyQueue.java:64-69 | an empty queue gives EmptyQueue; otherwise returns the front |
| Queue.MyQueue.DequeueAll | assignment2StartingCode/src/implementations/MyQueue.java:75-78 | the queue becomes empty |
| Queue.MyQueue.IsEmpty | assignment2StartingCode/src/implementations/MyQueue.java:86-88 | true exactly when nothing is queued |
| Queue.MyQueue.Contains | assignment2StartingCode/src/implementations/MyQueue.java:98-103 | null gives NullPointer; otherwise true exactly when the element is queued |
| Queue.MyQueue.Search | assignment2StartingCode/src/implementations/MyQueue.java:112-114 | null gives NullPointer; otherwise the 1-based position from the front, or -1 |
| Queue.MyQueue.Iterator | assignment2StartingCode/src/implementations/MyQueue.java:122-124 | a fresh iterator over the queue from front to back |
| Queue.MyQueue.Equals | assignment2StartingCode/src/implementations/MyQueue.java:133-147 | true exactly when the other queue is not null and holds the same elements in the same order |
| Queue.MyQueue.SameElements | assignment2StartingCode/src/implementations/MyQueue.java:138-146 | the paired walk of two equally long queues answers true exactly when their elements agree |
| Queue.MyQueue.ToArray | assignment2StartingCode/src/implementations/MyQueue.java:155-157 | a fresh array holding the elements front first |
| Queue.MyQueue.ToArrayInto | assignment2StartingCode/src/implementations/MyQueue.java:168-170 | as the list's `toArray(E[])`: null gives NullPointer; the elements in order, then null; a short array is replaced |
| Queue.MyQueue.IsFull | assignment2StartingCode/src/implementations/MyQueue.java:178-181 | always false |
| Queue.MyQueue.Size | assignment2StartingCode/src/implementations/MyQueue.java:189-191 | the number of elements queued |
| TreeModel.Height | assignment3StartingCode/src/implementations/BSTree.java:68-73 | the value form of `calculateHeight`: 0 for an empty tree, else one more than the taller subtree; `HeightBounds` bounds it by the size |
| TreeModel.Contains | assignment3StartingCode/src/implementations/BSTree.java:141-151 | the value form of `searchRecursive`: a single path chosen by comparison with each node; `ContainsCorrect` shows it finds exactly the elements of a search tree |
| TreeModel.Insert | assignment3StartingCode/src/implementations/BSTree.java:182-199 | the value form of `addRecursive`: descend by comparison, attach a leaf at the empty spot, and leave the tree alone on an equal element; `InsertCorrect` states what it keeps and adds |
| TreeModel.Min | assignment3StartingCode/src/implementations/BSTree.java:223-228 | the value form of `findMin`: follow left children to the end; `MinCorrect` shows it is the least element |
| TreeModel.Max | assignment3StartingCode/src/implementations/BSTree.java:272-277 | the value form of `findMax`: follow right children to the end; `MaxCorrect` shows it is the greatest element |
| TreeModel.RemoveMin | assignment3StartingCode/src/implementations/BSTree.java:238-248 | the value form of `removeMinNode`: the leftmost node is replaced by its right subtree; `RemoveMinCorrect` states the result |
| TreeModel.RemoveMax | assignment3StartingCode/src/implementations/BSTree.java:287-298 | the value form of `removeMaxNode`: the rightmost node is replaced by its left subtree; `RemoveMaxCorrect` states the result |
| TreeModel.Max2 | assignment3StartingCode/src/implementations/BSTree.java:68-73 | the larger of the two subtree heights |
| TreeModel.Inorder | assignment3StartingCode/src/implementations/BSTree.java:320-364 | the in-order sequence has one entry per node |
| TreeModel.Preorder | assignment3StartingCode/src/implementations/BSTree.java:389-395 | the pre-order sequence has one entry per node |
| TreeModel.Postorder | assignment3StartingCode/src/implementations/BSTree.java:445-451 | the post-order sequence has one entry per node |
| TreeModel.TraversalElements | assignment3StartingCode/src/implementations/BSTree.java:301-314 | each of the three iterators visits exactly the elements of the tree |
| TreeModel.InorderElements | assignment3StartingCode/src/implementations/BSTree.java:320-364 | the in-order walk visits exactly the tree's elements |
| TreeModel.PreorderElements | assignment3StartingCode/src/implementations/BSTree.java:389-395 | the pre-order walk visits exactly the tree's elements |
| TreeModel.PostorderElements | assignment3StartingCode/src/implementations/BSTree.java:445-451 | the post-order walk visits exactly the tree's elements |
| TreeModel.InorderIncreasing | assignment3StartingCode/src/implementations/BSTree.java:320-364 | in a search tree the in-order walk is strictly ascending |
| TreeModel.SizeIsCardinality | assignment3StartingCode/src/implementations/BSTree.java:81-83 | in a search tree the node count equals the number of distinct elements |
| TreeModel.ContainsCorrect | assignment3StartingCode/src/implementations/BSTree.java:141-151 | the one-path search finds `x` exactly when `x` is in the tree |
| TreeModel.InsertCorrect | assignment3StartingCode/src/implementations/BSTree.java:182-199 | insertion keeps the search-tree order, adds exactly `x`, grows the size by one only when `x` was new, and leaves a tree holding `x` unchanged |
| TreeModel.MinCorrect | assignment3StartingCode/src/implementations/BSTree.java:223-228 | the leftmost element is in the tree, is no greater than any element, and comes first in order |
| TreeModel.MaxCorrect | assignment3StartingCode/src/implementations/BSTree.java:272-277 | the rightmost element is in the tree, is no smaller than any element, and comes last in order |
| TreeModel.RemoveMinCorrect | assignment3StartingCode/src/implementations/BSTree.java:238-248 | removing the minimum keeps the order, removes exactly the minimum, shrinks the size by one and drops the first in-order element |
| TreeModel.RemoveMaxCorrect | assignment3StartingCode/src/implementations/BSTree.java:287-298 | removing the maximum keeps the order, removes exactly the maximum, shrinks the size by one and drops the last in-order element |
| TreeModel.Pow2 | assignment3StartingCode/src/implementations/BSTree.java:58-60 | an arithmetic helper for `HeightBounds`, not a model of `getHeight`: powers of two are positive |
| TreeModel.Pow2Monotone | assignment3StartingCode/src/implementations/BSTree.java:58-60 | an arithmetic helper for `HeightBounds`, not a model of `getHeight`: powers of two grow with the exponent |
| TreeModel.HeightBounds | assignment3StartingCode/src/implementations/BSTree.java:58-73 | height (in nodes) ≤ size < 2^height |
| TreeModel.InsertAllCorrect | assignment3StartingCode/src/implementations/BSTree.java:161-173 | adding a sequence of entries keeps the search-tree order and adds exactly those entries |
| TreeModel.DrainMinAscending | assignment3StartingCode/src/implementations/BSTree.java:207-215 | repeated `removeMin` returns the elements in in-order sequence, strictly ascending |
| TreeModel.DrainMaxReversed | assignment3StartingCode/src/implementations/BSTree.java:256-264 | repeated `removeMax` returns the in-order sequence reversed |
| TreeModel.DrainMaxDescending | assignment3StartingCode/src/implementations/BSTree.java:256-264 | repeated `removeMax` returns strictly descending elements |
| BST.BSTreeNode.constructor | assignment3StartingCode/src/implementations/BSTreeNode.java:39-43 | a leaf holding the element, with no children |
| BST.BSTreeNode.SetElement | assignment3StartingCode/src/implementations/BSTreeNode.java:59-61 | the element changes and the children do not |
| BST.BSTreeNode.SetLeft | assignment3StartingCode/src/implementations/BSTreeNode.java:77-79 | the left child changes and nothing else does |
| BST.BSTreeNode.SetRight | assignment3StartingCode/src/implementations/BSTreeNode.java:95-97 | the right child changes and nothing else does |
| BST.BSTreeNode.GetElement | assignment3StartingCode/src/implementations/BSTreeNode.java:50-52 | the node's element |
| BST.BSTreeNode.GetLeft | assignment3StartingCode/src/implementations/BSTreeNode.java:68-70 | the left child, null when absent |
| BST.BSTreeNode.GetRight | assignment3StartingCode/src/implementations/BSTreeNode.java:86-88 | the right child, null when absent |
| BST.CalculateHeight | assignment3StartingCode/src/implementations/BSTree.java:68-73 | the recursive height of a node is the height of the subtree it roots |
| BST.SearchRecursive | assignment3StartingCode/src/implementations/BSTree.java:141-151 | returns a node exactly when the entry is in the subtree, and the node returned holds the entry |
| BST.BSTree.constructor | assignment3StartingCode/src/implementations/BSTree.java:33-36 | a new tree is empty |
| BST.BSTree.GetRoot | assignment3StartingCode/src/implementations/BSTree.java:45-50 | an empty tree gives NullPointer; otherwise the root node, which holds the whole tree |
| BST.BSTree.GetHeight | assignment3StartingCode/src/implementations/BSTree.java:58-60 | the height in nodes, bounded by the size and by the logarithm of the size |
| BST.BSTree.Size | assignment3StartingCode/src/implementations/BSTree.java:81-83 | the number of distinct elements |
| BST.BSTree.IsEmpty | assignment3StartingCode/src/implementations/BSTree.java:91-93 | true exactly when the tree holds no element |
| BST.BSTree.Clear | assignment3StartingCode/src/implementations/BSTree.java:99-102 | the tree becomes empty |
| BST.BSTree.Contains | assignment3StartingCode/src/implementations/BSTree.java:112-117 | null gives NullPointer; otherwise true exactly when the entry is in the tree |
| BST.BSTree.Search | assignment3StartingCode/src/implementations/BSTree.java:127-132 | null gives NullPointer; otherwise a node exactly when the entry is in the tree, and that node holds it |
| BST.BSTree.Add | assignment3StartingCode/src/implementations/BSTree.java:161-173 | null gives NullPointer; otherwise the tree becomes the insertion of the entry, and the result is true exactly when it was new |
| BST.BSTree.AddRecursive | assignment3StartingCode/src/implementations/BSTree.java:182-199 | the subtree becomes the insertion of `x`, reports whether `x` was new, and bumps the size then |
| BST.BSTree.AddLeft | assignment3StartingCode/src/implementations/BSTree.java:185-189 | `x` below the node's element goes into (or becomes) the left subtree, with the same outcome as `AddRecursive` |
| BST.BSTree.AddRight | assignment3StartingCode/src/implementations/BSTree.java:190-195 | `x` above the node's element goes into (or becomes) the right subtree, with the same outcome as `AddRecursive` |
| BST.BSTree.RemoveMin | assignment3StartingCode/src/implementations/BSTree.java:207-215 | an empty tree gives null; otherwise returns a node holding the minimum, and the tree loses exactly that element |
| BST.BSTree.FindMin | assignment3StartingCode/src/implementations/BSTree.java:223-228 | the leftmost node has no left child and holds the minimum |
| BST.BSTree.RemoveMinNode | assignment3StartingCode/src/implementations/BSTree.java:238-248 | the subtree without its minimum, with the size one smaller and no element changed |
| BST.BSTree.RemoveMax | assignment3StartingCode/src/implementations/BSTree.java:256-264 | an empty tree gives null; otherwise returns a node holding the maximum, and the tree loses exactly that element |
| BST.BSTree.FindMax | assignment3StartingCode/src/implementations/BSTree.java:272-277 | the rightmost node has no right child and holds the maximum |
| BST.BSTree.RemoveMaxNode | assignment3StartingCode/src/implementations/BSTree.java:287-298 | the subtree without its maximum, with the size one smaller and no element changed |
| BST.BSTree.InorderIterator | assignment3StartingCode/src/implementations/BSTree.java:301-303 | an iterator that will yield the in-order sequence |
| BST.BSTree.PreorderIterator | assignment3StartingCode/src/implementations/BSTree.java:306-308 | an iterator over the pre-order sequence, at its start |
| BST.BSTree.PostorderIterator | assignment3StartingCode/src/implementations/BSTree.java:311-313 | an iterator over the post-order sequence, at its start |
| BST.InorderIterator.constructor | assignment3StartingCode/src/implementations/BSTree.java:327-333 | after pushing the root's left path, the remaining sequence is the whole in-order walk |
| BST.InorderIterator.PushLeftPath | assignment3StartingCode/src/implementations/BSTree.java:329-332 | pushing a node's left spine puts the subtree's in-order walk in front of what remains |
| BST.InorderIterator.Push | assignment3StartingCode/src/implementations/BSTree.java:330 | one node goes on the stack, owing its element and its right subtree |
| BST.InorderIterator.Pop | assignment3StartingCode/src/implementations/BSTree.java:353 | the top node comes off; what remained was its element, then its right subtree's walk, then the rest |
| BST.InorderIterator.HasNext | assignment3StartingCode/src/implementations/BSTree.java:341-343 | true exactly when elements remain |
| BST.InorderIterator.Next | assignment3StartingCode/src/implementations/BSTree.java:352-363 | yields the next in-order element; an exhausted iterator gives EmptyStack, as `Stack.pop` throws |
| BST.PreorderIterator.constructor | assignment3StartingCode/src/implementations/BSTree.java:378-382 | the iterator holds the pre-order walk, at its start |
| BST.PreorderIterator.PreorderTraversal | assignment3StartingCode/src/implementations/BSTree.java:389-395 | appends the subtree's pre-order walk |
| BST.PreorderIterator.HasNext | assignment3StartingCode/src/implementations/BSTree.java:403-405 | true exactly when elements remain |
| BST.PreorderIterator.Next | assignment3StartingCode/src/implementations/BSTree.java:414-419 | yields the next element and advances; at the end gives NoSuchElement |
| BST.PostorderIterator.constructor | assignment3StartingCode/src/implementations/BSTree.java:434-438 | the iterator holds the post-order walk, at its start |
| BST.PostorderIterator.PostorderTraversal | assignment3StartingCode/src/implementations/BSTree.java:445-451 | appends the subtree's post-order walk |
| BST.PostorderIterator.HasNext | assignment3StartingCode/src/implementations/BSTree.java:459-461 | true exactly when elements remain |
| BST.PostorderIterator.Next | assignment3StartingCode/src/implementations/BSTree.java:470-475 | yields the next element and advances; at the end gives NoSuchElement |
| Sort.IntCompare | assignment1StartingCode/src/utilities/Sort.java:32-54 | `Integer.compareTo`: negative, zero or positive as `x` is below, equal to or above `y` |
| Sort.IntCompareIsComparator | assignment1StartingCode/src/utilities/Sort.java:32-54 | the natural order of ints is a comparator |
| Sort.SortedIntAscending | assignment1StartingCode/src/utilities/Sort.java:32-54 | sorted under the natural order means non-decreasing |
| Sort.ExchangedSlots | assignment1StartingCode/src/utilities/Sort.java:439-444 | exchanging two slots moves exactly those two values and keeps the multiset |
| Sort.Swap | assignment1StartingCode/src/utilities/Sort.java:439-444 | the array becomes its exchange at `i` and `j` |
| Sort.BubbleSort | assignment1StartingCode/src/utilities/Sort.java:63-85 | the array ends sorted under `c` and is a permutation of the input |
| Sort.BubblePass | assignment1StartingCode/src/utilities/Sort.java:69-81 | one pass keeps the multiset and the settled suffix, moves the pass's maximum to the end of the unsettled part, and a pass without a swap means the unsettled part is sorted |
| Sort.BubbleCompare | assignment1StartingCode/src/utilities/Sort.java:72-80 | one comparison swaps an inverted pair, records that it did, and keeps the pass invariant |
| Sort.PassDone | assignment1StartingCode/src/utilities/Sort.java:82-83 | the early exit is sound: no swap in a pass means the whole prefix is sorted |
| Sort.BubbleSortNatural | assignment1StartingCode/src/utilities/Sort.java:32-54 | non-decreasing and a permutation |
| Sort.InsertionSort | assignment1StartingCode/src/utilities/Sort.java:122-136 | sorted under `c` and a permutation |
| Sort.InsertKey | assignment1StartingCode/src/utilities/Sort.java:127-134 | shifting larger elements right and dropping the key in leaves `a[..i+1]` sorted, the rest untouched and the multiset kept |
| Sort.InsertedPermutes | assignment1StartingCode/src/utilities/Sort.java:127-134 | moving the key to its slot keeps the multiset and the suffix |
| Sort.InsertedSorted | assignment1StartingCode/src/utilities/Sort.java:127-134 | the key lands where the prefix stays sorted |
| Sort.InsertionSortNatural | assignment1StartingCode/src/utilities/Sort.java:96-110 | non-decreasing and a permutation |
| Sort.SelectionSort | assignment1StartingCode/src/utilities/Sort.java:174-192 | sorted under `c` and a permutation |
| Sort.MinIndex | assignment1StartingCode/src/utilities/Sort.java:179-186 | the index of the first minimum of `a[i..]` (a strictly smaller element is needed to move it) |
| Sort.SelectStep | assignment1StartingCode/src/utilities/Sort.java:187 | swapping the minimum into slot `i` extends the sorted prefix, which stays no greater than the rest |
| Sort.SelectionSortNatural | assignment1StartingCode/src/utilities/Sort.java:146-164 | non-decreasing and a permutation |
| Sort.MergeFrom | assignment1StartingCode/src/utilities/Sort.java:259-275 | the merge of two runs is as long as both together |
| Sort.MergePermutes | assignment1StartingCode/src/utilities/Sort.java:259-275 | the merge holds exactly the elements of both runs |
| Sort.MergeSorted | assignment1StartingCode/src/utilities/Sort.java:259-275 | merging two sorted runs gives a sorted run |
| Sort.MergeStable | assignment1StartingCode/src/utilities/Sort.java:263-266 | the merge is stable: elements equal under `c` keep their order, left run first |
| Sort.Merge | assignment1StartingCode/src/utilities/Sort.java:259-275 | the array becomes the merge of `left` and `right` |
| Sort.MergeHeads | assignment1StartingCode/src/utilities/Sort.java:262-272 | the first loop stops when one run is used up, with the merged prefix written |
| Sort.MergeStep | assignment1StartingCode/src/utilities/Sort.java:264-271 | one step takes the left head on a tie or when smaller, else the right head |
| Sort.CopyRest | assignment1StartingCode/src/utilities/Sort.java:273-274 | the leftover run is copied after the merged prefix; nothing else changes |
| Sort.CopyOfRange | assignment1StartingCode/src/utilities/Sort.java:251-252 | a fresh array holding `a[from..to]` |
| Sort.MergeSort | assignment1StartingCode/src/utilities/Sort.java:247-257 | sorted under `c` and a permutation |
| Sort.MergeDone | assignment1StartingCode/src/utilities/Sort.java:247-257 | merging the two sorted halves gives a sorted permutation of the input |
| Sort.MergeSortNatural | assignment1StartingCode/src/utilities/Sort.java:205-215 | non-decreasing and a permutation |
| Sort.QuickSort | assignment1StartingCode/src/utilities/Sort.java:336-339 | sorted under `c` and a permutation |
| Sort.QuickSortRange | assignment1StartingCode/src/utilities/Sort.java:341-349 | sorts `a[low..high]`, keeps the multiset, and leaves everything outside the range alone |
| Sort.QuickDone | assignment1StartingCode/src/utilities/Sort.java:341-349 | a partition followed by sorting both sides sorts the range |
| Sort.PivotSorted | assignment1StartingCode/src/utilities/Sort.java:341-349 | sorted sides around a pivot, with the left side no greater and the right side greater, form a sorted range |
| Sort.Partition | assignment1StartingCode/src/utilities/Sort.java:351-371 | Lomuto partition: the pivot `a[high]` ends at `p` with no greater element on its left and only greater ones on its right; the multiset and the outside of the range are kept |
| Sort.PartitionVisit | assignment1StartingCode/src/utilities/Sort.java:357-364 | one scan step moves an element no greater than the pivot into the left part |
| Sort.QuickSortNatural | assignment1StartingCode/src/utilities/Sort.java:287-322 | non-decreasing and a permutation |
| Sort.HeapSort | assignment1StartingCode/src/utilities/Sort.java:454-472 | sorted under `c` and a permutation |
| Sort.BuildHeap | assignment1StartingCode/src/utilities/Sort.java:458-461 | the first loop makes the whole array a max-heap and keeps the multiset |
| Sort.Heapify | assignment1StartingCode/src/utilities/Sort.java:482-506 | sifting down from `i` makes the heap from `start` on valid, keeps the multiset and leaves `a[n..]` alone |
| Sort.Largest | assignment1StartingCode/src/utilities/Sort.java:484-496 | the index of the largest of the node and its children in the heap, preferring the node, then the left child |
| Sort.BelowRoot | assignment1StartingCode/src/utilities/Sort.java:464-470 | in a max-heap every element is no greater than the root |
| Sort.ExtractStep | assignment1StartingCode/src/utilities/Sort.java:464-470 | moving the root to the end grows the sorted suffix, which stays no smaller than the rest |
| Sort.HeapSortNatural | assignment1StartingCode/src/utilities/Sort.java:383-430 | non-decreasing and a permutation |
| Words.LowerChar | assignment3StartingCode/src/appDomain/WordEntry.java:101 | upper-case ASCII letters become lower case and other characters stay |
| Words.ToLower | assignment3StartingCode/src/appDomain/WordEntry.java:101 | lowering keeps the length and maps every character |
| Words.ToLowerIdempotent | assignment3StartingCode/src/appDomain/WordEntry.java:101 | a lowered word is lower case and holds no capital letter |
| Words.StringCompare | assignment3StartingCode/src/appDomain/WordEntry.java:137-139 | string order answers zero exactly on equal strings |
| Words.StringCompareAntisymmetric | assignment3StartingCode/src/appDomain/WordEntry.java:137-139 | swapping the strings negates the result |
| Words.StringCompareTransitive | assignment3StartingCode/src/appDomain/WordEntry.java:137-139 | "not greater" is transitive |
| Words.StringCompareIsComparator | assignment3StartingCode/src/appDomain/WordEntry.java:137-139 | string order is a comparator, so entries can be sorted by it |
| Words.InsertInOrder | assignment3StartingCode/src/appDomain/WordEntry.java:62 | insertion adds exactly one copy of `x` |
| Words.InsertInOrderSorted | assignment3StartingCode/src/appDomain/WordEntry.java:62 | insertion into a sorted list keeps it sorted |
| Words.SortInts | assignment3StartingCode/src/appDomain/WordEntry.java:62 | `lineNumbers.sort(null)` gives an ascending permutation |
| Words.SortedUnique | assignment3StartingCode/src/appDomain/WordEntry.java:62 | there is only one ascending permutation, so any correct sort gives the same list |
| Words.SortedDistinctIncreasing | assignment3StartingCode/src/appDomain/WordEntry.java:60-63 | a sorted list without repeats is strictly ascending |
| Words.IncreasingDistinct | assignment3StartingCode/src/appDomain/WordEntry.java:60-63 | a strictly ascending list has no repeats |
| Words.LineAdded | assignment3StartingCode/src/appDomain/WordEntry.java:59-65 | the value form of `addLineNumber`: a recorded line changes nothing; a new one is added to the sorted line list and its spelling appended; `LineAddedWellFormed` and `LineAddedRecords` state the result |
| Words.LineAddedWellFormed | assignment3StartingCode/src/appDomain/WordEntry.java:59-65 | `addLineNumber` keeps the lines strictly ascending with one spelling per line, adds exactly the new line, and grows by one only when it is new |
| Words.LineAddedRecords | assignment3StartingCode/src/appDomain/WordEntry.java:59-65 | after `addLineNumber` the line is recorded, and the file name is unchanged |
| Words.FileNames | assignment3StartingCode/src/appDomain/WordEntry.java:114-119 | one file name per location, in list order |
| Words.FindFile | assignment3StartingCode/src/appDomain/WordEntry.java:114-119 | the first location for the file, or the end when there is none |
| Words.Total | assignment3StartingCode/src/appDomain/WordEntry.java:146-152 | the value form of `getTotalOccurrences`: the sum of the line counts of all locations; `TotalUpdate` and `WithLineTotal` state how `addLocation` changes it |
| Words.TotalUpdate | assignment3StartingCode/src/appDomain/WordEntry.java:146-152 | replacing one location changes the total by the change in its line count |
| Words.WithLine | assignment3StartingCode/src/appDomain/WordEntry.java:112-126 | the value form of `addLocation`: `addLineNumber` on the first location for the file, or on a new location appended at the end; `WithLineValid`, `WithLineFiles` and `WithLineTotal` state the result |
| Words.WithLineValid | assignment3StartingCode/src/appDomain/WordEntry.java:112-126 | `addLocation` keeps one location per file and every location well formed |
| Words.WithLineFiles | assignment3StartingCode/src/appDomain/WordEntry.java:112-126 | the file list grows by the file at the end only when it is new, and the line is then recorded for it |
| Words.WithLineTotal | assignment3StartingCode/src/appDomain/WordEntry.java:112-152 | the total occurrence count grows by one exactly when the line of that file was not recorded yet |
| Words.AllVariations | assignment3StartingCode/src/appDomain/WordEntry.java:233-241 | the spellings of all locations, in the order the nested loops visit them |
| Words.IsLower | assignment3StartingCode/src/appDomain/WordEntry.java:236 | the test `variation.equals(variation.toLowerCase())`: a spelling is lower case exactly when lowering leaves it unchanged |
| Words.FirstCapitalized | assignment3StartingCode/src/appDomain/WordEntry.java:233-241 | the first spelling that is not all lower case, or none; `FirstCapitalizedSpec` states both directions |
| Words.AllVariationsPrefix | assignment3StartingCode/src/appDomain/WordEntry.java:233-241 | the spellings of the first locations come first |
| Words.FirstCapitalizedSpec | assignment3StartingCode/src/appDomain/WordEntry.java:233-241 | nothing is found exactly when every spelling is lower case; otherwise the first spelling that is not |
| Words.FirstCapitalizedAppend | assignment3StartingCode/src/appDomain/WordEntry.java:233-241 | searching a concatenation finds the first part's answer when it has one |
| Words.MostSignificant | assignment3StartingCode/src/appDomain/WordEntry.java:226-247 | the value form of `findMostSignificantCapitalization`: the word when there are no locations, else the first capitalised spelling, else the first spelling of the first location, else the word; `MostSignificantChoice` states what it picks |
| Words.MostSignificantChoice | assignment3StartingCode/src/appDomain/WordEntry.java:226-247 | the shown spelling is the word or a recorded spelling, and it is capitalised whenever any recorded spelling is |
| Words.FileLocation.constructor | assignment3StartingCode/src/appDomain/WordEntry.java:47-51 | a location for the file with no lines and no spellings |
| Words.FileLocation.AddLineNumber | assignment3StartingCode/src/appDomain/WordEntry.java:59-65 | a line already there changes nothing; a new line is added to the sorted list and its spelling appended; the file name stays |
| Words.WordEntry.constructor | assignment3StartingCode/src/appDomain/WordEntry.java:100-103 | the entry holds the lowered word and no locations |
| Words.WordEntry.AddLocation | assignment3StartingCode/src/appDomain/WordEntry.java:112-126 | the locations become `WithLine` of the old ones, and one location per file stays true |
| Words.WordEntry.RecordLine | assignment3StartingCode/src/appDomain/WordEntry.java:125 | `addLineNumber` on the found location changes that location only |
| Words.WordEntry.FindLocation | assignment3StartingCode/src/appDomain/WordEntry.java:114-119 | the search loop stops at the first location for the file, or at the end |
| Words.WordEntry.CompareTo | assignment3StartingCode/src/appDomain/WordEntry.java:137-139 | zero exactly for entries with the same word, and antisymmetric |
| Words.WordEntry.GetTotalOccurrences | assignment3StartingCode/src/appDomain/WordEntry.java:146-152 | the number of recorded lines over all files |
| Words.WordEntry.FindMostSignificantCapitalization | assignment3StartingCode/src/appDomain/WordEntry.java:226-247 | the spelling `MostSignificant` chooses: the first capitalised spelling, else the first spelling of the first file, else the word |
| Words.WordEntry.FirstCapitalizedIn | assignment3StartingCode/src/appDomain/WordEntry.java:234-240 | the inner loop returns the first spelling that is not lower case |
| Xml.TrimStart | assignment2StartingCode/src/appDomain/XMLParser.java:26 | drops leading characters up to `' '`, the first half of `String.trim`; `TrimStartSpec` states the result |
| Xml.TrimEnd | assignment2StartingCode/src/appDomain/XMLParser.java:26 | drops trailing characters up to `' '`, the second half of `String.trim`; `TrimEndSpec` states the result |
| Xml.Trim | assignment2StartingCode/src/appDomain/XMLParser.java:85 | `String.trim` on the gathered tag text (and on each line read); `TrimSpec` states the result |
| Xml.TrimStartSpec | assignment2StartingCode/src/appDomain/XMLParser.java:26 | the result is a suffix of the input, every dropped character is blank, and a non-empty result starts with a non-blank character |
| Xml.TrimEndSpec | assignment2StartingCode/src/appDomain/XMLParser.java:26 | the result is a prefix of the input, every dropped character is blank, and a non-empty result ends with a non-blank character |
| Xml.HasDoubleClose | assignment2StartingCode/src/appDomain/XMLParser.java:33 | true exactly when `>>` occurs somewhere in the line |
| Xml.Skipped | assignment2StartingCode/src/appDomain/XMLParser.java:28 | a line that is empty or starts with `<?xml` |
| Xml.OpenPackageLocation | assignment2StartingCode/src/appDomain/XMLParser.java:39 | a line that starts with `<PackageCreationLocation`, contains `>` and does not end with `/>` |
| Xml.TrimSpec | assignment2StartingCode/src/appDomain/XMLParser.java:26 | `trim` keeps a slice whose outside is blank and whose ends are not; the result is empty exactly for an all-blank line |
| Xml.FirstWord | assignment2StartingCode/src/appDomain/XMLParser.java:100 | `split(" ")[0]` on a trimmed, non-empty tag: the characters before the first space; `FirstWordSpec` states the result |
| Xml.IsTagName | assignment2StartingCode/src/appDomain/XMLParser.java:102 | the regular expression `^[a-zA-Z][a-zA-Z0-9_]*$`: an ASCII letter, then ASCII letters, digits or underscores |
| Xml.FirstWordSpec | assignment2StartingCode/src/appDomain/XMLParser.java:100 | `split(" ")[0]`: a prefix with no space, ended by a space or the end of the tag |
| Xml.TagClosed | assignment2StartingCode/src/appDomain/XMLParser.java:84-107 | the reference definition of `>`: empty tag text changes nothing; a closing tag reports an empty stack, pops a match, or reports a mismatch with the stack unchanged (pop then push back); an opening tag that ends in `/` changes nothing; otherwise its first word is pushed when it is a valid name and reported when not; `TagClosedCases` and `TagClosedKeeps` state these |
| Xml.Step | assignment2StartingCode/src/appDomain/XMLParser.java:77-115 | one loop iteration: `<` starts a fresh opening tag; `>` ends the tag and applies `TagClosed` to its trimmed text; inside a tag, a `/` before any text marks a closing tag and any other character is appended; outside a tag nothing changes |
| Xml.ScanFrom | assignment2StartingCode/src/appDomain/XMLParser.java:76-116 | the loop over the line from position `i`, one `Step` per character; `ScanKeeps`, `GatherWord` and `SkipText` state what it does |
| Xml.ProcessedLine | assignment2StartingCode/src/appDomain/XMLParser.java:65-117 | the reference definition of `processLine`: a line lacking `<` or `>` is one format error, otherwise the scan from outside any tag; `Balanced`, `SelfClosingKeeps`, `UnexpectedClose`, `Mismatched` and `ProcessedLineKeeps` state what it does |
| Xml.ParseFrom | assignment2StartingCode/src/appDomain/XMLParser.java:20-62 | the reference definition of `parse`: each line trimmed; blank and declaration lines passed over; `>>` and open `PackageCreationLocation` lines reported; other lines processed, advancing the line number; `ParseSkips` and `ParseKeeps` state what it does |
| Xml.NoBracketsOneError | assignment2StartingCode/src/appDomain/XMLParser.java:71-74 | a line lacking `<` or `>` adds exactly one format error and leaves the stack alone |
| Xml.TagClosedCases | assignment2StartingCode/src/appDomain/XMLParser.java:83-108 | at `>`: an opening tag with a valid first word pushes it, else reports an invalid name; a self-closing tag changes nothing; a closing tag with nothing open is reported; a matching one pops; a mismatched one is reported and the stack is unchanged |
| Xml.TagClosedKeeps | assignment2StartingCode/src/appDomain/XMLParser.java:83-108 | `>` keeps the stack to valid tag names and only appends errors |
| Xml.StepKeeps | assignment2StartingCode/src/appDomain/XMLParser.java:77-115 | each character keeps the stack to valid names and only appends errors |
| Xml.ScanKeeps | assignment2StartingCode/src/appDomain/XMLParser.java:76-116 | the scan of a line keeps the stack to valid names and only appends errors |
| Xml.ProcessedLineKeeps | assignment2StartingCode/src/appDomain/XMLParser.java:65-117 | processing a line keeps the stack to valid names and only appends errors |
| Xml.ParseKeeps | assignment2StartingCode/src/appDomain/XMLParser.java:20-62 | a whole parse keeps the stack to valid names, and errors once queued stay queued in order |
| Xml.GatherWord | assignment2StartingCode/src/appDomain/XMLParser.java:109-114 | inside a tag, text with no bracket or slash is appended to the tag |
| Xml.SkipText | assignment2StartingCode/src/appDomain/XMLParser.java:76-116 | outside a tag, text with no bracket is passed over |
| Xml.NameIsPlain | assignment2StartingCode/src/appDomain/XMLParser.java:99-102 | a valid tag name survives trimming and splitting and does not end in `/` |
| Xml.OpenTagPushes | assignment2StartingCode/src/appDomain/XMLParser.java:79-107 | `<n>` with a valid name pushes `n` |
| Xml.CloseTagPops | assignment2StartingCode/src/appDomain/XMLParser.java:79-98 | `</n>` with `n` on top pops it |
| Xml.CloseTagCloses | assignment2StartingCode/src/appDomain/XMLParser.java:79-98 | `</n>` hands `n` to the closing branch at `>`, whatever the stack holds |
| Xml.Balanced | assignment2StartingCode/src/appDomain/XMLParser.java:65-117 | `<n>text</n>` on one line leaves the stack and the errors as they were |
| Xml.SelfClosingKeeps | assignment2StartingCode/src/appDomain/XMLParser.java:99 | `<n/>` leaves the stack and the errors as they were |
| Xml.UnexpectedClose | assignment2StartingCode/src/appDomain/XMLParser.java:89-90 | `</n>` with nothing open adds exactly one unexpected-closing-tag error, carrying the line, and leaves the stack empty |
| Xml.Mismatched | assignment2StartingCode/src/appDomain/XMLParser.java:92-97 | `<a>text</b>` with two different valid names keeps `a` open and adds exactly one mismatch error, with `a` expected and `b` found |
| Xml.StrayCloseRepeatsTag | assignment2StartingCode/src/appDomain/XMLParser.java:83-107 | `>` does not reset the tag text, so `<n> >` pushes `n` twice |
| Xml.SlashOnlyFirst | assignment2StartingCode/src/appDomain/XMLParser.java:109-114 | `/` marks a closing tag while no tag text has been gathered; after that it is tag text |
| Xml.ParseSkips | assignment2StartingCode/src/appDomain/XMLParser.java:28-42 | blank and declaration lines change nothing; `>>` lines and open `PackageCreationLocation` lines add their error; none of them advances the line number |
| Xml.XMLParser.constructor | assignment2StartingCode/src/appDomain/XMLParser.java:15-18 | an empty tag stack and an empty error queue |
| Xml.XMLParser.Report | assignment2StartingCode/src/appDomain/XMLParser.java:34 | an error joins the back of the queue; the stack is unchanged |
| Xml.XMLParser.PushTag | assignment2StartingCode/src/appDomain/XMLParser.java:105 | a tag goes on top of the stack; the queue is unchanged |
| Xml.XMLParser.Parse | assignment2StartingCode/src/appDomain/XMLParser.java:20-62 | the stack and queue end as `ParseFrom` of the lines, starting at line 1 |
| Xml.XMLParser.ProcessLine | assignment2StartingCode/src/appDomain/XMLParser.java:65-117 | the stack and queue end as `ProcessedLine` describes |
| Xml.XMLParser.CloseTag | assignment2StartingCode/src/appDomain/XMLParser.java:83-108 | the stack and queue end as `TagClosed` describes |

## Left out

- Console and file I/O: `parse` takes the file's lines, and `printErrors` and `main` (XMLParser.java lines 121-146) are not modelled. The `args[2]` index in `main` is not part of this model.
- Error messages: the parser queues `XmlError` values. Each value carries the line number and the trimmed line of the Java message, but not the message text.
- Exceptions are `Result.Err` values. The `Fault` tells which exception was thrown, not its message.
- The XML parser's commented-out loop over unclosed tags is not modelled, because it is dead code.
- `SortManager`, the shape classes and their comparators, `WordTracker` and `AppDriver` are the programs that call this core. They are not part of this model.
- `WordEntry.generateReportForFormat` builds report text and is not modelled. Neither are the getters of `WordEntry` and `FileLocation`, which only return fields.
- Serialization (`serialVersionUID`, `Serializable`) is not modelled.
- `Words.LowerChar`: `String.toLowerCase` is modelled on ASCII letters only; other characters are left as they are.
- `Words.ToLower`: inherits the ASCII-only lower-casing of `Words.LowerChar`. Non-ASCII capitals that `String.toLowerCase` would change are kept.
- `Words.WordEntry.constructor`: the stored word is `ToLower` of the argument, so the same ASCII-only lower-casing applies.
- `Words.StringCompare`: compares strings by Unicode code point and by length in code points. `String.compareTo` compares UTF-16 code units and lengths in code units. The two can differ, even in sign, when a string holds characters outside the Basic Multilingual Plane. The UTF-16 encoding is not modelled.
- `Words.WordEntry.CompareTo`: built on `Words.StringCompare`, so it compares by code point rather than by UTF-16 code unit.
- `Words.IsLower`: uses the ASCII-only `Words.ToLower`, so a spelling whose only capitals are non-ASCII (such as `École`) counts as lower case, where `toLowerCase` would make it differ.
- `Words.FirstCapitalized`: built on `Words.IsLower`, so it passes over a spelling whose only capitals are non-ASCII.
- `Words.MostSignificant`: built on `Words.FirstCapitalized`, so a spelling whose only capitals are non-ASCII is not preferred as capitalised.
- `Words.WordEntry.FirstCapitalizedIn`: its test is `Words.IsLower`, so a spelling whose only capitals are non-ASCII counts as lower case.
- `Words.WordEntry.FindMostSignificantCapitalization`: returns `Words.MostSignificant`, so a spelling whose only capitals are non-ASCII counts as lower case. For example, with the spellings `École` then `Ecole` it returns `Ecole` where the Java method returns `École`.
- `Words.SortInts`: `List.sort(null)` is modelled as an insertion sort. `Words.SortedUnique` shows that any ascending sort of the list gives the same result.
- `Words.WordEntry.GetTotalOccurrences`: the total is an unbounded integer; 32-bit overflow of the Java `int` is not modelled.
- `BST.BSTree.GetHeight` counts nodes, as `calculateHeight` does: an empty tree has height 0 and a leaf has height 1.
- The tree holds `int` elements. For ints, `compareTo` and `equals` agree, which the tree's `compareTo`-based search relies on.
- The natural-order sorts are modelled on `int` arrays, with `Integer.compareTo` as the order.
- `Arrays.copyOfRange` in merge sort is modelled as a method that returns a fresh array with the same elements.
- `Sort.Merge`: the write index `k` is not a separate variable; it is always `i + j`.
- Splitting work into helper methods (`BubbleCompare`, `MergeStep`, `PartitionVisit`, `RecordLine`, `FindLocation`, `FirstCapitalizedIn`, `AddLeft`, `AddRight`, `Pop`, `CloseTag`, `Report`, `PushTag`) changes the code's structure but not its behaviour. Each helper is one loop or one branch of the Java method it is cited under.
- `ArrayList.MyArrayList.AddAll`: the argument is modelled as the sequence of its elements in iteration order, read before the call. A non-empty list passed to its own `addAll` is not modelled, because that call never ends: the iterator keeps reading the elements being appended. For an empty list the call ends at once and returns true, which the model matches.
- `LinkedList.MyDLL.AddAll`: the argument is modelled as the sequence of its elements in iteration order, read before the call. A list of two or more elements passed to its own `addAll` is not modelled, because that call never ends: the iterator follows the `next` links of the nodes being appended. For an empty or one-element list the model's result (false and no change, or the element twice) matches the code.
- `Words.FileLocation.constructor`: the file name is a non-null `string`. A null file name, and the `NullPointerException` that a later `fileName.equals` lookup in `addLocation` then throws, are not modelled.
- `Words.FileLocation.AddLineNumber`: the spelling is a non-null `string`. A null spelling is stored by the Java code, and the `NullPointerException` that `findMostSignificantCapitalization` then throws at WordEntry.java line 236 is not modelled.
- `Words.WordEntry.constructor`: the word is a non-null `string`. The `NullPointerException` that `new WordEntry(null)` throws at WordEntry.java line 101 is not modelled.
- `Words.WordEntry.AddLocation`: the file name and the spelling are non-null `string`s. A null file name or spelling, and the `NullPointerException`s that follow from it, are not modelled.
- `Sort.BubbleSort`, `Sort.InsertionSort`, `Sort.SelectionSort`, `Sort.MergeSort`, `Sort.QuickSort`, `Sort.HeapSort` and their `Natural` forms: the array is a non-null `array<T>` and the comparator a total function. A null array (which throws `NullPointerException` at `array.length`, as at Sort.java line 65), a null `Comparator`, and null elements of the natural-order arrays are not modelled.
- Iterators assume the collection is not changed while they are in use. Java's behaviour when it is changed is not modelled.
- Generic element equality is Dafny's `==`. A custom `equals` that is not structural equality is not modelled.
