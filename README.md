# A verified model of AndyAnderson91/algorithms

The repository is a collection of small in-memory data structures and
algorithms written in Python. Several of them exist twice: an older copy at
the top level and a refined copy under `algorithms/`. This project models
both copies in Dafny and proves what each promises. Where the two copies
behave differently, the proofs show the difference.

- **Linked lists**
  - `algorithms/linked_lists.py`, `linked_lists.py`, `singly_linked_list.py` and `doubly_linked_list.py`.
  - Modelled as classes over heap nodes (`nodes.dfy`, `singly_chain.dfy`, `doubly_chain.dfy`).
  - Each class keeps a ghost spine of nodes and a ghost sequence of values.
  - Every operation is specified as an edit of that sequence, following Python's list-index rules (`list_index.dfy`).
  - The refined copy is in `linked_lists.dfy`, the older one in `linked_lists_legacy.dfy`, and the index-taking `add`/`pop` lists in `indexed_lists.dfy`.
- **Stacks and queues**
  - The linked-list `Stack`/`Queue`, shared by both copies, are in `stack_and_queue.dfy`.
  - The standalone queue (`queue_data_structure.dfy`) reuses them, except for its `front`/`rear`.
  - The node-returning `Queue` and `Stack` are in `node_queue.dfy` and `node_stack.dfy`.
- **Hash table** (`hash_table.py`)
  - An array of bucket chains, with a ghost mapping it represents (`hash_buckets.dfy`, `hash_table.dfy`).
  - The invariant: every pair sits in its key's slot, no key appears twice, the length counts the pairs, and the load factor stays at most 0.75.
- **Binary search trees**
  - Trees are values (`search_trees.dfy`): lookups, insertion, three-case removal, the median-split build and balance.
  - Everything is tied to the inorder listing.
  - The `BinarySearchTree` class keeps a root and a count that its methods change in place (`binary_search_tree.dfy`, `binary_search_tree_legacy.dfy`).
- **Sorting**
  - The in-place bubble, selection and insertion sorts work on arrays and carry loop invariants (`in_place_sorts.dfy`).
  - Merge sort and quick sort are out of place (`out_of_place_sorts.dfy`).
  - Every sort is specified against one sorted-permutation definition (`sort_spec.dfy`).
- **Binary search**
  - The iterative and the slice-shifting recursive search (`binary_search.dfy`).
  - The start/end recursive search (`binary_search_rec.dfy`).
- **Graphs**
  - Dijkstra's algorithm over an adjacency matrix, in both copies (`dijkstra.dfy`, `dijkstra_legacy.dfy`).
  - Breadth-first and depth-first search over adjacency lists (`graphs.dfy`, `graph_traversals.dfy`, `breadth_search_first.dfy`).

Python exceptions are the `Err` values of a `Result` type (`errors.dfy`).
Where Python returns `None`, the model returns an `Option`.

## Model

| member | source | states |
|---|---|---|
| SortSpec.InsertSorted | algorithms/binary_search_tree.py:118 | inserting one value into a list, before the first element not smaller, gives a list one longer |
| SortSpec.SortedOf | algorithms/binary_search_tree.py:118 | `sorted(list(iterable))` returns as many elements as it is given; that the result is sorted and a permutation is SortSpec.SortedOfCorrect |
| SortSpec.SortedOfCorrect | tests/test_sorting_algorithms.py:46-56 | the reference `sorted(array)` is sorted and has the same elements, with multiplicity, as its input |
| SortSpec.SortedPermutationUnique | tests/test_sorting_algorithms.py:46-56 | two sorted lists with the same elements are equal, so a sort meets `array == sorted(array)` as soon as its result is sorted and a permutation |
| SortSpec.SortedOfUnique | tests/test_sorting_algorithms.py:53-56 | any sorted permutation of a list is exactly `sorted` of it |
| InPlaceSorts.Swap | algorithms/sorting_algorithms.py:21 | the tuple assignment exchanges the two slots, changes nothing else and keeps the multiset of elements |
| InPlaceSorts.BubbleSort | algorithms/sorting_algorithms.py:11-23 | the array ends sorted and is a permutation of the original; the same code is at sorting_algorithms.py:1-10 |
| InPlaceSorts.BubblePass | algorithms/sorting_algorithms.py:18-23 | a pass keeps the multiset, moves the largest of the unsorted prefix to just below the placed suffix, and a pass without a swap leaves the array sorted |
| InPlaceSorts.BubbleCompare | algorithms/sorting_algorithms.py:20-22 | one comparison swaps exactly when slot `j + 1` is smaller, sets the flag exactly then, and keeps the pass invariant and the multiset |
| InPlaceSorts.BubbleStep | algorithms/sorting_algorithms.py:19-22 | after comparing slots `j` and `j + 1`, slot `j + 1` holds the largest of the slots up to it and the suffix stays placed |
| InPlaceSorts.PassEnd | algorithms/sorting_algorithms.py:19-23 | at the end of a pass the suffix grows by one slot, and with no swap the array is sorted, which ends the `while check_again` loop |
| InPlaceSorts.SelectionSort | algorithms/sorting_algorithms.py:26-37 | the array ends sorted and is a permutation of the original; the same code is at sorting_algorithms.py:13-22, selection_sort.py:1-11 |
| InPlaceSorts.InsertionSort | algorithms/sorting_algorithms.py:40-48 | the array ends sorted and is a permutation of the original; the same code is at sorting_algorithms.py:25-30 |
| OutOfPlaceSorts.MergeFrom | algorithms/sorting_algorithms.py:55-71 | merging the rests of two lists from cursors `i` and `j` yields as many elements as the two rests hold together |
| OutOfPlaceSorts.Merged | algorithms/sorting_algorithms.py:55-71 | `merge(array1, array2)` yields as many elements as its two inputs hold together |
| OutOfPlaceSorts.MergeFromCorrect | algorithms/sorting_algorithms.py:55-71 | merging the rests of two sorted lists from cursors `i` and `j` gives a sorted list of exactly their remaining elements |
| OutOfPlaceSorts.MergedCorrect | algorithms/sorting_algorithms.py:55-71 | merging two sorted lists gives a sorted list whose multiset is the sum of theirs |
| OutOfPlaceSorts.Merge | algorithms/sorting_algorithms.py:55-71 | the two-cursor loop, with its copies of `array2[j:]` and `array1[i:]`, yields the merge, ties taken from the first list; the same code is at sorting_algorithms.py:35-51 |
| OutOfPlaceSorts.MergeHalves | algorithms/sorting_algorithms.py:76-80 | merging the sorted halves split at `len // 2` gives the sorted copy of the whole list |
| OutOfPlaceSorts.MergeSort | algorithms/sorting_algorithms.py:51-80 | the result equals `sorted(array)`; a list of at most one element comes back unchanged |
| OutOfPlaceSorts.LegacyMergeSort | sorting_algorithms.py:33-60 | with the base case `len(arr) == 1` only, the empty list recurses until the recursion limit, while every non-empty list is sorted within `len(arr)` levels |
| OutOfPlaceSorts.Partition | algorithms/sorting_algorithms.py:91-96 | the loop splits `array[1:]` into the elements no larger than the pivot and those larger, losing and adding nothing; the same code is at quick_sort.py:5-11 |
| OutOfPlaceSorts.AroundPivot | algorithms/sorting_algorithms.py:97 | sorted smaller elements, the pivot, then sorted larger elements form the sorted copy of the list |
| OutOfPlaceSorts.QuickSort | algorithms/sorting_algorithms.py:83-97 | the result equals `sorted(array)`; a list of at most one element comes back unchanged; the same code is at sorting_algorithms.py:63-74, quick_sort.py:1-12 |
| BinarySearch.BinarySearchRecursive | binary_search.py:26-41 | `binary_search_recursive(array, value, shift)`: an index returned lies in `[shift, shift + len(array))`, the positions the slice covers in the list first given |
| BinarySearch.BinarySearchRecursiveCorrect | binary_search.py:26-41 | a returned index holds the value; on a sorted list an index is returned exactly when the value is present |
| BinarySearch.SliceStep | binary_search.py:34-41 | one call on the slice `array[lo:hi]` with shift `lo`, written with positions of the list first given: the middle slot `(lo + hi - 1) // 2` is returned when it holds the value, otherwise the search goes on in `[lo, mid)` or `[mid + 1, hi)` |
| BinarySearch.SliceIsWindow | binary_search.py:34-41 | searching the slice `array[lo:hi]` with shift `lo` returns the same as searching the window `[lo, hi)` of the original list by index |
| BinarySearch.WindowFound | binary_search.py:34-41 | a returned index lies in the window and holds the value |
| BinarySearch.WindowComplete | binary_search.py:34-41 | on a sorted list the search finds every value present in the window |
| BinarySearch.BinarySearchIterative | binary_search.py:8-23 | the iterative search returns exactly what the recursive one returns, so it shares its correctness |
| LegacyBinarySearch.BinarySearchRec | binary_search_rec.py:1-14 | `binary_search_rec` as written, with Python's negative indexing: an index returned is one Python accepts for `arr` (negative ones included), and the only exception raised is `IndexError` |
| LegacyBinarySearch.FoundIsCorrect | binary_search_rec.py:1-14 | from a non-negative start, an index the search returns holds the value |
| LegacyBinarySearch.FoundStep | binary_search_rec.py:2-14 | one call from a non-negative start: the middle slot is never negative; a call that neither returns it nor stops recurses with `end = mid - 1` or `start = mid + 1`, and a call that stops returns an index only when the middle slot holds `k` |
| LegacyBinarySearch.EndZeroRepeats | binary_search_rec.py:2 | on `[1, 3, 5]` and 1, `end` narrows to 0, `end or len(arr)` restores 3 and the call repeats until the recursion limit |
| LegacyBinarySearch.PastEndRaises | binary_search_rec.py:2-7 | on `[1]` and 5 the middle slot reaches `len(arr)` and reading it raises `IndexError` |
| LegacyBinarySearch.EmptyRaises | binary_search_rec.py:2-7 | on an empty list the first read raises `IndexError` rather than returning `None` |
| LegacyBinarySearch.BinarySearchRecCorrectedCorrect | binary_search_rec.py:1-14 | the corrected search (inclusive `end`, default `len(arr) - 1`) returns an index of the window holding `k`, and on a sorted list returns one exactly when the window holds `k` |
| LegacyBinarySearch.CorrectedAnswers | binary_search_rec.py:2 | the corrected search answers 0, `None` and `None` on the three inputs where the code as written loops or raises |
| ListIndex.Normalised | algorithms/linked_lists.py:145-149 | an index in `[-length, length - 1]` maps to a position in `[0, length)`, the index itself or the index plus the length |
| ListIndex.ClampedAgrees | algorithms/linked_lists.py:167-175 | the clamping of `insert` always yields a valid insertion point, agrees with the normalised index in range, appends from `length` on and prepends up to `-length` |
| ListIndex.InsertAt | algorithms/linked_lists.py:162-186 | inserting before position `i` puts the value at `i`, keeps the elements before it and shifts the rest one place right |
| ListIndex.RemoveAt | algorithms/linked_lists.py:188-213 | removing position `i` keeps the elements before it and shifts the rest one place left |
| ListIndex.InsertRemoveRoundTrip | algorithms/linked_lists.py:162-213 | popping the position just inserted at gives back the list, and re-inserting a popped value restores it |
| ListIndex.Reversed | algorithms/linked_lists.py:67-72 | the reversed list has the same length and element `k` is the original element `length - 1 - k` |
| Nodes.SNode.constructor | algorithms/linked_lists.py:45-49 | a node holds the given value and link |
| Nodes.DNode.constructor | algorithms/linked_lists.py:52-57 | a node holds the given value and both links |
| SinglyChain.SinglyLinkedList.DistinctNodes | algorithms/linked_lists.py:74-78 | a valid chain never meets the same node twice, so walking `next` from `first` ends |
| SinglyChain.SinglyLinkedList.constructor | algorithms/linked_lists.py:131-133 | a new list has no node and length 0 |
| SinglyChain.SinglyLinkedList.GetNode | algorithms/linked_lists.py:140-155 | `None` exactly outside `[-length, length - 1]`, otherwise the node at the normalised index; the same code is at linked_lists.py:105-125, singly_linked_list.py:65-85 |
| SinglyChain.SinglyLinkedList.Prepend | algorithms/linked_lists.py:157-160 | `add` puts the value in front of the old contents and the new node first; the same code is at linked_lists.py:127-133 |
| SinglyChain.SinglyLinkedList.LinkAt | algorithms/linked_lists.py:177-186 | linking a new node at position `k` of `[0, length]` yields the old contents with the value inserted before `k`, keeping the chain well formed |
| SinglyChain.SinglyLinkedList.LinkAfter | algorithms/linked_lists.py:182-184 | relinking the node before `k` inserts the value at `k` |
| SinglyChain.SinglyLinkedList.UnlinkAt | algorithms/linked_lists.py:203-213 | the node at `k` is returned with its value and bypassed; contents and node chain lose exactly position `k` |
| SinglyChain.SinglyLinkedList.SetAt | algorithms/linked_lists.py:119 | overwriting the node at `k` changes only element `k` |
| SinglyChain.SinglyLinkedList.Values | algorithms/linked_lists.py:74-78 | iteration yields exactly the contents, first to last |
| SinglyChain.SinglyLinkedList.Nodes | singly_linked_list.py:121-133 | `show_nodes` returns the nodes first to last (same walk as the older `__iter__`, linked_lists.py:48-55) |
| SinglyChain.SinglyLinkedList.Contains | algorithms/linked_lists.py:83-88 | `item in list` holds exactly when some element equals `item`; the same code is at linked_lists.py:57-65 |
| DoublyChain.DoublyLinkedList.DistinctNodes | algorithms/linked_lists.py:74-78 | a valid chain never meets the same node twice |
| DoublyChain.DoublyLinkedList.constructor | algorithms/linked_lists.py:224-227 | a new list is empty with `first` and `last` both `None` |
| DoublyChain.DoublyLinkedList.EndsMissingIffEmpty | algorithms/linked_lists.py:258-265 | `first` is `None` exactly when the list is empty, and so is `last` |
| DoublyChain.DoublyLinkedList.GetNode | algorithms/linked_lists.py:234-256 | `None` exactly outside `[-length, length - 1]`; otherwise the node at the normalised index, whether reached from the front or from the back; the same code is at linked_lists.py:299-328, doubly_linked_list.py:81-109 |
| DoublyChain.DoublyLinkedList.Prepend | algorithms/linked_lists.py:258-267 | the refined `add` puts the value in front; on an empty list the new node is also `last` |
| DoublyChain.DoublyLinkedList.Append | linked_lists.py:330-345 | the older `add` puts the value at the end; on an empty list the new node is also `first` |
| DoublyChain.DoublyLinkedList.LinkAt | algorithms/linked_lists.py:284-299 | linking at position `k` of `[0, length]` inserts the value before `k`, at the end through `last`, keeping both directions of links consistent |
| DoublyChain.DoublyLinkedList.LinkBefore | algorithms/linked_lists.py:288-297 | relinking the node at `k` and its predecessor inserts the value at `k` |
| DoublyChain.DoublyLinkedList.UnlinkAt | algorithms/linked_lists.py:318-332 | the node at `k` is returned and bypassed in both directions; the contents lose exactly position `k`, and `last` moves back when the last node leaves |
| DoublyChain.DoublyLinkedList.SetAt | algorithms/linked_lists.py:119 | overwriting the node at `k` changes only element `k` |
| DoublyChain.DoublyLinkedList.Values | algorithms/linked_lists.py:74-78 | iteration yields exactly the contents, first to last; the same code is at queue_data_structure.py:35-42 |
| DoublyChain.DoublyLinkedList.Nodes | doubly_linked_list.py:149-161 | `show_nodes` returns the nodes first to last (same walk as the older `__iter__`, linked_lists.py:242-249) |
| DoublyChain.DoublyLinkedList.Contains | algorithms/linked_lists.py:83-88 | `item in list` holds exactly when some element equals `item`; the same code is at linked_lists.py:251-259, queue_data_structure.py:44-52 |
| LinkedLists.BuildSingly | algorithms/linked_lists.py:131-135 | building from an iterable with `add` leaves the elements in reverse order; the same code is at algorithms/stack_and_queue.py:52-56 |
| LinkedLists.BuildDoubly | algorithms/linked_lists.py:224-229 | building from an iterable with the front-inserting `add` leaves the elements in reverse order |
| LinkedLists.SinglyInsert | algorithms/linked_lists.py:162-186 | the value lands before the clamped index, as `list.insert` places it; the same code is at linked_lists.py:135-166 |
| LinkedLists.DoublyInsert | algorithms/linked_lists.py:269-299 | the value lands before the clamped index, as `list.insert` places it; the same code is at linked_lists.py:347-388 |
| LinkedLists.SinglyPop | algorithms/linked_lists.py:188-213 | `IndexError` with the list untouched exactly when the index is outside `[-length, length - 1]`, the empty list included; otherwise the value at the normalised index is returned and removed |
| LinkedLists.DoublyPop | algorithms/linked_lists.py:301-332 | as for the singly linked list; popping the last element moves `last` to its predecessor |
| LinkedLists.SinglyGetItem | algorithms/linked_lists.py:107-112 | the value at the normalised index, `IndexError` exactly out of range |
| LinkedLists.DoublyGetItem | algorithms/linked_lists.py:107-112 | the value at the normalised index, `IndexError` exactly out of range |
| LinkedLists.SinglySetItem | algorithms/linked_lists.py:114-119 | only the element at the normalised index changes; out of range, `IndexError` and no change; the same code is at linked_lists.py:84-92 |
| LinkedLists.DoublySetItem | algorithms/linked_lists.py:114-119 | only the element at the normalised index changes; out of range, `IndexError` and no change; the same code is at linked_lists.py:278-286 |
| LegacyLinkedLists.BuildSingly | linked_lists.py:34-46 | inserting at 0 from the last element to the first keeps the iterable's order |
| LegacyLinkedLists.BuildDoubly | linked_lists.py:227-240 | inserting at 0 from the last element to the first keeps the iterable's order |
| LegacyLinkedLists.SinglyGetItem | linked_lists.py:73-82 | the node at the normalised index, `IndexError` exactly out of range |
| LegacyLinkedLists.DoublyGetItem | linked_lists.py:267-276 | the node at the normalised index, `IndexError` exactly out of range |
| LegacyLinkedLists.SinglyPop | linked_lists.py:168-198 | `IndexError` and no change exactly out of range; otherwise the node itself is returned and unlinked |
| LegacyLinkedLists.DoublyPop | linked_lists.py:390-424 | as for the singly linked list, with `first` and `last` moved when an end leaves |
| IndexedLists.SinglyAdd | singly_linked_list.py:31-63 | `IndexError` and no change unless `0 <= index <= length`; otherwise the value goes before `index`, and with no index at the end |
| IndexedLists.DoublyAdd | doubly_linked_list.py:33-79 | `IndexError` and no change unless `0 <= index <= length`; otherwise the value goes before `index`, and with no index at the end |
| IndexedLists.SinglyPop | singly_linked_list.py:87-119 | `IndexError` and no change on an empty list or out of range; otherwise the node at the normalised position, the last one by default, is returned and removed |
| IndexedLists.DoublyPop | doubly_linked_list.py:111-147 | as for the singly linked list, with `first` and `last` moved when an end leaves |
| IndexedLists.AddThenPop | singly_linked_list.py:31-119 | popping the position just added at returns the added value and restores the list |
| StackAndQueue.Push | algorithms/stack_and_queue.py:74-79 | the value becomes the top above the old contents and the length grows by one (same code in stack_and_queue.py:74-79) |
| StackAndQueue.Pop | algorithms/stack_and_queue.py:81-93 | `IndexError` and no change exactly on an empty stack; otherwise the top value is returned and the rest stays in order; the same code is at stack_and_queue.py:81-93 |
| StackAndQueue.Peek | algorithms/stack_and_queue.py:98-103 | `None` exactly on an empty stack, otherwise the top value; the same code is at stack_and_queue.py:98-103 |
| StackAndQueue.StackIsEmpty | algorithms/stack_and_queue.py:95-96 | true exactly when the stack holds nothing |
| StackAndQueue.PushThenPop | algorithms/stack_and_queue.py:74-93 | last in, first out: a pop right after a push returns the pushed value and restores the stack |
| StackAndQueue.BuildQueue | algorithms/stack_and_queue.py:113-118 | `Queue(iterable)` holds the elements in the iterable's order, the first at the front; the same code is at queue_data_structure.py:19-33 |
| StackAndQueue.Enqueue | algorithms/stack_and_queue.py:123-134 | the value joins at the rear; on an empty queue the new node is both ends (same code in stack_and_queue.py:123-134 and queue_data_structure.py:71-85) |
| StackAndQueue.Dequeue | algorithms/stack_and_queue.py:136-155 | `IndexError` and no change exactly on an empty queue; otherwise the front value is returned, the new front has no predecessor, and both ends clear when the last element leaves; the same code is at stack_and_queue.py:136-155, queue_data_structure.py:87-109 |
| StackAndQueue.Front | algorithms/stack_and_queue.py:160-165 | `None` exactly on an empty queue, otherwise the front value; the same code is at stack_and_queue.py:160-165 |
| StackAndQueue.Rear | algorithms/stack_and_queue.py:167-172 | `None` exactly on an empty queue, otherwise the rear value; the same code is at stack_and_queue.py:167-172 |
| StackAndQueue.QueueIsEmpty | algorithms/stack_and_queue.py:157-158 | true exactly when the queue holds nothing (same code in queue_data_structure.py:111-115) |
| StackAndQueue.EnqueueThenDequeue | algorithms/stack_and_queue.py:123-155 | first in, first out: on a non-empty queue a dequeue after an enqueue returns the old front and keeps the new value at the rear |
| QueueDataStructure.Front | queue_data_structure.py:117-122 | the front value, or `AttributeError` exactly when the queue is empty |
| QueueDataStructure.Rear | queue_data_structure.py:124-129 | the rear value, or `AttributeError` exactly when the queue is empty |
| QueueDataStructure.EmptyFrontRaises | queue_data_structure.py:117-122 | on an empty queue `front` as written fails where the linked-list queue's `front` answers `None` |
| NodeQueue.Push | queue.py:26-37 | a new node after `last` carries the value; on an empty queue it is also `first` |
| NodeQueue.Pop | queue.py:39-60 | `IndexError` and no change exactly on an empty queue; otherwise the old front node is returned, the new front has no predecessor, and both ends clear when it was the only node |
| NodeQueue.PeekFirst | queue.py:62-67 | the front node, `None` exactly when empty |
| NodeQueue.PeekLast | queue.py:69-74 | the rear node, `None` exactly when empty |
| NodeQueue.IsEmpty | queue.py:20-24 | true exactly when the queue holds nothing |
| NodeStack.Push | stack_data_structure.py:24-29 | a new head holds the value and links to the old head |
| NodeStack.Pop | stack_data_structure.py:31-41 | `IndexError` and no change exactly on an empty stack; otherwise the head node is returned and the node after it becomes the head |
| NodeStack.Peek | stack_data_structure.py:43-48 | the head node, `None` exactly when empty |
| NodeStack.IsEmpty | stack_data_structure.py:18-22 | true exactly when the stack holds nothing |
| NodeStack.PushThenPop | stack_data_structure.py:24-41 | a pop right after a push returns the pushed node and puts the old head back |
| HashBuckets.Bucket | hash_table.py:136-146 | the slot of a key lies in `[0, capacity)` |
| HashBuckets.StrAndIntKeysDiffer | hash_table.py:136-143 | the string `'1'` and the integer `1` get different hash sums (53 versus 47 as the constant) |
| HashBuckets.Find | hash_table.py:180-187 | the walk along a chain returns a value only when the chain holds a pair of exactly that key and that value |
| HashBuckets.FindNoneIff | hash_table.py:182-187 | the walk along a chain finds nothing exactly when no pair of the chain has the key |
| HashBuckets.FindAt | hash_table.py:183-185 | in a chain without repeated keys the walk for the key of pair `i` finds pair `i`'s value |
| HashBuckets.FindAfterRemove | hash_table.py:219-222 | taking pair `i` out of a chain loses its key and leaves what every other key finds |
| HashBuckets.FindAfterOverwrite | hash_table.py:92-94 | overwriting pair `i`'s value changes what its key finds to the new value and nothing else |
| HashBuckets.FlattenUpdate | hash_table.py:60-65 | replacing one chain changes the number of listed pairs by the difference of the chain lengths |
| HashBuckets.FlattenKeys | hash_table.py:60-65 | iteration lists a key exactly when some chain holds it |
| HashBuckets.FlattenDistinct | hash_table.py:60-65 | when every pair sits in its key's slot and no chain repeats a key, iteration lists each key once |
| HashBuckets.FlattenEntry | hash_table.py:60-65 | every listed pair is a pair of some chain |
| HashBuckets.EmptyFlatten | hash_table.py:53-54 | slots that are all empty list nothing |
| HashBuckets.RepresentsEmpty | hash_table.py:53-55 | `capacity` empty slots stand for the empty mapping with length 0 |
| HashBuckets.RepresentsFind | hash_table.py:180-187 | the chain in a key's slot holds the key exactly when the mapping does, with the mapped value |
| HashBuckets.RepresentsInsert | hash_table.py:197-206 | a new key put in its slot's chain: the mapping gains the pair and one more pair is listed |
| HashBuckets.RepresentsRemove | hash_table.py:216-227 | taking a key's pair out of its chain: the mapping loses the key and one pair fewer is listed |
| HashBuckets.RepresentsOverwrite | hash_table.py:89-95 | overwriting the value of a key's pair: the mapping sends the key to the new value, the count is unchanged |
| HashBuckets.MapOfNext | hash_table.py:120-126 | storing one more pair of a list updates the mapping built so far with that pair |
| HashBuckets.NewKeysNext | hash_table.py:120-126 | pair `i` can be added without `KeyError` exactly when its key is new to the mapping built so far |
| HashBuckets.MapOfKeys | hash_table.py:120-126 | the keys stored from a list are the keys it lists |
| HashBuckets.MapOfDistinct | hash_table.py:120-126 | a list without repeated keys stores as many keys as pairs, each with its own pair's value |
| HashBuckets.RepresentsPairs | hash_table.py:163-173 | the buckets list every key of the mapping exactly once, each with its mapped value |
| HashBuckets.MapOfRebuilds | hash_table.py:157-159 | a list with distinct keys holding exactly the pairs of `m` rebuilds `m` when stored in order |
| HashBuckets.RepresentsListed | hash_table.py:157-161 | storing the listed pairs in iteration order rebuilds the represented mapping, with as many pairs as keys |
| HashTables.HashTable.constructor | hash_table.py:53-56 | `capacity` empty slots (none for a negative capacity), empty mapping, length 0 |
| HashTables.HashTable.Hash | hash_table.py:128-146 | `ZeroDivisionError` exactly when there are no slots, otherwise the key's slot |
| HashTables.HashTable.Length | hash_table.py:70-72 | `len` is the number of keys stored |
| HashTables.HashTable.Scan | hash_table.py:183-185 | the walk along a chain returns a position holding the key, or nothing exactly when the chain lacks the key |
| HashTables.HashTable.Get | hash_table.py:175-187 | the stored value, or `None` (the default) exactly when the key is absent; `ZeroDivisionError` with no slots |
| HashTables.HashTable.Items | hash_table.py:60-65 | the pairs slot by slot, each chain from its first node |
| HashTables.HashTable.Keys | hash_table.py:163-165 | every stored key exactly once, `len` of them |
| HashTables.HashTable.Values | hash_table.py:167-169 | one value per key, each the value stored for the key at the same position of `keys` |
| HashTables.HashTable.Contains | hash_table.py:67-68 | `in` holds exactly for the stored keys |
| HashTables.HashTable.GetItem | hash_table.py:74-82 | the stored value for a present key, `KeyError` exactly when it is absent |
| HashTables.HashTable.InsertNew | hash_table.py:197-206 | the new pair goes in front of its slot's chain, the mapping gains it and the length grows by one |
| HashTables.HashTable.Rehash | hash_table.py:157-159 | a fresh table of the given capacity holding exactly the given pairs |
| HashTables.HashTable.IncreaseCapacity | hash_table.py:151-161 | twice the slots, the same mapping and length, the load factor back within 0.75 |
| HashTables.HashTable.Add | hash_table.py:189-209 | `ZeroDivisionError` with no slots, `KeyError` with nothing changed for a present key, otherwise the pair is stored, the length grows by one and the load factor stays within 0.75; the slot array is replaced (capacity doubled) exactly when the new length would take the load factor above 0.75 |
| HashTables.HashTable.SetItem | hash_table.py:84-105 | a present key's value is overwritten with no resize, a new key is stored with the length one higher; the slot array is replaced (capacity doubled) exactly when the new length would take the load factor above 0.75; `ZeroDivisionError` with no slots |
| HashTables.HashTable.Pop | hash_table.py:211-231 | the key's value with the key removed and the length one lower; `KeyError` with nothing changed for an absent key |
| HashTables.HashTable.PopAsWritten | hash_table.py:222-227 | as written, popping a present key raises `AttributeError` after the pair has left its chain, so `len` still counts it |
| HashTables.HashTable.BuildFrom | hash_table.py:120-126 | runs to the end exactly when there are slots and the pairs bring only new keys, none twice; then the table maps old keys as before and new ones as given |
| HashTables.HashTable.New | hash_table.py:53-58 | the table built from the pairs holds exactly them when their keys are distinct and there are slots |
| SearchTrees.BstIffIncreasing | algorithms/binary_search_tree.py:69-75 | the search-tree ordering holds exactly when the inorder listing is strictly increasing |
| SearchTrees.IncreasingAround | algorithms/binary_search_tree.py:263-269 | a listing split around a node's value is strictly increasing exactly when both sides are and the value lies between them |
| SearchTrees.GetParent | algorithms/binary_search_tree.py:121-136 | `_get_parent_node(value, subtree_root)` returns `None` or a node of the subtree whose value is not the one searched for |
| SearchTrees.ParentSlot | algorithms/binary_search_tree.py:121-136 | below a root other than `v`, the parent search ends at a node whose slot on `v`'s side is empty or holds `v`, and `v` is in the tree exactly when that slot holds it |
| SearchTrees.GetNode | algorithms/binary_search_tree.py:138-158 | `_get_node(value, subtree_root)` returns `None` or a node holding `value` |
| SearchTrees.GetNodeFinds | algorithms/binary_search_tree.py:150-158 | descending from a subtree finds the node holding `v` exactly when `v` is there |
| SearchTrees.ExistsFinds | algorithms/binary_search_tree.py:186-188 | the lookup from the root finds a node exactly when the value is in the tree, and that node holds the value |
| SearchTrees.GetNodeIsSearch | algorithms/binary_search_tree.py:153-158 | away from a root holding `v`, the refined lookup is the plain descent |
| SearchTrees.RemoveLookupFinds | algorithms/binary_search_tree.py:214-215 | the lookup `remove` makes from the parent node finds what the plain descent from the root finds |
| SearchTrees.ParentFound | algorithms/binary_search_tree.py:121-136 | below a root other than `v`, the parent's slot on `v`'s side and the descent from the parent give the subtree the descent from the root gives |
| SearchTrees.Search | algorithms/binary_search_tree.py:153-158 | the plain descent returns `None` or a node holding `v`, and then `v` is listed in the tree |
| SearchTrees.SearchFinds | algorithms/binary_search_tree.py:153-158 | a search finds a subtree rooted at `v` exactly when `v` is listed in the tree |
| SearchTrees.ParentIsBst | binary_search_tree.py:117-128 | the node the parent search stops at roots a search tree |
| SearchTrees.LegacyGetNode | binary_search_tree.py:130-141 | the older `_get_node(value, parent)` returns `None` or a node holding `value` |
| SearchTrees.LegacyLookupFinds | binary_search_tree.py:130-141 | the older lookup through the parent (root, or one of the parent's two children) finds what the plain descent finds, and finds something exactly when the value is in the tree |
| SearchTrees.Leftmost | algorithms/binary_search_tree.py:170-173 | the node reached by following left links has no left child |
| SearchTrees.LeftmostSmallest | algorithms/binary_search_tree.py:170-173 | the leftmost node holds the smallest value, the first one listed |
| SearchTrees.SuccessorIsNext | algorithms/binary_search_tree.py:160-174 | the leftmost node of the right subtree holds the next larger value of the tree after the node's own |
| SearchTrees.Insert | algorithms/binary_search_tree.py:190-203 | attaching a value as a leaf where the descent for it runs out lists at most one value more than before |
| SearchTrees.InsertInorder | algorithms/binary_search_tree.py:190-203 | adding a new value keeps the ordering and puts the value into the listing at its sorted place |
| SearchTrees.InsertSortedMembers | algorithms/binary_search_tree.py:190-203 | the listing after adding holds the old values and the new one, nothing else |
| SearchTrees.InsertSortedMultiset | algorithms/binary_search_tree.py:190-203 | adding puts exactly one more copy of the value into the listing |
| SearchTrees.Without | algorithms/binary_search_tree.py:205-213 | the listing `remove` should leave: no occurrence of `v`, and never longer than the listing before |
| SearchTrees.WithoutMembers | algorithms/binary_search_tree.py:205-218 | the listing after removing holds the old values other than `v` |
| SearchTrees.Delete | algorithms/binary_search_tree.py:205-257 | removing by the three cases of `remove` (leaf cut off, single child moved up, successor value moved in) never lists more values than before |
| SearchTrees.DeleteInorder | algorithms/binary_search_tree.py:205-257 | removing a value from a search tree takes exactly that value out of the inorder listing |
| SearchTrees.DeleteBelow | algorithms/binary_search_tree.py:214-215 | a value below the node is removed from its left subtree alone |
| SearchTrees.DeleteAbove | algorithms/binary_search_tree.py:214-215 | a value above the node is removed from its right subtree alone |
| SearchTrees.DeleteHere | algorithms/binary_search_tree.py:220-255 | removing the node's own value: a leaf goes, one child takes its place, or the successor takes its place with both subtrees, and the value leaves the listing |
| SearchTrees.SearchWithin | algorithms/binary_search_tree.py:153-158 | the subtree a search finds holds values of the tree only and is a search tree when the tree is |
| SearchTrees.SearchLeftmost | algorithms/binary_search_tree.py:241-242 | the search for the smallest value finds the leftmost node |
| SearchTrees.SuccessorRemoval | algorithms/binary_search_tree.py:240-255 | for a node with two children, removing the successor's value from the right subtree and moving the successor into the node's place gives the tree with `v` deleted |
| SearchTrees.WithoutIncreasing | algorithms/binary_search_tree.py:205-257 | leaving a value out of a strictly increasing listing keeps it strictly increasing |
| SearchTrees.DeleteKeepsBst | algorithms/binary_search_tree.py:205-257 | removing keeps the search-tree ordering |
| SearchTrees.WithoutOnce | algorithms/binary_search_tree.py:257 | a value listed once leaves a listing one shorter, so the count drops by one |
| SearchTrees.CreateNodes | algorithms/binary_search_tree.py:98-111 | `create_nodes(values)` returns `None` exactly when `values` is empty |
| SearchTrees.CreateNodesInorder | algorithms/binary_search_tree.py:98-111 | the tree built from a list lists the values back in their given order |
| SearchTrees.CreateNodesBst | algorithms/binary_search_tree.py:113-119 | a strictly increasing list builds a search tree |
| SearchTrees.CreateNodesHeight | algorithms/binary_search_tree.py:98-111 | the tree built from `n` values has height equal to the number of binary digits of `n` |
| SearchTrees.CreateNodesMinDepth | algorithms/binary_search_tree.py:98-111 | the tree built from `n` values has shortest path one less than the number of binary digits of `n + 1` |
| SearchTrees.CreateNodesBalanced | algorithms/binary_search_tree.py:176-181 | the built tree is balanced: all paths from the root down differ in length by at most one |
| SearchTrees.SetOfMembers | algorithms/binary_search_tree.py:115 | `set(iterable)` holds exactly the listed values |
| SearchTrees.DistinctIffSetSize | algorithms/binary_search_tree.py:115-116 | the list and its set have the same size exactly when no value repeats |
| SearchTrees.IncreasingIsOwnSort | algorithms/binary_search_tree.py:182-184 | a strictly increasing listing has no repeats and is its own sorted copy |
| SearchTrees.SortedOfDistinct | algorithms/binary_search_tree.py:118 | the sorted copy of values without repeats is strictly increasing and holds the same values |
| BinarySearchTrees.BinarySearchTree.constructor | algorithms/binary_search_tree.py:76-78 | no root and a count of 0 |
| BinarySearchTrees.BinarySearchTree.New | algorithms/binary_search_tree.py:76-80 | a balanced search tree listing the sorted values with a count of them, or `KeyError` exactly when a value repeats |
| BinarySearchTrees.BinarySearchTree.Build | algorithms/binary_search_tree.py:95-119 | `KeyError` exactly when a value repeats; otherwise the tree built from the sorted copy, balanced, with the count raised by the number of values; the same code is at binary_search_tree.py:91-115 |
| BinarySearchTrees.BinarySearchTree.InorderValues | algorithms/binary_search_tree.py:259-273 | the inorder listing, strictly increasing; the same code is at binary_search_tree.py:230-244 |
| BinarySearchTrees.BinarySearchTree.Collect | algorithms/binary_search_tree.py:263-269 | the walk appends the subtree's inorder listing to what was collected |
| BinarySearchTrees.BinarySearchTree.Exists | algorithms/binary_search_tree.py:186-188 | true exactly when the value is in the tree |
| BinarySearchTrees.BinarySearchTree.Add | algorithms/binary_search_tree.py:190-203 | `KeyError` with nothing changed exactly when the value is present; otherwise it goes in at its sorted place and the count grows by one; the same code is at binary_search_tree.py:172-185 |
| BinarySearchTrees.BinarySearchTree.GetSuccessorNode | algorithms/binary_search_tree.py:160-174 | `ValueError` exactly for no node; otherwise the leftmost node of the right subtree (none without one), which holds the next larger value |
| BinarySearchTrees.BinarySearchTree.Remove | algorithms/binary_search_tree.py:205-257 | `ValueError` with nothing changed exactly when the value is absent; otherwise exactly that value leaves the listing, the ordering is kept and the count drops by one |
| BinarySearchTrees.BinarySearchTree.Balance | algorithms/binary_search_tree.py:176-184 | the corrected `balance`: the same listing, a balanced search tree, the count equal to the number of nodes |
| BinarySearchTrees.BinarySearchTree.BalanceAsWritten | algorithms/binary_search_tree.py:176-184 | as written: the same listing and a balanced tree, but the count grows by the number of nodes on top of what it held; the same code is at binary_search_tree.py:157-165 |
| BinarySearchTrees.BalanceCountsTwice | algorithms/binary_search_tree.py:103 | two values added, then `balance`: the count reads 4 for a tree of 2 nodes |
| LegacyBinarySearchTrees.Exists | binary_search_tree.py:167-170 | the parent search and the look at the parent's children find the value exactly when it is in the tree |
| LegacyBinarySearchTrees.Remove | binary_search_tree.py:187-228 | as written: the tree changes as in the refined tree, but removing a node with two children lowers the count by 2 |
| LegacyBinarySearchTrees.RemoveCountsTwice | binary_search_tree.py:212-228 | three values added and the middle one removed: the count reads 1 for a tree of 2 nodes |
| ShortestPaths.Extend | algorithms/dijkstra_algorithm.py:36-40 | a path to `v` followed by an edge to `c` is a path to `c`, its cost grown by that edge |
| ShortestPaths.Shorten | algorithms/dijkstra_algorithm.py:36-40 | a path less its last vertex is a path, and without negative edges it costs no more |
| ShortestPaths.MinimumExists | algorithms/dijkstra_algorithm.py:22 | a non-empty set of vertices has one of least weight for `min` to pick |
| ShortestPaths.PathInside | algorithms/dijkstra_algorithm.py:21 | once every edge out of a visited vertex leads to a visited one, every vertex a path from the start reaches is visited |
| ShortestPaths.Frontier | algorithms/dijkstra_algorithm.py:32-40 | without negative edges, a path from the start that leaves the visited vertices costs at least the weight of some unvisited vertex |
| ShortestPaths.SelectedSettled | algorithms/dijkstra_algorithm.py:22-30 | without negative edges, the unvisited vertex of least weight has a weight no path to it undercuts |
| ShortestPaths.Advance | algorithms/dijkstra_algorithm.py:29-40 | after the selected vertex is visited and its edges relaxed, every edge out of a visited vertex leads to a visited or queued vertex and is relaxed |
| ShortestPaths.Relax | algorithms/dijkstra_algorithm.py:32-40 | every unvisited vertex with an edge from the parent is queued with a weight at most the parent's plus the edge; weights never rise, visited ones do not change, and every finite weight is the cost of its recorded path |
| ShortestPaths.Explore | algorithms/dijkstra_algorithm.py:17-40 | the loop stops early exactly when `finish` is given and reachable, with its shortest route; otherwise it runs out with the shortest path and weight of every vertex |
| ShortestPaths.Lower | algorithms/dijkstra_algorithm.py:38-40 | lowering a child's weight to the parent's plus the edge, with the parent's path extended, keeps every recorded weight the cost of its path |
| ShortestPaths.Visit | algorithms/dijkstra_algorithm.py:29-30 | moving the selected vertex from unvisited to visited keeps the bookkeeping and grows the visited set by one |
| ShortestPaths.Stopped | algorithms/dijkstra_algorithm.py:23-27 | the vertex selected when it is `finish` is reachable and holds its shortest route |
| ShortestPaths.Finished | algorithms/dijkstra_algorithm.py:21-48 | when nothing is left unvisited, every reachable vertex was visited and every vertex holds its shortest path and weight (infinite and `(start,)` exactly when unreachable) |
| ShortestPaths.Dijkstra | algorithms/dijkstra_algorithm.py:7-48 | without `finish`, the shortest path and weight of every vertex; with it, the shortest route to `finish` (a negative index counting from the end), or `IndexError` exactly when `finish` is outside the matrix |
| LegacyShortestPaths.Dijkstra | dijkstra_algorithm.py:1-48 | the shortest route to `finish` exactly when it is given and reachable, otherwise the shortest path and weight of every vertex |
| Graphs.ExtendWalk | graph_traversals.py:32-37 | a walk to `v` followed by a neighbour `w` of `v` is a walk to `w` |
| Graphs.ShortenWalk | graph_traversals.py:37 | a walk less its last vertex is a walk |
| Graphs.WalkInside | graph_traversals.py:32-37 | a walk from a vertex of a set closed under neighbours stays inside it |
| Graphs.VertexCount | graph_traversals.py:25-27 | a set of vertex numbers below `n` has at most `n` members, so the visited set bounds the loop |
| GraphTraversals.Frontier | graph_traversals.py:23-37 | a walk from the start to an unvisited vertex passes a queued vertex whose recorded path is no longer than the walk |
| GraphTraversals.Settle | graph_traversals.py:24-30 | the vertex at the front of the queue is reachable and its recorded path is a shortest walk to it |
| GraphTraversals.StepLayered | graph_traversals.py:32-37 | after a visit, the queue still holds vertices in order of path length, at most one apart |
| GraphTraversals.StepNear | graph_traversals.py:32-37 | after a visit, every neighbour of a visited vertex is visited or queued with a path at most one longer |
| GraphTraversals.Step | graph_traversals.py:24-37 | dequeuing the front vertex, visiting it and queueing its new neighbours keeps the loop invariant |
| GraphTraversals.Exhausted | graph_traversals.py:23-39 | once the queue is empty, every reachable vertex has been visited and every recorded path is a shortest walk (`[start]` for the unreachable) |
| GraphTraversals.Enqueue | graph_traversals.py:35-37 | queueing a new neighbour with its parent's path plus itself keeps the queue and paths well formed |
| GraphTraversals.Discover | graph_traversals.py:32-37 | every neighbour of the vertex ends up visited or queued, each newly queued one with the vertex's path plus itself, earlier paths unchanged |
| GraphTraversals.Visit | graph_traversals.py:24-37 | one turn of the loop keeps the loop invariant |
| GraphTraversals.BreadthFirstSearch | graph_traversals.py:10-39 | without `finish`, a shortest walk to every reachable vertex and `[start]` for the rest; with it, a shortest walk exactly when `finish` is a vertex reachable from the start, otherwise the no-path answer |
| GraphTraversals.Unvisited | graph_traversals.py:55-58 | the neighbours pushed are neighbours not yet visited, and every such neighbour is pushed |
| GraphTraversals.PushUnvisited | graph_traversals.py:55-58 | the stack grows by exactly the unvisited neighbours, in adjacency order |
| GraphTraversals.Descend | graph_traversals.py:50-58 | popping and visiting the top vertex keeps every vertex on the stack and every visited vertex reachable, and every neighbour of a visited vertex visited or stacked |
| GraphTraversals.Covered | graph_traversals.py:49-60 | with the stack empty, the visited vertices are exactly those reachable from the start |
| GraphTraversals.DepthFirstSearch | graph_traversals.py:42-60 | the visited set holds exactly the vertices reachable from the start |
| LegacyBreadthFirst.Discover | breadth_search_first.py:30-36 | every unvisited neighbour joins the queue and the visited list with its parent's path plus itself; the visited list is the processed vertices and the queue |
| LegacyBreadthFirst.Visit | breadth_search_first.py:23-36 | one turn of the loop keeps the loop invariant |
| LegacyBreadthFirst.BreadthFirstSearch | breadth_search_first.py:4-41 | without `finish`, a shortest walk to every reachable vertex and `[start]` for the rest; with it, a shortest walk exactly when `finish` is a vertex reachable from the start, otherwise the no-path answer |

## Left out

- `__repr__` of every class and `friendly_output` of both Dijkstra copies: string rendering only.
- `depth_search_first.py` cannot run against the `Stack` it imports:
  - `Stack([start])` takes the list as its head node;
  - `pop` returns a node rather than a vertex.
  - The working depth-first search of graph_traversals.py is modelled instead.
- Module wiring:
  - stack_and_queue.py imports node classes that the top-level linked_lists.py does not define;
  - breadth_search_first.py imports `algorithms.queue_data_structure`.
  - The model gives both files the queue and stack they evidently intend.
- The traversals' `Queue`/`Stack` objects and the `paths` dictionaries are local sequences in the model.
  - Those containers are modelled on their own, and the traversals use only their first-in-first-out and last-in-first-out behaviour.
  - A dictionary over `range(len(graph))` is a sequence indexed by vertex.
- The no-path message of the traversals (`'No path from {start} to {finish}'`) is the value `NoPath(start, finish)`.
- Dynamic typing:
  - `iter(iterable)` checks and the `TypeError` of `_build_hash_table` for items that are not pairs are left out;
  - hash keys are strings or integers only (`Key`), so the `TypeError` for unhashable keys is left out;
  - values compared by the sorts, searches and trees are integers;
  - cross-type equality such as `True == 1` is left out.
- Floating point:
  - `float('inf')` in Dijkstra is the weight `Inf`;
  - the load-factor test `len / capacity > 0.75` is the exact `4 * len > 3 * capacity`.
- Node identity as callers see it is left out. For example, a caller holding a tree node across a `remove` is not modelled. Tree nodes are values: a change builds the new tree by path copying, and the class fields `root` and `length` change in place.
- `__len__`, `__iter__` and `__contains__` of the trees delegate to `_length`, `inorder` and `exists`, which are modelled.
- queue.py keeps no length.
- The constructor argument of stack_data_structure.py's `Stack(head)` is a node that callers build, and is left out; the stack starts empty.
- The constructor arguments of queue.py's `Queue(first, last)` are nodes that callers build, and are left out; the queue starts empty.
- tests/test_hash_table.py calls `HashTable(iterable, capacity)` with a default capacity. The model follows the `HashTable(capacity, iterable)` that hash_table.py defines.
- ShortestPaths.Dijkstra:
  - requires a square matrix and a start in `[0, n)`. Other inputs are not modelled, and Python does not always fail on them:
    - a start in `[-n, -1]` is read as a row counted from the end; no weight is 0, every weight stays `inf`, and the start raises no error;
    - columns beyond `n` are never read;
    - `IndexError` comes only from a start of `n` or more, or from a row shorter than `n`;
  - which of several equally light vertices `min` picks is left open, so results are stated through weights and shortest-path properties rather than exact tie-broken paths.
- LegacyShortestPaths.Dijkstra: requires a square matrix and a start in `[0, n)`; the code is the same, so Python behaves on other inputs as described for ShortestPaths.Dijkstra.
- GraphTraversals.BreadthFirstSearch: requires the start and every neighbour to be in `[0, n)`. Other inputs are not modelled, and Python does not always fail on them:
  - a negative vertex is read as a list counted from the end, and its path is stored under a new key of the `paths` dictionary;
  - a vertex of `n` or more raises `IndexError` only when it is taken from the queue and its list is read, so a search that reaches `finish` first returns normally.
- GraphTraversals.DepthFirstSearch: requires the start and every neighbour to be in `[0, n)`. On other inputs a negative vertex is read as a list counted from the end and is returned among the visited; a vertex of `n` or more raises `IndexError` when it is popped.
- LegacyBreadthFirst.BreadthFirstSearch: requires the start and every neighbour to be in `[0, n)`; on other inputs Python behaves as described for GraphTraversals.BreadthFirstSearch.
- LegacyBinarySearch.FoundIsCorrect:
  - the recursion is bounded by a `fuel` argument, and running out of fuel is a result of its own;
  - the as-written search does not terminate on some inputs (see Findings), so its termination is not claimed.
- OutOfPlaceSorts.LegacyMergeSort: bounded by `fuel` for the same reason, since the empty list recurses forever.

## Findings

| source | as written | input that shows it | evidently intended | confidence | as-written member | corrected member |
|---|---|---|---|---|---|---|
| binary_search_rec.py:2 | `end = end or len(arr)` replaces an `end` of 0 by `len(arr)` and starts the window one past the last index | `[1, 3, 5]`, k = 1 recurses forever; `[1]`, k = 5 and `[]`, k = 5 raise `IndexError` | search the inclusive window `[start, len(arr) - 1]` and return `None` when `k` is absent | not executed | LegacyBinarySearch.EndZeroRepeats | LegacyBinarySearch.BinarySearchRecCorrectedCorrect |
| sorting_algorithms.py:53-54 | the base case is `len(arr) == 1` | `merge_sort([])` recurses forever | the base case `len(arr) <= 1` of algorithms/sorting_algorithms.py:73 | not executed | OutOfPlaceSorts.LegacyMergeSort | OutOfPlaceSorts.MergeSort |
| queue_data_structure.py:117-129 | `front`/`rear` read `.data` off `first`/`last` without a check | `Queue().front()` raises `AttributeError` | `None` on an empty queue, as their documentation says | not executed | QueueDataStructure.EmptyFrontRaises | StackAndQueue.Front |
| hash_table.py:224 | the emptied-chain check reads `.first`; the chain keeps `_first` | `pop('one')` on a table holding `'one'` raises `AttributeError` and `len` still counts the key | drop the empty chain, lower the length by one and return the value | not executed | HashTables.HashTable.PopAsWritten | HashTables.HashTable.Pop |
| algorithms/binary_search_tree.py:176-184 | `balance` rebuilds without resetting `_length`, and `create_nodes` counts every node again (line 103) | add 1, add 2, `balance()`: `len` is 4 for 2 nodes | the count stays the number of nodes | not executed | BinarySearchTrees.BalanceCountsTwice | BinarySearchTrees.BinarySearchTree.Balance |
| binary_search_tree.py:212-228 | the two-children case calls `remove` on the successor, which already lowers `_length`, then lowers it again | add 2, add 1, add 3, `remove(2)`: `len` is 1 for 2 nodes | lower the count by one, as algorithms/binary_search_tree.py:245 compensates | not executed | LegacyBinarySearchTrees.RemoveCountsTwice | BinarySearchTrees.BinarySearchTree.Remove |
