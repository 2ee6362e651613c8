# Doubly linked list of the ring buffer

This project models the doubly linked list in
`ring_buffer/doubly_linked_list.py`:

- a `ListNode` object with a value and `prev`/`next` references, which can
  splice a new node in after or before itself and unlink itself;
- a `DoublyLinkedList` object that caches `head`, `tail` and `length`, adds
  and removes at both ends, deletes an arbitrary node, moves a node to
  either end and scans for the largest value.

Both are Dafny classes whose methods update their fields in place. A list
carries two ghost fields: `Nodes`, the chain of node objects from head to
tail, and `Contents`, the values they hold. The invariant `Valid()` ties the
cached `head`, `tail` and `length` to that chain. It also states that the
chain is linked both ways, with no node twice, no predecessor before the
head and no successor after the tail. Every list operation keeps `Valid()`
and states its effect on `Contents` and `Nodes`. The additions and
removals at either end state it with plain sequence expressions
(`[value] + old`, `old[1..]` and so on). `delete` and the two moves state
it through the functions `RemoveAt`, `MovedToFront` and `MovedToEnd` of
module `ListSpec`. Facts that relate several operations are
proved as lemmas or as short client methods in module `ListScenarios`.

Modules:

- `ListSpec` (`list_spec.dfy`): the abstract view. It holds removal at an
  index, moving an element to the front or the end (both proved to be
  permutations), and the running maximum the `get_max` loop computes.
- `LinkedList` (`doubly_linked_list.dfy`): the two classes, the `Chain`
  invariant and the lemmas that show each splice keeps it.
- `ListScenarios` (`list_scenarios.dfy`): client programs built from the
  list's public operations. They cover round trips, each branch of
  `delete`, moves, and `get_max` on the lists 3, 7, 2, 9, 4; 5; and
  -3, -1.

`delete` is modelled as the code is written. The tail test at lines
157-159 has no `return`, and the `else` at lines 161-164 belongs to that
test. So deleting the tail of a list of two or more nodes returns `None`,
while every other call on a non-empty list returns the removed value. The
list is still updated correctly in every case: the proved contract of
`LinkedList.DoublyLinkedList.Delete` shows that the node is always unlinked
and the rest of the chain stays intact.

## Model

| member | source | states |
|---|---|---|
| LinkedList.ListNode.constructor | ring_buffer/doubly_linked_list.py:6-9 | the node holds the given value and the given neighbours |
| LinkedList.ListNode.InsertAfter | ring_buffer/doubly_linked_list.py:15-19 | a fresh node holding the value becomes this node's successor; it points back to this node and on to the old successor, whose `prev` now points to it; nothing else about this node changes |
| LinkedList.ListNode.InsertBefore | ring_buffer/doubly_linked_list.py:25-29 | a fresh node holding the value becomes this node's predecessor; it points on to this node and back to the old predecessor, whose `next` now points to it |
| LinkedList.ListNode.Delete | ring_buffer/doubly_linked_list.py:34-38 | the predecessor's `next` and the successor's `prev` skip this node (cleared where that side is missing); this node's own links and its neighbours' far links are unchanged |
| ListScenarios.InsertAfterThenDelete | ring_buffer/doubly_linked_list.py:15-38 | inserting after a node and unlinking the inserted node restores every link around the node |
| ListScenarios.InsertBeforeThenDelete | ring_buffer/doubly_linked_list.py:25-38 | inserting before a node and unlinking the inserted node restores every link around the node |
| LinkedList.DoublyLinkedList.constructor | ring_buffer/doubly_linked_list.py:46-49 | with no node the list is empty; with a node the list is that one node and its value, and the invariant holds |
| LinkedList.DoublyLinkedList.Len | ring_buffer/doubly_linked_list.py:51-52 | the cached length equals the number of nodes in the chain and of values held |
| LinkedList.DoublyLinkedList.AddToHead | ring_buffer/doubly_linked_list.py:58-76 | keeps the invariant; a fresh node with the value is the new head, the values become `[value] + old`, length grows by one; the tail is the new node if the list was empty and the old tail otherwise |
| LinkedList.PrependKeepsChain | ring_buffer/doubly_linked_list.py:66-76 | linking a new node that is not in the chain in front of its first node gives a chain again |
| LinkedList.DoublyLinkedList.RemoveFromHead | ring_buffer/doubly_linked_list.py:82-87 | on a non-empty list returns the first value and drops the first node and value; length drops by one; invariant kept |
| LinkedList.DoublyLinkedList.AddToTail | ring_buffer/doubly_linked_list.py:93-109 | keeps the invariant; a fresh node with the value is the new tail, the values become `old + [value]`, length grows by one; the head is unchanged unless the list was empty |
| LinkedList.AppendKeepsChain | ring_buffer/doubly_linked_list.py:99-109 | linking a new node that is not in the chain after its last node gives a chain again |
| LinkedList.DoublyLinkedList.RemoveFromTail | ring_buffer/doubly_linked_list.py:115-118 | on a non-empty list returns the last value and drops the last node and value; length drops by one; invariant kept |
| LinkedList.DoublyLinkedList.MoveToFront | ring_buffer/doubly_linked_list.py:123-125 | for a node at position k the values become `MovedToFront(old, k)`; the front node is a fresh node holding the moved value; length unchanged; invariant kept |
| LinkedList.DoublyLinkedList.MoveToEnd | ring_buffer/doubly_linked_list.py:130-132 | for a node at position k the values become `MovedToEnd(old, k)`; the last node is a fresh node holding the moved value; length unchanged; invariant kept |
| LinkedList.DoublyLinkedList.Delete | ring_buffer/doubly_linked_list.py:137-164 | on an empty list nothing changes and nothing is returned; otherwise node k is taken out of the nodes and values, length drops by one, head and tail move as the branches say, the result is the value except for the tail of a longer list, and the removed node keeps its own links |
| LinkedList.UnlinkKeepsChain | ring_buffer/doubly_linked_list.py:137-164 | once the neighbours of node k are linked to each other (or their far link cleared at an end), the chain without node k is again a chain |
| LinkedList.DistinctRemoveAt | ring_buffer/doubly_linked_list.py:137-164 | removing a node from a chain without repeats leaves none |
| LinkedList.DistinctPrepend | ring_buffer/doubly_linked_list.py:58-76 | a node not in the chain can join it at the head without creating a repeat |
| LinkedList.DistinctAppend | ring_buffer/doubly_linked_list.py:93-109 | a node not in the chain can join it at the tail without creating a repeat |
| LinkedList.DistinctAt | ring_buffer/doubly_linked_list.py:147-157 | in the chain, a node found at two positions sits at one position: comparing nodes by identity picks out positions |
| LinkedList.IndexOf | ring_buffer/doubly_linked_list.py:137 | a member node of the chain has a position, and the chain holds that node there |
| LinkedList.DoublyLinkedList.GetMax | ring_buffer/doubly_linked_list.py:168-182 | a one-node list returns its value; a longer list returns the scan seeded with 0, which bounds every value and is either a value of the list or 0 |
| ListSpec.RemoveAt | ring_buffer/doubly_linked_list.py:137-164 | one element fewer; the elements before k keep their index, the ones after move down by one |
| ListSpec.RemoveAtMultiset | ring_buffer/doubly_linked_list.py:137-164 | the removal takes exactly one copy of the removed element out of the multiset |
| ListSpec.MovedToFront | ring_buffer/doubly_linked_list.py:123-125 | same length; element k first; the others keep their relative order |
| ListSpec.MovedToFrontIsPermutation | ring_buffer/doubly_linked_list.py:123-125 | moving to the front loses and adds no value |
| ListSpec.MovedToEnd | ring_buffer/doubly_linked_list.py:130-132 | same length; element k last; the others keep their relative order |
| ListSpec.MovedToEndIsPermutation | ring_buffer/doubly_linked_list.py:130-132 | moving to the end loses and adds no value |
| ListSpec.RunningMax | ring_buffer/doubly_linked_list.py:172-182 | the accumulator is at least its seed and every element, and is either the seed or an element |
| ListSpec.RunningMaxStep | ring_buffer/doubly_linked_list.py:176-180 | one more loop step raises the accumulator to the next element |
| ListSpec.ZeroSeededMaxExact | ring_buffer/doubly_linked_list.py:174-182 | the scan seeded with 0 is the true maximum of a non-empty sequence exactly when some element is at least 0 |
| ListSpec.HeadSeededMaxExact | ring_buffer/doubly_linked_list.py:168-182 | the scan seeded with the first element is the true maximum |
| LinkedList.DoublyLinkedList.GetMaxFromHead | ring_buffer/doubly_linked_list.py:168-182 | the largest value of any non-empty list, the all-negative case included |
| LinkedList.DoublyLinkedList.DeleteReturningValue | ring_buffer/doubly_linked_list.py:137-164 | same effect on the list as `delete`, and every non-empty case returns the removed value, the tail included |
| ListScenarios.AddAllToTail | ring_buffer/doubly_linked_list.py:93-109 | adding values one by one at the tail appends them in order |
| ListScenarios.FromSeq | ring_buffer/doubly_linked_list.py:93-109 | a list built by adding at the tail holds exactly the given values |
| ListScenarios.Drain | ring_buffer/doubly_linked_list.py:82-87 | removing from the head until empty yields the values in head-to-tail order |
| ListScenarios.TailThenHead | ring_buffer/doubly_linked_list.py:82-109 | on an empty list, a value added at the tail is the value removed from the head, and the list is empty again |
| ListScenarios.HeadRoundTrip | ring_buffer/doubly_linked_list.py:58-87 | adding at the head then removing from the head returns the value and restores the contents |
| ListScenarios.TailRoundTrip | ring_buffer/doubly_linked_list.py:93-118 | adding at the tail then removing from the tail returns the value and restores the contents |
| ListScenarios.DeleteInterior | ring_buffer/doubly_linked_list.py:161-164 | deleting the middle node of 2, 1, 3 returns 1 and leaves 2, 3 |
| ListScenarios.DeleteTail | ring_buffer/doubly_linked_list.py:157-159 | deleting the tail of 4, 8 returns nothing and leaves 4 |
| ListScenarios.DeleteTailReturningValue | ring_buffer/doubly_linked_list.py:157-164 | the corrected deletion returns 8 for the same tail and leaves 4 |
| ListScenarios.DeleteHead | ring_buffer/doubly_linked_list.py:152-154 | deleting the head of 4, 8 returns 4 and leaves 8 |
| ListScenarios.DeleteOnly | ring_buffer/doubly_linked_list.py:147-149 | deleting the only node returns its value and leaves an empty list |
| ListScenarios.DeleteFromEmpty | ring_buffer/doubly_linked_list.py:139-140 | deleting from an empty list returns nothing and the list stays empty |
| ListScenarios.MoveLastToFront | ring_buffer/doubly_linked_list.py:123-125 | moving the tail of 1, 2, 3 to the front gives 3, 1, 2 |
| ListScenarios.MoveFirstToEnd | ring_buffer/doubly_linked_list.py:130-132 | moving the head of 1, 2, 3 to the end gives 2, 3, 1 |
| ListScenarios.MaxOfFive | ring_buffer/doubly_linked_list.py:168-182 | the maximum of 3, 7, 2, 9, 4 built at the tail is 9 |
| ListScenarios.MaxOfSingleton | ring_buffer/doubly_linked_list.py:169-170 | a list of the single node 5 reports 5 and has length 1 |
| ListScenarios.MaxOfNegatives | ring_buffer/doubly_linked_list.py:174-182 | on -3, -1 the scan as written answers 0 and the corrected scan answers -1 |

## Left out

- Values are integers. The source puts no type on values, but `get_max` compares them with `<` and starts from the number 0.
- `ListNode.value` is a constant, because no code in the file assigns it after construction.
- Python `==` on nodes and the truth test on a node are modelled as identity and "is not `None`". The file defines neither `__eq__` nor `__bool__`.
- LinkedList.DoublyLinkedList.RemoveFromHead, LinkedList.DoublyLinkedList.RemoveFromTail and LinkedList.DoublyLinkedList.GetMax require a non-empty list. On an empty list the source fails by reading an attribute of `None`, and exceptions are not modelled.
- LinkedList.DoublyLinkedList.Delete, LinkedList.DoublyLinkedList.MoveToFront and LinkedList.DoublyLinkedList.MoveToEnd require a node of this list (for `delete`, or an empty list). What the source does with a node from elsewhere is not modelled.
- LinkedList.DoublyLinkedList.constructor requires the starting node to have no neighbours. With neighbours, the source builds a list whose length of 1 disagrees with its links, which the invariant excludes.
- LinkedList.ListNode.InsertAfter, LinkedList.ListNode.InsertBefore and LinkedList.ListNode.Delete are stated on the nodes they touch only. They update no list's head, tail, length or ghost view, so a list whose nodes are spliced directly is no longer described by its `Valid()`, just as the source's cached fields go stale.
- LinkedList.DoublyLinkedList.MoveToFront and LinkedList.DoublyLinkedList.MoveToEnd put a fresh node at the end, so a handle to the moved node is no longer part of the list. The model states this (the end node is `fresh`); the node objects a caller still holds are not tracked further.
- Code elsewhere in the repository that uses this list is not part of this model.
- Concurrency is not modelled. The source is single-threaded.

## Findings

| source | as written | input that shows it | evidently intended | confidence | as-written member | corrected member |
|---|---|---|---|---|---|---|
| ring_buffer/doubly_linked_list.py:174 | the scan's accumulator starts at 0 | a list holding -3, -1 returns 0, a value not in the list | the largest value held, as the method's description says | medium; not executed | ListScenarios.MaxOfNegatives (with LinkedList.DoublyLinkedList.GetMax and ListSpec.ZeroSeededMaxExact) | LinkedList.DoublyLinkedList.GetMaxFromHead |
| ring_buffer/doubly_linked_list.py:157-164 | the `else` that returns the value belongs only to the tail test, so deleting the tail of a longer list returns `None` | deleting the tail of 4, 8 returns nothing | every successful deletion returns the removed value, as it does in the head, interior and single-node cases | low; not executed | ListScenarios.DeleteTail (with LinkedList.DoublyLinkedList.Delete) | LinkedList.DoublyLinkedList.DeleteReturningValue |
