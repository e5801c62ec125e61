# Verified models of Chromium `base` containers and observer lists

This project models the header-only code of `include/base` that the demo ships with, and
proves what that code promises. Each module follows one header and keeps its form: where
the header updates fields, buffers, links or maps in place, the model is a class whose
methods do the same statements, and each method is proved against a specification function
or an abstract view (`contents`, `Items()`, `ring`, `Snapshot()`). The theorems are then
proved about those specifications.

| file | what it models |
|---|---|
| `VectorBuffer.dfy` | raw slots with explicit construction, move and destruction; the preconditions are the life-cycle rules |
| `CircularDeque.dfy` | the ring buffer: wrap-around positions, shifting, growth and shrinkage, and the cost of its resize policy |
| `Common.dfy`, `Ordering.dfy` | entries, strict weak orders, and the entries a sequence holds for one key |
| `SortedRuns.dfy` | stable sort, unique, last-unique and merge, characterised by what they do to each key |
| `FlatTree.dfy` | the sorted vector: lookup, plain, hinted and batch insert, erase, `LastUnique` in place, and whole runs against a plain map |
| `MruCache.dfy` | the list-plus-index cache, and LRU inclusion |
| `LinkedList.dfy` | the intrusive pointer ring |
| `SmallMap.dfy` | the map that starts as an array, its switch to a real map, and erasing while iterating |
| `ObserverSlots.dfy` | the slots of the reentrant observer list and its steps, as values |
| `ObserverList.dfy` | that list with its iterators as objects; each of its operations is one of those steps |
| `ObserverPass.dfy` | notification passes, as runs of those steps |
| `ThreadSafeList.dfy` | the thread-safe list as atomic steps of threads over a locked registry, task queues and thread-local data; the class at the end does the steps in place |
| `ThreadSafeRuns.dfy` | runs of that protocol, the current notification, and how often each notification is delivered |
| `ThreadSafeRegistration.dfy` | who is registered, and that no notification for a registered observer is lost |
| `ThreadSafeDrain.dfy` | from every state each thread can come to an end and each queued task to the head of its queue |
| `ThreadSafeAffinity.dfy` | on which sequences observers are called |
| `ThreadSafeRemoval.dfy` | what a removal stops and what it does not |

## How to read the model

- **Slots.** Every method of the deque is verified against `Construct`, `MoveRange`, `MoveOne`,
  `DestructRange` and `Release`, whose preconditions say that nothing is constructed in a live
  slot, moved or destroyed in a dead one, or freed while an object is left in it. `Valid()` says
  that the live slots are exactly the cyclic window from `begin` to `end`, in order, with at
  least one slot free. `vector_buffer.h` is not part of this model: `MoveRange` moves each
  object and leaves the source slot empty.
- **Keys.** `FlatTree` is stated for any strict weak order; equivalent keys need not be equal.
  `Class(less, s, k)` is the subsequence of the entries equivalent to `k`. A sorted sequence is
  determined by its classes (`SortedByClasses`), so two results are equal as soon as they are
  sorted and agree on every class.
- **Batch insert.** `BatchBody` is the reference: sort the old body followed by the input stably
  and keep the first or the last entry of each run of equivalent keys. `InsertRange` does what
  the header does instead (append, sort and compact only the new part, merge from the first new
  position) and is proved equal to it.
- **Observer passes.** Callbacks are arbitrary steps between two arrivals of the pass's
  iterator: adding, removing, clearing, nested passes (other iterators), copies and
  assignments of iterators, and destruction of the list. Iterators are named by values of any
  type; in `ObserverList` they name themselves, and `Steps(before, a, after)` says that a method
  does step `a`. A slot's turn is the first arrival at or behind it. Iterators over the largest
  possible range have limit `Unlimited`.
- **Threads.** A locked section, a thread-local access and the start or end of a callback are
  one atomic step each, in any interleaving. A sequence runs on one thread at a time, a thread
  may run tasks of any sequence in nested loops, and several lists share the thread-local
  pointer. The queue of a sequence is the list of its tasks that are still queued, in posting
  order; that it is first in, first out is an assumption about task runners. `log` is history for
  the statements only. A run *drains* if its steps only end what threads are doing and take queued
  tasks: callbacks simply return, and registrations stay as they are.

## Where the code and its comments disagree

- `observer_list_threadsafe.h:40-41` says that observers are always notified on the sequence
  from which they were registered. An observer that leaves and registers again from another
  sequence can still be called on the first one: `MisdeliveryRun` is such a run from the initial
  state. `RegisteringIsSafeIff` gives the exact condition for every state: all later callbacks
  stay on the sequence of the registration if and only if, at that moment, no task of the
  observer is queued or past the check on another sequence; and the DCHECK in line 200 never
  fails if and only if none is queued on another sequence.
- `observer_list_threadsafe.h:141-142` says that a notification that has not started to run is
  aborted by a removal. It stays aborted only until the observer registers again
  (`QueuedTasksAreAborted`); from every state in which it is still queued there is a run that
  registers the observer and then delivers it (`OldNotificationReachesReturningObserver`, and
  `StaleNotificationRun` from the initial state).
- `linked_list.h:111-112` has its condition inverted: both links are null when the node is in no
  list. The example in line 33 inserts a node before itself, which breaks the ring
  (`InsertBeforeItself`).
- `flat_tree.h:45-47` handles a case that `std::adjacent_find` rules out.

## Model

| member | source | states |
|---|---|---|
| CircularDeque.Deque.At | include/base/containers/circular_deque.h:516-522 | element i of the contents, on whichever side of the wrap it lies |
| CircularDeque.Deque.Front | include/base/containers/circular_deque.h:533-536 | the first element |
| CircularDeque.Deque.Back | include/base/containers/circular_deque.h:542-545 | the last element, also when the end has just wrapped |
| CircularDeque.Deque.Advance | include/base/containers/circular_deque.h:271-291 | moving an iterator by delta moves its offset from begin by delta, across the wrap and for the unallocated deque |
| CircularDeque.Deque.Copy | include/base/containers/circular_deque.h:433-435 | a copy has the same contents, room for exactly them, and is filled without a reallocation |
| CircularDeque.Deque.MoveBuffer | include/base/containers/circular_deque.h:909-936 | all elements move to the start of the new buffer in order, and no live slot is left behind |
| CircularDeque.Deque.SetCapacityTo | include/base/containers/circular_deque.h:940-946 | reallocation keeps the contents, gives the asked capacity and moves each element once |
| CircularDeque.Deque.ExpandCapacityIfNecessary | include/base/containers/circular_deque.h:947-961 | growth keeps the contents; the capacity stays if it is enough, and is else the largest of the room needed, 3 and five quarters of the old capacity |
| CircularDeque.Deque.ShrinkCapacityIfNecessary | include/base/containers/circular_deque.h:963-982 | shrinking keeps the contents; the capacity stays if it is at most 3 or less than twice the size, and is else the larger of 3 and five quarters of the size, so that afterwards less than half of it is unused or it is at most 3 |
| CircularDeque.Deque.Reserve | include/base/containers/circular_deque.h:585-588 | the capacity becomes at least the asked one; contents unchanged |
| CircularDeque.Deque.ShrinkToFit | include/base/containers/circular_deque.h:595-605 | the capacity becomes the size, zero for an empty deque |
| CircularDeque.Deque.Clear | include/base/containers/circular_deque.h:610-615 | every element is destroyed and the buffer given up |
| CircularDeque.Deque.EmplaceFront | include/base/containers/circular_deque.h:838-847 | one element in front; one push of the resize policy, with the capacity that growth gives |
| CircularDeque.Deque.EmplaceBack | include/base/containers/circular_deque.h:850-859 | one element behind; one push of the resize policy, with the capacity that growth gives |
| CircularDeque.Deque.PopFront | include/base/containers/circular_deque.h:861-875 | the first element destroyed; one pop of the resize policy, with the capacity that shrinking gives |
| CircularDeque.Deque.PopBack | include/base/containers/circular_deque.h:876-887 | the last element destroyed; one pop of the resize policy, with the capacity that shrinking gives |
| CircularDeque.Deque.Resize | include/base/containers/circular_deque.h:655-671 | truncation or copies appended, with the capacity that shrinking or growth gives |
| CircularDeque.Deque.MakeRoomFor | include/base/containers/circular_deque.h:1012-1041 | for every position, count, wrap state and reallocation: a hole of dead slots opens at the offset, the elements keep their order, and every move goes from a live slot to a dead one |
| CircularDeque.Deque.InsertCopies | include/base/containers/circular_deque.h:685-705 | s[..p] + copies + s[p..] |
| CircularDeque.Deque.InsertRange | include/base/containers/circular_deque.h:711-743 | s[..p] + items + s[p..], also when the hole opens before begin |
| CircularDeque.Deque.Emplace | include/base/containers/circular_deque.h:753-772 | one element inserted, and the returned position denotes it |
| CircularDeque.Deque.Erase | include/base/containers/circular_deque.h:781-826 | s[..a] + s[b..] for contiguous and wrapped ranges, without reallocation; the returned position has offset a |
| CircularDeque.Deque.Swap | include/base/containers/circular_deque.h:893-898 | contents and buffers change hands |
| CircularDeque.Deque.Assign | include/base/containers/circular_deque.h:494-504 | the contents become the range, whatever was there before |
| CircularDeque.AmortizedRun | include/base/containers/circular_deque.h:947-982 | over any run of pushes and pops from any state: elements moved plus final potential is at most moved before plus initial potential plus 8 for each operation |
| CircularDeque.LinearRun | include/base/containers/circular_deque.h:947-982 | from an unallocated deque, n pushes and pops move at most 8n elements by reallocation |
| CircularDeque.NoThrashing | include/base/containers/circular_deque.h:947-982 | after a reallocation that moved elements, about a quarter of the size in further pushes and pops passes before the next one |
| CircularDeque.SpaceRun | include/base/containers/circular_deque.h:947-982 | the capacity is at most 3 or below twice the size: always in a run of pushes and pops from a deque of that kind, such as an unallocated one or a copy, and in every run from the first pop on |
| CircularDeque.FirstPush | include/base/containers/circular_deque.h:947-961 | the first push on an unallocated deque gives capacity 3 |
| Ordering.SortedByClasses | include/base/containers/flat_tree.h:447-469 | a sorted sequence is determined by the entries it holds for each key |
| SortedRuns.StableSortIsStable | include/base/containers/flat_tree.h:450-451 | the sort is sorted and keeps the entries of each key in their order |
| SortedRuns.FirstOfRunsClass | include/base/containers/flat_tree.h:461-463 | on a sorted range exactly the first entry of every key is left |
| SortedRuns.LastOfRunsClass | include/base/containers/flat_tree.h:464-466 | on a sorted range exactly the last entry of every key is left |
| SortedRuns.LastOfRunsAppend | include/base/containers/flat_tree.h:35-59 | for any relation, an element appended to a range takes the place of the last one kept if it goes on with its run, and joins behind it otherwise |
| SortedRuns.SortAndUniqueKeeps | include/base/containers/flat_tree.h:447-469 | the result is strictly sorted and keeps, for each key, the first or last occurrence in the input |
| SortedRuns.MergeClass | include/base/containers/flat_tree.h:777-778 | the merge keeps all entries of each key, those of the left part first |
| FlatTree.LastUnique | include/base/containers/flat_tree.h:35-59 | in place, for any relation: the returned prefix holds the last element of every run in order, and no moved-from slot is read |
| FlatTree.LowerBoundDecides | include/base/containers/flat_tree.h:880-912 | the lower bound is the only position that can hold an entry for the key |
| FlatTree.Tree.constructor | include/base/containers/flat_tree.h:526-533 | unsorted items become a strictly sorted tree with one entry per key, the first or the last |
| FlatTree.Tree.EqualRange | include/base/containers/flat_tree.h:880-891 | the range returned is exactly the entries with this key; everything before it is less and everything behind it greater, also if it is empty |
| FlatTree.Tree.FindPosition | include/base/containers/flat_tree.h:864-870 | agrees with the plain map, end for a missing key |
| FlatTree.Tree.Count | include/base/containers/flat_tree.h:849-855 | 1 for a key of the plain map, 0 otherwise |
| FlatTree.Tree.EmplaceKeyArgs | include/base/containers/flat_tree.h:952-961 | body, position and flag of the insert, keeping the order |
| FlatTree.Tree.EmplaceHintKeyArgs | include/base/containers/flat_tree.h:963-982 | for every hint, right or wrong, the same body, position and flag as without a hint |
| FlatTree.InsertRefines | include/base/containers/flat_tree.h:952-961 | an insert changes the plain map only at a key that was missing, and the returned position holds that key |
| FlatTree.AssignRefines | include/base/containers/flat_tree.h:391-400 | insert-or-assign updates the plain map at the key and nowhere else |
| FlatTree.EraseRefines | include/base/containers/flat_tree.h:812-821 | erasing removes the key from the plain map, reports 0 or 1 accordingly and keeps the rest |
| FlatTree.FilterRefines | include/base/containers/flat_tree.h:1002-1007 | erase-if removes from the plain map exactly the entries selected |
| FlatTree.Tree.AppendOrAssign | include/base/containers/flat_tree.h:407-423 | overwrites in the old part or appends, and returns where the value belongs |
| FlatTree.Tree.AppendUnique | include/base/containers/flat_tree.h:430-445 | appends unless the old part has the key, and returns where the value belongs |
| FlatTree.BatchingEnds | include/base/containers/flat_tree.h:773-778 | merging only from the first new position gives the same as sorting everything |
| FlatTree.Tree.InsertRange | include/base/containers/flat_tree.h:717-779 | for any range, dupes flag and iterator category, the body is the old entries and the input stably sorted with the first or last of each key kept |
| FlatTree.BatchRefines | include/base/containers/flat_tree.h:717-779 | for each key the first or last among the old entry and the input survives |
| FlatTree.RunAgreesWithMap | include/base/containers/flat_tree.h:688-829 | over any run of inserts, hinted, assigning and batch inserts and erasures the tree stays strictly sorted and answers every lookup like a plain map driven by the same operations |
| MruCache.Bijection | include/base/containers/mru_cache.h:180-185 | index and list have the same keys and size |
| MruCache.Cache.Put | include/base/containers/mru_cache.h:94-111 | for every limit, hit or miss: the new item in front, the other nodes behind it as they were and in their order, the oldest one evicted only if the cache is full; index and list stay in bijection |
| MruCache.Cache.Get | include/base/containers/mru_cache.h:116-125 | on a hit the node moves to the front and the others stay in their order; on a miss nothing changes |
| MruCache.Cache.Peek | include/base/containers/mru_cache.h:129-134 | finds exactly the keys present, without changing the order |
| MruCache.Cache.Erase | include/base/containers/mru_cache.h:152-155 | removes one item from list and index, and returns the one behind it |
| MruCache.Cache.ShrinkToSize | include/base/containers/mru_cache.h:168-171 | the most recent items stay, at most newSize of them |
| MruCache.Cache.Swap | include/base/containers/mru_cache.h:144-148 | items, index and limit change hands |
| MruCache.Cache.Clear | include/base/containers/mru_cache.h:174-177 | nothing is left in list or index |
| MruCache.UseKeepsOrder | include/base/containers/mru_cache.h:94-125 | a hit, a miss and an overwriting put do the same to the key order: the key in front, its old occurrence gone, cut off at the limit |
| MruCache.Inclusion | include/base/containers/mru_cache.h:94-125 | after the same trace of gets, puts on a miss and overwriting puts, the key order of the smaller cache is a prefix of that of the larger one |
| MruCache.LargerCacheHitsToo | include/base/containers/mru_cache.h:94-125 | a larger limit never turns a hit into a miss |
| LinkedList.LinkNode.InsertBefore | include/base/containers/linked_list.h:92-97 | the ring stays a ring and gains this node right before e |
| LinkedList.LinkNode.InsertAfter | include/base/containers/linked_list.h:100-105 | the ring stays a ring and gains this node right behind e |
| LinkedList.LinkNode.InsertBeforeItself | include/base/containers/linked_list.h:92-97 | with itself as the argument, a node breaks every ring of more than one node |
| LinkedList.LinkNode.RemoveFromList | include/base/containers/linked_list.h:108-115 | the ring stays a ring and loses this node alone, whose links become null |
| LinkedList.List.constructor | include/base/containers/linked_list.h:147-147 | a root linked to itself is an empty list |
| LinkedList.List.Append | include/base/containers/linked_list.h:150-152 | the element becomes the last one |
| LinkedList.List.Empty | include/base/containers/linked_list.h:166-166 | true exactly when there are no elements |
| LinkedList.List.Forward | include/base/containers/linked_list.h:35-42 | following next from head to end meets every element once, in order |
| LinkedList.List.Backward | include/base/containers/linked_list.h:44-51 | following previous from tail to end meets them in the reverse order |
| LinkedList.List.MoveToEndOf | include/base/containers/linked_list.h:92-115 | on two disjoint rings, moving an element changes each by that element alone |
| SmallMap.Map.Find | include/base/containers/small_map.h:365-377 | in both forms: an iterator to the key of the plain map, or the end |
| SmallMap.Map.Subscript | include/base/containers/small_map.h:394-415 | the plain map gains a blank value for a missing key, through a switch of form if the array is full |
| SmallMap.Map.Store | include/base/containers/small_map.h:394-415 | writing through the reference updates the plain map at that key |
| SmallMap.Map.Insert | include/base/containers/small_map.h:418-439 | the flag says whether the key was missing; an existing value is kept |
| SmallMap.Map.InsertRange | include/base/containers/small_map.h:442-448 | keys that were there keep their values, every other key of the range gets the value of its first occurrence, and there are no other keys |
| SmallMap.Map.EraseAt | include/base/containers/small_map.h:520-533 | the key leaves the plain map; in array form the last entry takes its place and the iterator denotes it, in map form the entry that followed |
| SmallMap.Map.EraseKey | include/base/containers/small_map.h:535-540 | removes the key if present and says so |
| SmallMap.Map.Clear | include/base/containers/small_map.h:508-517 | empties either form and returns to the array |
| SmallMap.Map.Size | include/base/containers/small_map.h:546-552 | the number of keys of the plain map, in both forms |
| SmallMap.Map.ConvertToRealMap | include/base/containers/small_map.h:590-615 | no association is lost, added or changed, and no slot leaks |
| SmallMap.Map.InitFrom | include/base/containers/small_map.h:618-629 | the copy is in the same form with the same contents |
| SmallMap.Map.Assign | include/base/containers/small_map.h:191-200 | assignment copies the contents, also from itself |
| SmallMap.Map.EraseMatching | include/base/containers/small_map.h:519-531 | a loop that erases and goes on with the returned iterator visits and leaves what the two sequence functions say |
| SmallMap.VisitsEachOnce | include/base/containers/small_map.h:519-531 | that loop visits every entry exactly once although erasing moves the last one |
| SmallMap.KeepsTheRest | include/base/containers/small_map.h:519-531 | and leaves exactly the entries that were not selected |
| ObserverList.List.ValidSnapshot | include/base/observer_list.h:93-293 | the objects are consistent exactly when their value satisfies the invariant of the runs |
| ObserverList.List.AddObserver | include/base/observer_list.h:233-240 | the old slots are a prefix, with one slot for the observer behind them exactly if it was not registered; observers stay distinct |
| ObserverList.List.RemoveObserver | include/base/observer_list.h:244-256 | everybody else is registered exactly if before; while an iterator is live only the slot of this observer becomes null, and otherwise the list is the old one without that slot |
| ObserverList.List.Clear | include/base/observer_list.h:264-271 | nobody is left; the length stays while an iterator is live, and is zero otherwise |
| ObserverList.List.Compact | include/base/observer_list.h:277-280 | exactly the observers are left, without nulls |
| ObserverSlots.CompactedOrder | include/base/observer_list.h:277-280 | survivors keep their order |
| ObserverList.List.Begin | include/base/observer_list.h:211-214 | an iterator at the first observer, counted; unattached for a list without slots |
| ObserverList.Iter.Copy | include/base/observer_list.h:127-133 | a copy is one more live iterator at the same slot |
| ObserverList.Iter.Assign | include/base/observer_list.h:135-141 | the counts of both lists stay right, and the list that is left may be compacted |
| ObserverList.Iter.EnsureValidIndex | include/base/observer_list.h:186-191 | stops at the next observer or at the limit |
| ObserverList.Iter.Increment | include/base/observer_list.h:150-156 | moves to the next slot that is not null, if the list still exists |
| ObserverList.Iter.Destroy | include/base/observer_list.h:118-125 | the count goes down by one, and the last live iterator compacts the list |
| ObserverList.Iter.GetCurrent | include/base/observer_list.h:180-184 | the observer in the iterator's slot, null if it was removed since |
| ObserverList.Iter.EqualsEnd | include/base/observer_list.h:143-148 | comparison with the end iterator is the test for the end |
| ObserverList.Iter.EqualsInside | include/base/observer_list.h:143-146 | two iterators that are not at their end are equal exactly at the same slot of the same list |
| ObserverPass.SlotsEvolve | include/base/observer_list.h:233-280 | while an iterator is live, slots are only added behind or become null; when the last one goes, the nulls go |
| ObserverPass.RunKeepsInv | include/base/observer_list.h:93-293 | in every run observers are distinct, iterators are in range, and nulls exist only while an iterator is live |
| ObserverPass.RunArrives | include/base/observer_list.h:107-206 | whatever callbacks do, the pass's iterator goes from each slot to the next one that is not null by then |
| ObserverPass.InOrder | include/base/observer_list.h:150-156 | slots are called in increasing order, none twice |
| ObserverPass.EverySlotHasItsTurn | include/base/observer_list.h:150-197 | a complete pass calls what stands in a slot at its turn, exactly once, and nothing if it is null |
| ObserverPass.StartedObserversAreCalled | include/base/observer_list.h:150-197 | an observer registered at the start is called at its slot if and only if it still is there at its turn |
| ObserverPass.CalledWhereHeldAtTurn | include/base/observer_list.h:150-197 | any policy, any observer: its callbacks are exactly the turns of the slots in which it stands by then |
| ObserverPass.CalledOnceIff | include/base/observer_list.h:150-197 | so it is called exactly once if and only if it stands in exactly one slot at the slot's turn |
| ObserverPass.StartedObserversAreCalledOnce | include/base/observer_list.h:81-89 | an observer registered at the start is called exactly once in all if it still is in its slot at the slot's turn, and otherwise never: always under EXISTING_ONLY, and under ALL if it does not leave and come back |
| ObserverPass.SlotChanges | include/base/observer_list.h:233-271 | while an iterator is live, an observer leaves its slot only by its own removal or by Clear, and nobody takes the slot |
| ObserverPass.KeptIsHeld | include/base/observer_list.h:233-271 | an observer registered at the start is in its slot at the slot's turn if and only if no callback before it removed the observer or cleared the list |
| ObserverPass.CalledUnlessRemoved | include/base/observer_list.h:150-197 | the law of a pass: such an observer is called exactly once, at its slot's turn, if nobody removed it before, and otherwise never; always under EXISTING_ONLY, and under ALL if it does not leave and come back |
| ObserverPass.LoyalNeverReturns | include/base/observer_list.h:233-256 | an observer that holds its slot to the end of the run is of that kind |
| ObserverPass.NoneAddedIsCalled | include/base/observer_list.h:81-89 | EXISTING_ONLY: whoever is called stood in that slot when the pass began |
| ObserverPass.AddedObserversAreCalled | include/base/observer_list.h:81-89 | ALL: every observer registered when the pass ends was called once at its slot |
| ObserverPass.ReturningObserverIsCalledAgain | include/base/observer_list.h:233-256 | a run in which an observer that leaves and returns is called at both slots |
| ThreadSafeList.Process.AddObserver | include/base/observer_list_threadsafe.h:106-137 | registers for the current sequence and posts for the current notification; keeps the invariant |
| ThreadSafeList.Process.RemoveObserver | include/base/observer_list_threadsafe.h:144-147 | unregisters this observer from this list and nobody else; queued tasks stay; keeps the invariant |
| ThreadSafeList.Process.Notify | include/base/observer_list_threadsafe.h:162-174 | posts, in some order of the map, one task to each registered observer's sequence, behind all earlier tasks |
| ThreadSafeList.Process.CheckRegistration | include/base/observer_list_threadsafe.h:191-201 | the task is dropped or passes, by the registry at that moment |
| ThreadSafeList.Process.StartCallback | include/base/observer_list_threadsafe.h:209-215 | saves and replaces the current notification and calls the observer |
| ThreadSafeList.Process.FinishCallback | include/base/observer_list_threadsafe.h:217-219 | restores the notification that was current before |
| ThreadSafeList.StepKeepsInv | include/base/observer_list_threadsafe.h:98-233 | every step of every thread keeps frames, task phases, thread-local data, exclusiveness and queue order consistent |
| ThreadSafeRuns.CurrentIsInnermost | include/base/observer_list_threadsafe.h:203-219 | in every run, through any nesting, the thread-local notification is that of the innermost dispatch on the thread |
| ThreadSafeRuns.AddPostsForInnermostDispatch | include/base/observer_list_threadsafe.h:120-136 | adding posts exactly one extra task if and only if the policy is ALL and the innermost dispatch belongs to this list |
| ThreadSafeRuns.NotifyReachesEveryObserverOnce | include/base/observer_list_threadsafe.h:167-173 | one task for each registered observer, none for anyone else |
| ThreadSafeRuns.DeliveredAtMostOncePerRegistration | include/base/observer_list_threadsafe.h:106-174 | in every run an observer gets each notification at most as often as it has registered, so once if it registered once |
| ThreadSafeRegistration.RegistrationChanges | include/base/observer_list_threadsafe.h:106-147 | in every step, the registration of an observer with a list is gone after its own removal, that of the current sequence after its own addition, and else what it was |
| ThreadSafeRegistration.StaysRegistered | include/base/observer_list_threadsafe.h:106-147 | in every run without its removal a registered observer stays registered, for the same sequence |
| ThreadSafeRegistration.TaskRun | include/base/observer_list_threadsafe.h:162-219 | in every run a posted task stays, with its observer, notification and sequence, and only goes from queued to checked to called, or from queued to dropped |
| ThreadSafeRegistration.NoneIsDropped | include/base/observer_list_threadsafe.h:191-201 | in every run without its removal no task of a registered observer is dropped: it is pending until it is called |
| ThreadSafeRegistration.NotifiedObserversAreCalled | include/base/observer_list_threadsafe.h:162-219 | no notification is lost: in every run from the initial state, whoever is registered at a notification and not removed has been called with it once nothing is pending for it, and at most as often as it has registered |
| ThreadSafeAffinity.CallbacksRunOnTheRegistrationSequence | include/base/observer_list_threadsafe.h:40-41 | an observer that registers from one sequence only is called on that sequence only |
| ThreadSafeDrain.DrainThread | include/base/observer_list_threadsafe.h:209-219 | from every state a thread can come to the end of all that it is doing; no other thread and no queue is touched |
| ThreadSafeDrain.BringToHead | include/base/observer_list_threadsafe.h:191-219 | every queued task can come to the head of its queue with its sequence free, whatever the threads are doing |
| ThreadSafeAffinity.PendingCanBeDelivered | include/base/observer_list_threadsafe.h:191-215 | whatever is queued or past the check for a registered observer can be delivered by draining |
| ThreadSafeAffinity.RegisteringIsSafeIff | include/base/observer_list_threadsafe.h:106-118 | after a registration from s all callbacks of the observer, in every run until it registers again, are on s if and only if none of its tasks was pending on another sequence; the check in line 200 never fails if and only if none was queued on another one |
| ThreadSafeAffinity.CalledOnlyOnIff | include/base/observer_list_threadsafe.h:191-215 | the first half of that for every state in which the observer is registered |
| ThreadSafeAffinity.CheckNeverFailsIff | include/base/observer_list_threadsafe.h:200-200 | and the second half |
| ThreadSafeAffinity.RunStaysSettled | include/base/observer_list_threadsafe.h:98-233 | no run without a registration of the observer puts a queued or pending task of it, or its registration, on another sequence |
| ThreadSafeAffinity.MisdeliveryIsPossible | include/base/observer_list_threadsafe.h:196-215 | every pending task on another sequence than the registered one can call the observer there, by draining, while the registration stays |
| ThreadSafeAffinity.MisdeliveryRun | include/base/observer_list_threadsafe.h:106-215 | a run from the initial state with such a callback |
| ThreadSafeRemoval.OnlyCheckedTasksOvertakeRemoval | include/base/observer_list_threadsafe.h:139-147 | after a removal, until the next registration, only callbacks already past the locked check start |
| ThreadSafeRemoval.CheckedTasksCanOvertake | include/base/observer_list_threadsafe.h:139-147 | and all of those can, in one run |
| ThreadSafeRemoval.RemovalIsOvertakenAtMostOnce | include/base/observer_list_threadsafe.h:139-147 | that is at most one, wherever the removal comes from, if the tasks past the check are all on one sequence |
| ThreadSafeRemoval.RemovalSilencesIff | include/base/observer_list_threadsafe.h:139-147 | no callback starts after a removal, in any run until the next registration, if and only if no task of the observer is past the check |
| ThreadSafeRemoval.NoCallbackAfterOwnRemoval | include/base/observer_list_threadsafe.h:43-47 | that is so for a removal from the sequence on which the tasks past the check run |
| ThreadSafeRemoval.PendingOnRegistrationSequence | include/base/observer_list_threadsafe.h:40-47 | an observer that registers from one sequence only has its pending tasks there, so both conditions hold |
| ThreadSafeRemoval.QueuedTasksAreAborted | include/base/observer_list_threadsafe.h:139-147 | a notification still queued at a removal never calls the observer in a run until the next registration |
| ThreadSafeRemoval.OldNotificationReachesReturningObserver | include/base/observer_list_threadsafe.h:141-142 | from every state in which it is queued and the observer unregistered, a run registers the observer from any given sequence and delivers it |
| ThreadSafeRemoval.StaleNotificationRun | include/base/observer_list_threadsafe.h:141-142 | such a run from the initial state |

## Left out

- SmallMap.Map.EraseMatching: the loop is over the array form; in map form the order of the wrapped map is a parameter, taken to depend on its contents only and known to lead from key to key.
- SmallMap.Map.Store: the reference that the subscript operator returns is modelled as an iterator to write through.
- FlatTree.Tree.InsertRange: standard algorithms (lower_bound, stable_sort, unique, inplace_merge, remove_if) are functions on sequences; their memory use and complexity are not modelled. LastUnique, which the header implements itself, works in place.
- MruCache.Cache.Put: list nodes are immutable objects; writing a payload through an iterator is not modelled, nor is erasing by reverse iterator, which ShrinkToSize uses in the form of erasing the last node.
- CircularDeque.Deque.EmplaceBack: the returned reference, the generation counter of debug builds, overflow of size_t, arguments that alias the buffer, exceptions, and move construction are not modelled.
- CircularDeque.NoThrashing: the two operations subtracted from a quarter of the size come from rounding and are not claimed to be exact.
- ObserverList.List.Destroy: the weak pointers of iterators are a flag of the list; the variant that checks emptiness on destruction is not modelled.
- ThreadSafeList.Process.Notify: parameters and the bound method are not modelled; a notification is its list and number.
- Memory ordering, real scheduling, reference counting of lists and task runners, and fairness: tasks may stay queued for ever.
- small_map's initialisation functor is taken to give an empty map, and its key equality to be equality.
- flat_tree's upper_bound, erasing by iterator, transparent comparators and capacity functions, which would only add easy members.
- callback_list.h and id_map.h, whose deferred removal is a simpler form of the observer list's.
- sample_app, nativeui and headers that only declare functions.
