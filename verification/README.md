# luevent in Dafny

A model of the containers, the allocator and the event bookkeeping of luevent, an event library
in C, with proofs of what they keep over whole runs.

Each part comes in two layers.  A functional layer says what an operation computes; the laws of
the algorithm are proved there, by induction.  An imperative layer has the source's own objects
and loops (tree nodes with parent pointers and a shared sentinel, list handles with `prev` and
`next`, blocks and slots, the heap array with its back-pointers, the event base) and proves that
each method takes the objects to exactly the state the functional layer names, so the laws carry
over to the objects.

| files | part |
|---|---|
| RedBlackModel, RedBlackTree | red-black tree insertion: values, then the pointer tree |
| RedBlackLayout, RedBlackDeleteLayout, RedBlackCounts | both fixups told by the in-order sequence of nodes with colours and depths; black counts |
| RedBlackDelete, RedBlackErase, RedBlackRepair | deletion: values, then the transplant phase and the fixup on the pointer tree |
| HashTableModel, HashTable | the table with list and tree buckets |
| EventModel, EventInvariant, EventRuns, EventTeardown | events, queues, maps, counters and backend masks: transitions, the invariant, runs, tear-down |
| EventEffects, EventHistory | the exact effect of single calls; what a state tells about the run that led to it |
| EventBase, EventLoops | the base and its events as objects; the loops of the tear-down |
| UtBits, UtSort, UtHandles, UtLists, UtHash, UtTable | the uthash header: shifts and masks, merge sort, links, bucket index, table |
| MemoryPool, PoolRuns | the pool allocator; whole runs over it |
| TimeHeap | the timeout heap |
| TimeValues | time arithmetic and the monotonic clock |

`dafny verify dfyconfig.toml` checks everything.

## How the code is read

- What the outside world answers is a parameter: the hash function (any function into the bucket
  range), the comparison functions, whether an allocation is granted, whether the backend accepts
  a call, the clock readings.
- An event's storage is an identity; fd and signal lists and priority queues are sequences.
- Where code and comments differ the model follows the code:
  - the inner arms of the insert fixup go on with the parent read before the rotation
    (src/lu_hash_table.c:746-752, 773-779), so the colour rules are lost there; search order and
    links are not;
  - a tree bucket never updates a value, it adds a second entry with the key
    (src/lu_hash_table.c:229); which one is found then can change when the table is doubled twice;
  - after a deletion the fixup does nothing for a missing child, whose parent is never set
    (src/lu_hash_table.c:1019-1022), although the comments promise a rebalanced tree;
  - both fixups may leave the sentinel red (src/lu_hash_table.c:778, 1056), and the
    deletion fixup then takes it for a red node and rotates onto it, which cuts a subtree off;
  - from then on the sentinel's own links lead to the part that was cut off, and later insertions
    and deletions read them: inserting 3, 6, 5, 3, 4, 1, deleting 5 and inserting 2 hangs the
    cut-off 4 back into the wrong place (src/lu_hash_table.c:779, 893-899), and a traversal meets
    1, 2, 3, 4, 6, 3; the model's runs end with the deletion that cuts;
  - the shift-down loop starts at `2 * hole + 1`, which is one too small, and stops before a lone
    left child (src/lu_min_heap.c:62-63), so heap order may be lost at that child;
  - erasing the last event shifts it up from a position outside the heap if its parent is later
    (src/lu_min_heap.c:28-37), and then the parent leaves the heap instead;
  - `lu_event_assign` never stores its fd argument (src/lu_event.c:344-385), and nothing else
    does: an event keeps the fd its storage held, and a one-shot event, whose storage is zeroed,
    is always one of fd 0;
  - an assignment that mixes signal and fd interests fails after it has reset the event
    (src/lu_event.c:355-368), with the priority the storage held;
  - a one-shot timer with a positive timeout is stored but never scheduled, as the timeout
    insertion is commented out (src/lu_event.c:1177-1182);
  - resetting a pool puts `last` behind the full pool header in every block, not only in the first
    (src/lu_mm_pool_palloc.c:104-107).

## Model

| member | source | states |
|---|---|---|
| `RedBlackModel.FixupInOrder` | src/lu_hash_table.c:723-785 | Whatever the colours, and through both inner arms with their stale `parent`, the insert fixup moves no entry: the in-order sequence of the tree it leaves is that of the tree with the new leaf in its place. |
| `RedBlackModel.InsertInOrder` | src/lu_hash_table.c:474-537 | For every tree in search order, balanced or not, inserting yields the old in-order sequence with the new pair placed behind all keys at most its own and before all others. |
| `RedBlackModel.InsertAfterSorted` | src/lu_hash_table.c:503-526 | What "placed" means: a position that splits the sequence into keys at most, and keys above, the new one; order is kept, one entry is added and none is lost. |
| `RedBlackModel.FindCorrect` | src/lu_hash_table.c:583-602 | Search returns the value of a stored entry with the key exactly if there is one, duplicates included. |
| `RedBlackModel.FindFirst` | src/lu_hash_table.c:583-602 | Of several entries with the key, search answers with the first one on the way from the root, wherever it is in the tree. |
| `RedBlackModel.InsertBalance` | src/lu_hash_table.c:474-537 | A red-black tree stays one after an insertion if and only if the fixup does not reach a rotation through an inner (zig-zag) arm.  The comments promise it always does. |
| `RedBlackModel.FixupBalance` | src/lu_hash_table.c:723-785 | The same exact condition for the loop itself, started at any node with sound surroundings: it restores the rules and the black height if and only if it takes no inner arm with a rotation. |
| `RedBlackModel.ZigZagRun` | src/lu_hash_table.c:746-752 | The run of keys 10, 5, 7 reaches an inner arm and leaves a tree that is not red-black. |
| `RedBlackModel.InsertAfterAllSorted` | src/lu_hash_table.c:377-416 | That fold is sorted and is the multiset union of what was there and what the run inserted; list conversion therefore loses nothing. |
| `RedBlackModel.InsertAllBalance` | src/lu_hash_table.c:723-785 | A run in which every key is at least, or below, all earlier keys keeps the tree red-black. |
| `RedBlackModel.AscendingRun` | src/lu_hash_table.c:723-785 | After non-decreasing keys into an empty tree: red-black, in-order sequence equal to the run, height at most 2 log2(n + 1). |
| `RedBlackModel.HeightBound` | src/lu_hash_table.c:723-785 | Every red-black tree with n entries has height at most 2 log2(n + 1). |
| `RedBlackLayout.FixupChain` | src/lu_hash_table.c:723-785 | Every tree, every colour of the node: the insert fixup is a chain of turns told by position, colour and depth alone (red uncle: parent and uncle black, grandparent red; else one or two rotations), ends at a black parent or the root, and then blackens the root; the sentinel turns red exactly when the root stood in for the parent. |
| `RedBlackLayout.EveryChain` | src/lu_hash_table.c:723-785 | No other outcome satisfies these turns: every such chain ends at the tree that the loop leaves. |
| `RedBlackLayout.SpotsTellTrees` | src/lu_hash_table.c:723-785 | The spots determine the tree, links and colours. |
| `RedBlackLayout.InsertChain` | src/lu_hash_table.c:474-537 | Insertion into any tree in search order: a red leaf behind the keys at most its own, below the deeper neighbour, then such a chain. |
| `RedBlackCounts.FixupCounts` | src/lu_hash_table.c:723-785 | Balanced or not: an insertion that takes no inner arm changes the number of black nodes by the same amount above every gap between two entries. |
| `RedBlackTree.RBTree.constructor` | src/lu_hash_table.c:425-461 | A fresh tree is empty; its sentinel is linked only to itself. |
| `RedBlackTree.RBTree.ModelEntries` | src/lu_hash_table.c:474-537 | The ghost in-order sequence of the nodes is the in-order traversal of the links. |
| `RedBlackTree.RBTree.RightRotate` | src/lu_hash_table.c:812-844 | A rotation without a left child changes nothing; otherwise links stay mutual, the order and the place in the tree are kept, and every subtree beside and every place above it reads as before. |
| `RedBlackTree.RBTree.LeftRotate` | src/lu_hash_table.c:871-904 | The mirror image. |
| `RedBlackTree.RBTree.InsertFixup` | src/lu_hash_table.c:723-785 | Terminates from every colouring of every well-linked tree; keeps links, sentinel and order; leaves exactly the tree of the value model. |
| `RedBlackTree.RBTree.Insert` | src/lu_hash_table.c:474-537 | The pointer tree after an insertion is the value model's tree, and the sentinel's colour the model's; if the entries were sorted they are the old ones with the new pair placed stably. |
| `RedBlackTree.RBTree.Find` | src/lu_hash_table.c:583-602 | The walk returns what the model's search returns, on every tree that can be read off the links, also one that a deletion has cut. |
| `RedBlackDelete.TransplantedInOrder` | src/lu_hash_table.c:675-703 | The transplant phase removes exactly the entry of the found node, in all three cases and for every colouring. |
| `RedBlackDelete.PlugHole` | src/lu_hash_table.c:675-703 | Whatever then replaces the spliced-in child, the rest of the tree is the same. |
| `RedBlackDelete.DeleteFixupInOrder` | src/lu_hash_table.c:1038-1112 | Unless a rotation runs onto the sentinel (`Loses`), the delete fixup moves no entry, for every tree, every colouring and either colour of the sentinel. |
| `RedBlackDelete.DeleteFixupLoses` | src/lu_hash_table.c:1038-1112 | If one does, a whole non-empty subtree is cut off at some place on the way up and the rest is untouched. |
| `RedBlackDelete.DeleteFound` | src/lu_hash_table.c:658-711 | Deleting a key that is found takes one entry with the key out of the in-order sequence, together with a stretch of others that is empty if and only if `Keeps` holds. |
| `RedBlackDelete.DeleteExact` | src/lu_hash_table.c:658-711 | A deletion removes one entry with the key and nothing else if and only if `Keeps` holds, a condition on the tree and the sentinel's colour before the call. |
| `RedBlackDelete.DeleteInOrder` | src/lu_hash_table.c:658-711 | In search order: the same, the rest stays in order even when part of it is lost, and nothing changes if the key is not there. |
| `RedBlackDelete.DeleteBalance` | src/lu_hash_table.c:658-711 | From a red-black tree nothing is ever lost; the red-black rules survive if and only if a red node or one with a red child is spliced out, or the node was the only one. |
| `RedBlackDelete.UnbalancingDeletion` | src/lu_hash_table.c:705-708 | Inserting 10, 20, 30, 40 and deleting 10 leaves a tree that is not red-black. |
| `RedBlackDelete.RunSorted` | src/lu_hash_table.c:474-711 | Every run of insertions and deletions keeps search order, up to and including the first deletion that cuts the tree, where the model's runs end; a run without one leaves exactly the keys it should, with repetitions. |
| `RedBlackDelete.RunCut` | src/lu_hash_table.c:474-711 | A run ends early at its first deletion for which `Keeps` does not hold, and there more than one entry goes. |
| `RedBlackDelete.CuttingDeletion` | src/lu_hash_table.c:1038-1112 | Inserting 3, 6, 5, 3, 4, 1 and deleting 5 cuts off a part of the tree, and an insertion of 2 would then rotate at the sentinel. |
| `RedBlackDelete.LosingDeletion` | src/lu_hash_table.c:1038-1112 | Inserting 1, 4, 3, 2, 6, 5 and deleting 2 empties the tree. |
| `RedBlackDeleteLayout.DeleteFixupChain` | src/lu_hash_table.c:1038-1112 | Every tree, every colouring, either colour of the sentinel, both sides: the delete fixup is a chain of turns told by position, colour and depth alone, and a last one; they fix every spot of the tree that is left, or what is cut off, and the colour of the sentinel. |
| `RedBlackDeleteLayout.EveryDeleteChain` | src/lu_hash_table.c:1038-1112 | No other outcome satisfies these turns. |
| `RedBlackDeleteLayout.DeleteSpots` | src/lu_hash_table.c:658-711 | The whole deletion on the sequence: the first spot with the key on the way from the root goes, or its successor in its place and colour; what was under the leaving spot rises by one; then such a chain if a black spot with a child left. |
| `RedBlackCounts.DeleteFixupCounts` | src/lu_hash_table.c:1038-1112 | Balanced or not, where no red node has a red child and no sibling on the way is missing: the fixup adds one black node above each gap under its node and shifts all gaps alike. |
| `RedBlackCounts.DeleteFixupRepairs` | src/lu_hash_table.c:1038-1112 | A tree that keeps the rules but for one black node missing under the loop's node comes out red-black, with a black sentinel. |
| `RedBlackErase.Transplant` | src/lu_hash_table.c:1004-1023 | Which one link, or the root, is redirected; the sentinel's parent is never written. |
| `RedBlackErase.Minimum` | src/lu_hash_table.c:1125-1134 | Returns the leftmost node below the right child: the in-order successor, without a left child. |
| `RedBlackErase.Unlink` | src/lu_hash_table.c:665-703 | The whole transplant phase, all three cases, every well-linked tree: the tree is the model's, the heir is where the model says, and the colour passed on is that of the node spliced out. |
| `RedBlackRepair.RedSentinelLeft` | src/lu_hash_table.c:1041-1080 | The three rotations around a red sentinel, link by link: the subtree of the parent ends up hanging off the sentinel, and nothing outside it changes. |
| `RedBlackRepair.DeleteFixup` | src/lu_hash_table.c:1038-1112 | The loop on the links, for every tree and every start: terminates; a traversal afterwards meets exactly the model's tree; the links stay well formed if and only if no rotation runs onto the sentinel. |
| `RedBlackRepair.Delete` | src/lu_hash_table.c:658-711 | The pointer tree after a deletion reads as the model's, and the sentinel's colour is the model's; the links stay well formed if and only if `Keeps` held before. |
| `RedBlackRepair.RunAll` | src/lu_hash_table.c:474-711 | The pointer tree after every run of the model, up to a deletion that cuts it: it reads as the model's tree, the sentinel's colour is the model's, and the links are well formed unless it was cut. |
| `HashTableModel.BucketInsertContents` | src/lu_hash_table.c:161-232 | One bucket: insertion replaces the value of the first list entry with the key, or adds one entry; conversion and tree insertion lose nothing; the recorded size is exact. |
| `HashTableModel.BucketFindCorrect` | src/lu_hash_table.c:262-277 | List and tree buckets alike: found exactly if stored. |
| `HashTableModel.TableInsertContents` | src/lu_hash_table.c:156-233 | Insertion keeps the table well formed and changes its multiset of entries by exactly one replacement or one addition. |
| `HashTableModel.TableFindCorrect` | src/lu_hash_table.c:247-284 | In every well-formed table search returns the value of some stored entry with the key, and null exactly if there is none. |
| `HashTableModel.TableFindFirst` | src/lu_hash_table.c:262-277 | In a tree bucket with the key stored several times, the answer is the first entry with the key on the way from the root. |
| `HashTableModel.ResizeContents` | src/lu_hash_table.c:1249-1288 | Doubling the table moves every entry, repetitions included, and loses none. |
| `HashTableModel.ResizeLists` | src/lu_hash_table.c:1249-1288 | Each bucket of the doubled table is a list of its entries, the one visited last at the head. |
| `HashTableModel.ResizeFinds` | src/lu_hash_table.c:1225-1288 | Doubling with repeated keys: a tree bucket's answer is kept, because a parent is visited after its subtrees; in a list bucket the last entry with the key becomes the first. |
| `HashTableModel.ResizeKeepsAnswers` | src/lu_hash_table.c:1249-1288 | So doubling changes no answer if and only if first and last entry with each key agree in every list bucket. |
| `HashTableModel.ResizeTwiceFinds` | src/lu_hash_table.c:1249-1288 | After two doublings a list answers as at first, and a tree with the entry that post-order meets first. |
| `HashTableModel.PostOrderContents` | src/lu_hash_table.c:1225-1247 | The order in which a tree is rehashed visits every entry once. |
| `HashTableModel.ReachableTable` | src/lu_hash_table.c:122-284 | Over every run of insertions and resizes from a fresh table: `element_count` is the number of stored entries and search is right. |
| `HashTableModel.InsertIsMapUpdate` | src/lu_hash_table.c:161-232 | Insertion acts as a map update if and only if the key's bucket is still a list or the key is new; otherwise the key is stored twice. |
| `HashTableModel.FilledBucket` | src/lu_hash_table.c:161-232 | A bucket after any insertions: up to 8 different keys a list, the newest key first, each with the value given last; from the ninth key on a tree. |
| `HashTableModel.NinthKey` | src/lu_hash_table.c:208-225 | The ninth key: the nine entries go into an empty tree, the newest first. |
| `HashTableModel.RunBuckets` | src/lu_hash_table.c:122-233 | Every bucket of a table of any size (16 if none is given) holds exactly what the insertions of the keys that hash to it leave. |
| `HashTableModel.StoredTwice` | src/lu_hash_table.c:208-232 | Nine keys in one bucket and one of them again: it is stored twice, and search answers with the first value. |
| `HashTableModel.AnswerChanges` | src/lu_hash_table.c:1249-1288 | After that run one doubling keeps the answer 1 and a second one changes it to 2. |
| `HashTableModel.TableRefuseContents` | src/lu_hash_table.c:162-232 | A failing node allocation changes no entry and no answer; the counters stay right in a list bucket only. |
| `HashTableModel.ResizeKeepsMap` | src/lu_hash_table.c:1249-1288 | Doubling changes no answer of a table that stores every key once. |
| `HashTable.Convert` | src/lu_hash_table.c:377-416 | Inserts the list, head first, into a fresh pointer tree: the model's conversion. |
| `HashTable.RehashTree` | src/lu_hash_table.c:1225-1247 | Left, right, node: pushes the entries of the pointer tree in post-order onto the new list buckets. |
| `HashTable.HashTable.constructor` | src/lu_hash_table.c:122-139 | An empty table, of 16 buckets if no size is given. |
| `HashTable.HashTable.Find` | src/lu_hash_table.c:247-284 | Equals the model's search. |
| `HashTable.HashTable.Insert` | src/lu_hash_table.c:156-233 | The table after the call is the model's, whether or not the node is granted; no other bucket's tree is touched. |
| `HashTable.HashTable.Resize` | src/lu_hash_table.c:1249-1288 | The table after doubling is the model's. |
| `EventModel.OldMaskIsUnion` | src/lu_evmap.c:205-210 | The `old` argument of the backend calls is the union of the interests of the listed events. |
| `EventModel.MakeSpace` | src/lu_evmap.c:282-307 | Growth by doubling: succeeds with room for the slot, never shrinks, and does nothing when there is room. |
| `EventInvariant.AddInv` | src/lu_event.c:1045-1213 | Addition keeps the invariant (flags, queues, lists, interest counts, counters, backend masks); a failing one leaves no trace but spare room in the maps. |
| `EventInvariant.DelInv` | src/lu_event.c:799-882 | Deletion keeps the invariant even when the backend refuses, and keeps the masks exact when it agrees. |
| `EventInvariant.ActiveInv` | src/lu_event.c:996-1043 | Activation keeps the invariant: an event is active exactly if it is once in the queue of its current priority. |
| `EventInvariant.PrioritySetInv` | src/lu_event.c:398-408 | Changing a priority keeps it, because active events are refused. |
| `EventInvariant.CancelInv` | src/lu_event.c:888-917 | Cancelling a callback keeps it. |
| `EventInvariant.AssignInv` | src/lu_event.c:344-385 | Assigning storage, also when the call fails half-way because signal and fd interests are mixed, keeps the invariant if and only if no list, queue or counter notices the event that was there and the priority left in the storage has a queue. |
| `EventInvariant.IoAddCases` | src/lu_evmap.c:343-415 | Adding to an fd either fails without a trace, or puts the event at the head, counts each wanted interest, stays within 16 bits and tells the backend exactly the interests nobody had. |
| `EventInvariant.IoDelMaps` | src/lu_evmap.c:181-244 | Deleting a listed event from its fd keeps every list, count and mask as the invariant wants them, even if the backend refuses; if it agrees the masks stay exact. |
| `EventInvariant.SignalDelMaps` | src/lu_evmap.c:247-265 | The same for a signal. |
| `EventInvariant.CountsPositive` | src/lu_evmap.c:212-226 | The assertions that no interest count falls below zero hold in every reachable state. |
| `EventInvariant.SignalAddCases` | src/lu_evmap.c:314-339 | The signal map: fails without a trace, or lists the event and has the backend watch the signal. |
| `EventRuns.StepInv` | src/lu_event.c:746-1287 | Every operation keeps the invariant, and keeps the masks exact unless the backend refuses a deletion. |
| `EventRuns.StepTallied` | include/lu_util.h:340-350 | In every operation each running maximum ends as the larger of its old value and the new count. |
| `EventRuns.Run` | src/lu_event.c:746-1287 | The invariant holds after every run of assign, add, activate, delete, priority-set and cancel. |
| `EventRuns.RunMaxima` | include/lu_util.h:340-350 | Over every run from every reachable base the running maxima are the larger of their old values and the largest values of the counters. |
| `EventRuns.RunMask` | src/lu_evmap.c:181-244 | Over every run in which no deletion call is refused, each fd's mask stays exactly the union of the listed events' interests, and a signal is watched only while an event is listed for it. |
| `EventRuns.FreshRun` | src/lu_event.c:746-1287 | The two laws from a fresh base: `event_count_max` and `event_count_active_max` are the largest values the counters had, and the masks are exact. |
| `EventRuns.AddThenDelete` | src/lu_event.c:799-882 | A successful addition of an idle event, with or without a timeout, followed by its deletion restores every flag, list, count and counter, whatever the backend answers; the masks come back under an exact condition, which holds if they were exact and the backend agrees. |
| `EventEffects.MakeSpaceExact` | src/lu_evmap.c:282-307 | The map grows by doubling from its size, or from 32, just as often as needed; it fails exactly for an entry above 0x3fffffff, a size above 0x0fffffff, or without memory. |
| `EventEffects.IoAddFails` | src/lu_evmap.c:343-415 | Listing on an fd fails exactly if the map or the slot is not to be had, a wanted interest has 65535 events already, triggers mix in debug mode, or the backend refuses an interest nobody had. |
| `EventEffects.SignalAddFails` | src/lu_evmap.c:314-339 | Listing on a signal fails exactly for a number outside 0 to 64, without room, or if the backend refuses the first event. |
| `EventEffects.AddExact` | src/lu_event.c:1045-1213 | The answer, both flags and the queues after an addition: an idle event that wants something becomes inserted exactly on success; an active one leaves its queue exactly if the call succeeds, a timeout was given and it is active because of a timeout. |
| `EventEffects.DelExact` | src/lu_event.c:799-882 | The answer, both flags and the queues after a deletion: it fails exactly if the backend refuses to forget what only this event wanted. |
| `EventEffects.CancelExact` | src/lu_event.c:888-917 | A bare callback only leaves its queue; anything else is deleted. |
| `EventEffects.ActiveExact` | src/lu_event.c:996-1043 | An active event gains results and nothing else happens; an idle one gets exactly these results, a signal event the call count, and the tail of its queue; the loop is told to go on exactly if its priority is before the running one. |
| `EventEffects.PriorityUsed` | src/lu_event.c:398-408 | The priority that was set is the queue the next activation uses; a bad value changes nothing. |
| `EventEffects.AssignedQueue` | src/lu_event.c:344-385 | An assigned event goes to the middle queue, or to the one its storage named if the call failed half-way. |
| `EventHistory.RunFifo` | src/lu_event.c:1270-1287 | Over every run from a base without active callbacks each queue holds them in the order in which they became active. |
| `EventHistory.RunResults` | src/lu_event.c:1005-1043 | Over every run an active event holds the union of the results given since the operation that made it active, the call count of that operation if it is a signal event, and the priority it had then. |
| `EventHistory.RunContinue` | src/lu_event.c:1024-1025 | Over every run the loop is told to go on exactly if some operation activated an event before the running one. |
| `EventRuns.DeleteAllExact` | src/lu_evmap.c:64-152 | Deleting all mapped events: exactly those lose their flags, and every list and interest count ends at zero, whatever the backend answers. |
| `EventRuns.DeleteAllUntells` | src/lu_evmap.c:64-152 | If it agrees to every call it ends knowing no interest at all. |
| `EventTeardown.CancelSingleOk` | src/lu_event.c:602-636 | One step of the pass: internal events stay as they are and are not counted, every other callback ends inactive and is counted once. |
| `EventTeardown.FreeQueuesExact` | src/lu_event.c:574-594 | One pass leaves exactly the internal callbacks active and returns how many it removed. |
| `EventTeardown.SecondPassIdle` | src/lu_event.c:485-502 | A second pass removes nothing and returns 0: the endless loop runs at most twice. |
| `EventTeardown.FreeLeavesQueuesEmpty` | src/lu_event.c:459-516 | The assertion that every queue is empty at the end holds if and only if every active internal event was on a list. |
| `EventTeardown.QueueStaysFilled` | src/lu_event.c:459-516 | Assigning an internal event and activating it violates that assertion.  The internal flag is only set by the library itself (src/lu_evsignal.c:43). |
| `EventTeardown.OnceOk` | src/lu_event.c:673-731 | A one-shot event: a failing call leaves nothing behind; a successful one is listed exactly if it has interests and active exactly if it has none and no positive timeout; it is always an event of fd 0. |
| `EventEffects.OnceExact` | src/lu_event.c:673-731 | When a one-shot call fails, and the whole event and queues it leaves otherwise: fd 0, middle priority, listed exactly with interests, at once active with the result of a timeout exactly without interests and without a positive timeout. |
| `EventBase.EventBase.constructor` | src/lu_event.c:1290-1326 | A base with empty priority queues, maps and counters. |
| `EventBase.EventBase.InsertActive` | src/lu_event.c:1270-1287 | Already active: nothing.  Otherwise flag, both counters, both maxima and the tail of the event's queue. |
| `EventBase.EventBase.RemoveActive` | src/lu_event.c:746-760 | The reverse. |
| `EventBase.EventBase.InsertInserted` | src/lu_event.c:964-975 | Flag and counter. |
| `EventBase.EventBase.RemoveInserted` | src/lu_event.c:950-959 | The reverse. |
| `EventBase.EventBase.IoAdd` | src/lu_evmap.c:343-415 | The base's new state and the result are the model's. |
| `EventBase.EventBase.IoDel` | src/lu_evmap.c:181-244 | The same for deletion. |
| `EventBase.EventBase.SignalAdd` | src/lu_evmap.c:314-339 | The base's new state and the result are the model's. |
| `EventBase.EventBase.SignalDel` | src/lu_evmap.c:247-265 | The same for deletion. |
| `EventBase.EventBase.Add` | src/lu_event.c:1045-1213 | The objects' new state and the result are those of the model transition, of which the invariant is proved. |
| `EventBase.EventBase.Del` | src/lu_event.c:799-882 | The same for deletion. |
| `EventBase.EventBase.Activate` | src/lu_event.c:1231-1257 | The same for activating a callback. |
| `EventBase.EventBase.Active` | src/lu_event.c:996-1043 | The same for activating an event: results are merged if it is active already. |
| `EventBase.EventBase.PrioritySet` | src/lu_event.c:398-408 | The same for priorities. |
| `EventBase.EventBase.Cancel` | src/lu_event.c:888-917 | The same for cancelling. |
| `EventBase.EventBase.NewEvent` | src/lu_event.c:344-385 | Assignment on new storage: nothing set, the middle priority unless the call fails half-way, the fd that the storage held. |
| `EventBase.EventBase.Assign` | src/lu_event.c:344-385 | The same on storage the base knows. |
| `EventLoops.DeleteSlotEvents` | src/lu_evmap.c:88-119 | The `while` over one fd's list terminates and empties it. |
| `EventLoops.DeleteSignalEvents` | src/lu_evmap.c:88-106 | The same for a signal. |
| `EventLoops.DeleteAll` | src/lu_evmap.c:149-152 | Both foreach loops over the objects give the model's result. |
| `EventLoops.FreeQueue` | src/lu_event.c:574-594 | The walk along a queue from which the current element may vanish visits each callback of the original queue once. |
| `EventLoops.FreeQueues` | src/lu_event.c:574-594 | All queues, and the number removed. |
| `EventLoops.FreeBase` | src/lu_event.c:459-503 | The tear-down terminates after at most two passes. |
| `UtSort.SortWhole` | other/lu_hash.h:893-975 | The merge sort yields a sorted permutation in which items that compare equal keep their order, for every total preorder. |
| `UtSort.StablySortedUnique` | other/lu_hash.h:893-975 | There is only one such arrangement, so this fixes the result. |
| `UtSort.SortPermutes` | other/lu_hash.h:893-975 | With any comparison function at all, nothing is lost or repeated. |
| `UtSort.MergeStable` | other/lu_hash.h:920-960 | Merging keeps equal items in order, those of the left run first. |
| `UtSort.PassRuns` | other/lu_hash.h:907-965 | A pass turns sorted runs of length k into sorted runs of length 2k. |
| `UtHandles.MergeRuns` | other/lu_hash.h:920-960 | The inner loop on the links: what is done becomes the old part followed by the merge of both runs. |
| `UtHandles.OnePass` | other/lu_hash.h:903-965 | One pass on the links; the number of merges tells whether one merge covered the list. |
| `UtHandles.SortList` | other/lu_hash.h:893-975 | The loop terminates; `next` threads the sorted list, `prev` is its exact inverse, and the tail is its last element. |
| `UtHash.PushItem` | other/lu_hash.h:770-789 | Filing an item keeps the bucket index: each item in the bucket of its hash value, counts exact, chains well linked. |
| `UtHash.RemoveItem` | other/lu_hash.h:792-805 | So does taking one out. |
| `UtHash.BucketIsRemainder` | other/lu_hash.h:433-436 | The bucket of a hash value is its remainder by the number of buckets. |
| `UtHash.MultIs` | other/lu_hash.h:859-864 | The growth multiplier of a bucket beyond the ideal length is its count divided by that length, rounded up, but at most one for each item beyond it. |
| `UtHash.Redistribute` | other/lu_hash.h:836-886 | The two nested loops move every item into a fresh array of twice the size, and the statistics count the items beyond the ideal chain length. Each new chain holds its items in the reverse of the order in which they are met, and each bucket has its growth multiplier. |
| `UtBits.QuotientAndRemainder` | other/lu_hash.h:433-436 | Shifting by k and masking with k ones, bit by bit, give the quotient and the remainder by 2^k. |
| `UtTable.IdealIsCeiling` | other/lu_hash.h:849-851 | The shift and the mask add up to the quotient of items and doubled buckets, rounded up. |
| `UtTable.Table.ExpandBuckets` | other/lu_hash.h:836-886 | Doubling keeps the invariant; the ideal length is the rounded-up quotient, the statistics are exact, and growth is given up after two ineffective doublings in a row. |
| `UtTable.Table.AddToTable` | other/lu_hash.h:340-348 | Keeps the invariant; the table doubles if and only if the item's bucket reached its threshold and growth was not given up, else only that chain changes. |
| `UtTable.Table.Add` | other/lu_hash.h:399-418 | Keeps the HASH_FSCK invariant; the item comes last in insertion order and first in its chain; a first item gets 32 buckets; the table is doubled exactly if the bucket reaches 10 times one more than its multiplier and growth was not given up. |
| `UtTable.Table.AddInOrder` | other/lu_hash.h:353-384 | Keeps it; the item comes before the first item that compares greater. |
| `UtTable.PlaceSorted` | other/lu_hash.h:353-384 | A sorted list stays sorted, with the new item behind all that compare equal to it. |
| `UtTable.Table.Delete` | other/lu_hash.h:453-480 | Keeps it; exactly that item leaves both orders and its chain, and the last one takes the table with it. |
| `UtTable.Table.Find` | other/lu_hash.h:156-176 | The same through the Bloom filter, if there is one: no false negatives. The answer is the first item with the key in its chain. |
| `UtTable.Table.Sort` | other/lu_hash.h:892-975 | The list is sorted; buckets and chains are untouched. |
| `MemoryPool.AcceptedFits` | src/lu_mm_pool_palloc.c:150-158 | With the unsigned difference the code tests, every region it accepts ends inside its block exactly if the pool size is a multiple of 16. |
| `MemoryPool.PoolOverrun` | src/lu_mm_pool_palloc.c:150-158 | On a block of 100 bytes the loop's own test grants a second region that begins at 112. |
| `MemoryPool.Pool.constructor` | src/lu_mm_pool_palloc.c:12-46 | A pool of one block behind its header that has given out nothing, and its limit for small requests. |
| `MemoryPool.Largest` | src/lu_mm_pool_palloc.c:35-36 | The limit for small requests is the smaller of 4095 and what is left behind the header. |
| `MemoryPool.Pool.PallocSmall` | src/lu_mm_pool_palloc.c:139-164 | The region is cut, aligned if asked, at the free end of the first block from `current` on that fits, else from a new block; all regions stay inside their blocks and pairwise disjoint; without a reset at most 7 blocks are inspected. |
| `MemoryPool.Pool.PallocBlock` | src/lu_mm_pool_palloc.c:167-199 | A new block at the end of the chain, its region behind the header; fails only if the system does. |
| `MemoryPool.Pool.Age` | src/lu_mm_pool_palloc.c:190-194 | Failure counts from `current` on form a falling staircase, so a block is left behind in time. Each of them but the last counts one more, and the next search starts behind the last one that had failed more than 4 times. |
| `MemoryPool.Pool.PallocLarge` | src/lu_mm_pool_palloc.c:202-237 | Every live large allocation stays in exactly one slot; one of the first five slots is reused if one is empty, else a node is cut from the pool; fails exactly if neither is possible, and then gives the allocation back.  Regions given out stay where they are, and without a reset at most 7 blocks are inspected. The slot reused is the first empty one; no other changes. |
| `MemoryPool.Pool.Memalign` | src/lu_mm_pool_palloc.c:240-261 | Always a new slot in front of the list; fails exactly if its node cannot be cut, and then gives the allocation back.  Regions given out stay, and at most 7 blocks are inspected, as above. |
| `MemoryPool.Pool.Alloc` | src/lu_mm_pool_palloc.c:115-136 | Up to `max` bytes from the pool, above it from the system; when it succeeds; 16-aligned in the aligned variant.  Whatever the outcome, regions given out stay and without a reset at most 7 blocks are inspected. A small request is cut where the first block that fits ends, aligned only if asked. |
| `MemoryPool.Pool.Free` | src/lu_mm_pool_palloc.c:263-278 | Succeeds exactly if a slot holds the address, and removes exactly it from the live ones. The first slot with the address is emptied, no other changes. |
| `MemoryPool.Pool.Reset` | src/lu_mm_pool_palloc.c:92-112 | Each live large allocation is freed once; all blocks are empty again. |
| `MemoryPool.Pool.Destroy` | src/lu_mm_pool_palloc.c:49-89 | Each live large allocation and each block is freed exactly once, and no block is read after it was freed. |
| `PoolRuns.Run` | src/lu_mm_pool_palloc.c:92-278 | Over every sequence of alloc, nalloc, memalign, free and reset, with every behaviour of the system allocator: all bytes given out since the last reset and all in-pool list nodes lie inside their blocks and are pairwise disjoint; each answer has the size and alignment asked for; only allocations still held go back to the system, and what the system has out is what the answers leave the user with; up to the first reset no request inspects more than 7 blocks. |
| `PoolRuns.WholeRun` | src/lu_mm_pool_palloc.c:12-278 | From the creation of a pool over any such sequence to its destruction: every large allocation taken from the system goes back to it exactly once and none is left. |
| `TimeHeap.MinHeap.Push` | src/lu_min_heap.c:87-93 | Of every heap: adds exactly the event and keeps the back-pointers, or fails exactly if there is no room and no memory.  An ordered heap stays ordered. The exact array: the event rises to below the first ancestor that is not later, each later one moves down. |
| `TimeHeap.MinHeap.ShiftDown` | src/lu_min_heap.c:61-72 | From every position: the event replaces the one there and all back-pointers are right.  From the root of an ordered heap every edge but possibly the one to a lone left child in last position is in order, and the order is whole if and only if `Loses` does not hold beforehand. The exact array from every position: the event sinks along the positions the comparisons pick, as long as they are earlier, and each of them moves up. |
| `TimeHeap.MinHeap.Pop` | src/lu_min_heap.c:95-103 | Of every heap: removes exactly the first event and keeps the back-pointers.  Of an ordered one: a least event, and the order left is full if and only if `Loses` does not hold beforehand. The exact array, as for the shift down. |
| `TimeHeap.MinHeap.Adjust` | src/lu_min_heap.c:106-119 | Keeps the events and the back-pointers in every case, fails exactly as a push does; the upward case restores the order. The exact array in both directions. |
| `TimeHeap.MinHeap.Erase` | src/lu_min_heap.c:23-44 | Removes exactly the event and keeps the back-pointers if and only if it is not the last one below a later one; otherwise it stays in the heap and its parent leaves.  In an ordered heap that never happens. The exact array unless the event was misplaced. |
| `TimeHeap.TimersGoWrong` | src/lu_min_heap.c:23-103 | Three timers pushed in order: popping the first loses the order, and erasing the second then removes the third and leaves the second. |
| `TimeHeap.RootLeast` | src/lu_min_heap.c:135-138 | In an ordered heap the top is least. |
| `TimeValues.MacrosAreArithmetic` | include/lu_util.h:240-266 | On normalised values the macros are arithmetic and comparison of microseconds, and stay normalised. |
| `TimeValues.MonotonicTimer.Adjust` | src/lu_evutil_time.c:96-109 | The timer's new state and the repaired time. |
| `TimeValues.ClockState` | src/lu_evutil_time.c:96-109 | Over every run the timer holds the sum of the forward steps and how far that is ahead of the last reading. |
| `TimeValues.OutputIsAdvance` | src/lu_evutil_time.c:96-109 | The n-th output is the sum of the forward steps of the readings, starting from 0. |
| `TimeValues.OutputsMonotone` | src/lu_evutil_time.c:96-109 | Outputs never go backwards, move exactly as far as the readings when those move forward, and stand still otherwise. |

## Left out

- RedBlackDelete.RunSorted: nothing is claimed of a run after the first deletion that cuts the tree; insertions and deletions then read the sentinel's links, which are no longer its own. Search is still right (RedBlackTree.RBTree.Find).
- RedBlackRepair.Delete: presupposes, like every insertion and deletion, that no earlier deletion cut the tree.
- TimeHeap.MinHeap.ShiftDown: no order is stated for a descent from a position other than the root, whose first comparison is not with a child.
- TimeHeap.MinHeap.Adjust: no order is stated for the downward case, for that reason.
- TimeHeap.MinHeap.Erase: no order is stated unless the replacement moves up, for that reason.
- MemoryPool.Pool.constructor: requires a size of at least 64 that is a multiple of 16; MemoryPool.AcceptedFits shows why the multiple is needed.
- MemoryPool.Pool.PallocSmall: the bound of 7 inspected blocks is for pools that were never reset, since a reset goes back to the first block and clears the failure counts of all.
- UtHandles.SortList: the unsigned run counters are assumed not to wrap, so the list has fewer than 2^32 items.
- HashTable.HashTable.Insert: the allocations inside a conversion are taken to succeed; the table itself, the tree and its sentinel exit on failure, and a node that is not granted there loses its entry.
- UtTable.Table.ExpandBuckets: a failing allocation, which by default ends the program, is not modelled.
- lu_hash_table_delete as a whole: `element_count` drops even on a miss and a list bucket's recorded size only on a miss, so counters are stated for insertions and resizes; tree deletion itself is modelled.
- List nodes of hash buckets are entries of a sequence, so update in place of a node is an update of the sequence; destroying tables and trees is not modelled.
- The floating-point arithmetic of `lu_hash_function`.
- Wrap-around of sizes and counters other than the 16-bit interest counts and the map growth limits, and the exits on failed allocations.
- lu_event_base_once on the objects: it is modelled on values (EventTeardown.OnceOk).
- Timeouts inside the base and common-timeout lists: nothing is ever inserted into them.
- FINALIZING and the active-later queue: never set and never filled, so they have no place in the state.
- Changing the number of priorities after events were assigned; the queue count is fixed when the base is created.
- Debug assertions, except those on interest counts and on empty queues, which are proved or given their exact condition.
- Locks, conditions, thread notification, and the unfinished notification code at the end of src/lu_event.c.
- epoll, signalfd, pipes, configuration, logging, error strings and file helpers; the backend is a mask per fd and a set of signals.
- The byte-level hash functions of the uthash header, HASH_SELECT, HASH_REPLACE, HASH_CLEAR and HASH_ITER.
- lu_mm_pool_calloc, which is an allocation followed by clearing the bytes.
- The bytes behind an address: regions are ranges of offsets in a block.
