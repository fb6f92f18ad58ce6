# Verified models of the repository's data structures and whole-run programs

The repository is a collection of small C and C++ programs. This project models the ones
that carry real state and proves what they promise, for every input and every run:

* **khash** (`hash_table/khash.h`), an open-addressing hash table with triangular probing,
  two flag bits a bucket packed into 32-bit words, tombstones, and a rehash in which the
  old and the new table share their arrays. Files `Bits`, `Flags`, `Probe`, `Buckets`,
  `KHash`, `KHashRuns`.
* **uthash** (`client_server/uthash/src/uthash.h`), a chained hash table whose items sit in
  two doubly linked lists at once, with bucket doubling, an optional Bloom filter and an
  in-place list merge sort. Files `Handles`, `Groups`, `Lengths`, `Lookups`, `UtSort`,
  `UtHash`, `UtHashRuns`, `UtHashRepeats`.
* **graph search and the Tower of Hanoi** over bounded stacks and queues
  (`c++/src/graph.cpp`, `c++/src/hanoi_tower.cpp`, `c++/src/stack.cpp`). Files `Stack`,
  `GraphSpec`, `SearchOrder`, `Graph`, `GraphExample`, `Hanoi`.
* **tree traversal** by levels and in zig-zag (`binaryTree/traversal.cpp`). Files
  `Trees`, `Traversal`.
* **the condition-variable program** (`pthread_wait/main.c`) as an interleaved step
  relation. File `CondVar`.
* **the Internet checksum** (`checksum/main.c`) of RFC 1071. File `Checksum`.

`Collections` holds what several of them share. `dafny verify dfyconfig.toml` checks all of it.

## How to read it

Code that changes things in place is a class or a method with loops; what it keeps
invariant is stated on sequences, sets and maps in a file beside it. In khash the class
`KHash` carries a ghost map `contents`, and `TableOk` says that the arrays hold exactly that
map along the probe paths. In uthash the class `UtHash` carries ghost sequences `order` and
`chains`, and `Valid` says that the links, counts, hash values and filter bits agree with
them. Bit operations are defined on natural numbers digit by digit, and the identities the
code relies on (a mask is a remainder, a shift is a quotient, the rounding cascade finds the
least power of two) are proved. Hash functions are arbitrary.

Four places where the code does less than one may expect are stated as they are:

* `kh_put` has one way to fail silently: with 2^31 buckets, all live, and an absent key, no
  larger table fits 32 bits, and the call returns 0 with the bucket of another key, whose
  value a caller's store then overwrites. `FillUp` reaches that state, `Put` gives the exact
  condition, and `RunRefinesMap` says that runs without it, and no others, are runs of a map.
* The two folds of `csum` are not enough for every buffer. `CorrectUpTo` says that all
  buffers of a given length are summed correctly exactly up to 131076 bytes, `CanFail` gives
  a buffer for every greater length, and `CorrectExactly` the condition for a single buffer.
* `HASH_EXPAND_BUCKETS` changes what is found for a key that several items have: it turns
  around the items of a chain that stay together. `Expand` says that it changes no other
  lookup, and `LookupChanges` shows one that does.
* The watcher of the condition-variable program can wait for ever, spurious wake-ups
  aside, if the increments cannot reach the limit; `FinishesIffEnough` gives the exact condition.

## Model

| member | source | states |
|---|---|---|
| Bits.RoundUpIsLeastPow2 | hash_table/khash.h:176 | `kroundup32` gives the least power of two that is no smaller than its argument; for 0 and for arguments above 2^31 it wraps around to 0 |
| Bits.MaskIsMod | hash_table/khash.h:234-235 | masking with a power of two minus one is the remainder |
| Flags.TestsReadFlag | hash_table/khash.h:165-167 | on words that represent a list of three-state flags, the test macros read the flag of their bucket |
| Flags.MarkDeleted | hash_table/khash.h:171 | setting the deleted bit of a live bucket makes it a tombstone and leaves the other buckets of its word as they were |
| Flags.MarkUsed | hash_table/khash.h:169 | clearing the empty bit of an empty bucket makes it live and changes no other bucket |
| Flags.MarkLive | hash_table/khash.h:170 | clearing both bits makes a bucket live, whatever it was, and changes no other bucket |
| Flags.FillIsAllEmpty | hash_table/khash.h:226 | after the 0xaa fill every bucket below the number of buckets reads as empty |
| Flags.SetAllEmpty | hash_table/khash.h:253-255 | the fill of a flag array of `__ac_fsize(n)` words stands for `n` empty buckets |
| Probe.WrapUnderMask | hash_table/khash.h:238 | the 32-bit wrap-around of `i + (++step)` does not show under the mask |
| Probe.NextBucket | hash_table/khash.h:238 | one turn of the probe loop, wrap-around included, follows the triangular sequence |
| Probe.NextStep | hash_table/khash.h:238 | one turn of the probe loop moves from the bucket of step s to that of step s + 1 of the triangular sequence |
| Probe.StepsDiffer | hash_table/khash.h:51-53 | for every power of two n and every start, the first n steps visit different buckets |
| Probe.Covers | hash_table/khash.h:51-53 | every bucket is visited within the first n steps |
| Probe.FirstReturn | hash_table/khash.h:239 | the sequence returns to its start at step 2n - 1 and at no earlier step, so that the exit on `i == last` only happens after all buckets were seen |
| Buckets.Upper | hash_table/khash.h:303 | the load limit is the whole number nearest to 0.77 times the number of buckets |
| Buckets.Absent | hash_table/khash.h:237-241 | a probe that ends at an empty bucket, or has seen every bucket, without meeting the key proves that the map does not have it |
| Buckets.EmptyBucketExists | hash_table/khash.h:325-329 | below 2^31 buckets the load limit keeps size <= occupied <= upper bound < number of buckets, some bucket is empty, and no probe over used buckets wraps around to its start |
| Buckets.FullTableExists | hash_table/khash.h:307-348 | there is a correct table of 2^31 live buckets, with neither an empty bucket nor a tombstone |
| Buckets.DeleteOk | hash_table/khash.h:349-355 | turning a live bucket into a tombstone removes exactly its key and keeps counts, load and all probe paths |
| Buckets.InsertOk | hash_table/khash.h:336-346 | making a free bucket on the key's path live adds exactly that key and keeps counts, load and all probe paths, tombstone or not |
| Buckets.RoundUp | hash_table/khash.h:249-250 | the size chosen for a request is the least power of two that is at least 4 and at least the request, or 4 when that power does not fit in 32 bits |
| Buckets.PickUp | hash_table/khash.h:270-276 | taking an old entry in hand splits the map into the entry in hand and what old and new layout hold |
| Buckets.KickOut | hash_table/khash.h:282-286 | writing the entry in hand over an old one and taking that one in hand keeps the partition: no bucket is live in both layouts and nothing is lost or doubled |
| Buckets.PutDown | hash_table/khash.h:287-291 | writing the entry in hand to a bucket live in neither layout completes the partition |
| Buckets.RoomToPlace | hash_table/khash.h:281 | with an entry in hand and no more entries than new buckets, some new bucket is empty |
| Buckets.DoneMoving | hash_table/khash.h:300-303 | once no old bucket is live the new layout alone is a correct table of the same map, below its load limit and without tombstones |
| KHashTable.KHash.constructor | hash_table/khash.h:212-214 | a new table stands for the empty map and has all fields zero |
| KHashTable.KHash.Clear | hash_table/khash.h:223-229 | clearing empties the map and keeps the buckets |
| KHashTable.KHash.Get | hash_table/khash.h:230-243 | the result is a live bucket holding the key and its value if the key is in the map, and the end iterator otherwise |
| KHashTable.KHash.Resize | hash_table/khash.h:244-306 | the size is the least power of two for the request; a size the entries do not fit below the load limit is refused with 0 and nothing changes; -1 comes back exactly when an allocation that is needed fails, and the map, flags and counts stay; otherwise, growing or shrinking, the same map is in that many buckets without tombstones |
| KHashTable.KHash.MoveFrom | hash_table/khash.h:270-293 | one chain of kick-outs ends, each turn having fewer old-live buckets, and the map is all there again |
| KHashTable.KHash.Place | hash_table/khash.h:277-292 | one turn of the kick-out loop keeps the partition and strictly reduces the old-live buckets or ends |
| KHashTable.KHash.FindFree | hash_table/khash.h:278-281 | the free-slot search ends, within bounds, at an empty bucket on the key's probe path |
| KHashTable.KHash.Shrink | hash_table/khash.h:295-298 | cutting the buffers to the new size loses no entry |
| KHashTable.RoomAfterResize | hash_table/khash.h:310-318 | the size that `kh_put` gets is the same or the double one, and for 2^31 buckets 4; the entries fit it with room to spare, unless there are 2^31 buckets already |
| KHashTable.SlotFound | hash_table/khash.h:319-335 | the bucket `kh_put` settles on is the key's own if it is present; else, with the probe going on to the first empty bucket or once round, it is the last tombstone met on the way, and without one where the probe ends; only when every bucket is live is it the bucket of another key |
| KHashTable.PutRuleAt | hash_table/khash.h:325-346 | the rule for a put of an absent key below the load limit, read at the first empty bucket of its path: with no tombstone before it the put returns 1 and that bucket, otherwise 2 and the last tombstone before it |
| KHashTable.KHash.Put | hash_table/khash.h:307-348 | the key is at the bucket returned unless, before the call, all of 2^31 buckets were live and the key absent, which gives 0 and the bucket of another key; -1 comes back exactly when the call has to resize to a size that is accepted and an allocation for it fails, and nothing changes; the return code tells present, new from empty and new from tombstone; without a resize a new key takes the last tombstone before the first empty bucket of its path, or that empty bucket if there is no tombstone; at the load limit the number of buckets becomes 4, stays or doubles as stated; below it no other bucket changes its flag, key or value |
| KHashTable.KHash.Delete | hash_table/khash.h:349-355 | exactly the key of a live bucket leaves the map and its bucket becomes a tombstone; anything else is ignored, and no other bucket changes |
| KHashTable.KHash.Assign | hash_table/khash.h:521 | a value stored through `kh_value` is the map's new value for the key of that bucket |
| KHashRuns.Perform | hash_table/khash.h:307-355 | each of put-and-assign, get, delete, clear and resize answers and changes the map as specified; a store fails exactly when a resize it needs is out of memory, and so does a request for a resize; a store of a new key into 2^31 live buckets overwrites the value of another key |
| KHashRuns.Replay | hash_table/khash.h:212-355 | every run of calls goes through maps that are related step by step in that way |
| KHashRuns.RunRefinesMap | hash_table/khash.h:212-355 | a run is a run of a finite map if and only if none of its stores meets 2^31 entries without its key |
| KHashRuns.FewKeysRefineMap | hash_table/khash.h:212-355 | a run over at most 2^31 different keys is a run of a finite map |
| KHashRuns.FillUp | hash_table/khash.h:307-348 | storing 2^31 different keys fills the table, and one more `kh_put` then returns 0 and the bucket of another key |
| KHashRuns.ReuseTombstone | hash_table/khash.h:325-333 | with keys that are their own hash values: put 0, put 4, delete 0 and put 8 give bucket 0, return code 2 and two occupied buckets |
| Handles.Append | client_server/uthash/src/uthash.h:188-199 | an item appended at the tail keeps the application order well linked both ways |
| Handles.Unlink | client_server/uthash/src/uthash.h:238-254 | removing an item bridges it over in both directions and keeps head and tail the true ends |
| Handles.PushBucket | client_server/uthash/src/uthash.h:630-634 | an item pushed on a chain keeps all chains well linked and counted |
| Handles.PullBucket | client_server/uthash/src/uthash.h:642-652 | an item taken out of a chain keeps all chains well linked and counted |
| Groups.GroupedSize | client_server/uthash/src/uthash.h:311-319 | the bucket counts add up to the number of items |
| Groups.BloomTest | client_server/uthash/src/uthash.h:142-143 | the filter test tells whether the bit of the hash value is set |
| Groups.BloomAdd | client_server/uthash/src/uthash.h:139-140 | adding sets the bit of its hash value and changes no other |
| Lengths.CeilDivision | client_server/uthash/src/uthash.h:694-696 | the shift-and-mask formula is the quotient rounded up |
| Lengths.MultipleBounds | client_server/uthash/src/uthash.h:707-708 | the multiplier of a chain is how many times the ideal length goes into its count |
| Lengths.ExcessCounts | client_server/uthash/src/uthash.h:705-706 | the sum of the counts above the ideal is the number of places at or beyond the ideal position of their chain |
| UtSort.TakeLeft | client_server/uthash/src/uthash.h:777-787 | the front of the left run, when not greater, is before everything left, ties in original order |
| UtSort.TakeRight | client_server/uthash/src/uthash.h:788-794 | the front of the right run, when strictly smaller, is before everything left |
| UtSort.CountRun | client_server/uthash/src/uthash.h:752-760 | the run of the given width, shorter only at the end of the list, and what follows it |
| UtSort.MergeRuns | client_server/uthash/src/uthash.h:761-806 | two neighbouring runs are merged in order onto the list being written, the rest of the list is untouched |
| UtSort.Pass | client_server/uthash/src/uthash.h:746-811 | a pass turns runs of width w into runs of width 2w, permutes the items, and leaves the list well linked |
| UtSort.SortList | client_server/uthash/src/uthash.h:736-821 | the whole sort ends with a well-linked list that is stably sorted, and its true ends |
| UtSort.OneRun | client_server/uthash/src/uthash.h:812-816 | when one merge covers the list, the list is a stably sorted permutation of the original |
| UtHashTable.UtHash.Find | client_server/uthash/src/uthash.h:106-117 | the first item with the key in the chain of its bucket, or null when no item has the key; the same with the Bloom filter and without, also when several items share a key |
| UtHashTable.UtHash.FindInBucket | client_server/uthash/src/uthash.h:614-625 | the walk down a chain returns the first item with the key |
| UtHashTable.UtHash.Fsck | client_server/uthash/src/uthash.h:290-340 | the integrity check passes exactly when all backward links mirror the forward ones and all counts agree |
| UtHashTable.UtHash.SelfCheck | client_server/uthash/src/uthash.h:290-340 | the integrity check passes on every valid table, the empty one included |
| UtHashTable.UtHash.MakeTable | client_server/uthash/src/uthash.h:153-170 | a new table has 32 empty buckets, no items, expansion switched on, and a filter of zero bytes |
| UtHashTable.UtHash.PlacedByMask | client_server/uthash/src/uthash.h:210-213 | an item is in the chain that masking its hash value gives, and in no other |
| UtHashTable.UtHash.Add | client_server/uthash/src/uthash.h:185-208 | the item comes last in application order and first in its chain, and the whole invariant holds again; if the add sets off no expansion the item is the one found for its key and no other lookup changes; if it does, every lookup finds the item that was last in its chain |
| UtHashTable.UtHash.AddToBucket | client_server/uthash/src/uthash.h:628-639 | the item heads the chain of its hash value, and the buckets double, with the chains an expansion makes, exactly when that chain has reached ten times one more than its multiplier and expansion is not switched off |
| UtHashTable.UtHash.Delete | client_server/uthash/src/uthash.h:227-260 | exactly that item leaves the application order and its chain, and the whole invariant holds again; only a lookup that found the item changes, to the next item with the key in the chain |
| UtHashTable.UtHash.Replace | client_server/uthash/src/uthash.h:175-183 | the item found for the key, if any, is removed and returned, and the new one comes last, even if it was in the table before |
| UtHashTable.UtHash.Sort | client_server/uthash/src/uthash.h:736-821 | the application order is stably sorted, and the table with its chains is as valid as before |
| UtHashTable.UtHash.Expand | client_server/uthash/src/uthash.h:683-729 | twice the buckets hold the same items in their places under the doubled mask, pushed in the order of the old chains; a lookup finds the item that was last in its chain before, and so the same item if and only if at most one item has the key; the ideal length is the number of items over that of buckets, rounded up; the overflow count is the number of items beyond the ideal position of their chain; the multiplier of a chain longer than the ideal is how many times the ideal goes into its length, and 0 for the others; the switch stops expansion after two expansions in a row that leave more than half of the items beyond |
| UtHashTable.UtHash.MoveChain | client_server/uthash/src/uthash.h:700-716 | every item of an old chain moves exactly once, front to back, to the front of its new chain, although its links are overwritten on the way |
| Lookups.ExpansionFindsLast | client_server/uthash/src/uthash.h:698-717 | what is first with a key after an expansion was last with it in its chain before |
| Lookups.ExpansionKeepsLookup | client_server/uthash/src/uthash.h:698-717 | an expansion keeps the lookup of a key if and only if at most one item has it |
| Lookups.ExpansionCanChange | client_server/uthash/src/uthash.h:698-717 | of two items added with one key the later one is found, and after an expansion the earlier one |
| Lookups.AddLookups | client_server/uthash/src/uthash.h:628-639 | what adding an item does to the lookup of every key, with and without an expansion |
| Lookups.DeleteLookups | client_server/uthash/src/uthash.h:642-652 | what deleting an item does to the lookup of every key |
| UtHashRuns.FoundIsLookup | client_server/uthash/src/uthash.h:106-117 | with unique keys, what a find promises is lookup in the map of items by key |
| UtHashRuns.AppendIsUpdate | client_server/uthash/src/uthash.h:185-208 | adding an item with a new key updates that map |
| UtHashRuns.WithoutIsRemoval | client_server/uthash/src/uthash.h:227-260 | deleting an item removes its key from that map |
| UtHashRuns.ReplaceIsUpdate | client_server/uthash/src/uthash.h:175-183 | replacing updates that map and keeps keys unique |
| UtHashRuns.Lookup | client_server/uthash/src/uthash.h:106-117 | find is map lookup and changes neither map nor order |
| UtHashRuns.Update | client_server/uthash/src/uthash.h:175-183 | replace is map update, returns the previous item, and puts the new one last |
| UtHashRuns.Replay | client_server/uthash/src/uthash.h:106-260 | every run of adding, replacing, finding, deleting by key and by item, and sorting, with one item a key, keeps the invariant and goes through orders that are related step by step as specified |
| UtHashRuns.RunFollowsMap | client_server/uthash/src/uthash.h:106-260 | over such a run the map from keys to items and all answers are those of a finite map |
| UtHashRuns.Extend | client_server/uthash/src/uthash.h:185-208 | add of a new key is map update and puts the item last |
| UtHashRuns.RemoveItem | client_server/uthash/src/uthash.h:227-260 | delete of an item of the table is map removal and keeps the order of the others |
| UtHashRuns.SortBy | client_server/uthash/src/uthash.h:736-821 | sorting leaves the map as it is and sorts the order stably |
| UtHashRuns.Remove | client_server/uthash/src/uthash.h:227-260 | find and delete are map removal and keep the order of the others |
| UtHashRuns.ExpansionKeepsMap | client_server/uthash/src/uthash.h:683-729 | with one item a key, no lookup changes in an expansion |
| UtHashRepeats.LookupChanges | client_server/uthash/src/uthash.h:628-639 | for every hash function and filter: of items added with one key, the ninth is found before the tenth is added, the first one after it, and the eleventh after that is added, still with 64 buckets |
| UtHashRepeats.ReplayAll | client_server/uthash/src/uthash.h:106-260 | every run of adding, replacing, finding, deleting and sorting, in which keys may be repeated, keeps the invariant and goes through orders that are related step by step as specified |
| Stacks.Stack.Push | c++/src/stack.cpp:19-26 | a push adds on top, and is dropped on a full stack |
| Stacks.Stack.Pop | c++/src/stack.cpp:27-33 | a pop takes the top off, and gives -1 on an empty stack |
| Graphs.Queue.Enqueue | c++/src/graph.cpp:37-43 | an entry goes to the end, and is dropped by a full queue |
| Graphs.Graph.AddVertex | c++/src/graph.cpp:83-86 | the next vertex gets the label and is not visited; the edges stay |
| Graphs.Graph.AddEdge | c++/src/graph.cpp:87-90 | exactly the edge between the two vertices is added, both ways |
| Graphs.Queue.Dequeue | c++/src/graph.cpp:44-55 | the front leaves and the rest keeps its order, and an empty queue gives -1 |
| Graphs.Graph.GetAdjUnvisitedVertex | c++/src/graph.cpp:91-97 | the lowest-numbered unvisited neighbour, or -1 if there is none |
| GraphSpec.UnwindPush | c++/src/graph.cpp:105-110 | pushing the first open neighbour displays what the recursive search from the top of the stack would display next |
| GraphSpec.DfsCloses | c++/src/graph.cpp:98-115 | the recursive search leaves no open neighbour behind |
| GraphSpec.SearchMeetsReachable | c++/src/graph.cpp:98-115 | the recursive search displays exactly the reachable vertices, each once |
| SearchOrder.NextDeepens | c++/src/graph.cpp:105-110 | what is pushed is the lowest new neighbour of the vertex displayed last of those that have a new neighbour |
| SearchOrder.OneDepthFirstOrder | c++/src/graph.cpp:98-115 | only one list begins with a given vertex, goes on in that way and ends when no vertex has a new neighbour |
| Graphs.Graph.DepthFirstSearch | c++/src/graph.cpp:98-115 | the loop over the stack ends, never overflows or underflows it, and displays the vertices reachable from vertex 0 each once, beginning with it, in the order of the recursive lowest-index-first search; each is the lowest new neighbour of the vertex displayed last of those that have one |
| GraphSpec.FoundOne | c++/src/graph.cpp:122-127 | displaying and queueing an open neighbour of the front keeps the displayed vertices ordered by distance, at most one apart from the front |
| GraphSpec.MetWithin | c++/src/graph.cpp:116-132 | when the queue is empty, every vertex with a path of d edges has been met at distance at most d |
| SearchOrder.TurnFound | c++/src/graph.cpp:122-127 | displaying the lowest new neighbour of the front keeps the displayed vertices in the order of the positions from which they can first be entered, by number from the same position |
| SearchOrder.OneBreadthFirstOrder | c++/src/graph.cpp:116-132 | only one list of the same vertices with the same beginning is in that order |
| Graphs.Graph.BreadthFirstSearch | c++/src/graph.cpp:116-132 | the loop over the queue ends, never overflows or underflows it, and displays exactly the vertices reachable from vertex 0, each once, beginning with it, by non-decreasing shortest distance, and in the order of the positions from which they can first be entered, lower numbers first from the same position |
| GraphExample.SearchExample | c++/src/graph.cpp:136-156 | of the graph in the program's `main`, the depth-first search displays S A D B C and the breadth-first one S A B C D |
| Hanoi.MoveOnPegs | c++/src/hanoi_tower.cpp:20 | a legal move takes its disk off the end of one peg and puts it at the end of another |
| Hanoi.MoveTop | c++/src/hanoi_tower.cpp:20 | the value popped is the disk to be moved, no push is dropped, and the three stacks hold the new configuration |
| Stacks.Stack.Display | c++/src/stack.cpp:41-47 | display prints the values from the bottom to the top |
| Hanoi.MoveOne | c++/src/hanoi_tower.cpp:20-27 | after a move the stacks hold the next configuration, and the printed disk, names and contents of the three stacks are those of that configuration, each stack strictly ordered |
| Hanoi.MoveDisk | c++/src/hanoi_tower.cpp:6-29 | the tower moves from source to destination by a legal play of 2^(disk+1) - 1 moves; what is displayed after move i is configuration i + 1 of that play, every peg strictly ordered, and the stacks end up as its last configuration |
| Hanoi.Solve | c++/src/hanoi_tower.cpp:31-45 | for any number of disks, all end up on the second stack in their original order, by such a play of 2^n - 1 moves |
| Hanoi.OneMoveCloser | c++/src/hanoi_tower.cpp:6-29 | no legal move brings a configuration closer to its goal by more than one |
| Hanoi.NoShorterPlay | c++/src/hanoi_tower.cpp:6-29 | no legal play moves a tower in fewer moves, whatever the larger disks do |
| Hanoi.SolveIsShortest | c++/src/hanoi_tower.cpp:31-45 | no legal play that moves all disks over has fewer than 2^n - 1 moves |
| Trees.LevelLeftToRight | binaryTree/traversal.cpp:10-39 | a level lists the values at the ends of all paths of its length, one for each, the path that turns left where two part before the one that turns right |
| Trees.OneLine | binaryTree/traversal.cpp:10-39 | there is only one such list |
| Traversal.LinesAreLevels | binaryTree/traversal.cpp:10-39 | line k of the queue traversal is level k, the values at the ends of all paths of k turns from left to right, and there are as many lines as levels |
| Traversal.EachOnce | binaryTree/traversal.cpp:10-39 | the lines hold every value exactly as often as the tree does |
| Traversal.PrintTopToBottom | binaryTree/traversal.cpp:10-39 | the loop with its two counters prints the levels from left to right, for every tree, and every value as often as the tree has it |
| Traversal.ZigZagIsZigZag | binaryTree/traversal.cpp:41-77 | position by position, line k is level k, from left to right if k is even and from right to left if it is odd |
| Traversal.ZigZagEachOnce | binaryTree/traversal.cpp:41-77 | the zig-zag lines hold every value exactly as often as the tree does |
| Traversal.PrintZigZag | binaryTree/traversal.cpp:41-77 | the loop over the two stacks never takes the top of an empty one and prints the levels with odd ones reversed, for every tree, and every value as often as the tree has it |
| Traversal.PrintExample | binaryTree/traversal.cpp:79-97 | of the program's own tree the lines are 8 / 6 10 / 5 7 9 11, and 8 / 10 6 / 5 7 9 11 in zig-zag |
| CondVar.RunKeeps | pthread_wait/main.c:14-64 | every reachable state of every interleaving, spurious wake-ups included, has mutual exclusion, no lost wake-up, and a counter equal to all increments plus 125 a wake-up |
| CondVar.Choices | pthread_wait/main.c:14-64 | in every reachable state a thread can lock if and only if the mutex is free and it has rounds left, a watcher that starts or has woken if and only if the mutex is free, and a waiting watcher can wake, signal or not |
| CondVar.Round | pthread_wait/main.c:19-38 | whatever has happened so far, with the mutex free any thread with rounds left can have the next round |
| CondVar.SpuriousTurn | pthread_wait/main.c:56-61 | a waiting watcher can wake without a signal, add 125 and test again |
| CondVar.EveryOrder | pthread_wait/main.c:14-64 | for every list in which each thread occurs once a round, and every place in it for the watcher to start, some run has its locks in that order, the watcher starting there, and ends with all rounds done |
| CondVar.FinalCount | pthread_wait/main.c:14-64 | when all threads are through, the counter is threads times rounds plus 125 a wake-up |
| CondVar.FewWakeups | pthread_wait/main.c:27-28 | the threshold is signalled at most once, and the wake-ups before the last add up to less than the limit |
| CondVar.WakeupsHaveCauses | pthread_wait/main.c:56-61 | the watcher wakes up at most once for the signal and once for each spurious wake-up |
| CondVar.RunsEnd | pthread_wait/main.c:14-64 | no run is longer than a bound given by the program's constants, spurious wake-ups included |
| CondVar.Progress | pthread_wait/main.c:14-64 | a step other than a spurious wake-up can be taken in every reachable state unless all threads are through or the watcher sleeps below the limit with nothing left to count |
| CondVar.EnoughCanFinish | pthread_wait/main.c:14-64 | with enough increments every run, wherever it stands, can be carried on to the end without a spurious wake-up |
| CondVar.TooFewStrand | pthread_wait/main.c:56-57 | with too few increments some run leaves the watcher asleep with only a spurious wake-up to free it |
| CondVar.FinishesIffEnough | pthread_wait/main.c:14-64 | every run can be finished if and only if the increments can reach the limit |
| CondVar.AsCompiled | pthread_wait/main.c:5-7 | with the constants of the program every run can be finished, and a finished one has counted to 20 or 145 |
| Checksum.OnesSumIsResidue | checksum/main.c:22-44 | the one's complement sum of RFC 1071 depends only on the plain sum of the words |
| Checksum.OddByteIsPadded | checksum/main.c:33-37 | an odd last byte adds what it would with a zero byte after it |
| Checksum.RfcExample | checksum/main.c:28-32 | the eight bytes of section 3 of RFC 1071 add up to the sum given there, byte-swapped |
| Checksum.FoldedIsResidue | checksum/main.c:39-40 | the two folds give the one's complement value exactly when the second does not carry out of 16 bits |
| Checksum.TwoFoldsSuffice | checksum/main.c:39-40 | for sums up to that of 65538 words, and so for all sums below 2^32, they always do |
| Checksum.CorrectExactly | checksum/main.c:22-44 | for every buffer whose length fits an `int`, the checksum is the one of RFC 1071 if and only if the second fold does not carry |
| Checksum.CorrectUpTo | checksum/main.c:22-44 | for every length that fits an `int`: all buffers of that length are summed as RFC 1071 says if and only if it is at most 131076 bytes |
| Checksum.CanFail | checksum/main.c:22-44 | 131076 bytes 0xff, a byte 1 and any number of zeros are summed wrongly |
| Checksum.ComputeCsum | checksum/main.c:22-44 | the loop over words, the odd last byte and the folds compute that checksum |
| Checksum.OrderIndependent | checksum/main.c:28-32 | the order of the words does not matter |
| Checksum.ByteOrderIndependent | checksum/main.c:28-32 | on a machine of the other byte order the sum comes out byte-swapped, section 2(B) of RFC 1071 |
| Checksum.StoredChecksumVerifies | checksum/main.c:22-44 | storing the checksum in an aligned zero word makes the checksum of the whole 0 if and only if the stored checksum was correct; up to 131078 bytes, two of them zero, it always is |

## Left out

- The concrete hash functions of khash and uthash: hash functions are arbitrary, and so are key types; keys are compared by equality, not byte by byte over a length.
- khash as a set (`kh_is_map` 0), iteration macros and `kh_destroy`: they add only easy members.
- khash's memory management beyond success or failure of each allocation; shrinking `krealloc` is taken to succeed, as the code takes it.
- The floating-point load factor of khash: `n * 0.77 + 0.5` truncated is taken as the rational `(77 n + 50) / 100` rounded down.
- uthash's counters are unbounded: 32-bit overflow of item counts, bucket counts and run widths is not modelled; a failed allocation, fatal in the code, does not happen.
- uthash's handle offset (`hho`): an item and its handle are one object.
- UtHashRuns.Replay: its runs have one item a key; `UtHashRepeats.ReplayAll` is for repeated keys, and leaves open which of several items with one key a call returns or removes (`Find`, `Add`, `Delete` and `Expand` settle that).
- UtHashRepeats.ReplayAll: the caller adds only items that are not in the table and deletes only items that are, as the macros need.
- UtHashTable.UtHash.Fsck: asks that the forward links come to an end, without which the macro does not return; the message it prints is a boolean.
- `HASH_SELECT`: it appends to the destination without moving its `tail` or setting filter bits, so the invariant of adding does not carry over.
- `HASH_CLEAR`, `HASH_COUNT`, `HASH_OVERHEAD`, `HASH_ITER`, Bloom filter signatures and event emission.
- The stacks, queue and graph are modelled as constructed with a capacity; the adjacency matrix is taken as zeros at construction, and what is displayed is the list of vertex numbers.
- Graphs.Graph.DepthFirstSearch: the graph has room for vertex 0, as the code needs; the vertices marked by an earlier search stay closed, as in the code.
- Traversal on shared or cyclic structures: a tree is a value; the queue and the two stacks of the C++ library are sequences.
- CondVar: the counter is unbounded; the calls on mutex and condition variable succeed; thread creation and joining in `main` are not steps.
- Checksum: two-byte loads are little-endian, and `long` is wide enough for the sum, as a 64-bit one is.
- Paxos in `static_library`: only its headers are there, its code is a prebuilt library. `static_library/include/khash.h` is the same table as the one modelled.
- The socket, event-loop, database, packet-capture and scripting programs: input and output around libraries that are not part of this model.
- Sorting, searching, duplicate removal, matrices, simple trees and language demonstrations are not modelled.
