# Smashtable: models and proofs

This project models the data structures and protocols of smashtable in Dafny 4.11 and proves what they are
for. `dafny verify dfyconfig.toml` checks all of it.

| part | files |
|---|---|
| packed slot headers, the slot lock, capacity arithmetic | `SlotHeader.dfy`, `HeaderScan.dfy`, `Capacity.dfy` |
| what both hash tables share: probe runs and the map they stand for | `ProbeRuns.dfy` |
| the pinned table under any number of threads | `PinnedTable.dfy`, `PinnedInvariant.dfy`, `PinnedLinearizability.dfy`, `PinnedRefinement.dfy`, `PinnedSafety.dfy` |
| the growable table, and storage going between the two | `GrowableTable.dfy`, `GrowableRuns.dfy` |
| search trees as values | `OrderedTrees.dfy`, on `Basics.dfy` |
| the weight-balanced tree, on values, in memory, with order statistics, as a container | `WeightBalance.dfy`, `WbTree.dfy`, `WbOrderStatistics.dfy`, `WbContainer.dfy` |
| the AVL tree, on values and in memory, with its merges, walks and batches | `HeightBalance.dfy`, `ErasedBalance.dfy`, `InsertionRuns.dfy`, `Batches.dfy`, `AvlMerging.dfy`, `AvlTree.dfy`, `AvlErasing.dfy`, `AvlMergeInPlace.dfy`, `AvlSpines.dfy`, `AvlWalk.dfy`, `AvlContainer.dfy` |
| the transaction group | `TransactionGroup.dfy`, `TransactionRuns.dfy`, `TransactionExits.dfy`, `OpeningGroup.dfy` |
| the ordered cursor | `OrderedCursor.dfy` |

## Where to start

* **Linearizability.** `PinnedTable.Step` is one atomic access of one thread of `find`, `emplace`, `update` or
  `erase`. It runs over either form of the header memory: the real 64-bit headers with one staged copy a
  thread, or named cells with owners. `PinnedInvariant.StepKeepsInv` is the invariant,
  `PinnedLinearizability.StepLinearizes` finds the instant at which each call takes effect, and
  `PinnedRefinement.EveryHeaderRunIsLinear` brings the result back to the real headers.
  `LinearRuns.CallIsLinearizable` and `LinearRuns.RealTimeOrderIsKept` say what that means for a caller, and
  `LinearRuns.AnswersAreOfLastWrites` what the answers are, without the sequential map. The
  sequential object is a finite map with a budget of fresh keys: erasing a key does not give its slot back, so
  "capacity exhausted" means the key is absent and no slot is free.
* **Finite-map refinement.** `GrowableRuns.Replay` drives the growable table through any calls while the
  allocator refuses at will; what is refused, and how many slots and tombstones each call leaves, is part of the
  result. `StorageExchange.Reclaim` takes over what a concurrent phase left.
* **Trees.** Each algorithm exists twice: as a function on tree values, whose lemmas carry order, contents and
  balance, and as a method that relinks nodes in place and is proved to leave exactly the shape that function
  computes, with exact sizes (weight-balanced) or exact heights and parent links (AVL). The AVL container is
  proved over trees of whatever balance, since `erase_if` may leave any; its `Valid` is a search tree with exact
  links and `Balanced` comes on top.
* **Groups.** `TransactionGroups.After` is one locked pass over the participants; `StageMeans`,
  `CommitIsAllOrNothing`, `CommitIsInTurn`, `RollbackMeans` and `DiscardingMeans` say participant by participant what
  it leaves; the class runs the passes as loops and is proved to do exactly that; `TransactionRuns` is about runs of passes from any threads, and
  `TransactionExits` about a `with` block that others interrupt.
* **Cursor.** `OrderedCursors.Walk` steps a cursor while an arbitrary store is put in place before each step.

## Assumptions

* The comparator is a strict total order and equal keys hash equally. Tree keys are therefore integers; hash
  keys are an abstract type with equality and an arbitrary hash function.
* Atomic operations are single, sequentially consistent steps.
* An allocation is granted or refused at will. A bucket takes at least 72 bytes: its header's 8, and a
  region of keys that is rounded up to 64 even for one-byte keys.
* Slot counts and counters of the hash tables have 64 bits; the counters that threads share wrap.
* The growable table's headers are modelled as an array of slot states; `StorageExchange.MarkedInPlace` shows
  that writing one element of it is what marking a slot of the packed headers does.
* Whether a node counts in the augmented size is carried in the entry it stores.
* A participant of a group is pending or staged, holds pending writes and has published rounds; what its store
  answers is a parameter of every pass. Committing one participant publishes all of it or nothing. A store may
  also fail to give back what it staged; results that need every rollback to be whole say so.
* Container ordinals are unique, and sorting by them leaves some order in which none falls.

## Where the code parts from its comments, or from what a caller may expect

* `erase_if` of the AVL tree leaves survivors where they are, so balance may go (`ErasedBalance.EraseIfCanUnbalance`).
  `ErasedBalance.EraseIfBalancedExactly` says exactly when it stays, `ErasedBalance.EvenIsEnough` gives a condition on
  heights alone, and `ErasedBalance.EraseIfNotTaller` bounds what is left in every case. Contents, order, links and
  heights are exact.
* After such an erasure an insertion may rotate through a child that is not there
  (`ErasedBalance.ErasureCanStrandInsert`), since it picks its rotation by comparing keys.
  `InsertionRuns.InsertRunsOnLeft` and `InsertionRuns.InsertRunsOnRight` say exactly when, level by level. Calls that
  insert therefore ask that the tree admits the key, which every balanced tree does; no other call asks for anything.
* The AVL batches say that duplicate keys are updated. That holds against the tree; inside a batch the first
  of equal keys wins (`Batches.FirstWins`), which shows exactly when `Batches.FirstWinsIsLastWins` says.
* A cursor discards the status of its lookup, so a refused lookup ends the walk as if no key were left
  (`OrderedCursors.RefusalCanMiss`). `OrderedCursors.Walk` says exactly which walks still miss nothing. The
  reference, monotonic and snapshot stores never refuse such a lookup, so over them every walk that ends is complete.
* The rehash trigger multiplies before it divides, so past three quarters of 2^62 elements it wraps below the
  request (`Capacity.ThresholdCoversRequest`); no such table is ever allocated (`Capacity.AcceptedIsSmall`).
* The growable table keeps three quarters of its slots as its load, but an explicit resize is only refused below the
  live count: a resize to fewer slots than four thirds of it goes through and overfills the table
  (`GrowableRuns.ResizeCanOverfill`). `GrowableRuns.AnswerKeepsLoad` and `GrowableRuns.RunStaysWithinLoad` say that
  this is exactly how the load is passed.
* The exit of a `with` block closes its handle before it commits, so that no write lands in between. That holds
  unless another thread unstages the group after the stage (`TransactionExits.RollbackCanStrand`):
  `TransactionExits.ExitStrandsExactly` says when writes are left that nobody can publish.
* A `with` block whose commit is refused closes its handle and discards nothing: what it staged can still be
  committed or rolled back, once (`TransactionRuns.ClosedHandlePublishesAtMostOnce`).

## Model

| member | source | states |
|---|---|---|
| `SlotHeader.LockTakesSlot` | include/smashtable/hash_layout.hpp:453-461 | one fetch_or leaves the slot locked; it is taken exactly if it was not locked before, and what the thread keeps is precisely the slot's former two bits |
| `SlotHeader.LockSparesOthers` | include/smashtable/hash_layout.hpp:453-461 | a fetch_or, whether it takes the slot or spins, changes the state of no other slot of the header |
| `SlotHeader.UnlockPublishesStaged` | include/smashtable/hash_layout.hpp:464-483 | one fetch_xor takes a locked slot to exactly the state its holder staged |
| `SlotHeader.UnlockSparesOthers` | include/smashtable/hash_layout.hpp:464-483 | that fetch_xor changes the state of no other slot, whatever the other holders do |
| `SlotHeader.MarksStage` | include/smashtable/hash_layout.hpp:439-443 | marking a slot stages that state and keeps the staged header confined to the two owned bits |
| `HeaderScan.DirectMarkIsLocal` | include/smashtable/hash_layout.hpp:118-127 | marking a slot in place gives it that state and leaves every other slot alone |
| `HeaderScan.ForEachInBucket` | include/smashtable/hash_layout.hpp:500-518 | the bit-scanning loop hands out exactly the live slots of a bucket, in order, or a prefix of them of the visitor's length when it halts |
| `PinnedTable.Step` | include/smashtable/atomic_hash_table.hpp:307-405 | one atomic access of one thread of find, emplace, update or erase; no step touches another thread's program counter or the table's size |
| `PinnedInvariant.StepKeepsInv` | include/smashtable/atomic_hash_table.hpp:307-405 | every step of every thread keeps: no key live twice, every slot between a live key's home and its slot in use, one holder a slot, every thread's knowledge still true, both counters balanced |
| `PinnedInvariant.RunKeepsInv` | include/smashtable/atomic_hash_table.hpp:307-405 | so does every run under every schedule |
| `PinnedInvariant.StepEvolves` | include/smashtable/atomic_hash_table.hpp:349-402 | a step moves slots only free to populated to deleted, never changes the key of a used slot, and touches nothing another thread holds |
| `PinnedInvariant.StepKeepsCounters` | include/smashtable/atomic_hash_table.hpp:285-295 | each shared counter plus the adjustments in flight equals the true number of slots, modulo the width of the counter |
| `PinnedInvariant.FreeSlotMeansAbsent` | include/smashtable/atomic_hash_table.hpp:341-344 | a thread standing on a free slot at the end of its walk knows its key is in no slot of the table |
| `PinnedLinearizability.StepLinearizes` | include/smashtable/atomic_hash_table.hpp:307-405 | each step either is the instant its call takes effect, with exactly the sequential map's new ledger and answer, or is invisible |
| `PinnedLinearizability.EveryRunIsLinear` | include/smashtable/atomic_hash_table.hpp:307-405 | every interleaving of any number of threads is a linear run of the sequential map with finitely many fresh keys |
| `PinnedLinearizability.GivesUpAfterFullTurn` | include/smashtable/atomic_hash_table.hpp:346-347 | a call that has walked the whole table answers missing, not found or capacity exhausted exactly as the sequential map does: the key is absent and no slot was ever left free |
| `LinearRuns.CallIsLinearizable` | include/smashtable/atomic_hash_table.hpp:307-405 | a completed call has exactly one instant between its start and its return at which it took effect, and its answer is the sequential map's at that instant |
| `LinearRuns.HistoryReplays` | include/smashtable/atomic_hash_table.hpp:307-405 | the calls in the order they took effect are a history the sequential map replays answer by answer, ending where the run ends |
| `LinearRuns.AnswersAreOfLastWrites` | include/smashtable/atomic_hash_table.hpp:307-405 | every answer in a run is about the last call of any thread that decided its key: a find is told what that wrote, an update and an erasure succeed just if it did not erase, and an insertion is refused just if the key is not there and as many keys have come in as there was room for |
| `LinearRuns.RealTimeOrderIsKept` | include/smashtable/atomic_hash_table.hpp:307-405 | a call that returned before another began comes first in that history |
| `PinnedRefinement.StepMirrors` | include/smashtable/hash_layout.hpp:453-483 | a step on the real 64-bit headers with staged copies is a step on named cells with owners |
| `PinnedRefinement.AdoptionMirrors` | include/smashtable/atomic_hash_table.hpp:151-157 | an adopted, quiet storage satisfies the invariant of the pinned table |
| `PinnedRefinement.EveryHeaderRunIsLinear` | include/smashtable/atomic_hash_table.hpp:307-405 | every run over the real headers, from any adopted storage and under any schedule, is linear, with phases read off the real program counters |
| `PinnedSafety.SlotsOnlyMoveForward` | include/smashtable/atomic_hash_table.hpp:356-361 | over any stretch of any run no slot becomes free again, no tombstone is reused, no live slot changes its key, and the layout stays intact |
| `PinnedSafety.HoldersExclude` | include/smashtable/hash_layout.hpp:453-461 | no two threads hold one slot, so no two are ever about to touch the same key or value |
| `PinnedSafety.SpinningChangesNothing` | include/smashtable/hash_layout.hpp:455-460 | a spinning turn of the lock loop changes no header, payload or counter |
| `PinnedSafety.HolderCanStep` | include/smashtable/atomic_hash_table.hpp:356-361 | whoever a spinning thread waits for holds the slot and can itself take a step: nobody waits while holding |
| `PinnedSafety.StepsAreBounded` | include/smashtable/atomic_hash_table.hpp:319-344 | every non-spinning step of a call strictly reduces a measure of at most 12 n + 12, whatever the other threads do |
| `PinnedSafety.EveryCallCanReturn` | include/smashtable/atomic_hash_table.hpp:307-405 | from every state that meets the invariant some schedule of at most 12 n + 12 steps a thread brings every call to its return and begins none |
| `PinnedSafety.EveryRunCanBeHandedBack` | include/smashtable/atomic_hash_table.hpp:149-157 | so any run over the real headers, stopped anywhere, can go on to a storage that either table may adopt |
| `PinnedSafety.IdleCountersAreExact` | include/smashtable/atomic_hash_table.hpp:389-398 | once every call has returned both counters are exactly the numbers of live slots and tombstones |
| `PinnedSafety.QuiescentIsAdoptable` | include/smashtable/atomic_hash_table.hpp:149 | after any run whose calls have all returned no slot is locked and the headers, keys and counters form a storage that may be adopted again |
| `BitArithmetic.MaskIsRemainder` | include/smashtable/atomic_hash_table.hpp:314-315 | masking with a power of two less one is the remainder, so the mask stays inside the table |
| `BitArithmetic.ClearLowestIsZero` | include/smashtable/hash_layout.hpp:180-182 | `x & (x - 1)` is zero exactly for powers of two |
| `Capacity.RoundupIsLeast` | include/smashtable/shared.hpp:1436-1443 | roundup_to_pow2 is the least power of two not below its argument, and 0 exactly when no 64-bit one exists |
| `Capacity.AddressableMeansPow2` | include/smashtable/hash_layout.hpp:180-182 | is_addressable accepts exactly zero and the powers of two of at least one bucket |
| `Capacity.AcceptedIsSmall` | include/smashtable/hash_layout.hpp:595-619 | a count make accepts is at most 2^62, so its threshold is exactly three quarters of it |
| `Capacity.ThresholdCoversRequest` | include/smashtable/hash_layout.hpp:159-170 | a request of at most 2^62 - 1 elements is rounded to an addressable power of two and a larger one to a count that is rejected; the threshold of that count covers the request exactly up to three quarters of 2^62, and wraps below it beyond |
| `Capacity.GrowthDoubles` | include/smashtable/hash_layout.hpp:159-170 | a request past the threshold of a table rounds to at least twice its slots |
| `Capacity.SlotsFromSlotsIsLeast` | include/smashtable/hash_layout.hpp:172-178 | a request for slots up to 2^63 gets the least power of two that is 32 or more and covers it, nothing asked gets nothing, and only a larger request is unrepresentable |
| `Capacity.SlotsForElementsIsLeast` | include/smashtable/hash_layout.hpp:159-170 | a request for up to 2^62 - 1 elements gets the least power of two that is 32 or more and covers four thirds of them, none asked gets none, and only a larger request is unrepresentable |
| `Capacity.AllocatableMeans` | include/smashtable/hash_layout.hpp:595-619 | make asks the allocator exactly for the powers of two of 32 or more slots whose bytes 64 bits can count |
| `Capacity.RoomIsExactly` | include/smashtable/hash_layout.hpp:159-170 | what a request for elements is rounded to can be allocated if and only if some count of slots that covers them can |
| `GrowableTable.HashTable.constructor` | include/smashtable/hash_layout.hpp:595-619 | make gives an empty table of the asked slots exactly if memory is granted, they are a power of two of 32 or more, and their bytes fit in 64 bits; otherwise one without slots |
| `GrowableTable.HashTable.Adopt` | include/smashtable/basic_hash_table.hpp:412-420 | adopting a sound storage, full ones included, gives a valid table over the same map |
| `GrowableTable.HashTable.ProbeToFind` | include/smashtable/basic_hash_table.hpp:486-522 | finds the slot of a key exactly if the map has it |
| `GrowableTable.HashTable.ProbeToVisit` | include/smashtable/basic_hash_table.hpp:534-570 | hands over the live slots whose key matches in probe order: all of them, or as many of the first as the visitor has patience for |
| `GrowableTable.HashTable.Fill` | include/smashtable/basic_hash_table.hpp:624-651 | building a key in the first unused slot of its run adds that pair to the map and keeps both counters exact |
| `GrowableTable.HashTable.ProbeToInsert` | include/smashtable/basic_hash_table.hpp:624-651 | inserts a key known to be absent into the first tombstone or free slot of its run, and finds no slot exactly when every slot is live |
| `GrowableTable.HashTable.ProbeToUpsert` | include/smashtable/basic_hash_table.hpp:662-722 | files the pair and reports inserted or updated; it finds no slot exactly when the key is new and every slot is live |
| `GrowableTable.HashTable.Erase` | include/smashtable/basic_hash_table.hpp:1159-1176 | removes the key if present, leaving a tombstone, and says whether it was |
| `GrowableTable.HashTable.Clear` | include/smashtable/hash_layout.hpp:674-680 | drops every element and keeps the buffer |
| `GrowableTable.HashTable.MoveToNew` | include/smashtable/basic_hash_table.hpp:1282-1303 | moves every element to a fresh buffer without tombstones and leaves this table as it was when the buffer cannot be had |
| `GrowableTable.HashTable.ForceResize` | include/smashtable/basic_hash_table.hpp:1215-1221 | a resize keeps the map whatever the allocator does; a reallocation drops every tombstone |
| `GrowableTable.HashTable.Reserve` | include/smashtable/basic_hash_table.hpp:1196-1199 | grows exactly when the request is past the threshold and the buffer can be had, then to exactly the rounded slots, at least doubling; otherwise changes nothing |
| `GrowableTable.HashTable.ReserveForAbsentKey` | include/smashtable/basic_hash_table.hpp:344-354 | moves nothing exactly when the key is present or fits the load, fails exactly when the growth an absent key needs cannot be had, and otherwise leaves the key room within the load |
| `GrowableTable.HashTable.Upsert` | include/smashtable/basic_hash_table.hpp:1092-1118 | stores the pair, a new one never past the load; refuses, with nothing changed, exactly a new key past three quarters of the slots for which memory is refused or no power of two of 32 or more slots that covers four thirds of the elements has bytes that 64 bits can count; never reports an exhausted capacity; both counters and the slots are left exact, the tombstones one fewer just if the probe meets one before any free slot |
| `GrowableTable.HashTable.ShrinkToFit` | include/smashtable/basic_hash_table.hpp:1246-1251 | keeps the map whatever the allocator does, and shrinks to what the elements need unless a buffer is needed and cannot be had |
| `GrowableTable.HashTable.Rehash` | include/smashtable/basic_hash_table.hpp:1266-1270 | keeps the map; whether it moves hangs exactly on a buffer for the larger of what was asked for and what is stored, which it then leaves without a tombstone |
| `GrowableTable.MadeMeans` | include/smashtable/hash_layout.hpp:595-619 | a buffer is had exactly if it is granted and is a power of two of 32 or more slots whose bytes 64 bits can count |
| `GrowableTable.StarvedMeans` | include/smashtable/basic_hash_table.hpp:344-354 | a growth fails exactly past three quarters of the slots, if memory is refused or no count of slots that would do fits |
| `GrowableTable.RehashTargetIsLeast` | include/smashtable/basic_hash_table.hpp:1266-1270 | a rehash asks for the least power of two that is 32 or more and covers both the slots asked for and four thirds of the live pairs, or for none if both are zero |
| `GrowableTable.FillKeepsSound` | include/smashtable/basic_hash_table.hpp:486-722 | filling the first unused slot, tombstone or free, keeps every probe run, both counters and adds exactly one pair |
| `GrowableTable.TombstoneKeepsSound` | include/smashtable/basic_hash_table.hpp:1159-1176 | burying a live slot keeps every probe run, both counters and removes exactly one pair |
| `GrowableTable.FullTurnFindsAll` | include/smashtable/basic_hash_table.hpp:534-570 | a full turn of a probe run visits exactly the live slots whose key matches |
| `GrowableTable.NoneBeyond` | include/smashtable/basic_hash_table.hpp:534-570 | a run that has met a free slot has no match beyond it |
| `GrowableTable.GrowthFits` | include/smashtable/basic_hash_table.hpp:1196-1221 | the buffer asked for by a growth is accepted by make, at least doubles and covers the planned elements, whenever it is addressable |
| `GrowableRuns.Perform` | include/smashtable/basic_hash_table.hpp:1092-1270 | one call of any kind is one call on a finite map with a load: the reply, every refusal and the slots left are what the map, the load and the allocator's answer make them |
| `GrowableRuns.Replay` | include/smashtable/basic_hash_table.hpp:1092-1270 | every run of calls under every pattern of grants and refusals is explained so, step by step, from the table's first load to its last |
| `GrowableRuns.AnswerKeepsLoad` | include/smashtable/basic_hash_table.hpp:344-354 | within the load, a call keeps the load of three quarters of the slots, tombstones counted, if and only if it is no overfilling resize: nothing else is too deep a fill or too tight a shrink, and such a resize always is |
| `GrowableRuns.ResizeKeepsLoadExactly` | include/smashtable/basic_hash_table.hpp:1215-1221 | an explicit resize keeps the load exactly if it is refused or the live pairs are within the threshold of the slots asked for |
| `GrowableRuns.OverfillsMeans` | include/smashtable/basic_hash_table.hpp:1215-1221 | that is, a resize overfills exactly if its buffer is had, holds the live pairs, and holds them at more than three quarters |
| `GrowableRuns.RunStaysWithinLoad` | include/smashtable/basic_hash_table.hpp:1092-1270 | over a whole run the load is kept throughout if and only if none of its resizes overfills the table it finds |
| `GrowableRuns.ResizeCanOverfill` | include/smashtable/basic_hash_table.hpp:1215-1221 | a resize that does overfill: 32 live pairs into 32 slots |
| `StorageExchange.ReleasedIsAdoptable` | include/smashtable/atomic_hash_table.hpp:148-157 | any storage the growable table holds may be adopted by the pinned table |
| `StorageExchange.MarkedInPlace` | include/smashtable/hash_layout.hpp:118-127 | marking a slot of the packed headers is assigning one element of the slot states they spell out |
| `StorageExchange.QuiescentIsSound` | include/smashtable/atomic_hash_table.hpp:148-157 | after any interleaving of calls that all returned, the storage meets the growable table's invariant |
| `StorageExchange.QuiescentContents` | include/smashtable/atomic_hash_table.hpp:148-157 | and its map is where the sequential history of those calls ends |
| `StorageExchange.Reclaim` | include/smashtable/basic_hash_table.hpp:412-420 | adopting it back and rehashing keeps every pair; the rehash fails exactly when a buffer is needed and cannot be had, leaving the storage as it was, and otherwise drops every tombstone |
| `OrderedTrees.RankSplits` | include/smashtable/basic_wb_tree.hpp:310-325 | rank is the number of smaller keys: entries before it are smaller and entries from it on are not |
| `OrderedTrees.SelectIsIndex` | include/smashtable/basic_wb_tree.hpp:283-290 | select is in-order position, and nothing from the size on |
| `OrderedTrees.SelectUndoesRank` | include/smashtable/basic_wb_tree.hpp:283-325 | selecting at the rank of a held key gives that key |
| `OrderedTrees.RankUndoesSelect` | include/smashtable/basic_wb_tree.hpp:283-325 | the rank of what is selected at k is k |
| `WeightBalance.SingleSuffices` | include/smashtable/basic_wb_tree.hpp:559-586 | for a heavy side of at most 3 times the light one plus 3, or of less than 13/3 of it, an inner branch lighter than twice the outer one makes a single rotation enough |
| `WeightBalance.DoubleSuffices` | include/smashtable/basic_wb_tree.hpp:559-586 | and otherwise a double rotation is enough, so one rotation a level serves insertion, removal and joining |
| `WeightBalance.RebalanceRestores` | include/smashtable/basic_wb_tree.hpp:559-586 | rebalance restores balance for every such pair of branches |
| `WeightBalance.InsertSplices` | include/smashtable/basic_wb_tree.hpp:703-730 | insertion puts exactly the new entry at its rank, and changes nothing when the key is held |
| `WeightBalance.InsertKeepsBalance` | include/smashtable/basic_wb_tree.hpp:703-730 | and keeps the tree balanced |
| `WeightBalance.ExtractCutsOut` | include/smashtable/basic_wb_tree.hpp:609-670 | removal takes out exactly the entry of that key |
| `WeightBalance.ExtractKeepsBalance` | include/smashtable/basic_wb_tree.hpp:609-670 | and keeps the tree balanced |
| `WeightBalance.JoinWithRoot` | include/smashtable/basic_wb_tree.hpp:872-894 | joining around an entry yields left, entry and right in this order and terminates on the summed weight |
| `WeightBalance.JoinWithRootBalances` | include/smashtable/basic_wb_tree.hpp:872-894 | however far apart the sides are in weight, one rebalance a level leaves a balanced tree of the exact size |
| `WeightBalance.JoinConcatenates` | include/smashtable/basic_wb_tree.hpp:908-917 | join is concatenation |
| `WeightBalance.JoinBalances` | include/smashtable/basic_wb_tree.hpp:908-917 | and gives a balanced tree |
| `WeightBalance.SplitCuts` | include/smashtable/basic_wb_tree.hpp:939-953 | split cuts the sequence in two |
| `WeightBalance.SplitSeparates` | include/smashtable/basic_wb_tree.hpp:939-953 | with the keys below the bound on one side and all others on the other |
| `WeightBalance.SplitBalances` | include/smashtable/basic_wb_tree.hpp:939-953 | and both sides balanced |
| `WeightBalance.EraseIfKeepsRest` | include/smashtable/basic_wb_tree.hpp:805-822 | any number of nodes gone from anywhere, the survivors keep their order in a balanced tree |
| `WeightBalance.EraseRangeIsExact` | include/smashtable/basic_wb_tree.hpp:1297-1313 | erase_range keeps exactly the keys outside [lower, upper) and hands over exactly the others, both balanced |
| `WeightBalance.BalancedIsShallow` | include/smashtable/basic_wb_tree.hpp:540-545 | a balanced tree of n nodes and height h has 4^h at most 3^h (n + 1) |
| `WbTree.UpdateSize` | include/smashtable/basic_wb_tree.hpp:455-471 | recomputing a node over linked branches makes its size and augmented size exact |
| `WbTree.RotateRight` | include/smashtable/basic_wb_tree.hpp:490-501 | relinking in place leaves exactly the rotated shape with both counts exact |
| `WbTree.RotateLeft` | include/smashtable/basic_wb_tree.hpp:514-525 | the mirror image |
| `WbTree.Rebalance` | include/smashtable/basic_wb_tree.hpp:559-586 | relinks exactly the rebalanced shape and never rotates through a missing child |
| `WbTree.Insert` | include/smashtable/basic_wb_tree.hpp:703-730 | links the new node where its key belongs, or finds the one that has it |
| `WbTree.Upsert` | include/smashtable/basic_wb_tree.hpp:741-784 | overwrites, makes or refuses, with counts exact in every case; only an absent key can be refused |
| `WbTree.Extract` | include/smashtable/basic_wb_tree.hpp:609-670 | unlinks exactly the node with the key and leaves the shape removal leaves |
| `WbTree.JoinWithRoot` | include/smashtable/basic_wb_tree.hpp:872-894 | joins two trees in memory around a detached node |
| `WbTree.Join` | include/smashtable/basic_wb_tree.hpp:908-917 | joins two trees in memory |
| `WbTree.Split` | include/smashtable/basic_wb_tree.hpp:938-953 | splits a tree in memory |
| `WbTree.EraseIf` | include/smashtable/basic_wb_tree.hpp:804-822 | drops exactly the nodes the predicate dooms and counts the survivors |
| `WbOrderStatistics.SelectNode` | include/smashtable/basic_wb_tree.hpp:283-290 | the node select finds is the one at that in-order position |
| `WbOrderStatistics.RankNode` | include/smashtable/basic_wb_tree.hpp:310-325 | the rank computed over the links is the rank of the key |
| `WbOrderStatistics.CountedIsFilter` | include/smashtable/basic_wb_tree.hpp:455-471 | the augmented count of a tree is the number of counted nodes of its in-order sequence |
| `WbOrderStatistics.CountedExactly` | include/smashtable/basic_wb_tree.hpp:455-471 | the counted nodes of a tree are exactly those whose entry says so |
| `WbOrderStatistics.SelectAugmented` | include/smashtable/basic_wb_tree.hpp:336-350 | the loop finds the index-th counted node in order, or nothing past the last |
| `WbOrderStatistics.RankAugmented` | include/smashtable/basic_wb_tree.hpp:361-373 | the loop counts exactly the counted nodes with smaller keys |
| `WbOrderStatistics.RankUndoesSelectAugmented` | include/smashtable/basic_wb_tree.hpp:336-373 | the augmented rank of the key of the index-th counted node is the index, and no other number splits the counted nodes there |
| `WbOrderStatistics.SelectUndoesRankAugmented` | include/smashtable/basic_wb_tree.hpp:336-373 | selecting at the augmented rank of a key gives the counted node with that key exactly if there is one |
| `WbOrderStatistics.Retag` | include/smashtable/basic_wb_tree.hpp:382-396 | assigning to a node's entry leaves stale only the counts on the way to it |
| `WbOrderStatistics.RefreshAugmentation` | include/smashtable/basic_wb_tree.hpp:381-396 | makes every stale count on the way to a key exact again |
| `WbContainer.WbTreeMap.Upsert` | include/smashtable/basic_wb_tree.hpp:1124-1137 | the container's map gains or overwrites the pair; a refusal changes nothing and needs the key to be new |
| `WbContainer.WbTreeMap.Insert` | include/smashtable/basic_wb_tree.hpp:1101-1111 | an incumbent is left alone and never refused |
| `WbContainer.WbTreeMap.Extract` | include/smashtable/basic_wb_tree.hpp:1372-1378 | the map loses the key and its node comes out detached |
| `WbContainer.WbTreeMap.EraseIf` | include/smashtable/basic_wb_tree.hpp:1277-1290 | the map loses exactly what the predicate picks, and the count of it comes back |
| `WbContainer.WbTreeMap.EraseRange` | include/smashtable/basic_wb_tree.hpp:1296-1313 | the map loses exactly [lower, upper), each erased node handed over |
| `HeightBalance.RebalancedOnLeft` | include/smashtable/basic_avl_tree.hpp:502-531 | where an insertion on the left made a branch taller, the child leans towards the new key, so the rotation picked by comparing keys is the right one and restores balance |
| `HeightBalance.RebalancedOnRight` | include/smashtable/basic_avl_tree.hpp:502-531 | the mirror image |
| `HeightBalance.InsertKeepsBalance` | include/smashtable/basic_avl_tree.hpp:533-568 | into a balanced tree every insertion runs, keeps it balanced, grows it by at most a level, and then leans it towards the new key |
| `HeightBalance.InsertSplices` | include/smashtable/basic_avl_tree.hpp:533-568 | insertion, into any tree on which it runs, puts exactly the new entry at its rank |
| `InsertionRuns.InsertRunsOnLeft` | include/smashtable/basic_avl_tree.hpp:502-568 | one level of an insertion going left into any ordered tree runs exactly if the level below does and the right branch, where it ends up two or more taller, has an inner child to rotate about |
| `InsertionRuns.InsertRunsOnRight` | include/smashtable/basic_avl_tree.hpp:502-568 | and going right exactly if the level below does and a left branch that ends up two or more taller has one |
| `InsertionRuns.InsertRunsWithoutSpurs` | include/smashtable/basic_avl_tree.hpp:502-568 | so an insertion runs on any ordered tree without a branch of three or more levels beside its way that lacks that child |
| `InsertionRuns.BalancedHasNoSpurs` | include/smashtable/basic_avl_tree.hpp:502-531 | a balanced tree has no branch of three or more levels that lacks its inner child |
| `InsertionRuns.InsertLooksAtKeys` | include/smashtable/basic_avl_tree.hpp:502-568 | whether it runs, and the shape it leaves, depend on keys alone, so a caller can tell before there is a node |
| `InsertionRuns.BalancedTakesIn` | include/smashtable/basic_avl_tree.hpp:1375-1401 | a balanced tree takes in all keys of any other one by one, and stays balanced |
| `InsertionRuns.HeldAreTakenIn` | include/smashtable/basic_avl_tree.hpp:2284-2319 | any tree takes in keys it holds already, and nothing is turned |
| `HeightBalance.RebalanceRestores` | include/smashtable/basic_avl_tree.hpp:631-655 | branches at most two levels apart are mended by one rotation, single or double, at the cost of at most one level |
| `HeightBalance.ExtractCutsOut` | include/smashtable/basic_avl_tree.hpp:662-729 | removal takes out exactly the entry of that key, in any ordered tree |
| `HeightBalance.ExtractKeepsBalance` | include/smashtable/basic_avl_tree.hpp:662-729 | and keeps a balanced tree balanced, losing at most a level |
| `HeightBalance.EraseIfKeepsRest` | include/smashtable/basic_avl_tree.hpp:736-761 | erase_if keeps exactly the survivors, in order |
| `ErasedBalance.EraseIfCanUnbalance` | include/smashtable/basic_avl_tree.hpp:757-760 | an input on which the survivors end up out of balance |
| `ErasedBalance.EraseIfBalancedExactly` | include/smashtable/basic_avl_tree.hpp:736-761 | erase_if leaves a balanced tree if and only if, node by node, the branches around each survivor stay within a level, a doomed node with one branch left leaves that one so, and the rotation at a doomed node with two evens out what it finds |
| `ErasedBalance.RebalanceEvensExactly` | include/smashtable/basic_avl_tree.hpp:631-655 | one balance-directed rebalance of any node leaves a balanced tree exactly if the pieces it puts together fit |
| `ErasedBalance.EvenIsEnough` | include/smashtable/basic_avl_tree.hpp:736-761 | what is left is balanced if at every node, doomed or not, what is left of its branches differs by at most a level |
| `ErasedBalance.DoomedRootCanMend` | include/smashtable/basic_avl_tree.hpp:757-760 | which is not needed: a tree whose doomed root mends a branch that its doomed leaves upset |
| `ErasedBalance.EraseIfNotTaller` | include/smashtable/basic_avl_tree.hpp:736-761 | whatever is erased from whatever tree, the rest is no taller |
| `ErasedBalance.ErasedIsShallow` | include/smashtable/basic_avl_tree.hpp:736-761 | so its height stays logarithmic in the size of the balanced tree it is left of |
| `ErasedBalance.ErasureCanLeaveChain` | include/smashtable/basic_avl_tree.hpp:757-760 | but not in the size of what is left: of a full tree of any height an erasure can leave a chain as tall |
| `ErasedBalance.ErasureCanStrandInsert` | include/smashtable/basic_avl_tree.hpp:460-462 | an input on which an insertion after erase_if rotates through a missing child |
| `HeightBalance.JoinWithRootBalances` | include/smashtable/basic_avl_tree.hpp:799-825 | joining around a node gives a balanced tree no lower than the higher input and at most a level higher |
| `HeightBalance.JoinConcatenates` | include/smashtable/basic_avl_tree.hpp:837-865 | join is concatenation |
| `HeightBalance.JoinBalances` | include/smashtable/basic_avl_tree.hpp:837-865 | and its height is within one level above the higher input |
| `HeightBalance.SplitCuts` | include/smashtable/basic_avl_tree.hpp:875-896 | split cuts the sequence in two |
| `HeightBalance.SplitSeparates` | include/smashtable/basic_avl_tree.hpp:875-896 | at the key |
| `HeightBalance.SplitBalances` | include/smashtable/basic_avl_tree.hpp:875-896 | into two balanced trees |
| `HeightBalance.EraseRangeIsExact` | include/smashtable/basic_avl_tree.hpp:1911-1929 | erase_range keeps exactly the keys outside [lower, upper), in a balanced tree |
| `HeightBalance.AvlIsShallow` | include/smashtable/basic_avl_tree.hpp:631-655 | a balanced tree of n nodes and height h has Fib(h + 2) - 1 at most n, and n below 2^h |
| `AvlMerging.SplitBasedMerges` | include/smashtable/basic_avl_tree.hpp:915-933 | the split-based merge yields exactly the ordered union |
| `AvlMerging.SplitBasedBalances` | include/smashtable/basic_avl_tree.hpp:915-933 | as a balanced tree |
| `AvlMerging.Built` | include/smashtable/basic_avl_tree.hpp:1030-1065 | rebuilding a sorted spine keeps its sequence |
| `AvlMerging.BuiltIsBalanced` | include/smashtable/basic_avl_tree.hpp:1030-1065 | and gives a balanced tree whose height depends on the length alone |
| `AvlMerging.ChoiceIsUnobservable` | include/smashtable/basic_avl_tree.hpp:2596-2655 | whichever of join, split-based merge and spines the sizes and ranges pick, the result is a tree over exactly the ordered union, with the summed size, balanced if both were |
| `AvlTree.RotateRight` | include/smashtable/basic_avl_tree.hpp:441-458 | relinks children and all three parent links and recomputes both heights exactly |
| `AvlTree.RotateLeft` | include/smashtable/basic_avl_tree.hpp:460-477 | the mirror image |
| `AvlTree.RebalanceOnInsert` | include/smashtable/basic_avl_tree.hpp:502-531 | relinks exactly what the key-directed choice yields, in any tree whose taller child has the node that choice rotates about |
| `AvlTree.RebalanceAfterExtract` | include/smashtable/basic_avl_tree.hpp:631-655 | relinks exactly what the balance-directed choice yields, in any tree |
| `AvlTree.FindOrMake` | include/smashtable/basic_avl_tree.hpp:533-568 | finds the node with the key, or links the spare node in, in any tree on which that insertion runs; links, parents and heights exact |
| `AvlTree.Extract` | include/smashtable/basic_avl_tree.hpp:662-729 | unlinks exactly the node with the key, which comes out detached |
| `AvlTree.JoinWithRoot` | include/smashtable/basic_avl_tree.hpp:787-825 | joins two trees in memory; the result is a parentless root |
| `AvlTree.Join` | include/smashtable/basic_avl_tree.hpp:837-865 | joins two trees in memory |
| `AvlTree.Split` | include/smashtable/basic_avl_tree.hpp:875-896 | splits a tree in memory into two parentless ones |
| `AvlTree.EraseRange` | include/smashtable/basic_avl_tree.hpp:1911-1929 | hands over exactly the nodes of the range and joins the rest |
| `AvlErasing.EraseIf` | include/smashtable/basic_avl_tree.hpp:736-761 | drops exactly the nodes the predicate dooms; links, parents and heights of the survivors are exact |
| `AvlMergeInPlace.MergeSplitBased` | include/smashtable/basic_avl_tree.hpp:915-933 | the merge in memory links exactly the shape of the merge on values |
| `AvlSpines.TreeToSpine` | include/smashtable/basic_avl_tree.hpp:945-978 | terminates on nodes left and left-branch size, and chains exactly the in-order sequence |
| `AvlSpines.MergeSpines` | include/smashtable/basic_avl_tree.hpp:989-1018 | merges two sorted chains into the chain of the ordered union |
| `AvlSpines.SpineToBalanced` | include/smashtable/basic_avl_tree.hpp:1030-1065 | rebuilds a chain as exactly the balanced tree over its sequence |
| `AvlSpines.MergeDsw` | include/smashtable/basic_avl_tree.hpp:1084-1099 | both trees to spines, merged, rebuilt: the shape and size of the union |
| `AvlWalk.FindSuccessor` | include/smashtable/basic_avl_tree.hpp:175-189 | following right and parent links moves exactly one position on, and off the end after the last |
| `AvlWalk.LowerBound` | include/smashtable/basic_avl_tree.hpp:237-262 | finds the first entry not below the key, or nothing |
| `AvlWalk.Range` | include/smashtable/basic_avl_tree.hpp:326-336 | visits exactly the entries of [low, high) in order, or a prefix of them when the visitor halts |
| `AvlContainer.HasAnyKey` | include/smashtable/basic_avl_tree.hpp:1324-1334 | two walks at once, over trees of whatever balance, report a common key exactly if there is one |
| `AvlContainer.HasAllKeys` | include/smashtable/basic_avl_tree.hpp:1345-1361 | two walks at once, over trees of whatever balance, report whether one holds every key of the other |
| `AvlContainer.MergeRoots` | include/smashtable/basic_avl_tree.hpp:2596-2655 | every strategy, in memory, links the tree its choice names |
| `AvlContainer.AvlTreeMap.InsertIfMissing` | include/smashtable/basic_avl_tree.hpp:1971-1995 | the map gains an absent key, keeps an incumbent, and changes nothing when refused, in any tree that admits the key; a balanced tree admits all and stays balanced |
| `AvlContainer.AvlTreeMap.Upsert` | include/smashtable/basic_avl_tree.hpp:2049-2073 | the map gains or overwrites the pair, in any tree that admits the key; only a new key can be refused |
| `AvlContainer.AvlTreeMap.Extract` | include/smashtable/basic_avl_tree.hpp:706-729 | the map loses the key and its node comes out detached, whatever the balance; a balanced tree stays so |
| `AvlContainer.AvlTreeMap.EraseIf` | include/smashtable/basic_avl_tree.hpp:1885-1899 | the map loses exactly what the predicate picks, whatever the balance before; afterwards the tree is balanced exactly if it comes out even |
| `AvlContainer.AvlTreeMap.EraseRange` | include/smashtable/basic_avl_tree.hpp:1911-1929 | the map loses exactly [lower, upper), whatever the balance, and exactly the nodes with those keys are handed over |
| `AvlContainer.AvlTreeMap.MergeUnique` | include/smashtable/basic_avl_tree.hpp:2596-2655 | the map becomes the union, the size the sum, and the other tree empty, whatever the balance of the two; balanced if both were |
| `AvlContainer.AvlTreeMap.Merge` | include/smashtable/basic_avl_tree.hpp:2567-2580 | the map becomes the union with its own entries kept, in any tree that can take the other one's keys in one by one |
| `AvlContainer.AvlTreeMap.MergeWithUpsert` | include/smashtable/basic_avl_tree.hpp:1375-1401 | the map becomes the union with the other tree's entries written over its own, in any such tree, or an empty one |
| `AvlContainer.AvlTreeMap.InsertBatch` | include/smashtable/basic_avl_tree.hpp:2135-2172 | all or nothing, in any tree: out of memory exactly if a key's first entry is refused its node, else a success exactly if no batch key is in the map, which then gains the first of equal keys |
| `AvlContainer.AvlTreeMap.UpsertBatch` | include/smashtable/basic_avl_tree.hpp:2211-2251 | all or nothing: out of memory exactly if a key's first entry is refused its node, else the first of equal keys in the batch wins and is written over the map |
| `AvlContainer.AvlTreeMap.UpdateBatch` | include/smashtable/basic_avl_tree.hpp:2284-2319 | all or nothing, in any tree: out of memory as above, else a success exactly if the map holds every batch key, and its key set stays as it was |
| `Batches.FirstWinsIsLastWins` | include/smashtable/basic_avl_tree.hpp:2211-2251 | what a batch comes to agrees with applying its entries in turn exactly if the first and the last entry of each key do |
| `Batches.FirstWinsCanDiffer` | include/smashtable/basic_avl_tree.hpp:2211-2251 | two entries of one key on which it does not |
| `TransactionGroups.TransactionGroup.Write` | python/transactions.cpp:65-90 | refused on a finished handle or a staged participant, and otherwise adds exactly the write |
| `TransactionGroups.TransactionGroup.StageIfOpen` | python/transactions.cpp:592-619 | runs only on an open, usable group; stages all or unwinds exactly the prefix that took, and names the participant that refused |
| `TransactionGroups.TransactionGroup.CommitInTurn` | python/transactions.cpp:729-739 | publishes exactly the participants before the first refusal, and the group stays staged only if that is none |
| `TransactionGroups.TransactionGroup.Commit` | python/transactions.cpp:704-749 | with two or more that can all be asked before anything is written, either everybody's writes are published and the group reopens, or, if anybody is not staged or refuses, nothing changes at all; otherwise it commits in turn |
| `TransactionGroups.TransactionGroup.Rollback` | python/transactions.cpp:764-788 | reopens the group if and only if every participant was staged and got all its writes back; otherwise the group stays staged, and nobody past the refusal is touched |
| `TransactionGroups.TransactionGroup.Reset` | python/transactions.cpp:798-819 | on a usable handle, whatever the group's state, leaves every participant unstaged with no writes, what it published untouched, and the group open; refused on a finished one |
| `TransactionGroups.TransactionGroup.Finish` | python/transactions.cpp:565-572 | whatever the group's state, leaves every participant unstaged with no writes, what it published untouched, and closes the handle for good |
| `TransactionGroups.TransactionGroup.Exit` | python/transactions.cpp:823-857 | with any passes of other threads after its stage and after its close: a raising body or a refused stage discards everything; otherwise the handle closes, the commit runs on whatever the others left, its answer comes back, and its refusal discards nothing |
| `TransactionGroups.StageMeans` | python/transactions.cpp:592-619 | a stage marks everybody if and only if nobody is staged and nobody refuses; otherwise whoever was marked before the first refusal gets back what its store could still find, and nobody else is touched |
| `TransactionGroups.CommitIsAllOrNothing` | python/transactions.cpp:704-728 | a staged group of two or more that can all be asked first: if one is not staged or refuses, the group is left as it was; otherwise every participant publishes exactly its writes as one more round |
| `TransactionGroups.CommitIsInTurn` | python/transactions.cpp:729-749 | a lone container, or any group with one that cannot be asked: exactly those before the first refusal publish, and the group stays staged only if that is the very first |
| `TransactionGroups.RollbackMeans` | python/transactions.cpp:764-788 | participant by participant: the group reopens if and only if everybody was staged and whole, a store that cannot give everything back leaves what it could find, and past the refusal nobody is touched |
| `TransactionGroups.DiscardingMeans` | python/transactions.cpp:798-819 | a reset of any usable group and the end of any group leave every participant unstaged with no writes, and container, validation and published rounds as they were |
| `TransactionGroups.WriteMeans` | python/transactions.cpp:65-90 | a write lands with the one participant it is for, and only while that is open, the handle usable and the store willing; a close touches no participant |
| `TransactionRuns.StageIsAllOrNothing` | python/transactions.cpp:592-619 | a stage with sound stores marks everybody exactly if nobody is staged and nobody refuses, and otherwise leaves the group precisely as it was |
| `TransactionRuns.StepKeepsCut` | python/transactions.cpp:565-819 | after any span of any run, unsound stores included, the staged participants form a tail |
| `TransactionRuns.RunKeepsWhole` | python/transactions.cpp:565-819 | with sound stores a group calling itself staged is staged throughout |
| `TransactionRuns.TornExactly` | python/transactions.cpp:719-739 | a span tears a group if and only if it is a commit of a staged group with a container that cannot be asked before anything is written, which the first participant accepts and another refuses |
| `TransactionRuns.NeverTorn` | python/transactions.cpp:719-739 | a lone container, or any number that can all be asked before anything is written, is never torn by any run |
| `TransactionRuns.StepPublishes` | python/transactions.cpp:704-749 | a span publishes at most one round of each participant, and then exactly what it had pending |
| `TransactionRuns.RunPublishesRounds` | python/transactions.cpp:704-749 | what is published stays published, and a run adds exactly the commits that got past the participant |
| `TransactionRuns.EarlierIsNeverBehind` | python/transactions.cpp:729-739 | over any run no participant later in the staging order gains more published rounds than an earlier one |
| `TransactionRuns.PublishTogether` | python/transactions.cpp:719-728 | a lone container, or any number that can all be asked before anything is written, gain the same number of published rounds over any run |
| `TransactionRuns.RunConserves` | python/transactions.cpp:592-788 | through any staging, refusal, commit and rollback each write taken is pending or was published exactly once, in order |
| `TransactionRuns.TornWaitsForReset` | python/transactions.cpp:733-736 | a torn group publishes and releases nothing more until somebody discards |
| `TransactionRuns.ClosedHandlePublishesAtMostOnce` | python/transactions.cpp:846-856 | a closed handle takes no write and stages nothing; what was staged when it closed can still be published, once and whole |
| `TransactionExits.UndisturbedExit` | python/transactions.cpp:833-857 | a block that nobody else commits, rolls back, resets or finishes exits as if it had been alone, whatever others read, write, stage or close meanwhile |
| `TransactionExits.StrandedForGood` | python/transactions.cpp:842-847 | writes pending behind a closed handle that is not staged are never moved by any run of passes, but one that discards them |
| `TransactionExits.ExitStrandsExactly` | python/transactions.cpp:842-857 | an exit leaves such writes if and only if its commit finds the group unstaged with writes in it, or goes in turn, is accepted by the first participant and refused at or before one with writes |
| `TransactionExits.OnePassStrandsExactly` | python/transactions.cpp:842-847 | a single pass of another thread between stage and close leaves such writes exactly if it is a rollback of a group with writes, or a commit that tears it |
| `TransactionExits.UndisturbedExitStrandsNothing` | python/transactions.cpp:842-857 | an undisturbed exit over one container, or over any that can all be asked first, leaves none |
| `TransactionExits.RollbackCanStrand` | python/transactions.cpp:842-847 | an input: a rollback and a write between stage and close, and neither write is ever published |
| `OpeningGroup.NamesTwice` | python/transactions.cpp:914-927 | reports a container named twice exactly if there is one |
| `OpeningGroup.SortedOrderRises` | python/transactions.cpp:937-941 | over distinct containers the ordinals strictly rise along the staging order |
| `OpeningGroup.InvertOrder` | python/transactions.cpp:976-996 | writing positions into the slots the order names inverts the permutation |
| `OpeningGroup.MakeTransaction` | python/transactions.cpp:908-1000 | refuses duplicates and failed openings; otherwise every participant has its container's ordinal and its way of validating, is unstaged, and has nothing pending and nothing published, and each argument position gets the view of its own container's |
| `OpeningGroup.OpenedGroupsStageCanonically` | python/transactions.cpp:935-973 | every moment of an opened group's staging loop has staged exactly the participants before the one it waits for, in rising order of ordinal, whatever order its containers were named in |
| `OpeningGroup.NoCycleOfWaiters` | python/transactions.cpp:598-601 | groups in their staging loops, each keeping as much as every container it has staged, never wait for each other in a cycle of any length |
| `OrderedCursors.OrderedCursor.Everything` | include/smashtable/locked_store.hpp:981-985 | a walk of the whole keyspace |
| `OrderedCursors.OrderedCursor.From` | include/smashtable/locked_store.hpp:988-994 | a walk from a key on |
| `OrderedCursors.OrderedCursor.UpTo` | include/smashtable/locked_store.hpp:997-1003 | a walk stopping before a key |
| `OrderedCursors.OrderedCursor.Range` | include/smashtable/locked_store.hpp:1006-1013 | a walk over [from, upper) |
| `OrderedCursors.OrderedCursor.Next` | include/smashtable/locked_store.hpp:949-977 | hands over the least key there, as the store is now, that is not before the window, short of its end and past the last one handed over, or ends for good if there is none or the lookup is refused |
| `OrderedCursors.Walk` | include/smashtable/locked_store.hpp:924-978 | whatever is written between steps, keys come out strictly ascending inside the window and then nothing for ever; a walk that ended has handed over every key that was there at each lookup exactly if the last lookup was answered or no such key was still ahead, and so always over a store that refuses none |
| `OrderedCursors.MissesNothingExactly` | include/smashtable/locked_store.hpp:949-977 | of the walks that pass nothing over, those that miss nothing are exactly those with nothing that stayed put left ahead |
| `OrderedCursors.RefusalCanMiss` | include/smashtable/locked_store.hpp:949-977 | an input on which a refused lookup loses a key: the store holds 1 throughout, and every walk ends without it |
| `OrderedCursors.StepTells` | include/smashtable/locked_store.hpp:949-977 | one more step keeps all of that true of the replies so far |

## Left out

- Weak memory orderings, and data races on payloads that they could allow: every atomic access is one sequentially consistent step.
- Destructors, constructors that may fail, alignment, region offsets and memcpy fast paths: elements are values and a buffer is granted or refused whole.
- The one-argument `emplace` of the pinned set, `contains`, `swap` and the relaxed statistics `size` and `capacity`: they are cases of what is modelled.
- Iterators, `for_each`, copying and range construction of the growable table.
- Heterogeneous lookup, moved-from keys and the handles that let a caller assign to a node past the augmentation.
- Random sampling from the trees, whose promises are probabilistic.
- Bulk construction from a range promised to be sorted, and every other call whose promise (`assume_*`) is not kept.
- AvlTree.RebalanceOnInsert: where the node it would rotate about is missing, which only an erasure by predicate can bring about, the code dereferences a null pointer; that is not modelled.
- AvlTree.FindOrMake: the same, for any node on the way.
- AvlContainer.AvlTreeMap.InsertIfMissing: the same, for a tree that does not admit the key.
- AvlContainer.AvlTreeMap.Upsert: the same.
- AvlContainer.AvlTreeMap.Merge: the same, for any key taken in.
- AvlContainer.AvlTreeMap.MergeWithUpsert: the same.
- AvlContainer.AvlTreeMap.UpsertBatch: the same.
- HeaderScan.ForEachInBucket: the visitor is a number of slots after which it halts, not a callback.
- `upper_bound`, `equal_range` and the lowest common ancestor of the AVL tree, which are descents like `lower_bound`.
- The MVCC stores, the partitioned store and the locking forwards around the cursor: participants and stores are abstract here.
- OpeningGroup.MakeTransaction: type checks of the arguments and failures of the interpreter's allocator are not modelled; a failed opening of any container is.
- OpeningGroup.NoCycleOfWaiters: lets a staged container keep all its locks, where a partitioned one drops each before the next; it speaks of groups staging in order, not of single-container operations that take partition locks outside a group.
- CPython reference counts, the interpreter lock, argument parsing and exceptions.
- `basic_vector`, iterator wrappers and status names, which would add only easy members.
