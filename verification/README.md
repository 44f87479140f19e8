# Verified core of a Bitcoin Core 0.14 fork

This project models, in Dafny, the parts of the node whose correctness rests on redundant state or on one function undoing
another, and proves that they keep what they promise. Every theorem is about all inputs, all runs or all reachable states.

| component | files | main theorems |
|---|---|---|
| Unspent-output cache stack | `Coins`, `CoinsCache` | any stack of caches behaves as one plain map through every run, also in what it replies to queries (`CoinsCache.Run`) |
| Serialised coins | `VarInts`, `ScriptCompressor`, `CoinsCodec` | what reading gives back of any entry that was written, and exactly when that is the entry itself (`RoundTrip`, `StoredIff`) |
| Parallel check queue | `CheckQueue`, `CheckQueueControl` | for any number of workers and any interleaving `Wait` is right, cannot deadlock and is bounded (`WaitIsRight`, `NoDeadlock`, `WaitIsBounded`), and exactly when a controller keeps its guarantee (`ControllerIff`) |
| Address manager | `AddrTables`, `AddrCheck`, `AddrMan` | every run from construction passes the self-check (`AddrMan.Run`), and the invariant is exactly what the check tests and what it leaves out (`InvIsChecked`) |
| Stored address manager | `AddrCodec`, `AddrRoundTrip` | saving and loading restores the tables up to renaming (`RoundTrip`) |
| Partial merkle tree (BIP 37) | `MerkleTree`, `MerkleBlock` | soundness for arbitrary messages and completeness for built ones (`Sound`, `Complete`), and exactly when the promised size is kept (`SizeIff`) |
| Block assembler | `MinerPool`, `Miner` | order, limits, exact totals, termination, and that nothing is left out whose missing ancestors would fit with it (`CreateNewBlock`) |
| Merged mining | `AuxPow` | exactly which coinbases serve at most one block per chain (`Unique`, `UniqueIff`) |
| Rolling Bloom filter | `Words`, `RollingBloom` | the cells that are set are exactly those of the last three generations (`Contains`) |
| Cuckoo cache | `Bytes`, `Cuckoo` | an insert loses at most one element, and every element keeps its epoch (`Insert`) |
| Compact blocks (BIP 152) | `CompactBlock` | slots are mapped one-to-one exactly up to 65536 transactions (`ModuloIff`), found candidates are used, and a block arrives as it was sent (`InitData`, `SendBlock`) |
| Base58 | `Positional`, `Base58Room`, `Base58` | a bijection, with buffers that always suffice (`DecodeEncode`, `EncodeDecode`) |
| 256-bit arithmetic | `Limbs`, `LimbShifts`, `Compact`, `ArithUint256` | limb loops agree with integers modulo 2^256, up to the proof of a block (`BlockProof`) and the compact form (`CompactIff`) |
| Block index and active chain | `Chain` | the skiplist walk is the plain walk, the active chain follows its tip (`GetAncestor`, `SetTip`, `FindFork`), and locators have logarithmic length (`LocatorLength`) |

`Basics`, `Sets`, `Sums` and `Arith` hold the types and general facts that several of these need.

## How it is modelled

Objects that the program updates in place are classes with the same fields; their methods follow the loops and branches
of the source and are proved against functions on values or against stated properties. The check queue is a state machine
whose atomic steps lie between two releases of its mutex: entering, waking up (spuriously too), evaluating one check,
ending a batch, adding, and a notification of an arbitrary worker; `Advance` takes each of them on the object. Hash
functions are parameters, and so is the curve of public keys. Where a theorem needs that hashes do not collide, it says
so: the partial merkle tree asks for an injective pair hash, merged mining only for no collision among the pairs that the
two checks hash, and compact blocks for no collision among the short ids at hand.
Random draws, clocks, fee and priority comparisons are arbitrary choices or inputs. Assertions of the source are
assertions or preconditions that are proved at every call.

## Where code and comments disagree

The model follows the code.

- `src/merkleblock.h:47` says that 2N - 1 flag bits go with N hashes. Nodes with a single child need a bit each;
  `BitRemarkFails` gives a tree and `ProofSizes` the exact condition.
- `src/merkleblock.h:31-34` guarantees at most 10 + ceil(32.25 N) bytes. `SizeGuaranteeFails` gives a block for which a
  proof is longer, and `SizeIff` the exact condition.
- `src/cuckoocache.h:395-396` says that the first swap takes the first of the eight slots. It takes the second;
  `FirstSwap` says when that is the same.
- `src/checkqueue.h:172-175` says that a controller guarantees a finished queue. A check added after `Wait` is not waited
  for; `AddAfterWait` shows it and `ControllerIff` gives the exact condition.
- `src/auxpow.cpp:127-131` means to enforce a single root without the merged-mining header. It does not:
  `TwoRootsPass` and `TwiceWithoutHeader` give scripts that pass for two blocks, and `UniqueIff` the exact condition.
- `src/coins.cpp:164-171` tests for an empty list of outputs where its neighbours test for a pruned entry. In every run
  of complete edits that makes no difference (`Run`); while an edit is open it can, as `HaveSpentCoins` shows, and
  `HaveCoins` states exactly when.
- A negative transaction version does not survive in the coin database, because `src/serialize.h:317-331` ends at once for
  a negative number: `VersionLost` shows it and `StoredIff` gives the exact condition.
- Flushing a cache whose best block was never set hides the best block of a cache below: `FlushHidesBest` shows it and
  `Flush` states exactly when.
- `x *= x` on a 256-bit number gives zero, because the operand is cleared first. `Multiply` states exactly when that is
  the square. The binary operator works on a copy, so no expression of the program meets this.

## Model

| member | source | states |
|---|---|---|
| Coins.Trimmed | src/coins.h:114-119 | the result is the longest prefix of the outputs that does not end in a spent one |
| Coins.Cleanup | src/coins.h:114-119 | cleaning up removes exactly the spent outputs at the end and touches nothing else |
| Coins.CleanedIsStable | src/coins.h:114-119 | cleaning up keeps every unspent output at its index, never changes whether an entry is pruned, and doing it twice is doing it once |
| Coins.Spend | src/coins.cpp:35-42 | spending succeeds exactly on an available output; afterwards exactly that output is gone, all others keep their contents, and the entry is cleaned up |
| CoinsCache.MergedIsRight | src/coins.cpp:188-243 | merging two entries that are each right about the level below gives an entry that is right, shows what the child showed, and is never a misapplied FRESH |
| CoinsCache.CoinsViewDB.BatchWrite | src/txdb.cpp:47-68 | after a batch the database shows the dirty entries of the child and otherwise what it showed; it stores no pruned record and no null best block |
| CoinsCache.CoinsViewCache.OverDatabase | src/coins.cpp:61-61 | a new cache over a database shows what the database shows, and is tidy if no record there is spent |
| CoinsCache.CoinsViewCache.OverCache | src/coins.cpp:61-61 | a new cache over another cache shows what that one shows, and is tidy if that one is |
| CoinsCache.CoinsViewCache.FetchCoins | src/coins.cpp:72-88 | a fetch returns the nearest entry and, at whatever depth it ends, changes nothing that any level shows, keeps every entry and flag that was there, and keeps a tidy stack tidy |
| CoinsCache.CoinsViewCache.GetFromBase | src/coins.cpp:72-88 | asking the level below changes nothing that it shows, and what it answers is what it shows |
| CoinsCache.CoinsViewCache.Remember | src/coins.cpp:76-86 | the copy that a lookup leaves is right about the level below, changes nothing that is shown and keeps a tidy stack tidy |
| CoinsCache.CoinsViewCache.GetCoins | src/coins.cpp:90-97 | what is returned is what the view shows, and the view still shows the same |
| CoinsCache.CoinsViewCache.HaveCoins | src/coins.cpp:164-171 | never false for coins that the view shows; different from what the view shows if and only if the nearest entry lists only spent outputs, which is never so in a tidy stack |
| CoinsCache.CoinsViewCache.RawIsTidy | src/coins.cpp:72-88 | in a tidy stack no lookup reaches an entry that lists only spent outputs |
| CoinsCache.HaveSpentCoins | src/coins.cpp:164-171 | while an edit is open that has left one spent output, it says yes although nothing is left to spend |
| CoinsCache.CoinsViewCache.BatchWrite | src/coins.cpp:188-243 | it throws exactly when an entry marked FRESH meets unspent coins; entries that are right about this view never do that, and afterwards this view shows what the child showed and its own entries are right |
| CoinsCache.CoinsViewCache.WriteEntries | src/coins.cpp:190-240 | in whatever order the entries come, every one is merged, or the first misapplied one stops the loop |
| CoinsCache.CoinsViewCache.WriteEntry | src/coins.cpp:191-237 | one entry is merged, with no other touched, or refused exactly when it is misapplied |
| CoinsCache.CoinsViewCache.Flush | src/coins.cpp:245-250 | no level shows other coins afterwards, the level below shows the same as this one, this level is empty, a tidy stack stays tidy, and FRESH is never misapplied; exactly when the best block changes for a reader, and to what |
| CoinsCache.FlushHidesBest | src/coins.cpp:178-250 | two caches over a database for which flushing the upper one changes the best block that is reported |
| CoinsCache.CoinsViewCache.Uncache | src/coins.cpp:252-259 | the view shows the same; the entry is gone unless it is dirty or fresh |
| CoinsCache.CoinsViewCache.ModifyCoins | src/coins.cpp:99-118 | an edit starts from what the view shows and nothing is shown differently yet |
| CoinsCache.CoinsViewCache.EnsureEntry | src/coins.cpp:101-114 | the entry that an edit starts from is right, and nothing is shown differently |
| CoinsCache.CoinsViewCache.ModifyNewCoins | src/coins.cpp:120-153 | it throws exactly on cached unspent coins of a non-coinbase; the flags it sets are right if and only if it is a coinbase or the view shows no coins for the id (the assumption of BIP 30) |
| CoinsCache.CoinsViewCache.GetBestBlock | src/coins.cpp:178-182 | it returns the nearest non-null best block below, remembers it, and shows nothing differently |
| CoinsCache.CoinsViewCache.SetBestBlock | src/coins.cpp:184-186 | only the best block of this level changes |
| CoinsCache.CoinsViewCache.FlushAt | src/coins.cpp:245-250 | flushing any level in the middle of a stack changes nothing that the top shows |
| CoinsCache.CoinsViewCache.UncacheAt | src/coins.cpp:252-259 | evicting from any level of a stack changes nothing that the top shows |
| CoinsCache.CoinsViewCache.Sync | src/coins.cpp:245-250 | flushing all levels, top first, leaves in the database exactly what the top showed |
| CoinsCache.CoinsModifier.constructor | src/coins.cpp:317-320 | opening a modifier takes the only modifier slot of the cache |
| CoinsCache.CoinsModifier.Write | src/coins.h:363-365 | a write through the modifier shows at once, for its id only |
| CoinsCache.CoinsModifier.Close | src/coins.cpp:322-334 | closing leaves the cleaned coins, as absent when they are pruned, keeps the entries right, and gives the slot back |
| CoinsCache.Finish | src/coins.cpp:322-334 | whatever an edit wrote, closing it leaves the cleaned coins and a tidy stack tidy |
| CoinsCache.EditSession | src/coins.cpp:99-118 | a whole edit session equals one write to a plain map |
| CoinsCache.EditNewSession | src/coins.cpp:120-153 | a whole session for new coins equals one write to a plain map, when the view shows none for a non-coinbase |
| CoinsCache.Step | src/coins.cpp:72-259 | every operation on a stack of caches does to what it shows what the same operation does to one plain map, keeps it tidy, and then replies to a query what that map says |
| CoinsCache.Run | src/coins.cpp:72-334 | for any stack and any run of queries, edits, evictions and flushes at any level the top equals one plain map with the same edits; on a tidy stack every GetCoins and HaveCoins replies what that map says; flushing everything leaves that very map in the database |
| CheckQueue.BatchLength | src/checkqueue.h:105-110 | between one and all queued checks, and more than one only up to the batch size |
| CheckQueue.PoppedIsTheRest | src/checkqueue.h:111-117 | every check is popped exactly as often as it leaves the queue |
| CheckQueue.Queue.constructor | src/checkqueue.h:131-131 | a new queue is idle |
| CheckQueue.Queue.BeginRound | src/checkqueue.h:78-121 | one critical section does the clean-up and the dispatch of the state machine, and signals the master exactly when a worker finished the last check |
| CheckQueue.Queue.Resume | src/checkqueue.h:90-121 | the same from the wake-up inside a wait on |
| CheckQueue.Queue.Dispatch | src/checkqueue.h:90-121 | the dispatch of the state machine: return, sleep, or leave with a batch |
| CheckQueue.Queue.Add | src/checkqueue.h:146-158 | the checks are queued and counted, and as many workers are signalled as the code signals |
| CheckQueue.Execute | src/checkqueue.h:121-125 | although checks are skipped after a failure, the result is whether the earlier state was good and all checks of the batch pass |
| CheckQueue.WorkIsExecute | src/checkqueue.h:121-125 | evaluating a batch check by check, as the threads do, comes to what Execute computes and changes nothing else |
| CheckQueue.Advance | src/checkqueue.h:69-158 | every step of every thread taken on the object does to fields, threads and notifications what the state machine says, with the preconditions of its critical sections always met |
| CheckQueue.DispatchByInv | src/checkqueue.h:90-121 | however many checks are taken, the end of a critical section keeps the invariant, and a returning master's result is whether all checks added since the last return pass |
| CheckQueue.StepInv | src/checkqueue.h:69-158 | every atomic step of every thread keeps the invariant (exact counters, no check lost or doubled, no lost wake-up of the master) |
| CheckQueue.RunInv | src/checkqueue.h:69-158 | so every state of every run satisfies it, for any number of workers and any interleaving |
| CheckQueue.CountersAreExact | src/checkqueue.h:46-60 | in every run nTodo is the number of queued and in-flight checks and nTotal - nIdle the number of threads that hold a batch |
| CheckQueue.WaitIsRight | src/checkqueue.h:140-143 | in every run Wait returns true exactly if every check added since the previous Wait passes, and leaves the queue idle |
| CheckQueue.IdleUntilAdd | src/checkqueue.h:164-191 | from the start or a return of Wait until the next non-empty Add the queue is idle at every moment, whatever the workers do |
| CheckQueue.IdleMeans | src/checkqueue.h:164-168 | in every run IsIdle is true if and only if no thread holds a batch, nothing is queued, and every check added since the last Wait passes |
| CheckQueue.NoDeadlock | src/checkqueue.h:81-104 | while the master is in Wait some thread can go on, and the master never sleeps un-notified once nothing is left to do |
| CheckQueue.EffortDecreases | src/checkqueue.h:69-127 | until Wait returns every driven step and every start of a worker brings a bound down, and a spurious wake-up does not raise it |
| CheckQueue.WaitIsBounded | src/checkqueue.h:69-127 | in every run, as long as Wait has not returned, the number of steps of all threads that are not spurious wake-ups is bounded beforehand; with NoDeadlock, unbounded spurious wake-ups are the only way not to return |
| CheckQueueControl.UsedIs | src/checkqueue.h:176-213 | the controller counts as done exactly if Wait was called on it |
| CheckQueueControl.AddedIsPending | src/checkqueue.h:69-158 | in every run the pending checks are those that the master added after its last completed Wait |
| CheckQueueControl.Finish | src/checkqueue.h:69-127 | from every state inside Wait some continuation returns, leaving nothing to do |
| CheckQueueControl.SomeRun | src/checkqueue.h:140-158 | for every list of calls there is a run in which the master makes them |
| CheckQueueControl.IdleIff | src/checkqueue.h:184-191 | after given calls the queue is idle in every run if and only if they leave nothing pending |
| CheckQueueControl.LifeIff | src/checkqueue.h:193-213 | a controller leaves nothing pending if and only if no non-empty Add followed its last Wait |
| CheckQueueControl.ControllerIff | src/checkqueue.h:172-213 | whatever came before, the assertion of the next constructor holds in every run after the life of a controller if and only if no non-empty Add followed its last Wait |
| CheckQueueControl.AddAfterWait | src/checkqueue.h:172-213 | one check added after Wait is enough to break it |
| AddrTables.SwapKeeps | src/addrman.cpp:93-111 | swapping two places of the random order keeps all tables consistent and every record but its place |
| AddrTables.DeleteKeeps | src/addrman.cpp:113-125 | deleting an unreferenced new entry removes it from every structure, keeps the others consistent, and its assertions hold |
| AddrTables.ClearNewKeeps | src/addrman.cpp:127-140 | clearing a slot empties just that slot, drops its entry exactly when that was the last reference, and its assertions hold |
| AddrTables.StrippingKeeps | src/addrman.cpp:144-154 | after the loop over all new buckets the entry has no reference left, as the assertion says, and all else is consistent |
| AddrTables.UntryKeeps | src/addrman.cpp:161-170 | taking an entry out of a tried slot keeps the counters and tables exact |
| AddrTables.PlaceKeeps | src/addrman.cpp:183-187 | placing an entry in its free tried slot keeps the counters and tables exact |
| AddrTables.RefileInv | src/addrman.cpp:172-181 | an evicted entry that goes back into a cleared new slot is counted as new again |
| AddrTables.CreateKeeps | src/addrman.cpp:81-91 | a created entry is linked from both maps and the random order, under a fresh id |
| AddrTables.UpdateKeeps | src/addrman.cpp:315-335 | changing the times, services or attempts of a record keeps all tables consistent |
| AddrTables.MakeTried | src/addrman.cpp:142-188 | the entry ends in its own tried slot with no reference, the tried table changes in that slot only, and everything is consistent |
| AddrTables.Good | src/addrman.cpp:190-240 | marking as good keeps all tables consistent |
| AddrTables.GoodIsTried | src/addrman.cpp:190-240 | afterwards a known service is in the tried slot that its address leads to, and no other tried slot has changed |
| AddrTables.Add | src/addrman.cpp:242-313 | adding keeps all tables consistent, for every outcome of its random test |
| AddrTables.AddFrame | src/addrman.cpp:242-313 | adding never touches the tried table, touches at most the new slot that address and source lead to, and drops no record but that of this slot |
| AddrTables.AddLists | src/addrman.cpp:284-312 | an unknown address is listed, with its penalised time, exactly if its slot is free, or held by a terrible entry or by one with another reference |
| AddrTables.RefreshedMeans | src/addrman.cpp:256-264 | an advertisement never moves a time back, moves it on only by more than the update interval (an hour for addresses online, else a day) or from nothing, and loses no service |
| AddrTables.FileKnown | src/addrman.cpp:291-311 | an entry that has references is never dropped: it gains its slot and one reference exactly if the slot is free or its entry terrible |
| AddrTables.AddKnown | src/addrman.cpp:256-283 | a known address keeps its id and gets the refreshed record; it gains at most one reference, and none if nothing is new, it is tried, has eight, or loses the draw |
| AddrTables.KnownIff | src/addrman.cpp:68-79 | an address is found if and only if some record has it, and then that is the only one |
| AddrTables.ExactIff | src/addrman.cpp:190-206 | a service is matched if and only if some record has it, port included |
| AddrTables.AttemptedMeans | src/addrman.cpp:315-335 | looking the record up by its address changes exactly the records of this service, and nothing else in the tables |
| AddrTables.CountsOnce | src/addrman.cpp:328-334 | any number of failures after a success count once until the next one |
| AddrTables.ConnectedMeans | src/addrman.cpp:483-501 | the same for the time of a connection |
| AddrTables.ServicesMeans | src/addrman.cpp:503-519 | the same for the services |
| AddrTables.SlotCounts | src/addrman.cpp:127-135 | the occupant of a new slot has a positive reference count, so the assertion of ClearNew holds |
| AddrTables.SampledMeans | src/addrman.cpp:462-481 | the sampled addresses are those of different records that are not terrible |
| AddrTables.SkippedAll | src/addrman.cpp:462-481 | when the whole random order has been gone through, no record that is not terrible is left out |
| AddrCheck.InvIsChecked | src/addrman.cpp:385-459 | the invariant holds if and only if all conditions of the self-check hold together with the few that it leaves out |
| AddrCheck.RandomIsFull | src/addrman.cpp:390-422 | the positions of the records cover the whole random order, which the check does not test by itself |
| AddrCheck.CheckInfo | src/addrman.cpp:394-416 | a record passes exactly if it satisfies all conditions on a single record |
| AddrCheck.CheckInfos | src/addrman.cpp:393-422 | in whatever order they come, zero means that every record passed, with the tried ids and the reference counts collected |
| AddrCheck.CheckTried | src/addrman.cpp:424-436 | the scan passes exactly if the tried table holds every tried id once, in its slot |
| AddrCheck.CheckNew | src/addrman.cpp:438-449 | the scan passes exactly if every new entry is in as many slots as it counts, each its own |
| AddrCodec.WriteRecords | src/addrman.h:310-328 | one pass writes exactly the selected records, in ascending order of ids, and its assertion against the counter holds |
| AddrCodec.WriteBucket | src/addrman.h:330-341 | a bucket is written as the number of its used slots and the indices of their entries |
| AddrCodec.WriteBuckets | src/addrman.h:329-342 | all buckets are written in order |
| AddrCodec.LoadNewRecords | src/addrman.h:374-392 | reading the new records links each under the next id, or fails on a short stream |
| AddrCodec.EnterRecord | src/addrman.h:376-390 | one record is linked from both maps and the random order |
| AddrCodec.LoadTriedRecords | src/addrman.h:394-413 | reading the tried records places each in its slot and counts those that are lost to a taken slot |
| AddrCodec.EnterTriedRecord | src/addrman.h:397-411 | one tried record goes into its slot if that is free |
| AddrCodec.LoadBuckets | src/addrman.h:415-431 | reading the buckets restores the slots they name |
| AddrCodec.LoadSlots | src/addrman.h:419-430 | an index is followed exactly if it is in range, its entry has references to spare and the slot is free |
| AddrCodec.PruneUnused | src/addrman.h:433-443 | records in neither table are deleted, and the assertions of Delete hold whatever was read |
| AddrCodec.Unserialize | src/addrman.h:345-449 | any stream whatsoever is either refused or read into tables that the decoding function describes, with no assertion failing |
| AddrRoundTrip.WithinLimits | src/addrman.h:366-372 | what a consistent manager writes never exceeds the limits that the reader checks |
| AddrRoundTrip.OrderLists | src/addrman.h:309-328 | the written order lists every id exactly once, the new ones first |
| AddrRoundTrip.AllSettled | src/addrman.h:433-443 | once all slots are read no entry is without a place, so nothing is pruned |
| AddrRoundTrip.FilledIsSame | src/addrman.h:415-431 | the new table that was read equals the one that was written, up to the renaming of ids |
| AddrRoundTrip.BodyRoundTrip | src/addrman.h:296-449 | reading what a consistent manager wrote restores both tables, all records and both counters |
| AddrRoundTrip.RoundTrip | src/addrman.h:296-449 | the same for the whole stream with its key: it is accepted, and nothing is lost to a limit, a collision or pruning |
| AddrMan.AddrMan.constructor | src/addrman.h:451-480 | a new manager is empty and consistent |
| AddrMan.AddrMan.SwapRandom | src/addrman.cpp:93-111 | the in-place swap does what the function on tables does, for which see SwapKeeps |
| AddrMan.AddrMan.Delete | src/addrman.cpp:113-125 | the in-place deletion does what the function on tables does, for which see DeleteKeeps |
| AddrMan.AddrMan.ClearNew | src/addrman.cpp:127-140 | the in-place clearing does what the function on tables does, for which see ClearNewKeeps |
| AddrMan.AddrMan.StripNew | src/addrman.cpp:144-154 | the loop over all buckets takes the entry out of each of them and counts its references down |
| AddrMan.AddrMan.MakeTried | src/addrman.cpp:142-188 | the in-place move does what the function on tables does, with no assertion failing |
| AddrMan.AddrMan.MakeRoom | src/addrman.cpp:160-182 | the occupant of the tried slot goes back into the new slot of its source |
| AddrMan.AddrMan.PutBack | src/addrman.cpp:172-181 | the evicted entry replaces whatever was in its new slot |
| AddrMan.AddrMan.EnterTried | src/addrman.cpp:183-187 | the free tried slot takes the entry |
| AddrMan.AddrMan.Good_ | src/addrman.cpp:190-240 | every call keeps the manager consistent and has the effect that GoodIsTried describes |
| AddrMan.AddrMan.MarkGood | src/addrman.cpp:208-240 | times are set, and an entry that is not tried yet is moved |
| AddrMan.AddrMan.FindBucket | src/addrman.cpp:219-234 | the search for a bucket of a new entry always succeeds, so its early return is never taken |
| AddrMan.AddrMan.Create | src/addrman.cpp:81-91 | a record under the next id, linked from everywhere |
| AddrMan.AddrMan.Add_ | src/addrman.cpp:242-313 | every call keeps the manager consistent; it reports new exactly for an unknown routable address, and has the effect that AddFrame and AddLists describe |
| AddrMan.AddrMan.FileEntry | src/addrman.cpp:291-311 | the entry gets its slot, or is dropped if it has none |
| AddrMan.AddrMan.Attempt_ | src/addrman.cpp:315-335 | every call keeps the manager consistent and changes only the times and attempts of an exact match |
| AddrMan.AddrMan.Connected_ | src/addrman.cpp:483-501 | every call keeps the manager consistent and changes at most the time of an exact match, after the update interval |
| AddrMan.AddrMan.SetServices_ | src/addrman.cpp:503-519 | every call keeps the manager consistent and changes only the services of an exact match |
| AddrMan.AddrMan.GetAddr_ | src/addrman.cpp:462-481 | the sample has different records, none terrible, at most 23 percent of all and 2500, and all that are not terrible unless it reached that limit; the manager stays consistent |
| AddrMan.AddrMan.Check_ | src/addrman.cpp:385-459 | the check returns zero exactly if its conditions hold and the key is set; on a consistent manager it changes nothing and only a null key fails it |
| AddrMan.AddrMan.Serialize | src/addrman.h:296-343 | a consistent manager writes the stream that the encoding function describes |
| AddrMan.AddrMan.Unserialize | src/addrman.h:345-449 | a manager without records ends with the tables that the decoding function describes, or refuses exactly the streams that it refuses |
| AddrMan.AddrMan.Step | src/addrman.cpp:190-519 | every public operation keeps the manager consistent |
| AddrMan.SaveAndLoad | src/addrman.h:296-449 | a saved manager loaded into a fresh one has the same tables up to the renaming of ids, and is consistent |
| AddrMan.Run | src/addrman.cpp:81-519 | every run from construction ends consistent and passes the self-check |
| MerkleTree.WidthIs | src/merkleblock.h:65-68 | a node is in the tree exactly if its first leaf is in the list |
| MerkleTree.Height | src/merkleblock.cpp:139-142 | the first height with at most one node |
| MerkleTree.Children | src/merkleblock.cpp:61-76 | the children of a node cover its leaves, and the right one may be missing |
| MerkleTree.NodeSound | src/merkleblock.cpp:96-132 | whatever the bits and hashes were, if the hash of a node comes out right then so are all matches below it |
| MerkleTree.Sound | src/merkleblock.cpp:150-181 | soundness: whoever gets the root of a list of as many ids out of arbitrary bits and hashes gets only true matches, each at its index |
| MerkleTree.MatchedAt | src/merkleblock.cpp:110-115 | every index that is meant to be returned is a matched one |
| MerkleTree.MatchedAscends | src/merkleblock.cpp:110-115 | they ascend |
| MerkleTree.AllMatched | src/merkleblock.cpp:110-115 | and none is missing |
| MerkleTree.NodesDiffer | src/merkleblock.cpp:119-125 | in a tree of distinct ids two neighbours never have the same hash, so the check for duplicated children does not fire |
| MerkleTree.NodeComplete | src/merkleblock.cpp:78-132 | extraction undoes building, node by node, and uses up exactly what was built |
| MerkleTree.Complete | src/merkleblock.cpp:134-181 | completeness: a proof, padded to whole bytes, is accepted and gives the root and exactly the matched ids and indices in order |
| MerkleTree.HashesPerLeaf | src/merkleblock.h:39-40 | between one hash and one per leaf below the node |
| MerkleTree.HashesPerMatch | src/merkleblock.h:39-40 | at most one hash, and one more for every match and level |
| MerkleTree.BitCount | src/merkleblock.h:39-47 | two bits for every hash but the first, and one for every node with a single child |
| MerkleTree.LoneAtMost | src/merkleblock.h:39-47 | at most one such node per level |
| MerkleTree.LoneIs | src/merkleblock.h:39-47 | the nodes with a single child that are descended into, counted by level: one for every level of odd width whose last node is above a match |
| MerkleTree.BitRemarkFails | src/merkleblock.h:47-47 | the remark that 2N - 1 bits go with N hashes is false: three transactions of which the last is matched |
| MerkleTree.ProofSizes | src/merkleblock.h:39-47 | the hash count is at most the transaction count and 1 + matches times height; the bit count is exact, and the remark on it holds exactly if no level of odd width has a match under its last node |
| MerkleTree.SizeIff | src/merkleblock.h:31-48 | the guaranteed size in bytes is exceeded if and only if there are more than 252 bytes of bits and enough such levels, by at most two bytes |
| MerkleTree.SizeGuaranteeFails | src/merkleblock.h:31-34 | the guarantee fails for 1012 transactions that are all matched |
| MerkleTree.Pack | src/merkleblock.h:99-104 | the bytes hold exactly the bits, with zeros after them |
| MerkleTree.Unpack | src/merkleblock.h:92-98 | the bits are exactly those of the bytes |
| MerkleBlock.PartialMerkleTree.constructor | src/merkleblock.cpp:134-146 | bits and hashes are those of the whole tree from its root |
| MerkleBlock.PartialMerkleTree.CalcHeight | src/merkleblock.cpp:139-142 | the loop finds the first height with at most one node |
| MerkleBlock.PartialMerkleTree.CalcHash | src/merkleblock.cpp:61-76 | the hash of a node, with the last child doubled |
| MerkleBlock.PartialMerkleTree.TraverseAndBuild | src/merkleblock.cpp:78-94 | appends exactly the bits and hashes of the subtree |
| MerkleBlock.PartialMerkleTree.ParentOfMatch | src/merkleblock.cpp:79-82 | whether any leaf below the node is matched |
| MerkleBlock.PartialMerkleTree.TraverseAndExtract | src/merkleblock.cpp:96-132 | for arbitrary bits, hashes and cursors it does what the extraction function does, for which see NodeSound and NodeComplete |
| MerkleBlock.PartialMerkleTree.ExtractChildren | src/merkleblock.cpp:116-131 | the descending case of the same |
| MerkleBlock.PartialMerkleTree.ExtractMatches | src/merkleblock.cpp:150-181 | the root, or zero for a malformed object; the indices are added to what the vector held |
| MerkleBlock.PartialMerkleTree.Serialize | src/merkleblock.h:88-105 | the message has count and hashes, and every bit at its place in the bytes |
| MerkleBlock.PartialMerkleTree.Unserialize | src/merkleblock.h:88-105 | every bit of the bytes is restored, and the object is no longer bad |
| MerkleBlock.SendProof | src/merkleblock.cpp:61-181 | a proof built, sent and checked gives the receiver the true root and exactly the matched ids and indices in order |
| MerkleBlock.CheckProof | src/merkleblock.cpp:150-181 | whatever message arrives, if it gives the root of a list of as many ids then its matches are true |
| MinerPool.VirtualSize | src/policy/policy.cpp:213-216 | four times the virtual size is at least the weight and at least the weight of the signature operations |
| MinerPool.CountGrows | src/miner.h:87-97 | a transaction has more ancestors than each of its ancestors, so sorting by their count puts parents first |
| MinerPool.AddedSound | src/miner.cpp:338-349 | adding an eligible transaction whose ancestors are in keeps the block in order and all its totals exact |
| MinerPool.ParentsSuffice | src/miner.cpp:228-237 | once the parents are in the block, so are all ancestors |
| MinerPool.CachedSuffice | src/miner.cpp:489-496 | the pool's cached totals never under-count what is missing |
| MinerPool.ReducedOk | src/miner.cpp:364-389 | taking the added ancestors out leaves totals that count at least what is still missing, and exactly that but for packages that failed before |
| MinerPool.AncestorsFirst | src/miner.cpp:408-417 | in a package sorted by ancestor count every transaction finds its ancestors in the block or before it |
| MinerPool.AddedAllSound | src/miner.cpp:542-550 | adding a whole sorted package keeps the block in order and all its totals exact |
| MinerPool.PackageTotals | src/miner.cpp:252-260 | the weight that a package adds is at most four times its virtual size, and its other totals are the sums over it |
| MinerPool.PackageTotalsSuffice | src/miner.cpp:485-496 | whichever totals are looked at, they count at least what is missing, and exactly that unless the package failed before |
| MinerPool.Dropped | src/miner.cpp:503-510 | dropping a failed package keeps all other totals exact |
| MinerPool.TooLargeIsExcluded | src/miner.cpp:252-260 | a package that fails by exact totals is one whose missing part does not fit |
| MinerPool.MinedMoves | src/miner.cpp:338-349 | mining a transaction moves exactly it from the missing to the mined part of a package |
| MinerPool.ExcludedStays | src/miner.cpp:252-284 | if the missing part of a package does not fit, it does not fit after any other eligible transaction was mined, one of its own included |
| MinerPool.OutStays | src/miner.cpp:542-550 | mining a whole package leaves mined or excluded what was |
| MinerPool.InOrder | src/miner.cpp:408-417 | a sound block has every parent before its child, and nothing twice |
| Miner.BlockAssembler.constructor | src/miner.cpp:78-113 | the limits are the configured ones, or the nearest that leave room for the coinbase; bytes count exactly if they are limited |
| Miner.BlockAssembler.ResetBlock | src/miner.cpp:115-131 | an empty block with the reserve for the coinbase is sound and within the limits |
| Miner.BlockAssembler.IsStillDependent | src/miner.cpp:228-237 | whether some parent is not in the block |
| Miner.BlockAssembler.OnlyUnconfirmed | src/miner.cpp:239-250 | exactly the members that are not in the block |
| Miner.BlockAssembler.TestPackageTransactions | src/miner.cpp:262-284 | in whatever order, whether all are final, none has a forbidden witness, and their bytes fit together |
| Miner.BlockAssembler.TestForBlock | src/miner.cpp:286-336 | whether the transaction fits and is final; the block is given up only close to a limit or after many tries |
| Miner.BlockAssembler.AddToBlock | src/miner.cpp:338-349 | the block with one more transaction, for which see AddedSound |
| Miner.BlockAssembler.UpdatePackagesForAdded | src/miner.cpp:364-389 | in whatever order, every descendant that was not added loses exactly the totals of its added ancestors, and nothing else changes |
| Miner.BlockAssembler.UpdateDescendants | src/miner.cpp:369-386 | the same for one added transaction |
| Miner.BlockAssembler.SortForBlock | src/miner.cpp:408-417 | the package, each member once, in ascending order of ancestor counts |
| Miner.BlockAssembler.AddSorted | src/miner.cpp:546-550 | the package is added in order and leaves the modified packages |
| Miner.BlockAssembler.AddPackage | src/miner.cpp:542-555 | a tested package keeps the block sound and within the limits, the totals of the others exact, and excluded what was |
| Miner.BlockAssembler.TryPackage | src/miner.cpp:485-555 | a package is added, or what is missing of it does not fit on top of the block or may not be mined; either way the block stays sound and within the limits and the totals of all that never failed stay exact |
| Miner.BlockAssembler.Fail | src/miner.cpp:503-537 | a package that cannot be added leaves the modified packages, and is remembered as one that failed |
| Miner.BlockAssembler.Consider | src/miner.cpp:503-540 | every round fills the block, or drops a modified package, or moves on in the pool; giving up happens only close to the limit |
| Miner.BlockAssembler.Choose | src/miner.cpp:459-483 | the transaction to look at next is the next of the pool or a modified one |
| Miner.BlockAssembler.StartModified | src/miner.cpp:437-439 | the descendants of what the priority phase added start with exactly reduced totals |
| Miner.BlockAssembler.AddPackageTxs | src/miner.cpp:429-557 | the loop terminates; the block stays sound and within all limits and only grows; and unless it stopped for a low fee or close to the limit, of everything left out the part that is missing does not fit, with mined ancestors at their estimated weight, or holds something that may not be mined |
| Miner.BlockAssembler.AllQueued | src/miner.cpp:580-589 | every transaction is queued once |
| Miner.BlockAssembler.Requeue | src/miner.cpp:625-635 | exactly the waiting children of the added transaction go back into the queue |
| Miner.BlockAssembler.PriorityStep | src/miner.cpp:598-636 | every transaction taken from the queue is added, waits for a parent that is not in the block, or cannot be added |
| Miner.BlockAssembler.AddFitting | src/miner.cpp:615-617 | adding a fitting transaction whose parents are in keeps the block sound and within the limits |
| Miner.BlockAssembler.AddPriorityTxs | src/miner.cpp:559-639 | the phase terminates with the block sound and within the limits; if it runs out of transactions, those left would not fit alone, may not be mined, or have a parent that is left; otherwise one of the stopping rules applied |
| Miner.BlockAssembler.PriorityLoop | src/miner.cpp:591-637 | the same for its loop |
| Miner.BlockAssembler.CreateNewBlock | src/miner.cpp:133-226 | a whole run: parents before children, nothing twice, fees, weight, bytes and signature operations those of the chosen transactions and within the limits, and nothing left out whose missing part would fit unless a stopping rule applied |
| AuxPow.Find | src/auxpow.cpp:107-111 | the first occurrence of a pattern, or the end |
| AuxPow.Search | src/auxpow.cpp:107-111 | the search finds that occurrence |
| AuxPow.CheckMerkleBranch | src/auxpow.cpp:183-200 | the loop climbs the branch as the recursive definition does, with zero for the index -1 |
| AuxPow.ClimbInjective | src/auxpow.cpp:183-200 | without a collision among the hashed pairs, one root has along one index one leaf and one branch of a length |
| AuxPow.ExpectedIndex | src/auxpow.cpp:158-181 | a slot below 2 to the height, whatever wraps around |
| AuxPow.Check | src/auxpow.cpp:79-155 | accepted exactly if all conditions on index, chain id, branches, script positions, size and slot hold |
| AuxPow.UniqueAtPlace | src/auxpow.cpp:79-155 | two accepted proofs from one coinbase with their roots at one place are for the same block, by the same branch and slot |
| AuxPow.Unique | src/auxpow.cpp:79-155 | a coinbase script with the merged-mining header is accepted for at most one block per chain id, whatever branches and indices are supplied |
| AuxPow.PassesAtUsable | src/auxpow.cpp:107-149 | without the header an accepted root stands at one of the first 21 places, for the first time, with a tree size behind it |
| AuxPow.UsablePasses | src/auxpow.cpp:107-149 | and every such place is accepted for some block |
| AuxPow.UniqueIff | src/auxpow.cpp:79-155 | a coinbase script serves at most one block per chain id, for every hash function without a collision, if and only if it has the header or at most one such place |
| AuxPow.TwoRootsPass | src/auxpow.cpp:125-132 | without the header a whole family of scripts is accepted for two different blocks |
| AuxPow.TwiceWithoutHeader | src/auxpow.cpp:125-132 | and one such script is given, so neither the header nor the single place can be dropped from UniqueIff |
| AuxPow.InitPasses | src/auxpow.cpp:202-238 | a proof made for a new block passes its own check if and only if the chain id is allowed, the hash is not made of the push opcode only, and the script does not happen to contain the header |
| RollingBloom.WipePair | src/bloom.cpp:257-265 | the masks clear exactly the cells of the generation that begins, in all 64 cells of a pair of words |
| RollingBloom.SetPair | src/bloom.cpp:270-275 | setting writes the generation into one cell and no other |
| RollingBloom.WipeAges | src/bloom.cpp:251-267 | cells set at most one generation ago survive and become one generation older |
| RollingBloom.WipeKeeps | src/bloom.cpp:251-267 | so all keys of the last two generations survive |
| RollingBloom.WipeExplains | src/bloom.cpp:251-267 | and what is left was set by keys of the last two generations |
| RollingBloom.InsertKeeps | src/bloom.cpp:269-277 | an insert loses no recent key |
| RollingBloom.InsertExplains | src/bloom.cpp:269-277 | and sets no cell but those of its key |
| RollingBloom.RollingBloomFilter.constructor | src/bloom.cpp:217-242 | a new filter holds nothing, and two generations are at least the promised number of elements |
| RollingBloom.RollingBloomFilter.Reset | src/bloom.cpp:305-313 | everything is forgotten |
| RollingBloom.RollingBloomFilter.Insert | src/bloom.cpp:249-277 | the cells that are set are exactly those of the keys of the current and the two previous generations |
| RollingBloom.RollingBloomFilter.Wipe | src/bloom.cpp:257-265 | exactly the cells of the new generation are cleared |
| RollingBloom.RollingBloomFilter.SetCells | src/bloom.cpp:269-277 | all cells of the key get the current generation, and no others change |
| RollingBloom.RollingBloomFilter.SetIsRecent | src/bloom.cpp:249-297 | a cell is set if and only if a key of the last three generations has it |
| RollingBloom.RollingBloomFilter.Contains | src/bloom.cpp:285-297 | true if and only if every cell of the key is a cell of a recent key; so true for each of the last nElements keys, and never because of older ones |
| Cuckoo.Flags.constructor | src/cuckoocache.h:79-83 | all flags are set |
| Cuckoo.Flags.BitSet | src/cuckoocache.h:92-95 | exactly one flag becomes set |
| Cuckoo.Flags.BitUnset | src/cuckoocache.h:103-106 | exactly one flag becomes clear |
| Cuckoo.HeldIsFound | src/cuckoocache.h:443-453 | an element that may not be collected is found |
| Cuckoo.StoreKeeps | src/cuckoocache.h:387-390 | storing in a free slot loses nothing |
| Cuckoo.RenewKeeps | src/cuckoocache.h:376-381 | keeping an element that is there moves it to the current epoch and touches no other |
| Cuckoo.SwapKeeps | src/cuckoocache.h:406-411 | swapping loses nothing, and every element takes its epoch along |
| Cuckoo.FirstSwap | src/cuckoocache.h:395-406 | the first swap takes the second slot; it takes the first, as the comment says, if and only if these are the same |
| Cuckoo.Cache.constructor | src/cuckoocache.h:315-329 | nothing is held; the size is a power of two |
| Cuckoo.Cache.EpochCheck | src/cuckoocache.h:264-296 | exactly the old epoch may be collected, and the current one becomes the old one, if the counter ran out on a full epoch; otherwise only the counter changes, to the documented value |
| Cuckoo.Cache.CountUnused | src/cuckoocache.h:270-275 | the number of elements of the current epoch that may not be collected |
| Cuckoo.Cache.AgeEpochs | src/cuckoocache.h:281-285 | exactly the slots of the old epoch may be collected, and no slot is of the current one |
| Cuckoo.Cache.PleaseKeep | src/cuckoocache.h:250-253 | exactly one slot is kept again |
| Cuckoo.Cache.FindLoc | src/cuckoocache.h:406-406 | the first place of a slot among the eight, or eight |
| Cuckoo.Cache.StoreInFree | src/cuckoocache.h:383-391 | stored without loss in a free slot of its own, or all eight are taken |
| Cuckoo.Cache.Place | src/cuckoocache.h:382-415 | whatever is moved around, at most one element is lost, and none if one of the eight slots was free |
| Cuckoo.Cache.Insert | src/cuckoocache.h:368-416 | all that may not be collected after the epoch check, and the new element, is still held with its epoch and found, with at most one exception; none if a slot was free or the element was there |
| Cuckoo.Cache.Contains | src/cuckoocache.h:443-453 | true exactly if a slot of the element holds it; erasing frees exactly the first such slot |
| CompactBlock.PrefilledAscend | src/blockencodings.cpp:60-75 | the slots of the prefilled transactions ascend, so none is used twice |
| CompactBlock.EmptiesAt | src/blockencodings.cpp:83-87 | the listed empty slots are empty |
| CompactBlock.EmptiesAscend | src/blockencodings.cpp:83-87 | they ascend |
| CompactBlock.EmptiesAll | src/blockencodings.cpp:83-87 | and none is missing |
| CompactBlock.MappedSlots | src/blockencodings.cpp:82-104 | short ids map one-to-one to empty slots, in range |
| CompactBlock.ModuloIff | src/blockencodings.cpp:82-88 | 16-bit slots are the right ones if and only if the block has at most 65536 transactions |
| CompactBlock.SharedIff | src/blockencodings.cpp:82-88 | beyond that, two short ids share a slot if and only if some slot and the one 65536 further are both left empty |
| CompactBlock.FillStep | src/blockencodings.cpp:113-118 | filling a slot keeps the count exact and the slots right about the candidates |
| CompactBlock.ResetStep | src/blockencodings.cpp:118-126 | emptying it on a second candidate does too |
| CompactBlock.ScanFills | src/blockencodings.cpp:113-118 | the first candidate for a slot fills it, whatever slots the short ids lead to, and the count of found ones stays exact |
| CompactBlock.ScanResets | src/blockencodings.cpp:118-126 | another one empties it, and the count never becomes negative |
| CompactBlock.ScanStep | src/blockencodings.cpp:110-165 | looking at one more candidate keeps it true that a slot with just one candidate holds it once it has been looked at |
| CompactBlock.ScanFull | src/blockencodings.cpp:128-132 | the early exit misses no candidate that is the only one for its slot |
| CompactBlock.FillingAgrees | src/blockencodings.cpp:106-165 | without collisions every filled slot holds the transaction of the block |
| CompactBlock.Rebuilt | src/blockencodings.cpp:178-199 | slots that agree with a block, filled with its missing transactions in order, give the block |
| CompactBlock.PartiallyDownloadedBlock.PlacePrefilled | src/blockencodings.cpp:58-76 | accepted exactly if every prefilled transaction is real and in range; then each is in its slot |
| CompactBlock.PartiallyDownloadedBlock.MapShortIds | src/blockencodings.cpp:82-104 | the k-th short id stands for the k-th empty slot as a 16-bit number, with all indexing in range; it fails only for equal short ids or a crowded bucket |
| CompactBlock.PartiallyDownloadedBlock.SkipTaken | src/blockencodings.cpp:85-86 | the loop stops at the next empty slot, inside the block, and its 16-bit offset does not wrap around |
| CompactBlock.PartiallyDownloadedBlock.ScanPool | src/blockencodings.cpp:106-134 | slots hold only candidates that answer to them, and the only candidate of a slot is found, in spite of the early exit |
| CompactBlock.PartiallyDownloadedBlock.ScanExtra | src/blockencodings.cpp:136-165 | the same for the extra transactions |
| CompactBlock.PartiallyDownloadedBlock.InitData | src/blockencodings.cpp:50-170 | exactly which messages are invalid; an accepted one of any size maps its short ids in order to 16-bit slots with all indexing in range; with at most 65536 transactions these are one-to-one the slots left empty, they hold only candidates that answer to them, and hold the only one there is |
| CompactBlock.PartiallyDownloadedBlock.FillBlock | src/blockencodings.cpp:178-219 | exactly when it succeeds, is invalid or fails the block check, and every slot of the result comes from its slot or from its turn among the missing transactions |
| CompactBlock.MakeMessage | src/blockencodings.cpp:20-30 | the coinbase prefilled, and the short ids of the rest in order |
| CompactBlock.SendBlock | src/blockencodings.cpp:20-219 | without collisions a block of at most 65536 transactions sent as a compact block, completed with what is missing, arrives unchanged unless a bucket is crowded |
| Base58Room.EncodeRoom | src/base58.cpp:80-82 | 138/100 digits per byte and one more always suffice |
| Base58Room.DecodeRoom | src/base58.cpp:34-35 | 733/1000 bytes per digit and one more always suffice |
| Base58.CharDigit | src/base58.cpp:19-19 | every digit is found again from its character |
| Base58.DecodeEncode | src/base58.cpp:21-109 | decoding undoes encoding, for every byte string |
| Base58.EncodeDecode | src/base58.cpp:21-109 | encoding undoes decoding, up to the spaces around the text |
| Base58.CoreIsTrimmed | src/base58.cpp:23-25 | what an accepted text is read as is the text without the spaces around it |
| Base58.MultiplyAdd | src/base58.cpp:42-51 | with enough room the digits become value * factor + digit and no carry is left, so the assertion holds; digits beyond the length in use stay zero |
| Base58.Convert | src/base58.cpp:83-97 | the buffer ends with the digits of the same number in the other base |
| Base58.SkipZeroes | src/base58.cpp:60-62 | the digits in use without the zeros before them are those of the number |
| Base58.Encode | src/base58.cpp:71-109 | every byte string is encoded as the mathematical definition says, with no assertion failing |
| Base58.SkipSpaces | src/base58.cpp:23-25 | the position after all spaces |
| Base58.ReadDigits | src/base58.cpp:36-53 | digits are converted as they are read, up to a space or the first character that is none; whatever is read, there is room and no carry is left |
| Base58.Decode | src/base58.cpp:21-69 | a text is refused exactly if it is not a word of digits between spaces, and otherwise decoded as the mathematical definition says, with no assertion failing in either case |
| Base58.DecodeString | src/base58.cpp:116-119 | a string is decoded up to its first zero character |
| LimbShifts.ShiftedLeftValue | src/arith_uint256.cpp:22-36 | limbs put together as the left shift does have the value times the power of two, modulo the top |
| LimbShifts.ShiftedRightValue | src/arith_uint256.cpp:39-53 | limbs put together as the right shift does have the quotient as value |
| LimbShifts.HighestBit | src/arith_uint256.cpp:172-184 | where the highest bit of a limb puts the value between two powers of two |
| ArithUint256.Uint256.constructor | src/arith_uint256.h:32-36 | the value zero |
| ArithUint256.Uint256.Add | src/arith_uint256.h:135-145 | the sum modulo 2^256, also with itself |
| ArithUint256.Uint256.MultiplySmall | src/arith_uint256.cpp:56-65 | the product modulo 2^256 |
| ArithUint256.Uint256.Multiply | src/arith_uint256.cpp:68-81 | the product modulo 2^256; if the operand is the object itself then zero, which is the square if and only if the value is a multiple of 2^128 |
| ArithUint256.SquareIsZero | src/arith_uint256.cpp:68-81 | a square is zero modulo 2^256 if and only if its root is a multiple of 2^128 |
| ArithUint256.Uint256.AddRow | src/arith_uint256.cpp:73-78 | one row adds limb times operand at its place, up to what goes beyond the top |
| ArithUint256.Uint256.Complement | src/arith_uint256.h:69-75 | 2^256 - 1 minus the value |
| ArithUint256.Uint256.Increment | src/arith_uint256.h:173-180 | one more, modulo 2^256 |
| ArithUint256.Uint256.Negate | src/arith_uint256.h:77-84 | the negative, modulo 2^256 |
| ArithUint256.Uint256.Subtract | src/arith_uint256.h:147-151 | the difference modulo 2^256, also with itself |
| ArithUint256.Uint256.CompareTo | src/arith_uint256.cpp:110-119 | the sign of the difference |
| ArithUint256.Uint256.ShiftLeft | src/arith_uint256.cpp:22-36 | the value times 2^shift, modulo 2^256, for every shift |
| ArithUint256.Uint256.ShiftRight | src/arith_uint256.cpp:39-53 | the value divided by 2^shift, for every shift |
| ArithUint256.Uint256.Bits | src/arith_uint256.cpp:172-184 | the position of the highest bit plus one |
| ArithUint256.Uint256.Assign | src/arith_uint256.h:88-95 | the value of a single limb |
| ArithUint256.Uint256.Divide | src/arith_uint256.cpp:84-107 | the quotient rounded down, also by itself; refused exactly for zero |
| ArithUint256.Uint256.DivideLoop | src/arith_uint256.cpp:97-104 | shift and subtract leaves the quotient |
| ArithUint256.DivisionStep | src/arith_uint256.cpp:97-104 | one step keeps dividend = divisor * quotient + rest |
| ArithUint256.DivisionEnd | src/arith_uint256.cpp:97-104 | at the end the rest is below the divisor |
| ArithUint256.Uint256.SetCompact | src/arith_uint256.cpp:204-222 | the number that the compact form stands for, modulo 2^256; the overflow flag says exactly whether it is too large, and the sign flag whether it is negative |
| ArithUint256.OverflowIs | src/arith_uint256.cpp:217-220 | the three tests of the overflow flag are exact |
| ArithUint256.Uint256.GetLow64 | src/arith_uint256.h:245-249 | the value modulo 2^64 |
| ArithUint256.Uint256.LeadingBytes | src/arith_uint256.cpp:226-233 | the three leading bytes of the value |
| ArithUint256.Uint256.GetCompact | src/arith_uint256.cpp:224-245 | the compact form, which reads back as the value cut off after its leading bytes, never overflows, and is negative exactly if asked for a value that is not zero; its assertions hold |
| CompactForm.CompactReads | src/arith_uint256.cpp:204-245 | reading back what was written gives the number as far as its leading bytes go |
| CompactForm.CompactIsCanonical | src/arith_uint256.cpp:224-245 | what is written is canonical |
| CompactForm.CompactIff | src/arith_uint256.cpp:204-245 | reading and writing again gives the same compact form if and only if it is canonical |
| ArithUint256.NotAllOnes | src/chain.cpp:157-161 | no compact number is all ones, so adding one never wraps around |
| ArithUint256.ProofIs | src/chain.cpp:157-161 | the identity in the comment: (t - d) / d + 1 = t / d |
| ArithUint256.BlockProof | src/chain.cpp:149-162 | for every compact target the proof is exactly 2^256 / (target + 1) rounded down, and zero for an invalid one |
| Chain.InvertLowestOneIs | src/chain.cpp:98-99 | exactly the lowest bit that is set is cleared |
| Chain.SkipLowers | src/chain.cpp:101-110 | every skip goes back |
| Chain.BlockIndex.constructor | src/chain.h:209-235 | a block one above its previous one |
| Chain.BlockIndex.Ancestor | src/chain.cpp:112-136 | the plain walk ends at the height asked for |
| Chain.BlockIndex.GetAncestor | src/chain.cpp:112-136 | the skiplist walk terminates and finds what the plain walk finds, and nothing for a height out of range |
| Chain.BlockIndex.BuildSkip | src/chain.cpp:143-147 | the skip pointer is the ancestor at the skip height, and all skip pointers below stay right |
| Chain.AncestorOfAncestor | src/chain.cpp:112-136 | ancestors of ancestors are ancestors |
| Chain.SameBelow | src/chain.cpp:80-89 | two lines that meet at a height are the same below it |
| Chain.ActiveChain.SetTip | src/chain.cpp:40-50 | from any consistent chain, and although it stops at the first block in place, slot i ends with the tip's ancestor at height i |
| Chain.ActiveChain.FindFork | src/chain.cpp:80-89 | the highest block of the line that is in the chain, or none if there is none |
| Chain.ActiveChain.GetLocator | src/chain.cpp:52-78 | the ancestors at the heights of the locator, whether they come from the chain or the skiplist |
| Chain.ActiveChain.WalkBack | src/chain.cpp:59-75 | the same for its loop |
| Chain.ActiveChain.Back | src/chain.cpp:64-72 | both ways back lead to the ancestor |
| Chain.LocatorDescends | src/chain.cpp:52-78 | the heights start at the block, go strictly down and end at zero |
| Chain.LocatorLength | src/chain.cpp:52-78 | at most 11 + k entries if and only if the height is below 10 + 2^k |
| VarInts.WriteVarInt | src/serialize.h:317-331 | the bytes of the number |
| VarInts.WriteSignedVarInt | src/serialize.h:317-331 | a negative number is written as its last seven bits |
| VarInts.ReadVarInt | src/serialize.h:334-345 | the number modulo the size of the type, and what follows it, or failure on a short stream |
| VarInts.ReadSignedVarInt | src/serialize.h:334-345 | the same in two's complement for a signed type |
| VarInts.ReadWritten | src/serialize.h:317-345 | reading undoes writing, whatever follows |
| VarInts.ReadSignedWritten | src/serialize.h:317-345 | a signed number is read back as it was if it is not negative, and otherwise as its last seven bits |
| VarInts.CompressAmount | src/compressor.cpp:142-159 | the loop computes the compressed amount in 64 bits |
| VarInts.DecompressAmount | src/compressor.cpp:161-185 | the loop computes the decompressed amount in 64 bits, for any number |
| VarInts.DecompressCompress | src/compressor.cpp:142-185 | decompressing undoes compressing, for every amount |
| VarInts.CompressDecompress | src/compressor.cpp:142-185 | compressing undoes decompressing, for every number |
| VarInts.CompressedFits | src/compressor.cpp:142-159 | within the money range nothing exceeds 64 bits |
| ScriptCompressor.ScriptRestored | src/compressor.cpp:12-131 | every special form of a script, with hash, script hash, compressed or full key, is taken apart again to the same script |
| ScriptCompressor.ScriptRoundTrip | src/compressor.h:58-91 | every script of at most 10000 bytes is read back as it was, and every longer one as a single OP_RETURN; what follows is untouched |
| CoinsCodec.IsZeroByte | src/coins.cpp:20-26 | whether a byte of the mask is zero |
| CoinsCodec.CalcMaskSize | src/coins.cpp:17-33 | the number of bytes up to the last non-zero one, and how many of them are not zero |
| CoinsCodec.MakeMaskByte | src/coins.h:169-175 | the byte of eight outputs |
| CoinsCodec.WriteMask | src/coins.h:168-175 | all bytes of the mask |
| CoinsCodec.LoadMask | src/coins.h:197-207 | reads bytes until as many non-zero ones have come as the code says |
| CoinsCodec.MaskRoundTrip | src/coins.h:168-207 | reading the mask consumes exactly the bytes that were written and restores every bit |
| CoinsCodec.WriteOuts | src/coins.h:176-180 | the unspent outputs in order |
| CoinsCodec.LoadOuts | src/coins.h:208-213 | reads an output for every bit that is set |
| CoinsCodec.OutRoundTrip | src/compressor.h:106-118 | reading an output gives back the amount and, up to 10000 bytes, the script |
| CoinsCodec.SomethingToWrite | src/coins.h:158-162 | the assertion of Serialize: an entry with an unspent output has something to write |
| CoinsCodec.CodeParts | src/coins.h:163-196 | the header code gives back the coinbase flag, the first two outputs and the number of non-zero mask bytes |
| CoinsCodec.MaskReaches | src/coins.cpp:17-33 | the mask reaches the last unspent output |
| CoinsCodec.Serialize | src/coins.h:157-183 | the bytes of any entry that is not entirely spent, whatever its version and height |
| CoinsCodec.Unserialize | src/coins.h:186-217 | any stream is read as the decoding function says, or fails |
| CoinsCodec.RoundTrip | src/coins.h:157-217 | reading consumes exactly what was written and gives back the entry as far as it is kept: outputs with spent ones cleared or dropped, scripts that are not too long, numbers that are not negative |
| CoinsCodec.StoredIff | src/coins.h:157-217 | that is the entry itself if and only if version and height are not negative, spent outputs are cleared and not at the end, and no script is too long |
| CoinsCodec.VersionLost | src/coins.h:164-164 | a transaction of version -1 is read back with version 127 |
| CoinsCodec.ClearUnspendable | src/coins.h:121-127 | exactly the spendable outputs stay; the entry of a transaction is then stored unchanged if and only if its version and height are not negative |

## Left out

- CoinsCache.CoinsViewCache.Flush: a failing write of the database is not modelled, because the database here is a map that always accepts the batch.
- CompactBlock.PartiallyDownloadedBlock.InitData: a message with short ids and 65536 prefilled transactions, for which the 16-bit offset would wrap around; beyond 65536 transactions it says which slots the short ids lead to and that the counts are exact, not what the slots hold.
- CompactBlock.SendBlock: blocks of at most 65536 transactions, because beyond that the slots are not the right ones (ModuloIff).
- CompactBlock.PartiallyDownloadedBlock.MapShortIds: whether a bucket of the hash table holds more than twelve entries is an arbitrary choice, because it depends on the library.
- AddrMan.AddrMan.Unserialize: loads into a manager without records, as a new one is, because Clear resets the tables but not the maps; what a refused stream leaves in the tables is not described.
- VarInts.ReadSignedVarInt: a number that does not fit in an `int` wraps around in two's complement, which the language leaves undefined.
- CoinsCodec.Serialize: amounts are within the money range, and lists and scripts shorter than 2^32, as for the outputs of valid transactions.
- Miner.BlockAssembler.AddPackageTxs: fees of packages are not tracked (the source subtracts base fees in one place and modified fees in another); a low fee is an input per round.
- MerkleTree.WidthIs: tree widths are unbounded, so the 32-bit sum for more than about four thousand million transactions is not described; the decoder's limit on transactions is.
- Address manager: Select_ and GetChance, which are random choices with floating-point weights; tables are sequences of buckets instead of C arrays; the byte layout of records.
- Coins: memory accounting, changing the backend of a view, cursors, GetPriority; the curve arithmetic behind compressed keys, of which it is assumed that a valid key is found again from its abscissa and parity.
- Check queue: a controller over no queue, which does nothing; thread interruption and exceptions inside a wait, and moving checks by swap.
- Block assembler: coinbase and header of the template, maintenance of the memory pool (ancestor sets and totals are assumed right), statistics for logging.
- Partial merkle tree: matching transactions against a Bloom filter in the constructors of CMerkleBlock.
- Merged mining: the proof-of-work check of the parent header, which is a separate call.
- Rolling Bloom filter and cuckoo cache: sizing by floating-point logarithms, the hash functions, atomicity of the flags.
- Compact blocks: serialisation of the messages; the block check is an input.
- Base58: the checksum variant and addresses.
- 256-bit arithmetic: hexadecimal text, conversion to double, decrement, bitwise operators.
- Block index: chain work over several mining algorithms, timestamps, reading from disk.
- Networking, remote procedure calls, wallet, script interpreter, consensus rules for blocks and transactions, and start-up.
