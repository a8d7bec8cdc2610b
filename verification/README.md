# Verified models of the reasoner's stateful cores

Six parts of the system that keep state or do exact arithmetic, each written the way the program
runs it and proved against a specification that is then shown to have the properties the code is
there for.

- **Budgets and threads** (`Budget`, `BudgetMerge`, `CognitiveThread`, `ThreadTree`, `ThreadRuns`,
  `ThreadLifecycle`, `ThreadForest`). Slices with four ceilings and four counters, threads that
  spawn children out of their own slice, mailboxes that refuse. `ThreadTree.Step` is one operation
  on one thread of a tree, and the run theorems are about every sequence of operations;
  `ThreadForest` ties the objects to it, call by call. A send refused by a full mailbox still costs a cycle, a spawn that
  leaves depth to its default spends all of it, and joining credits nothing back.
- **The hijack bag** (`HijackTable`, `HijackRoom`, `HijackBag`, `HijackRuns`). A bounded-probe hash
  table in two parallel arrays. `Put`, `Commit`, `RegrowForSize` and `Resize` call each other in a circle, with
  the size counter inflated during a resize, as in the source. `HijackRuns` is about every sequence
  of calls, mixed with changes the items' owner makes.
- **The array bag** (`TopK`, `ArrayBagRep`, `ArrayBag`, `ArrayBagRuns`, `ZigZag`). Key map, slot
  and priority arrays, used bits and a sorted id list that must describe one set of items, how long
  over a run they do, and the zig-zag sampler over the list.
- **The derivation verifier** (`TruthAlgebra`, `TruthLaws`, `DerivationVerifier`,
  `DerivationMeaning`, `DerivationLineage`). The proof checker's loop against a loop-free
  predicate, the algebra of its truth table over exact reals, and what acceptance says about
  lineage and claims.
- **The term codec** (`TermCodec`, `TermStream`, `TermIO`). Bytes written and read, with the exact
  condition under which a term comes back, and what an input that is cut short reads as.
- **Projection and approval** (`Projection`, `Approval`). The temporal projection factors, and the
  approval registry as a protocol in which answers and deadlines race.

`BagItems`, `Options`, `Numbers` and `Sequences` hold what several of these share.

## Where the code differs from its own account

- The codec writes `dt` 0 with both flag bits, which its reader takes to announce a number
  (docs/java/TermIO.java:32, 141-146). `TermCodec.ReadsBackIff` has the exact condition for a term
  to survive; nothing was repaired in the model.
- Clearing an array bag empties only the first `cap` slots (docs/java/ArrayBag.java:954-959),
  although after a shrink items may sit beyond them. `ArrayBagRuns.Perform` says exactly when the
  structures agree after an operation. Items missed take their slots for good once the bag grows,
  so that a bag below its capacity throws on a new item: `ArrayBagRuns.Fill`. `StrayedBag` gets
  there by calls alone.
- Clearing a hijack bag allocates `reprobes` cells whatever the capacity is
  (docs/java/HijackBag.java:183, 243, 274): `HijackBag.HijackBag.Clear`.
- A negative amount in a spawn request loses budget, that much of it being neither unspent nor
  worked off: `ThreadRuns.SpawnConservesIff`. The run theorems ask for non-negative requests, as
  the consumption schema does (core/src/schemas/reasoning-budget.ts:36-41).
- The closing comment of the trapezoidal projection gives another value than the code
  (docs/java/TruthFunctions.java:1021-1041). It leaves out the dilution by a longer target, and its
  last sample is the end of the target where the code takes start plus end. For two samples
  `Projection.AsCommentedIff` says exactly when they agree.
- Revision is associative below the cap of 0.999, and above it only in some cases:
  `TruthAlgebra.RevisionAssociatesIff` says in which. The stand-in weight of a confidence of
  exactly 1 is less than that of some smaller ones: `TruthAlgebra.WeightIsMonotoneIff`.
- A request that its holder resolves itself, past the registry, stays pending after its caller has
  returned, although a request is said never to be left behind (core/src/ApprovalService.ts:28-31).
  `Approval.LeftPendingIff` is exact; no caller in the repository does so.
- Killing a thread is documented to kill its children and touches no other thread
  (core/src/cognitive-thread.ts:196-202). A thread killed while its work goes on is completed
  afterwards, and its join throws all the same: `ThreadLifecycle.KilledAndCompleted`.

## Conventions

A class keeps its source's fields, and each method states its whole new state in terms of a value
(`State()`, `Items()`, `Entries()`, a `World`). Properties are lemmas about those values. Budget
amounts are reals, so that the integer-only results are visible as such; time, abort signals, work
outcomes, merge results and the outcome of a fight for a cell are inputs or arbitrary choices.

## Model

| member | source | states |
|---|---|---|
| `Budget.WorkKeeps` | core/src/budget.ts:323-341 | a charge, granted or refused, keeps 0 ≤ consumed ≤ ceiling and truthful reasons, never lowers a counter, and on refusal sets the reason and nothing else |
| `Budget.ChargeAllExact` | core/src/budget.ts:409-418 | charging an allocation that fits adds exactly its positive amounts in all four dimensions and nothing else |
| `Budget.InheritanceBound` | core/src/budget.ts:386-418 | the hard inheritance bound for every slice, request and default policy: the resolved allocation fits, its charge never refuses, and parent headroom plus child ceiling equals the old headroom in a dimension if and only if the amount asked for there is not negative |
| `Budget.CapacityExhaustedIff` | core/src/budget.ts:455-457 | capacity is exhausted exactly when some dimension refuses every positive charge, however small |
| `Budget.ChargeMeans` | core/src/budget.ts:323-341 | a charge is granted exactly if that much is left, and raises one counter; a refused one records the dimension's own reason if nothing is left, else backpressure |
| `Budget.SliceCeilings` | core/src/budget.ts:159-180 | a slice cut without a policy gets what was asked for, else what the parent has left, but of depth the parent's whole ceiling |
| `Budget.BudgetSlice.Consume` | core/src/budget.ts:323-341 | the object's state after `consume` is the specified one; the answer tells whether the amount fitted |
| `Budget.BudgetSlice.ConsumeForWork` | core/src/budget.ts:323-347 | a charge on the thread's own behalf is recorded as work |
| `Budget.BudgetSlice.RemainingAll` | core/src/budget.ts:368-378 | the loop over the dimensions yields headroom floored at zero in each |
| `Budget.BudgetSlice.ResolveAllocation` | core/src/budget.ts:386-401 | the loop yields in each dimension the smaller of the amount asked for, or else the default, and what is left |
| `Budget.BudgetSlice.ChargeAllocation` | core/src/budget.ts:409-418 | the loop charges exactly the positive amounts, dimension by dimension |
| `Budget.BudgetSlice.IsExhausted` | core/src/budget.ts:459-466 | exhausted by reason, capacity, deadline or abort signal, and not otherwise |
| `Budget.BudgetSlice.Child` | core/src/budget.ts:159-180 | a sliced child has the allocated ceilings, no spending, and its parent's deadline and signal |
| `Budget.BudgetSlice.MergeConsumption` | core/src/budget.ts:434-448 | merging adds three dimensions, takes the maximum of depth, and keeps a reason that is already there |
| `BudgetMerge.RollUpIsFlat` | core/src/budget.ts:425-448 | merging a tree bottom-up equals merging the flat list of its nodes |
| `BudgetMerge.MergeIsShapeFree` | core/src/budget.ts:425-448 | two trees with the same root and the same descendants in any order and bracketing merge to the same consumption |
| `BudgetMerge.RollUpMeaning` | core/src/budget.ts:425-448 | the merged root carries the sums over all nodes in three dimensions and the maximum in depth |
| `BudgetMerge.FirstReasonOfRoot` | core/src/budget.ts:440-442 | a termination reason already on the root is never replaced |
| `CognitiveThread.SendCost` | core/src/cognitive-thread.ts:141-160 | exactly what a send costs by verdict: nothing when exhausted, one cycle when admitted, and one cycle too when the mailbox refuses |
| `CognitiveThread.SecondRefusalIff` | core/src/cognitive-thread.ts:143-151 | the second budget refusal is reached exactly by a slice that is not exhausted and has less than one cycle left |
| `CognitiveThread.MailKeepsFifo` | core/src/cognitive-thread.ts:141-165 | send and receive keep what was received a prefix of what was admitted, the mailbox being the rest |
| `CognitiveThread.SpawnSpendsDepthIff` | core/src/cognitive-thread.ts:103-111 | a spawn leaves its parent without depth if and only if depth is left to its default, at least what remains is asked for, or none remained |
| `CognitiveThread.SpawnDefaults` | core/src/cognitive-thread.ts:104-110 | what an unset dimension gets: all the depth that is left, and otherwise the largest whole share of it that every child, one more and the parent could have |
| `CognitiveThread.SpawnGrants` | core/src/cognitive-thread.ts:103-118 | in every dimension an amount asked for is the child's ceiling, or else all that is left, and the parent's counter rises by just that; unset dimensions get the whole share, depth all |
| `CognitiveThread.PoolSpawnGrants` | core/src/cognitive-thread.ts:276-295 | the same for the pool, where an unset dimension gets all that is left |
| `CognitiveThread.SpawnStartsAnew` | core/src/cognitive-thread.ts:103-122 | apart from amounts a spawn adds the child's id, and the child starts anew under its parent's deadline and signal |
| `CognitiveThread.PoolSpawnStartsAnew` | core/src/cognitive-thread.ts:276-295 | the same for the pool |
| `CognitiveThread.CognitiveThread.constructor` | core/src/cognitive-thread.ts:95-100 | a new thread has a fresh slice of its parent's and an empty mailbox |
| `CognitiveThread.CognitiveThread.Spawn` | core/src/cognitive-thread.ts:103-122 | the parent's new state, the child's state and the reported remainder are the specified ones |
| `CognitiveThread.CognitiveThread.Send` | core/src/cognitive-thread.ts:141-160 | verdict and new state of a send, mailbox contents and slice included |
| `CognitiveThread.CognitiveThread.Receive` | core/src/cognitive-thread.ts:163-165 | receiving takes the oldest message and nothing else |
| `CognitiveThread.CognitiveThread.BeginRun` | core/src/cognitive-thread.ts:168-173 | a run starts by spending a cycle, whose refusal is ignored |
| `CognitiveThread.CognitiveThread.EndRun` | core/src/cognitive-thread.ts:174-181 | the outcome of the work decides status, result and error |
| `CognitiveThread.CognitiveThread.Join` | core/src/cognitive-thread.ts:190-194 | joining reports the error or the unspent budget and credits nothing back |
| `CognitiveThread.CognitiveThread.CanContinue` | core/src/cognitive-thread.ts:205-207 | a thread can go on exactly while it runs and is not exhausted |
| `CognitiveThread.ThreadPool.SpawnWithBudget` | core/src/cognitive-thread.ts:276-295 | refused without effect unless the id is new and there is room; otherwise root and child get the specified states, and the root's unspent budget is reported |
| `CognitiveThread.ThreadPool.KillThread` | core/src/cognitive-thread.ts:303-309 | killing removes exactly that thread and leaves its slice as it is |
| `ThreadTree.StepKeeps` | core/src/cognitive-thread.ts:103-212 | every operation on any thread of the tree keeps the tree invariant: sound and truthful slices, FIFO mailboxes, and each slice's spending equal to its own work plus its children's ceilings |
| `ThreadTree.RunInv` | core/src/cognitive-thread.ts:103-212 | the invariant holds after every sequence of operations |
| `ThreadRuns.Conservation` | core/src/cognitive-thread.ts:102-122 | over every run from one slice, in every dimension: what all slices have left plus what work has spent is the root's ceiling |
| `ThreadRuns.SpawnConservesIff` | core/src/cognitive-thread.ts:103-111 | a thread's spawn keeps the conservation law of a dimension if and only if the request there is not negative; otherwise budget is lost |
| `ThreadRuns.PoolSpawnConservesIff` | core/src/cognitive-thread.ts:276-295 | the same for a spawn from the pool, where a refusal changes nothing |
| `ThreadRuns.MessageBound` | core/src/cognitive-thread.ts:141-165 | over every run the messages admitted in the whole tree number at most the root's cycle ceiling; mailboxes stay within capacity and are FIFO |
| `ThreadRuns.RunHistory` | core/src/cognitive-thread.ts:141-212 | over every run counters and histories only grow, ceilings stay, exhausted slices stay exhausted and admit nothing |
| `ThreadRuns.ExhaustedForEver` | core/src/cognitive-thread.ts:143-146 | a send to a slice exhausted at any earlier moment changes nothing at all |
| `ThreadRuns.ReasonsAreTruthful` | core/src/budget-resources.ts:28-36 | a dimension's own reason, once seen, means that dimension is spent, then and ever after |
| `ThreadRuns.SecondRefusalUnreachable` | core/src/cognitive-thread.ts:148-151 | with whole amounts no run reaches the second budget refusal |
| `ThreadLifecycle.JoinThrowsIff` | core/src/cognitive-thread.ts:168-202 | over every run a thread's join throws if and only if its work threw or it was killed at some time, even if it has completed since |
| `ThreadLifecycle.KilledAndCompleted` | core/src/cognitive-thread.ts:168-202 | a thread killed during its work ends up completed, and its join throws all the same |
| `ThreadLifecycle.WorkCharges` | core/src/cognitive-thread.ts:168-177 | starting a run is charged like one cycle of work, wholly or not at all and with a reason on record |
| `ThreadLifecycle.OnRecord` | core/src/cognitive-thread.ts:168-202 | what starting, ending and killing leave on record |
| `ThreadLifecycle.PoolAdmits` | core/src/cognitive-thread.ts:276-295 | the pool takes a thread under a new name while it has room, and nothing happens otherwise |
| `ThreadLifecycle.TreeStops` | core/src/budget.ts:459-466 | once the origin's deadline has passed or its signal is given, no thread of the tree takes a message, over every run |
| `ThreadLifecycle.TreeGoesOn` | core/src/budget.ts:455-466 | before that a message is refused for want of budget exactly by a slice with a reason, a spent dimension or less than a cycle left |
| `ThreadForest.Forest.Perform` | core/src/cognitive-thread.ts:83-340 | a call on the objects is exactly one step of the abstract tree, so the run theorems speak about the objects |
| `ThreadForest.Forest.PerformAll` | core/src/cognitive-thread.ts:83-340 | any sequence of calls on the objects is a run of the abstract tree |
| `HijackTable.IndexIsResidue` | docs/java/HijackBag.java:125-140 | the home index is the mathematical residue of the hash, negative hashes included |
| `HijackTable.HomeIsResidue` | docs/java/HijackBag.java:125-140 | a key's window begins at the residue of its hash code, zero giving way to one |
| `HijackTable.WindowDecides` | docs/java/HijackBag.java:553-572 | in a well-formed table a key is stored anywhere if and only if it is stored in its probe window |
| `HijackTable.PutRefinesMap` | docs/java/HijackBag.java:465-550 | a put that leaves the table its length is a map update with at most one eviction; a victim only from a full window, where no live item has a lower priority and no deleted one counts for less |
| `HijackTable.PutPlaces` | docs/java/HijackBag.java:492-541 | where a newcomer goes: into the first empty cell of its window, else over the first of the lowest items |
| `HijackTable.GrowingPutRefinesMap` | docs/java/HijackBag.java:292-318 | a put that regrows the table is a map update minus the items without a place, each of them reported or already deleted |
| `HijackTable.AttemptIsPut` | docs/java/HijackBag.java:528-545 | an attempt followed by reporting its victim is the specified put |
| `HijackTable.AttemptAndGrowthIsPut` | docs/java/HijackBag.java:292-318 | an attempt followed by a regrowth still accounts for every live item |
| `HijackTable.StoreKeeps` | docs/java/HijackBag.java:531-537 | writing a new key into a cell of its window keeps the table well formed and changes exactly that item |
| `HijackTable.RegrowthGrows` | docs/java/HijackBag.java:840-857 | a regrowth always asks for a longer table within the capacity |
| `HijackTable.RegrowthMeans` | docs/java/HijackBag.java:840-857 | a table grows when three quarters full and below its capacity, to half as much again, rounded and cut to the capacity |
| `HijackTable.AfterMeans` | docs/java/HijackBag.java:791-834 | an update decides the priorities of the items it visits, and no others |
| `HijackRoom.NoRoomCosts` | docs/java/HijackBag.java:492-526 | a full window takes as many items as it has cells |
| `HijackRoom.FewFit` | docs/java/HijackBag.java:186-205 | with no more items than a window and the table have cells, nothing is squeezed out |
| `HijackRoom.PutSqueezes` | docs/java/HijackBag.java:492-541 | a put refuses its item or reports another only for want of an empty cell in the window |
| `HijackRoom.RoomyTakes` | docs/java/HijackBag.java:451-463 | a table with fewer items than a window has cells takes a new live item, and nobody leaves for it |
| `HijackBag.HijackBag.Get` | docs/java/HijackBag.java:553-572 | finds an item exactly when one with this key is held, and then that one |
| `HijackBag.HijackBag.Scan` | docs/java/HijackBag.java:492-526 | the probe loop finds an equal key first, else the first empty cell, else the first weakest |
| `HijackBag.HijackBag.TryPut` | docs/java/HijackBag.java:465-541 | identity, merge, fill, hijack or rejection, with the table's new contents |
| `HijackBag.HijackBag.Put` | docs/java/HijackBag.java:451-463 | the whole put: contents, reports and size counter, through any nested regrowth; whoever is reported met a full window, and a table with room takes the newcomer and keeps everyone live |
| `HijackBag.HijackBag.Commit` | docs/java/HijackBag.java:292-318 | the bookkeeping: only a pure addition can regrow, a removal is reported once |
| `HijackBag.HijackBag.RegrowForSize` | docs/java/HijackBag.java:840-857 | grows exactly when the load factor is reached below the capacity; the nested recursion ends because the room left falls |
| `HijackBag.HijackBag.Resize` | docs/java/HijackBag.java:186-205 | after re-putting everything, with resizes nested inside, the counter is exact; what is reported met a full window, in the new table itself unless that grew again; and with no more live items than a window and the table have cells, all of them are held |
| `HijackBag.HijackBag.CommitAll` | docs/java/HijackBag.java:791-834 | an update pass evicts and reports exactly the deleted items and recomputes counter, minimum and maximum |
| `HijackBag.HijackBag.Remove` | docs/java/HijackBag.java:395-435 | removes and reports exactly the item with this key |
| `HijackBag.HijackBag.Clear` | docs/java/HijackBag.java:216-269 | reports everything held; the new table exceeds the capacity if and only if the capacity is below `reprobes` |
| `HijackBag.HijackBag.SetCapacity` | docs/java/HijackBag.java:165-177 | when it resizes and to what; afterwards the allocation is within the new capacity and every live item is held or was reported, all of them held if they fit a window |
| `HijackRuns.PutSettles` | docs/java/HijackBag.java:451-550 | a put's account settles: what was held or taken in is held, reported, or was dropped as deleted, and only one of these |
| `HijackRuns.LedgerBalances` | docs/java/HijackBag.java:292-318 | at every moment of a run, how often an item was held at first or taken in since is how often it is held, was reported, or was dropped |
| `HijackRuns.NothingLiveIsLost` | docs/java/HijackBag.java:186-205 | an item held at one moment and not at a later one was reported in between, or dropped while it was not live |
| `HijackRuns.DroppedStaysDead` | docs/java/HijackBag.java:186-205 | a dropped item is neither held nor live until the owner revives that very item |
| `HijackRuns.EntersByPut` | docs/java/HijackBag.java:451-550 | an item comes in only by a put of it that is answered with it, while it is live |
| `HijackRuns.PerformAll` | docs/java/HijackBag.java:186-834 | every run of calls and of changes of priority by the owner has a trace of accounts, each of which settles; counter and reports are those of the trace |
| `HijackRuns.ClearedBeyondCapacity` | docs/java/HijackBag.java:216-269 | a way to a cleared bag whose allocation exceeds its capacity |
| `TopK.StreamIsTopK` | docs/java/ArrayBag.java:488-512 | feeding a bounded buffer one offer at a time equals sorting everything offered and cutting |
| `TopK.TakeIsLargest` | docs/java/ArrayBag.java:533-535 | what a cut keeps is at least as large as anything it drops, and nothing else is lost |
| `TopK.StepIsTake` | docs/java/ArrayBag.java:504-535 | accepting when there is room or the newcomer is not below the lowest, and then evicting the lowest, is the buffer's step |
| `ArrayBagRep.KeysAreViewed` | docs/java/ArrayBag.java:1062-1064 | a key is filed exactly when an item with it is listed |
| `ArrayBagRep.FreeSlot` | docs/java/ArrayBag.java:1039-1047 | below capacity a free slot always exists, so acquiring one never fails |
| `ArrayBagRep.FiledAgrees` | docs/java/ArrayBag.java:1054-1059 | filing keeps key map, slots, bits and id list in agreement and order |
| `ArrayBagRep.FiledView` | docs/java/ArrayBag.java:504-512 | filing inserts exactly the new entry, behind all of at least its priority |
| `ArrayBagRep.DroppedAgrees` | docs/java/ArrayBag.java:1007-1035 | dropping keeps all structures in agreement and removes exactly one entry |
| `ArrayBagRep.RepricedAgrees` | docs/java/ArrayBag.java:565-572 | repricing moves exactly one entry to where its new priority belongs |
| `ArrayBagRep.CommitKeepsBest` | docs/java/ArrayBag.java:237-294 | a commit keeps the `capacity` largest refreshed live priorities, descending |
| `ArrayBagRep.CommitKeepsLive` | docs/java/ArrayBag.java:237-294 | a commit keeps no entry twice and none that is not live |
| `ArrayBagRep.CommitLists` | docs/java/ArrayBag.java:237-294 | who is listed or evicted after a commit: exactly the live items listed before, at the priorities the update gives them |
| `ArrayBagRep.AppliedAt` | docs/java/ArrayBag.java:323-328 | a listed item ends up with what the update gives it, or deleted |
| `ArrayBagRep.AppliedElsewhere` | docs/java/ArrayBag.java:323-328 | an item that is not listed keeps its priority |
| `ArrayBagRep.ClearedAgrees` | docs/java/ArrayBag.java:954-959 | clearing leaves the structures in agreement if and only if no item sat beyond the current limit |
| `ArrayBagRep.GrownAgrees` | docs/java/ArrayBag.java:971-996 | growing keeps agreement, order and contents |
| `ArrayBagRep.StraysKeepTheirSlots` | docs/java/ArrayBag.java:981-996 | slots that a clearing missed come back as used bits without keys once the bag grows |
| `ArrayBagRep.FiledAmong` | docs/java/ArrayBag.java:1038-1059 | filing works beside stray items, which take up slots |
| `ArrayBagRep.NoSlotIff` | docs/java/ArrayBag.java:1039-1047 | there is no free slot exactly when listed and stray items fill all of them |
| `ArrayBagRep.ClearedLeaves` | docs/java/ArrayBag.java:954-959 | what a clearing misses is neither filed nor listed, and all else agrees |
| `ArrayBagRep.GrownAmong` | docs/java/ArrayBag.java:981-992 | a growth turns every stray's slot into a used one and keeps all else |
| `ArrayBag.OfferIsTopKStep` | docs/java/ArrayBag.java:488-535 | offering a new item is one step of the top-k buffer |
| `ArrayBag.ArrayBag.Get` | docs/java/ArrayBag.java:165-167 | finds an item exactly when one with this key is listed |
| `ArrayBag.ArrayBag.Remove` | docs/java/ArrayBag.java:425-443 | every structure forgets exactly the item with this key |
| `ArrayBag.ArrayBag.Free` | docs/java/ArrayBag.java:344-352 | evicts exactly the lowest items, lowest first |
| `ArrayBag.BottomUpAt` | docs/java/ArrayBag.java:344-352 | evictions are reported from the last entry upwards |
| `ArrayBag.ArrayBag.Insert` | docs/java/ArrayBag.java:504-512 | files the newcomer, evicting the lowest of a full bag; size stays within capacity |
| `ArrayBag.ArrayBag.TryInsert` | docs/java/ArrayBag.java:488-502 | accepted exactly when there is room or the lowest is not above it; the priorities held are the top-k step |
| `ArrayBag.ArrayBag.Put` | docs/java/ArrayBag.java:446-461 | the four outcomes of a put: when a newcomer is taken and who leaves for it, the exchange of a merge, owner's priorities, evictions, the slot taken and the lowest priority noted |
| `ArrayBag.ArrayBag.MergeInto` | docs/java/ArrayBag.java:463-485 | the one entry with the key is exchanged for the same item at its merged priority, or at -1 if the merge deletes it, in its right place and nothing else changed; the very same instance is refused |
| `ArrayBag.ArrayBag.OfferAll` | docs/java/ArrayBag.java:446-512 | streaming top-k: after any sequence of distinct new keys, from any state, the bag holds exactly the `capacity` largest of all priorities held and offered, descending |
| `ArrayBag.ArrayBag.Commit` | docs/java/ArrayBag.java:237-320 | refresh, drop the deleted, sort if need be, evict the excess: the specified contents, evictions and lowest priority |
| `ArrayBag.ArrayBag.Refresh` | docs/java/ArrayBag.java:255-272 | one pass finds the deleted places and whether the live priorities descend |
| `ArrayBag.ArrayBag.RemoveDead` | docs/java/ArrayBag.java:330-337 | removing marked places from the back leaves exactly the live entries in order |
| `ArrayBag.ArrayBag.PopBatch` | docs/java/ArrayBag.java:643-684 | hands out the best `n`, best first, and commits the rest with its evictions and lowest priority; clearing everything keeps agreement if and only if no item sat beyond the limit |
| `ArrayBag.ArrayBag.SetCapacity` | docs/java/ArrayBag.java:181-191 | shrinking below the size keeps the best and reports the other live items as evicted, lowest first; growing keeps everything |
| `ArrayBag.ArrayBag.Grow` | docs/java/ArrayBag.java:981-996 | longer arrays with the used bits rebuilt |
| `ArrayBag.ArrayBag.SampleUnique` | docs/java/ArrayBag.java:412-422 | sampling to the end yields every item of the bag once, in zig-zag order |
| `ArrayBag.ArrayBag.StoreAmong` | docs/java/ArrayBag.java:1038-1059 | a new item goes to the first free slot; without one the acquisition throws and the bag is as it was |
| `ArrayBagRuns.Perform` | docs/java/ArrayBag.java:643-684 | an operation of any kind keeps all structures in agreement if and only if it is not a clearing that misses an item, and what is noted as the lowest priority stays below all priorities held |
| `ArrayBagRuns.PerformAll` | docs/java/ArrayBag.java:181-684 | over any run all structures agree up to the first clearing that would miss an item; a run that never lowers the capacity does not get to one |
| `ArrayBagRuns.ClearAndGrow` | docs/java/ArrayBag.java:671-992 | after a clearing that missed items and a growth, exactly the slots of the items missed are used |
| `ArrayBagRuns.PutStrayed` | docs/java/ArrayBag.java:1039-1047 | below its capacity such a bag throws on a new item exactly when listed and stray items fill its slots |
| `ArrayBagRuns.Fill` | docs/java/ArrayBag.java:1039-1047 | of items offered one by one such a bag takes exactly as many as it has slots without a stray or listed one, and throws on the next |
| `ArrayBagRuns.ShrunkPair` | docs/java/ArrayBag.java:181-191 | by calls alone: a valid bag of capacity one whose item sits in the second slot |
| `ArrayBagRuns.StrayedBag` | docs/java/ArrayBag.java:954-992 | by calls alone: a bag of capacity three that is empty and has room for two |
| `ZigZag.VisitsEachOnce` | docs/java/ArrayBag.java:1102-1110 | from any start a place on either side is visited exactly once and any other never, also after one side has run out |
| `ZigZag.TakesTurns` | docs/java/ArrayBag.java:1102-1122 | while there are places on both sides the sampler goes up and down by turns, one place further each time |
| `ZigZag.ExhaustedSide` | docs/java/ArrayBag.java:1102-1115 | a side that has run out stays out and the other one goes on |
| `ZigZag.OrderIsComplete` | docs/java/ArrayBag.java:1082-1123 | the finished order is a permutation of the places |
| `ZigZag.UniqueSampleIterator.HasNext` | docs/java/ArrayBag.java:1113-1115 | tells whether anything is left; asking again skips nothing |
| `ZigZag.UniqueSampleIterator.Next` | docs/java/ArrayBag.java:1118-1122 | hands out exactly what was fetched ahead |
| `ZigZag.SampleAll` | docs/java/ArrayBag.java:1082-1123 | runs to its end and yields the listed items in zig-zag order |
| `TruthAlgebra.WeightRoundTrip` | util/src/types/truth.ts:45-49 | weight and confidence are inverse to each other, at certainty and only there not |
| `TruthAlgebra.WeightIsMonotoneIff` | util/src/types/truth.ts:45-46 | the stand-in weight of certainty breaks monotonicity: exactly for premises more confident than it |
| `TruthLaws.CrispEntries` | core/src/verify-derivation.ts:86-116 | on plain yes and no every entry but revision is a connective |
| `TruthLaws.FrequencyInterpolates` | core/src/verify-derivation.ts:86-116 | nine entries interpolate between those values in either premise |
| `TruthLaws.ComparisonIsOdds` | core/src/verify-derivation.ts:97-100 | comparison answers with the odds of both yes against both no, and with no where there are none |
| `TruthLaws.SamenessIsDistance` | core/src/verify-derivation.ts:115 | sameness falls by the distance of the frequencies |
| `TruthLaws.JointEntries` | core/src/verify-derivation.ts:86-116 | seven entries are as confident as their premises together |
| `TruthLaws.ConditionalEntries` | core/src/verify-derivation.ts:101-110 | analogy and detachment lose as their condition is doubtful |
| `TruthLaws.InductiveEntries` | core/src/verify-derivation.ts:88-95 | induction and abduction make the joint confidence, as far as the condition holds, their weight |
| `TruthLaws.ExemplificationEntry` | core/src/verify-derivation.ts:96 | exemplification loses by both frequencies and is squashed once more |
| `TruthLaws.UnaryEntries` | core/src/verify-derivation.ts:118-123 | three names for negation, and conversion |
| `TruthLaws.RevisionPools` | core/src/verify-derivation.ts:105-109 | revision adds weights up to the cap, and each frequency counts by its weight |
| `TruthAlgebra.BinaryStaysInUnit` | core/src/verify-derivation.ts:86-116 | every binary entry maps truths to truths, revision of certain premises included |
| `TruthAlgebra.UnaryStaysInUnit` | core/src/verify-derivation.ts:118-123 | every unary entry maps truths to truths and never adds confidence |
| `TruthAlgebra.ConfidenceBelowProduct` | core/src/verify-derivation.ts:86-116 | apart from revision no entry is more confident than the product of its premises' confidences |
| `TruthAlgebra.ConfidenceNeverGrows` | core/src/verify-derivation.ts:86-123 | over whole derivations without revision the conclusion is at most as confident as all premises jointly, hence as each |
| `TruthAlgebra.UnionIsDual` | core/src/verify-derivation.ts:103-104 | union is the negation dual of intersection |
| `TruthAlgebra.AbductionIsInduction` | core/src/verify-derivation.ts:88-95 | abduction is induction with its premises exchanged |
| `TruthAlgebra.ContrapositionCompares` | core/src/verify-derivation.ts:97-114 | contraposition is comparison with the negated premise |
| `TruthAlgebra.SymmetricEntries` | core/src/verify-derivation.ts:97-115 | six entries do not depend on the order of their premises |
| `TruthAlgebra.RevisedFrequencyBetweenIff` | core/src/verify-derivation.ts:105-109 | the revised frequency lies between the two, except exactly without any evidence and both frequencies positive |
| `TruthAlgebra.RevisionGainsConfidenceIff` | core/src/verify-derivation.ts:105-109 | revision is at least as confident as both premises if and only if neither exceeds the cap |
| `TruthAlgebra.RevisedWeight` | core/src/verify-derivation.ts:105-109 | the revised weight is the sum of the weights, cut off at 999 |
| `TruthAlgebra.PooledConfidence` | core/src/verify-derivation.ts:105-109 | over whole revision trees the confidence depends only on the total weight, caps inside included |
| `TruthAlgebra.PooledFrequency` | core/src/verify-derivation.ts:105-109 | while no inner revision caps, the pooled frequency is the positive share of all evidence |
| `TruthAlgebra.PoolingIsOrderFree` | core/src/verify-derivation.ts:105-109 | any order and bracketing of the same pieces agree, in confidence always, in frequency while no inner revision caps |
| `TruthAlgebra.RevisionAssociatesIff` | core/src/verify-derivation.ts:105-109 | when revision of three truths is associative, exactly and for all truths: no, one or both inner revisions capped |
| `TruthAlgebra.MirroredCapIff` | core/src/verify-derivation.ts:105-109 | where only the right bracketing caps, the frequencies agree if and only if the first piece is weightless or says what the others say together |
| `TruthAlgebra.BothCapIff` | core/src/verify-derivation.ts:105-109 | where both bracketings cap, they agree if and only if the outer pieces, measured from the middle one, pull equally |
| `TruthAlgebra.SaturatedAssociatesIff` | core/src/verify-derivation.ts:105-109 | three truths at the cap are associative if and only if the outer two have the same frequency |
| `TruthAlgebra.AssociativeUnderOneCapIff` | core/src/verify-derivation.ts:105-109 | where exactly one bracketing caps, the frequencies agree if and only if the third piece is weightless or says the same |
| `TruthAlgebra.CapBreaksAssociativity` | core/src/verify-derivation.ts:105-109 | three saturated truths whose revision depends on the bracketing |
| `DerivationVerifier.VerifyStep` | core/src/verify-derivation.ts:195-264 | each of the ten step checks is reported exactly when the step violates it; counters and recomputed truth |
| `DerivationVerifier.CheckSubstitution` | core/src/verify-derivation.ts:212-218 | the loop over bindings reports exactly the faults some binding has |
| `DerivationVerifier.CheckLineage` | core/src/verify-derivation.ts:220-223 | reported exactly when some parent is neither a seen step nor `taskId` |
| `DerivationVerifier.CheckTruth` | core/src/verify-derivation.ts:231-254 | reproduced, contradicted or skipped, with the two counters |
| `DerivationVerifier.VerifyRecord` | core/src/verify-derivation.ts:270-323 | sound and complete: accepted if and only if a loop-free predicate holds; every step is counted as reproduced, skipped or contradicted |
| `DerivationVerifier.CountersAddUp` | core/src/verify-derivation.ts:192-254 | reproduced plus skipped plus contradicted is the number of steps |
| `DerivationVerifier.NoFindingsIff` | core/src/verify-derivation.ts:294-300 | a finished pass is silent exactly when every step is sound against the ids before it |
| `DerivationMeaning.ResolveMeans` | core/src/verify-derivation.ts:133-187 | the declared operation if the table has it, else the rule id as a key, else the first key that occurs in it |
| `DerivationMeaning.KeysInOrder` | core/src/verify-derivation.ts:86-131 | the keys of the table in the order in which they are tried, no two of them equal |
| `DerivationMeaning.KeysNameEntries` | core/src/verify-derivation.ts:86-131 | each key names its own operation |
| `DerivationMeaning.LowerCaseAt` | core/src/verify-derivation.ts:157 | capitals to their small letters in the order of the alphabet, and nothing else |
| `DerivationMeaning.ContainsIff` | core/src/verify-derivation.ts:162-174 | a string contains another exactly when it is that one with something before and after |
| `DerivationMeaning.StepSoundIff` | core/src/verify-derivation.ts:207-256 | exactly what a sound step is like: nothing blank, every binding grounded, every parent known, its truth not contradicted |
| `DerivationMeaning.JudgeableIff` | core/src/verify-derivation.ts:231-238 | a step is judged exactly if its rule resolves and it has one truth or two, as the operation takes |
| `DerivationMeaning.ConsideredIs` | core/src/verify-derivation.ts:287 | which steps a limit leaves, with no limit, 0 and negative limits |
| `DerivationLineage.EdgesGoBack` | core/src/verify-derivation.ts:220-223 | an accepted step cites only strictly earlier steps or `taskId` |
| `DerivationLineage.PathsDescend` | core/src/verify-derivation.ts:220-223 | lineage paths off `taskId` strictly descend, so none is longer than the record |
| `DerivationLineage.CyclesPassThroughTask` | core/src/verify-derivation.ts:220-223 | any lineage cycle passes through a step that bears `taskId` |
| `DerivationLineage.LineageIsAcyclic` | core/src/verify-derivation.ts:220-223 | no cycle in an accepted record whose `taskId` is not a step id |
| `DerivationLineage.SelfCitationIsAccepted` | core/src/verify-derivation.ts:220-223 | with `taskId` as a step id, a step citing itself is accepted |
| `DerivationLineage.ClaimsAreBounded` | core/src/verify-derivation.ts:236-254 | an accepted, judgeable step without revision claims at most its weakest premise plus the tolerance |
| `DerivationLineage.MismatchIff` | core/src/verify-derivation.ts:239-254 | a judgeable step is contradicted if and only if its frequency or its confidence is off its table entry by more than the tolerance |
| `DerivationLineage.ClaimsAreReproduced` | core/src/verify-derivation.ts:239-254 | in an accepted record every judgeable step claims its table entry in both parts, within the tolerance |
| `DerivationLineage.FinalTruthIff` | core/src/verify-derivation.ts:302-311 | with sound steps a record is accepted if and only if its final truth is the last step's in both parts, within the tolerance |
| `DerivationLineage.AcceptsIff` | core/src/verify-derivation.ts:285-311 | acceptance with nothing run: distinct ids, each step sound against the ids before it, the final truth the last step's, and no cycles claimed without steps |
| `DerivationLineage.NothingContradicted` | core/src/verify-derivation.ts:313-321 | in an accepted record what is not reproduced was skipped |
| `DerivationLineage.LaxerAcceptsMore` | core/src/verify-derivation.ts:61-68 | a larger tolerance or dropping strictness never rejects an accepted record |
| `DerivationLineage.PrefixAcceptedIff` | core/src/verify-derivation.ts:287-308 | under a step limit an accepted record is accepted if and only if the limit's last step has the final truth |
| `TermCodec.VarintRoundTrip` | docs/java/TermIO.java:149-151 | varints are read back and leave what follows |
| `TermCodec.FlagsKeepOperator` | docs/java/TermIO.java:29-37 | setting the flags never disturbs the 5-bit operator and never makes the special byte |
| `TermCodec.OpsInOrder` | docs/java/Op.java:26-192 | the operators' ids in numbers, as their order in the enumeration gives them |
| `TermCodec.FlagCodes` | docs/java/TermIO.java:26-42 | in numbers, which flags the writer sets for which `dt`, and what the reader takes them for |
| `TermCodec.LeafBytes` | docs/java/TermIO.java:79-116 | the leaves byte by byte as they are read, and the errors for wrong ones |
| `TermCodec.PrefixIsRead` | docs/java/TermIO.java:26-42 | for every `dt` but 0 the prefix is read back as the same operator and `dt` |
| `TermCodec.ZeroPrefixIsMisread` | docs/java/TermIO.java:140-147 | with `dt` 0 the reader takes the subterm count for the number that was never written |
| `TermCodec.RoundTrip` | docs/java/TermIO.java:46-147 | every canonical term without `dt` 0 and with fewer than 128 subterms a node is read back, the rest of the input untouched |
| `TermCodec.Distorted` | docs/java/TermIO.java:46-147 | any other canonical term is never read back as itself, whatever follows |
| `TermCodec.ReadsBackIff` | docs/java/TermIO.java:46-147 | the codec's law with its exact condition, for every canonical term and every suffix |
| `TermCodec.Unambiguous` | docs/java/TermIO.java:46-147 | a stream of such terms can be read in one way only |
| `TermCodec.ParallelConjunctionIsLost` | docs/java/TermIO.java:26-42 | the bytes of a parallel conjunction of two variables cannot be read at all |
| `TermStream.CanonicalIff` | docs/java/Op.java:498-507 | which compounds the term builder leaves as they are: only conjunctions and implications carry a `dt` |
| `TermStream.ReadingIsLocal` | docs/java/TermIO.java:72-147 | for all bytes: what follows never changes what was read, and mends no error but that of an input that ended |
| `TermStream.CutShort` | docs/java/TermIO.java:72-147 | what was written for a faithful term, cut anywhere, reads as an input that ended, never as another term or a malformed one |
| `TermStream.TwoNegationsCancel` | docs/java/TermIO.java:88 | two negation bytes cancel in front of anything |
| `TermStream.CountIsSigned` | docs/java/TermIO.java:125-138 | a compound has as many terms as its count byte says, and a negative count is refused |
| `TermIO.WriteCompoundPrefix` | docs/java/TermIO.java:26-42 | the flag-setting writer appends the specified prefix |
| `TermIO.WriteSubterms` | docs/java/TermIO.java:46-51 | the loop appends the count byte and every subterm's bytes |
| `TermIO.ReadDT` | docs/java/TermIO.java:140-147 | reads `dt` as the flags ask |
| `TermIO.Read` | docs/java/TermIO.java:72-90 | the stream reader's result and what it leaves are the specified ones, errors included |
| `TermIO.ReadSubterms` | docs/java/TermIO.java:129-135 | the loop reads the specified terms in order and stops at the first error |
| `TermIO.WriteThenRead` | docs/java/TermIO.java:44-51 | writing a term and reading it back yields it with the rest intact if and only if it is faithful |
| `Projection.ProjectIsUnit` | docs/java/TruthFunctions.java:1049-1063 | the discount is in [0,1] in both modes |
| `Projection.DurationSoftens` | docs/java/TruthFunctions.java:1049-1063 | a longer duration never discounts more |
| `Projection.DilutionIsUnit` | docs/java/TruthFunctions.java:1044-1046 | dilution is in (0,1], and 1 exactly when the source is at least as long |
| `Projection.MidFactorBounds` | docs/java/TruthFunctions.java:986-1004 | the factor lies between eternalization times dilution and dilution |
| `Projection.MidFactorIsOneIff` | docs/java/TruthFunctions.java:986-1004 | exactly when projecting from middle to middle costs nothing, and what it costs otherwise |
| `Projection.NoWayNoDiscount` | docs/java/TruthFunctions.java:1049-1063 | only a way of length zero is not discounted |
| `Projection.ProjectTrapezoidal` | docs/java/TruthFunctions.java:1010-1036 | the sampling loop returns the specified factor, discount and dilution, between the same bounds for every number of samples |
| `Projection.AsCommentedIff` | docs/java/TruthFunctions.java:1010-1046 | when the value returned for two samples is the closing comment's, from every moment and for every duration, exactly: eternalization is full, the source eternal around the target, the intervals equal, or no dilution is due and the last sample is the last end |
| `Projection.LastAlikeIff` | docs/java/TruthFunctions.java:1020-1025 | when the last sample is the last end, exactly |
| `Projection.DilutedDiffers` | docs/java/TruthFunctions.java:1034-1041 | with dilution and less than full eternalization the comment is wrong, whatever the intervals |
| `Projection.TwoSamplesFromZero` | docs/java/TruthFunctions.java:1038-1041 | with both intervals starting at 0 the comment is right if and only if eternalization is full or the target ends no later |
| `Projection.TwoSamplesDiffer` | docs/java/TruthFunctions.java:1020-1041 | two intervals of one length for which the comment is wrong without any dilution |
| `Projection.EvidenceRoundTrip` | docs/java/TruthFunctions.java:947-957 | evidence and confidence are inverse to each other for every horizon |
| `Approval.StepKeeps` | core/src/ApprovalService.ts:54-89 | every step keeps each request pending or resolved, and a returned caller was told its request's verdict or a refusal of its own |
| `Approval.NothingIsLost` | core/src/ApprovalService.ts:54-89 | after every run created is resolved plus pending, what is both counted once; nothing is both if all answers come through the registry |
| `Approval.PendingIff` | core/src/ApprovalService.ts:25-32 | the registry holds a request exactly until it is answered there or its caller gives up |
| `Approval.LeftPendingIff` | core/src/ApprovalService.ts:28-31 | a returned caller has left its request pending if and only if it waited, was answered, and nobody answered through the registry |
| `Approval.DirectYesIsLeftBehind` | core/src/ApprovalService.ts:54-68 | a yes by the request's own `resolve` reaches the caller, and the request stays in the registry |
| `Approval.SettledOnce` | core/src/ApprovalService.ts:70-75 | a settled request keeps its verdict and a returned caller its answer, however the run goes on |
| `Approval.ApprovedIff` | core/src/ApprovalService.ts:99-135 | a returned caller was told yes if and only if it did wait and the first thing to happen to its request was an answer of yes |
| `Approval.ApprovedMeansAnswered` | core/src/ApprovalService.ts:99-135 | a yes comes from somebody who answered this id, through the registry or past it |
| `Approval.LateYesIsRefused` | core/src/ApprovalService.ts:127-133 | a yes between deadline and resumption is taken from the resolver and refused to the caller |
| `Approval.HeadlessIgnoresObserver` | core/src/ApprovalService.ts:65-118 | a yes from the observer of a new request is taken and refused to a headless caller |
| `Approval.InMemoryApprovalManager.CreateRequest` | core/src/ApprovalService.ts:54-68 | a new request is pending and nothing else changes |
| `Approval.InMemoryApprovalManager.ResolveApproval` | core/src/ApprovalService.ts:70-89 | taken exactly when pending; removes that request, and resolves it unless it was resolved before |
| `Approval.InMemoryApprovalManager.GetPendingCount` | core/src/ApprovalService.ts:81-83 | created is pending plus what is resolved and no longer pending |
| `Approval.ApprovalService.RequestApproval` | core/src/ApprovalService.ts:54-118 | asking, what the observer does, and beginning to wait are the specified steps; a headless run is refused at once |
| `Approval.ApprovalService.AnswerRequest` | core/src/ApprovalService.ts:70-75 | answering is the specified step |
| `Approval.ApprovalService.ResolveDirectly` | core/src/ApprovalService.ts:12-19 | resolving a request past the registry is the specified step |
| `Approval.ApprovalService.ResumeCaller` | core/src/ApprovalService.ts:120-134 | resuming is the specified step; the request is pending afterwards only if it was, and then its caller was answered |

## Left out

- Budget pressure, event-bus announcements and trace payloads: output only, without effect on the accounting.
- `ThreadPool.spawn` and `createCognitiveThread`: they slice a parent without charging it, so no conservation law holds for them.
- `killAll`, `joinAll` and the status getters: loops over single operations that are modelled.
- Message ids and timestamps, and everything about a message but its identity.
- Concurrency in the bags (compare-and-set, fences, `SpinMutex`, `StampedLock`): the sequential meaning is modelled.
- Pressure, mass, histograms and random sampling of the bags, and the bags' listeners apart from removal and eviction.
- Bag.setCapacity and forEachActive are not part of the repository: the first is taken to store the capacity before it resizes, the second to visit the items that are not deleted in cell order.
- HijackBag.HijackBag.Merge: any new priority or deletion of the held item, and never a null result; the probe loop ends on a null result although its comment says otherwise.
- HijackBag.HijackBag.Resize: not called with 0 on an empty table, where the source dereferences null.
- The merge policy of the array bag is arbitrary, NaN included; an item whose merge gives NaN is taken to be deleted and filed by the -1 stored for it.
- SortedIntArray and ShortIntSmoothSort are not part of the repository: insertion goes behind equal priorities and sorting is stable.
- `Prioritized.EPSILON` is a constructor parameter of the array bag, and short ids do not wrap around.
- Rounding: frequencies, confidences and priorities are exact reals, and a deleted priority is absence instead of NaN.
- Schema parsing: a record is well shaped when its truths are in [0,1] and its cycle count is not negative; id formats, timestamps and message texts are left out, findings being tags with a subject.
- DerivationVerifier.Resolve: names that JavaScript objects inherit, such as `constructor`, are not looked up, and lower-casing is that of ASCII.
- DerivationVerifier.VerifyRecord: with a step limit it models the comparison of the final truth with the last step looked at, as the code has it.
- Premise truths are taken as declared; neither the code nor the model ties them to the cited steps.
- TermCodec.Encode: the writers of atoms, variables, integers, booleans and images are elsewhere; each leaf is taken to be written as its reader reads it, zigzag integers as base-128 varints with the low groups first.
- TermCodec.Decode: encoding 2 of atoms and special terms, which need the parser, are reported as unmodelled; the term builder is the identity on canonical terms.
- Projection: 64-bit overflow of times and single-precision rounding.
- Approval: request texts and metadata, and the generation of ids, which are taken to be fresh.
- Policy engine, plugin loader, agents, lenses, user interface, parsers and build scripts: wrappers, input and output, or easy state machines.
