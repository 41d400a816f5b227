# A verified model of the order-book engine

This project models, in Dafny, a single-symbol price-time matching engine, the structures it stands
on, and the pipeline that brings commands in and events out, and proves what they promise. `dafny
verify dfyconfig.toml` checks all of it.

**The engine.** `EngineSpec` states submit, cancel and modify as functions on a value `State`: the
book (two ladders of FIFO levels, the id index, the free slots and the slot generations), the
sequence number, the published events and the top-of-book bookkeeping. `Engines.Engine` is the engine
as an object over a tiered bitmap (`Bitmaps`), a linear-probing index (`IdIndex`), a slab with an
intrusive free list (`Arenas`) and levels with cached aggregates and a cached best price
(`BookSides`); each of its methods is proved to take the step of `EngineSpec` on the book it stands
for. Everything else about the engine is proved of the functions: invariants over every run
(`Invariants`, `Capacity`), matching as a walk down one price-time queue (`PriceTime`), the
fill-or-kill precheck (`FillOrKill`), the numbered event stream and its tops (`Stream`, `Throttle`),
refusals (`Rejects`), where quantity goes (`Ledger`), the two shortcuts of the engine (`Repricing`),
engines that only their slots tell apart (`BookTwins`, `TwinEngines`), snapshots (`Snapshots`,
`Restoring`, `Rebuilding`, `Futures`, `EngineSnapshots`), order handles (`Handles`, `HandleEngine`,
`HandleAnswers`, `StaleHandles`) and the gateway (`Gateway`, `WireOutcomes`, `EngineGateway`).

**The reference engine.** `ReferenceEngine` is the map-and-list engine of the differential tests, with
its own matching, precheck, cancel and modify over maps from price to list; `ReferenceSim` proves that
the dense engine publishes exactly what it publishes.

**The pipeline.** `Rings` is the single-producer single-consumer ring, one atomic access at a time;
`Workers`, `Runtimes`, `Egresses` and `Fairness` put the shard worker, the sharded runtime, the event
publishers and the merger on top of it; `Pipelines` joins runtime and merger into one machine, from
commands to the sink. Their theorems hold for every schedule of accesses. `Progress`, `MergerProgress`
and `LineProgress` bound how long pushes, stop, drain and the merger take.

**FIX.** `Fix` states what the parser makes of a buffer, `FixParser` is the parser with its cursors and
loops, `FixLetters` puts messages together from fields and holds the parser against that, `FixRender`
writes messages and proves that what is written is read back.

## What the model takes as given

- Prices, quantities and ids that reach the engine are in range (`EngineSpec.CommandOk`); the gateway
  refuses the others (`Gateway.Validate`). A result that needs every resting order to have an id of its
  own asks for `Inv`, `Unique` or a `FreshRun` in its contract; the others hold for repeated ids too.
- `Ticks` is any number from 1 to 64^4, `MaxOrders`, ring capacities and the hash function are
  arbitrary. Sequence numbers and ring positions are unbounded; slot generations wrap at 2^32.
- A release store that has been seen makes earlier writes visible; accesses interleave.

## Where the code and its comments differ

- The comment on `reject_msg` speaks of the resubmit leg of a crossing modify, and the gateway's of
  fills that landed before a refusal. Neither happens: a modify is never refused
  (`Rejects.ModifyNeverRejects`), and a refused submit has traded nothing (`Rejects.RejectExact`).
- The raw-bytes fuzz harness expects accepted quantities to be positive. The parser does not look;
  `FixRender.ZeroQuantityExact` says exactly when an accepted quantity is zero.
- Restoring does not check that records are uncrossed, good-till-cancelled or under distinct ids;
  `Rebuilding.BuiltExact` says exactly when a restored book is one that commands could have built. Nor
  does it compare the header's last top with the records; `Restoring.TopTakenOver` says exactly when
  that does no harm.

## Model

| member | source | states |
|---|---|---|
| `Bitmaps.Bitmap.constructor` | include/lob/bitmap.hpp:34-45 | for every tick count up to 64^4, the tiers it needs stand for the empty set |
| `Bitmaps.Bitmap.Set` | include/lob/bitmap.hpp:49-64 | the set of positions gains exactly the bit; every upper tier still summarises the one below |
| `Bitmaps.Bitmap.Clear` | include/lob/bitmap.hpp:66-101 | the set loses exactly the bit; an upper bit goes exactly when its lower word has run empty |
| `Bitmaps.Bitmap.ClearAll` | include/lob/bitmap.hpp:152-160 | the set is empty afterwards and the tiers agree |
| `Bitmaps.Bitmap.Empty` | include/lob/bitmap.hpp:108-118 | the one word of the top tier tells whether the set is empty |
| `Bitmaps.Bitmap.LowestSet` | include/lob/bitmap.hpp:120-134 | the least member of the set, none exactly when it is empty |
| `Bitmaps.Bitmap.HighestSet` | include/lob/bitmap.hpp:136-150 | the greatest member of the set, none exactly when it is empty |
| `Bitmaps.Bitmap.NextSetAtOrAfter` | include/lob/bitmap.hpp:172-230 | the least member from any start up, for one to four tiers |
| `Bitmaps.Bitmap.PrevSetAtOrBefore` | include/lob/bitmap.hpp:233-299 | the greatest member up to any start, for one to four tiers |
| `IdIndex.Index.Insert` | include/lob/id_index.hpp:69-89 | under any hash, the table's map gains the entry or has it overwritten; the probe terminates |
| `IdIndex.Index.Lookup` | include/lob/id_index.hpp:100-112 | the probe finds the map's value, nothing exactly when the key is absent |
| `IdIndex.Index.Take` | include/lob/id_index.hpp:117-133 | the map loses the key and its value is returned |
| `IdIndex.ShiftBack` | include/lob/id_index.hpp:159-179 | the shifting loop, wrap-around included, computes the shift function on the table |
| `IdIndex.ShiftHolds` | include/lob/id_index.hpp:154-179 | shifting back keeps every other key reachable from its home slot through occupied slots |
| `IdIndex.DeleteHolds` | include/lob/id_index.hpp:117-179 | after a deletion the table holds exactly the map without the key |
| `Arenas.Arena.InitFreelist` | include/lob/arena.hpp:175-187 | the links chain all slots in ascending order, each once |
| `Arenas.Arena.Allocate` | include/lob/arena.hpp:78-89 | hands out the first free slot with its generation moved on to odd, nothing exactly when none is free |
| `Arenas.Arena.Deallocate` | include/lob/arena.hpp:91-101 | the slot becomes the first free one, its generation even again; other slots keep their contents |
| `BookSides.BookSide.Add` | include/lob/book.hpp:43-58 | appends to the level; bitmap and cached best still tell the populated prices and the best of them |
| `BookSides.BookSide.Remove` | include/lob/book.hpp:60-71 | unlinks one order; bitmap and cached best stay exact |
| `BookSides.BookSide.NotifyLevelEmptied` | include/lob/book.hpp:91-95 | after a level has drained unnoticed, bitmap and cached best are exact again |
| `BookSides.BookSide.NextPopulated` | include/lob/book.hpp:98-113 | the next populated price from any price up |
| `Engines.Engine.constructor` | include/lob/engine.hpp:72-75 | the objects stand for the engine before its first command |
| `Engines.Engine.MarkTop` | include/lob/engine.hpp:632-653 | the guarded mark of the top takes the specified step |
| `Engines.Engine.PublishTop` | include/lob/engine.hpp:655-699 | reads the top off cached bests and aggregates and publishes what the top of the book demands |
| `Engines.Engine.MatchLevel` | include/lob/engine.hpp:434-475 | the inner loop over a level carries the specified match exactly that far |
| `Engines.Engine.MatchAgainstOpposite` | include/lob/engine.hpp:417-478 | the nested loops terminate and compute the specified match |
| `Engines.Engine.CanFullyFill` | include/lob/engine.hpp:568-630 | summing aggregates, or orders where own makers matter, decides as the specified precheck |
| `Engines.Engine.Rest` | include/lob/engine.hpp:534-565 | links the residual or publishes its loss, as specified |
| `Engines.Engine.OnSubmit` | include/lob/engine.hpp:85-90 | the objects take the submit step of the specification |
| `Engines.Engine.OnCancel` | include/lob/engine.hpp:92-105 | the objects take the cancel step of the specification |
| `Engines.Engine.OnModify` | include/lob/engine.hpp:111-207 | rename, resize, in-place relink and suppressed replace take the modify step of the specification |
| `Engines.Engine.Apply` | include/lob/shard_worker.hpp:75-95 | dispatching one command takes its step; bitmap, index, arena and levels still stand for one book |
| `Engines.Engine.ApplyBatch` | include/lob/shard_worker.hpp:104-117 | a batch is the run of its commands in order |
| `Invariants.StepInv` | include/lob/engine.hpp:85-207 | every command keeps the book well formed, in its quantities, good-till-cancelled and uncrossed, and ids unique if it brings in a fresh one |
| `Invariants.RunInv` | include/lob/engine.hpp:85-207 | so does every run of commands, repeated ids or not |
| `Invariants.InitialInv` | include/lob/engine.hpp:72-75 | a new engine of any size has the invariants, so every run from it keeps them |
| `Invariants.MatchEnds` | include/lob/engine.hpp:417-432 | matching leaves quantity only when no price crosses any more |
| `Books.RelinkIsRemoveThenAdd` | include/lob/engine.hpp:152-186 | relinking an order in place is removing and adding it, but for its slot's generation |
| `Capacity.Occupancy` | include/lob/arena.hpp:78-101 | orders on both sides and free slots make up all slots |
| `Capacity.RunBound` | include/lob/book.hpp:43-95 | over any run, no level aggregates more than MaxOrders times the largest order |
| `PriceTime.QueueSorted` | include/lob/engine.hpp:421-435 | a side read as a queue never serves a worse price first |
| `PriceTime.QueueFifo` | include/lob/level.hpp:32-40 | the queue serves each level in arrival order |
| `PriceTime.MatchTakes` | include/lob/engine.hpp:417-531 | matching is one walk down that queue: same makers, events, numbers and remainder |
| `FillOrKill.TakePrefix` | include/lob/engine.hpp:434-475 | the walk takes a prefix of the queue within the limit and reduces at most the next maker |
| `FillOrKill.TakeStops` | include/lob/engine.hpp:421-446 | it stops short only at a price beyond the limit, and gives up only at an own maker under cancel-newest |
| `FillOrKill.TakeTrades` | include/lob/engine.hpp:447-457 | every published trade is with a maker of the queue at its price; own makers are netted or passed over as the policy says, never filled |
| `FillOrKill.TakeExecutes` | include/lob/engine.hpp:447-471 | what the aggressor loses is what was published as executed |
| `FillOrKill.TakeDebits` | include/lob/engine.hpp:484-531 | what makers lose is what was published as executed, plus own makers that cancel-oldest drops |
| `FillOrKill.CanFillQueue` | include/lob/engine.hpp:568-630 | the level-by-level precheck is a walk down the queue |
| `FillOrKill.PrecheckExact` | include/lob/engine.hpp:376-388 | the precheck says yes exactly when matching would execute the whole quantity |
| `FillOrKill.FokAllOrNothing` | include/lob/engine.hpp:380-401 | a fill-or-kill order executes exactly its quantity or changes nothing at all |
| `Repricing.GuardSound` | include/lob/engine.hpp:632-653 | what the guard lets pass has moved neither the top nor a side's presence |
| `Repricing.RelinkIsReplace` | include/lob/engine.hpp:111-206 | a non-crossing reprice of a resting order in place equals suppressed cancel and resubmit, whatever else rests and under whatever ids: same book but for a generation, same number, same events |
| `ReferenceEngine.First` | tests/reference_engine.hpp:71-81 | the price that a side's ordered map lists first is its best |
| `ReferenceSim.PrecheckSim` | tests/reference_engine.hpp:175-220 | the reference's precheck over lists decides as the dense one over levels |
| `ReferenceSim.MatchSim` | tests/reference_engine.hpp:222-315 | the reference's nested loops over maps and lists trade as the dense match does |
| `ReferenceSim.StepSim` | tests/reference_engine.hpp:102-159 | one command keeps the two engines in step: books, index, number, events, tops |
| `ReferenceSim.DenseMatchesReference` | tests/reference_engine.hpp:30-159 | on every run with fresh ids, under every policy and throttle setting, both publish the same events under the same numbers and hold the same queues |
| `Stream.StreamExact` | include/lob/engine.hpp:632-699 | after any run, numbers are consecutive from the base, the last top published is the top of the book, and a throttled engine never repeats a top |
| `Throttle.StepTops` | include/lob/engine.hpp:632-699 | once a top is out, a throttled command publishes the top of the book it leaves if that is another one, and none otherwise |
| `Throttle.TopsExact` | include/lob/engine.hpp:632-699 | over any run, a throttled engine publishes the tops of the books its commands leave, without those that repeat the one before: the guard leaves nothing out |
| `Stream.NumberedAscends` | include/lob/engine.hpp:449-457 | numbers never fall, and only a fill and the trade right behind it share one |
| `Stream.NumberedGapless` | include/lob/engine.hpp:449-457 | no number is left out |
| `Rejects.RejectExact` | include/lob/engine.hpp:534-549 | a submit is refused exactly when it can neither trade nor rest; the whole order is lost and nothing else happens |
| `Rejects.ModifyNeverRejects` | include/lob/engine.hpp:188-206 | no modify is refused, however full the book |
| `Ledger.MatchLedger` | include/lob/engine.hpp:447-531 | what leaves the book in a match has traded or was destroyed by cancel-oldest |
| `Ledger.RunLedger` | tests/test_engine_invariants.cpp:77-111 | over any run, what was resting plus what came in is what rests, twice what traded, and what was cancelled, destroyed, dropped or refused; traded and refused are what the stream says |
| `EngineSnapshots.Save` | include/lob/engine.hpp:291-309 | the records are all orders, prices ascending, each level front to back, bids first, counted in the header |
| `Snapshots.RecordsInOrder` | include/lob/engine.hpp:776-799 | bids are written before asks, each side by ascending price |
| `Snapshots.AllRecorded` | include/lob/engine.hpp:776-799 | what is written of a level is the level, front to back |
| `EngineSnapshots.Clear` | include/lob/engine.hpp:806-836 | draining both sides from the best level yields the cleared engine |
| `EngineSnapshots.Load` | include/lob/engine.hpp:315-364 | on any source, the object ends where the specified restore ends |
| `Snapshots.AcceptedExact` | include/lob/engine.hpp:315-364 | a source is accepted exactly when its magic, version, tick count, capacity and policy byte are these, it holds as many records as it announces, they fit, and each has id, price, side, lifetime and quantity in range |
| `Snapshots.HeaderTaken` | include/lob/engine.hpp:315-364 | an accepted header brings its policy, throttle, number and last top along, and nothing is published |
| `Snapshots.RestoreRefused` | include/lob/engine.hpp:315-355 | a refused source leaves an empty engine that published nothing; once the header fits, its policy and throttle stay |
| `Restoring.SnapshotAccepted` | include/lob/engine.hpp:291-364 | a snapshot is accepted on the same shape and rebuilds every queue in order |
| `Restoring.RoundTrip` | include/lob/engine.hpp:291-364 | orders, policy, throttle, number and last top all come back, ids repeated or not, and nothing is published |
| `Restoring.SameFuture` | include/lob/engine.hpp:291-364 | where every saved order has an id of its own, the restored engine publishes on every follow-up run what the saved one publishes, ids brought in anew or taken |
| `BookTwins.RelinkTwins` | include/lob/engine.hpp:161-187 | books with the same queues and the same order under every id, in whatever slots, still have them after relinking an order in both |
| `TwinEngines.RunPaired` | include/lob/engine.hpp:85-207 | engines with such books and the same published top stay paired over every run: slots and generations decide nothing |
| `Futures.FutureExact` | include/lob/engine.hpp:291-364 | for repeated ids too: the restored engine agrees with the saved one on every run exactly when the saved index names, under each id, the order that the snapshot writes last under it |
| `Futures.UniqueNamesLast` | include/lob/messages.hpp:41-45 | ids that are unique always are named so |
| `Futures.EchoComesBackOtherwise` | include/lob/engine.hpp:776-799 | the input that shows the condition is needed: two bids under one id, the better first |
| `Restoring.RestoredExact` | include/lob/engine.hpp:838-873 | an accepted source restores an engine with the invariants of a run with fresh ids exactly when ids are distinct, all records are good-till-cancelled and none cross |
| `Restoring.AcceptsCrossed` | include/lob/engine.hpp:838-873 | the input that shows one condition is needed: a crossed pair of records is accepted |
| `Restoring.AcceptsRepeated` | include/lob/engine.hpp:838-873 | the same for a repeated id |
| `Restoring.AcceptsPassing` | include/lob/engine.hpp:838-873 | the same for a record that is not good-till-cancelled |
| `Rebuilding.SubmitsReplay` | include/lob/engine.hpp:838-873 | submitting the records one by one leaves the very book that replaying them leaves, when none crosses |
| `Rebuilding.BuiltExact` | include/lob/engine.hpp:315-364 | an accepted source restores a book that some commands build from an empty engine exactly when its records are good-till-cancelled and do not cross, and that some commands with fresh ids build exactly when ids are distinct besides |
| `Restoring.TopTakenOver` | include/lob/engine.hpp:315-364 | after every run, the latest top the restored engine has published or taken over is the top of its book, exactly when the header brings no top along or the one that the records add up to |
| `Restoring.TopRestored` | include/lob/engine.hpp:838-873 | the best prices and sums over the records are the top of the restored book |
| `Restoring.OverstatedSilent` | include/lob/engine.hpp:315-364 | the input that shows it: under an overstated top, a new best bid is not published |
| `Handles.ResolveExact` | include/lob/engine.hpp:722-730 | a handle finds an order exactly when its slot holds one with that id and its generation is current, ids repeated or not |
| `Handles.ResolveNamed` | include/lob/engine.hpp:703-730 | where ids are unique, that is the order the index names, under its current handle only |
| `HandleEngine.StrippedCancel` | include/lob/engine.hpp:92-105 | without an index, a cancel with the current handle removes the order its id would name, and does nothing otherwise |
| `HandleEngine.StrippedModify` | include/lob/engine.hpp:111-207 | without an index, a modify with the current handle does what its id would, and returns the handle the order then has |
| `HandleAnswers.SubmitAnswers` | include/lob/engine.hpp:533-565 | a submit answers with the handle under which its order now resolves, and with the empty one exactly when none rests |
| `HandleAnswers.CancelAnswers` | include/lob/engine.hpp:92-105 | a cancel with any handle, stale ones included, removes the order that the handle finds under the id, and nothing otherwise |
| `HandleAnswers.ModifyAnswers` | include/lob/engine.hpp:111-207 | a modify with any handle: if the handle finds nothing, nothing changes and the answer is empty; otherwise the answer is the handle under which the order now resolves, empty exactly when it is gone |
| `HandleEngine.HandlesFollowIds` | include/lob/engine.hpp:703-730 | on every run with fresh ids, the engine without an index, driven by the latest handles, publishes what the indexed engine publishes and holds the same orders in the same slots |
| `HandleAnswers.LastAnswers` | include/lob/engine.hpp:703-730 | after every run with fresh ids, the last answer given under an id finds the order resting under it, and nothing if none does |
| `StaleHandles.StepMoves` | include/lob/arena.hpp:78-101 | a command moves a slot's generation by exactly as often as it takes or releases the slot, twice at most |
| `StaleHandles.RunInCircle` | include/lob/arena.hpp:78-122 | over any run, ids repeated or not, every generation stays within 32 bits and is odd exactly while its slot holds an order |
| `StaleHandles.CurrentExact` | include/lob/arena.hpp:78-122 | after any run, a handle that was current is current exactly when its slot was left alone or went round all 2^32 generations |
| `StaleHandles.MovesFew` | include/lob/arena.hpp:78-101 | a run takes or releases a slot at most twice per command, so that fewer than 2^31 commands never bring a stale handle back |
| `StaleHandles.StaleForever` | include/lob/engine.hpp:717-730 | a handle whose slot has moved on finds nothing after any further commands, while the slot has been taken and released fewer than 2^32 times since it was current |
| `Gateway.ValidateExact` | apps/gateway/wire.hpp:107-126 | a record is valid exactly when its op and time in force are known and the engine may be given its command |
| `WireOutcomes.WireRefused` | apps/gateway/wire.hpp:93-126 | a record is refused unread exactly when a field its command needs is out of range, and then nothing changes |
| `WireOutcomes.WireSubmit` | apps/gateway/wire.hpp:140-160 | side 0 buys from asks up to its price and side 1 sells to bids down to it; it trades what is on offer up to its quantity, all or nothing for lifetime 2; what is left rests on its own side for lifetime 0 only; and the status and the filled quantity say so |
| `WireOutcomes.WireFills` | apps/gateway/wire.hpp:140-160 | every fill names the record's order as taker and a maker that rested on the other side within the limit, at the maker's price |
| `WireOutcomes.WireCancel` | apps/gateway/wire.hpp:161-164 | a cancel takes out the order of its id, every other stays where it stood, and it is acknowledged as processed |
| `WireOutcomes.WireResize` | apps/gateway/wire.hpp:165-168 | a modify at the same price changes the quantity and leaves the place |
| `WireOutcomes.WireMove` | apps/gateway/wire.hpp:165-168 | a modify to a price with nothing on offer moves the order to the back of that level |
| `WireOutcomes.WireReplace` | apps/gateway/wire.hpp:165-168 | a modify to a price with something on offer trades that, and what is left rests at the new price |
| `WireOutcomes.WireModifyNone` | apps/gateway/wire.hpp:165-168 | a modify of an order that is gone changes nothing and is acknowledged as processed |
| `WireOutcomes.AckSums` | apps/gateway/wire.hpp:64-87 | an acknowledgement carries the record's id, the sum of its fills and the price of the last one |
| `Gateway.AnyRecords` | apps/gateway/wire.hpp:107-177 | whatever records arrive, ids repeated or not, the book's invariants and the aggregate bound hold |
| `Gateway.RejectedUntouched` | apps/gateway/wire.hpp:136-176 | a rejected record left the book untouched, and a record is rejected exactly when it is invalid or can neither trade nor rest |
| `Gateway.AcceptedRests` | apps/gateway/wire.hpp:143-160 | accepted means that the whole order rests at the back of its level |
| `Gateway.KilledUntouched` | apps/gateway/wire.hpp:151-160 | killed means that nothing happened |
| `Gateway.FilledExact` | apps/gateway/wire.hpp:64-87 | `filled` is what traded, and the status says filled exactly when something did |
| `Gateway.FilledRests` | apps/gateway/wire.hpp:143-160 | what is left of a good-till-cancelled order that traded rests |
| `EngineGateway.ApplyOrder` | apps/gateway/wire.hpp:131-177 | on the object, a record has the outcome and the acknowledgement that the rows above describe |
| `Rings.SeenIsPublished` | include/lob/spsc_ring.hpp:84-92 | a slot carries the awaited sequence exactly when its position was published: earlier laps never match |
| `Rings.RingSafe` | include/lob/spsc_ring.hpp:65-132 | under every schedule, what was read is a prefix of what was pushed, at most a ringful is outstanding, and claimed slots hold what was pushed there |
| `Rings.RingRefinesQueue` | include/lob/spsc_ring.hpp:65-132 | each access is a queue operation or none: publishing appends, releasing a claim removes what it read |
| `Rings.PushFails` | include/lob/spsc_ring.hpp:71-76 | a push gives up exactly when it sees the queue full |
| `Rings.ClaimFails` | include/lob/spsc_ring.hpp:119-127 | a claim comes back empty exactly when it sees the queue empty |
| `Progress.PushEnds` | include/lob/spsc_ring.hpp:65-82 | however the consumer moves, a push ends within five accesses |
| `Workers.StepSound` | include/lob/shard_worker.hpp:134-190 | every step of worker, producer and controller keeps the engine at what was read and the count at what was applied |
| `Workers.Stopped` | include/lob/shard_worker.hpp:171-182 | when the worker is gone it has applied everything pushed, once each, in order |
| `Progress.WorkerStops` | include/lob/shard_worker.hpp:164-189 | once stop is requested, a number of accesses counted from what is queued sees the worker gone with everything applied |
| `Progress.StopEnds` | include/lob/shard_runtime.hpp:88-99 | stop returns: every schedule that gives each worker six accesses per queued command and seven more sees all workers gone |
| `Progress.DrainEnds` | include/lob/shard_runtime.hpp:122-128 | drain returns: every schedule that gives each worker six accesses per queued command and four more, and drain a load per shard and one more, brings it back |
| `Runtimes.FreshSound` | include/lob/shard_runtime.hpp:56-78 | a new runtime of any number of shards satisfies what every schedule then keeps |
| `Runtimes.WaitSound` | include/lob/shard_runtime.hpp:122-128 | a shard that drain has passed stays settled while it polls the others |
| `Runtimes.Quiesced` | include/lob/shard_runtime.hpp:88-152 | under every schedule, when drain has returned, or stop, each shard's engine has applied exactly the commands routed to it, once each, in push order |
| `Runtimes.ShardIsEngine` | include/lob/shard_runtime.hpp:88-152 | that engine is the single-threaded engine run on those commands |
| `Egresses.MergedStream` | include/lob/egress_merger.hpp:150-164 | merge numbers have no gap, each shard's order is kept, and every event is delivered, queued or counted as dropped |
| `Egresses.MergerComplete` | include/lob/egress_merger.hpp:118-143 | when the merger is gone, everything published to the rings was delivered and tallied |
| `MergerProgress.MergerEnds` | include/lob/egress_merger.hpp:118-164 | once asked to stop, the merger is done within a number of accesses counted from what is queued, and has delivered and tallied all of it |
| `Egresses.PublishAccounted` | include/lob/ring_publisher.hpp:57-61 | a full ring drops the event and counts it, and nothing else is lost |
| `Egresses.FreshSound` | include/lob/egress_merger.hpp:78-99 | a new merger over any number of rings satisfies what every schedule then keeps |
| `Fairness.ForwardedFairly` | include/lob/egress_merger.hpp:146-164 | under every schedule, an event with k ahead of it is forwarded within k / batch + 1 completed rounds |
| `Fairness.ForwardedAnyway` | include/lob/egress_merger.hpp:146-164 | from the middle of any round, one round more suffices |
| `Pipelines.FreshSound` | include/lob/shard_egress_runtime.hpp:60-70 | engines, rings and merger put together satisfy what every schedule then keeps |
| `Pipelines.NextSound` | include/lob/shard_worker.hpp:134-190 | every access of producer, worker, publisher, controller and merger keeps each engine's events accounted for between fate and publication |
| `Pipelines.PublishedIsRun` | include/lob/shard_egress_runtime.hpp:60-146 | under every schedule, when drain or stop has returned, a shard's publisher has been through exactly the events of the single-threaded run of the commands routed to the shard |
| `Pipelines.SinkIsRun` | include/lob/egress_merger.hpp:70-164 | when the merger is gone, the sink has received of each shard exactly what was kept of those events, in order, and all of them if nothing was dropped |
| `LineProgress.LineStops` | include/lob/shard_worker.hpp:134-190 | a worker told to stop is gone, all its engine's events through the publisher, within its own accesses and six per event |
| `LineProgress.LineEnds` | include/lob/egress_merger.hpp:70-144 | stopped in order, workers first, the whole machine comes to rest |
| `Stamps.RangesApart` | include/lob/hash.hpp:51-57 | the shards' number ranges lie one behind the other within 64 bits |
| `Stamps.StampsUnique` | include/lob/hash.hpp:46-57 | while no shard has used up its range, no two events of one kind share a number |
| `Stamps.ShardStampsUnique` | include/lob/shard_egress_runtime.hpp:60-70 | so it is for whatever any two shards' engines have been given |
| `Pipelines.SinkStampsUnique` | include/lob/shard_egress_runtime.hpp:60-70 | at every moment, no two shards' events stand in the merged stream under one number, while no shard has used up its range |
| `FixParser.ReadField` | include/lob/fix_parser.hpp:125-172 | the one-pass scan, tag folded in wrapping 32 bits, reads the field that stands there |
| `FixParser.ReadUint` | include/lob/fix_parser.hpp:179-187 | a value is a number exactly when it is digits within the type's range |
| `FixParser.FindFrame` | include/lob/fix_parser.hpp:203-247 | finds the frame, or the error that the header fields call for |
| `FixParser.ReadFields` | include/lob/fix_parser.hpp:296-365 | the loop over the body collects what the fields say, or the first error |
| `FixParser.ParseMessage` | include/lob/fix_parser.hpp:191-405 | on every buffer the running parser gives the outcome that the rows below hold against the grammar of messages |
| `FixLetters.AcceptedExact` | include/lob/fix_parser.hpp:191-405 | a buffer is accepted as a command with n bytes consumed exactly when its first n bytes are put together from the version field, a length that fits, the type, whole fields with allowed values and a checksum that is the byte sum modulo 256, and the last value of each tag says that command |
| `FixLetters.OutcomeReads` | include/lob/fix_parser.hpp:203-270 | of two header fields, a body and a trailer: which error a wrong version, length, trailer or checksum gives, and in which order they are found |
| `FixLetters.BodySpelled` | include/lob/fix_parser.hpp:272-405 | a body of whole fields gives the command they say, or a bad value, a missing field or an unsupported type, in that order |
| `FixLetters.BodyBroken` | include/lob/fix_parser.hpp:296-300 | a body that breaks off or goes on with what is no field is malformed, unless a value before that is bad |
| `FixLetters.IncompleteExact` | include/lob/fix_parser.hpp:37-41 | the parser waits exactly when bytes yet to come could change its answer |
| `FixLetters.OneByteTells` | include/lob/fix_parser.hpp:261-270 | two accepted messages that differ in one byte before the checksum state different checksums |
| `FixLetters.PassedOver` | include/lob/fix_parser.hpp:361-363 | a field with any other tag may be put anywhere in a body without changing what it says |
| `Fix.ParseStable` | include/lob/fix_parser.hpp:37-41 | every outcome but incomplete is unchanged by appended bytes |
| `Fix.ParsePrefix` | include/lob/fix_parser.hpp:37-41 | every proper prefix of an accepted message is incomplete |
| `Fix.DrainCut` | include/lob/fix_parser.hpp:37-41 | draining a part and then its rest with the other part is draining the whole |
| `FixRender.RoundTrip` | include/lob/fix_parser.hpp:367-404 | a rendered command is read back as that command and exactly its bytes are consumed, whatever follows |
| `FixRender.StreamReads` | include/lob/fix_parser.hpp:37-41 | a stream of rendered commands drains to exactly those |
| `FixRender.StreamCut` | include/lob/fix_parser.hpp:37-41 | cut in two anywhere, it still does |
| `FixRender.StreamChunks` | include/lob/fix_parser.hpp:37-41 | cut into any chunks, it still does |
| `FixRender.AcceptedInRange` | include/lob/fix_parser.hpp:302-338 | every accepted message is a command within the field widths and with proper ids, and so reads as its rendering does |
| `FixRender.ZeroQuantityExact` | include/lob/fix_parser.hpp:325-331 | an accepted order or replacement is for nothing exactly when the last quantity field is made of zeros |
| `FixRender.ZeroQuantityAccepted` | include/lob/fix_parser.hpp:325-331 | the input that shows it: a rendered order for nothing is accepted |

## Left out

- The prefetch stages and cache-line layout: they read and never write.
- Sockets, shared memory, huge pages, thread pinning and spinning: operating-system plumbing around the modelled loops.
- The byte layout of snapshot headers and records, and exceptions thrown by a sink: header and records are values here.
- Hardware memory order beyond interleaved accesses: acquire and release are the order of the steps.
- Wrap-around of sequence numbers and ring positions at 2^64: both are unbounded here.
- The JSON recorder, the latency histogram, the publisher adapter and the SplitMix64 mixer: formatting, measurement and a function of which nothing is needed.
- The reference engine's index of record addresses: the model seeks the record by its id in the list the index names, which is the same record while ids are unique, as its theorem requires.
- The reference engine counts from zero; the model starts it at the dense engine's base so that numbers compare for every base.
- Update in place inside `Bitmaps`, `Arenas` and `BookSides`: their arrays are sequence fields that the methods reassign; `IdIndex` keeps its array.
- The intrusive list links of a level: a level is the sequence of its slots.
- Fairness.ForwardedFairly: takes a positive batch, as the merger's constructor makes sure of.
- Futures.FutureExact: takes fewer than 2^64 - 2 slots, so that some id is unused; an array of that many orders does not fit in memory.
- WireOutcomes.WireReplace: takes a resting order without an account, as all that come in by wire are; one restored with an account goes by the self-cross policy.
