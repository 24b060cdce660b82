# Verified models of the workflow engine's core components

This project models, in Dafny 4.11, the parts of the workflow engine that carry unbounded
properties, and proves those properties for every input, every run and every interleaving. It
needs no library: `dafny verify dfyconfig.toml` checks all of it.

| file | what it models |
|---|---|
| `Bits.dfy`, `Fenwick.dfy` | the Fenwick tree and the arithmetic of `j & j.wrapping_neg()` its walks rest on |
| `Shedding.dfy` | the load-shedding semaphore: two counters without a common lock, every half of an acquire or release a step of its own |
| `Keys.dfy`, `DbWriter.dfy`, `DbContents.dfy` | storage keys as bytes, the translation of messages into key-value operations, and what the store holds after any messages |
| `Mailbox.dfy`, `MailboxWriter.dfy` | the mailbox actor: commit, drain, group commit, acknowledge |
| `BatchWriter.dfy` | the size-bounded batching writer over a committer that can fail |
| `SignalBuffer.dfy` | the per-key signal buffer with its admission and overflow policies |
| `Generation.dfy`, `Scheduling.dfy` | bead generation for the least covered modules; bead selection with borrowing |
| `ShellQuote.dfy` | shell quoting, read back by the rules of IEEE Std 1003.1-2017, Shell Command Language, sections 2.2.1 to 2.2.3 |
| `Probe.dfy`, `Backoff.dfy`, `Slots.dfy` | probe aggregation, capped exponential backoff over reals, slot allocation |
| `Options.dfy` | the option and outcome types the other files share |
| `LazyTrees.dfy`, `LazySegmentTree.dfy` | the lazy segment tree: operations on trees, and the two arrays that refine them |
| `RedBlack.dfy` | the red-black tree: insertion, search and removal |

How the models are built:

- Code that changes state is a class whose methods are proved against a function of the old
  state. What the component promises over runs is then proved about that function.
- Outside calls are parameters: the storage commit and the committer answer by oracles (any
  pattern of failures), the clock reading is part of a write, arrivals in a mailbox between two
  turns are arbitrary, the creation of a bead succeeds or fails by a function of its position.
- A commit is an ordered, all-or-nothing batch. Where the source would panic the model has a
  value for it (`Panicked` in the Fenwick tree, an untranslatable message in the writer).
- Machine arithmetic is written out where it decides the result: the 32-bit truncation and the
  64-bit wrap-around of the semaphore, the wrapping negation of the Fenwick walks, the cast of
  the backoff iteration to a signed 32-bit number, the 16-bit slot counter.

Where code and documentation, or code and expectation, disagree, the model follows the code and
the exact condition is proved:

- `prefix_sum` asserts `idx <= len`, but index `len` reads one past the vector and panics; the
  usable domain is `idx < len` (`Fenwick.FenwickTree.PrefixSum`). `query(0, 0)` panics too.
- A request of 2^32 permits or more takes only its low 32 bits from the semaphore but is counted
  in full. The conservation law holds over all runs, and the default check never reports shedding,
  exactly when no such request can be granted (`Shedding.LawExactly`, `Shedding.DefaultNeverSheds`).
- Deleting a timer removes the key with fire time 0, so it undoes an upsert exactly when that had
  fire time 0; no timer with another fire time is ever removed (`DbWriter.DeleteUndoesUpsertExactly`,
  `MailboxWriter.RunKeepsLateTimers`).
- Requests with no messages that are drained when nothing else is waiting get no acknowledgement
  (`Mailbox.DrainedAnsweredExactly`).
- With a batch limit of 0 the reported mailbox depth counts messages that are durable
  (`BatchWriter.DepthHonestExactly`).
- The documentation of the signal buffer has a full queue answer `Dropped`; `buffer_signal` drops
  the oldest signal and answers `Buffered`. A queue upgraded from a single signal ignores the
  capacity, so the bound by the capacity holds exactly from capacity 2 on
  (`SignalBuffer.CapacityBoundExactly`), and capacity 0, which the configuration's
  constructor raises to 1 but its public field admits, leaves empty queues behind
  (`SignalBuffer.NoEmptyQueueExactly`).
- Removing a key from the red-black tree can remove others: when its successor is a childless right
  child, `del` returns nothing for the whole subtree, so removing 2 from a tree of 1, 2 and 3 leaves
  nothing (`RedBlack.RemoveLosesAll`). The exact condition is proved for every ordered tree
  (`RedBlack.DelExactly`) and, from the shape around the key alone, for every tree built by
  insertions (`RedBlack.RemoveAfterInsertions`).
- A removal that loses nothing else can still leave a red node with a red right child, because going
  left the code borrows from the right child without looking at that child's left link. Exactly when
  a removal keeps colours and black heights is read off the colours beside the way to the key
  (`RedBlack.BalanceExactly`).
- The backoff delay falls below its base from iteration 2^31 on (`Backoff.DelayMonotoneExactly`).

## Model

| member | source | states |
|---|---|---|
| Bits.AndNegIsLowBit | crates/vo-core/src/fenwick.rs:18 | in a word of any width, `j & wrapping_neg(j)` is `LowBit(j)` |
| Bits.LowBitDivides | crates/vo-core/src/fenwick.rs:18 | `LowBit(j)` is a power of two that divides `j` with an odd quotient |
| Bits.LowBitIsLargest | crates/vo-core/src/fenwick.rs:18 | every power of two that divides `j` is at most `LowBit(j)` |
| Bits.LowBitStep | crates/vo-core/src/fenwick.rs:73 | the step of both walks, as the source writes it on 64-bit words, is `LowBit` |
| Bits.UpdateWalkIsExact | crates/vo-core/src/fenwick.rs:70-74 | a cell covers `p` if and only if it is `p` or covers the next cell of the walk from `p` |
| Bits.WalkVisitsCovering | crates/vo-core/src/fenwick.rs:70-74 | the whole update walk visits exactly the cells whose range covers the index, and ends |
| Fenwick.AddToCovering | crates/vo-core/src/fenwick.rs:70-74 | the in-place walk adds to exactly the covering cells and changes no other |
| Fenwick.UpdatedCell | crates/vo-core/src/fenwick.rs:61-75 | changing one element changes the sum of a cell's range exactly when the cell covers it |
| Fenwick.FenwickTree.New | crates/vo-core/src/fenwick.rs:116-121 | the tree of an array of zeros |
| Fenwick.FenwickTree.FromSlice | crates/vo-core/src/fenwick.rs:11-22 | every cell holds the sum of its range of the given array |
| Fenwick.FenwickTree.Update | crates/vo-core/src/fenwick.rs:61-75 | panics exactly out of bounds; otherwise the array changes at one place and every cell is again its range's sum |
| Fenwick.FenwickTree.PrefixSum | crates/vo-core/src/fenwick.rs:25-38 | returns exactly for `idx < len`, and then the sum of elements 0 to `idx` |
| Fenwick.FenwickTree.Query | crates/vo-core/src/fenwick.rs:41-59 | returns exactly for `left <= right <= len` with `right > 0`, and then the sum of that range |
| Fenwick.FenwickTree.Get | crates/vo-core/src/fenwick.rs:78-93 | returns exactly in bounds, and then the element |
| Fenwick.FromUpdates | crates/vo-core/src/fenwick.rs:11-22 | a new tree and one update per element give, cell for cell, the tree built from the slice |
| Shedding.StepConserves | crates/vo-core/src/shedding.rs:108-130 | every half-step of every thread keeps: available plus held permits is the maximum, and the counter is the counted permits modulo 2^64 |
| Shedding.RunKeepsLaw | crates/vo-core/src/shedding.rs:66-70 | over every interleaving of harmless requests, acquired is at most maximum minus available, with equality when no thread is mid-operation |
| Shedding.LawExactly | crates/vo-core/src/shedding.rs:108-130 | that law holds over all runs if and only if every allowed request is below 2^32 or its low 32 bits exceed the maximum |
| Shedding.BrokenByWideRequest | crates/vo-core/src/shedding.rs:112-116 | any other request breaks the law in some run |
| Shedding.ReleaseUndoesAcquire | crates/vo-core/src/shedding.rs:66-70 | a release undoes an acquire on both counters, for every request size and across wrap-around |
| Shedding.SheddingReachableExactly | crates/vo-core/src/shedding.rs:140-142 | some run of requests below 2^32 activates shedding if and only if the threshold is at most the maximum; some run of requests of any size does if and only if it is at most 2^64 - 2^32 plus the smaller of the maximum and 2^32 - 1 |
| Shedding.NeverShedsExactly | crates/vo-core/src/shedding.rs:140-142 | at a threshold above the maximum and within 32 bits, no run sheds if and only if every allowed request is below 2^32 or is never granted |
| Shedding.DefaultNeverSheds | crates/vo-core/src/shedding.rs:144-160 | with 500 permits against 5,000 the check answers Ok in every run, whatever happens between its two loads, if and only if every allowed request is below 2^32 or its low 32 bits exceed 500 |
| Shedding.LoadSheddingSemaphore.constructor | crates/vo-core/src/shedding.rs:88-94 | the initial state of the step system |
| Shedding.LoadSheddingSemaphore.TakePermits | crates/vo-core/src/shedding.rs:109-113 | the first half of an acquire is the step Take, refused exactly when it is not enabled |
| Shedding.LoadSheddingSemaphore.CountPermits | crates/vo-core/src/shedding.rs:114-118 | the second half of an acquire is the step Count |
| Shedding.LoadSheddingSemaphore.UncountPermits | crates/vo-core/src/shedding.rs:66-70 | the first half of a release is the step Uncount |
| Shedding.LoadSheddingSemaphore.ReturnPermits | crates/vo-core/src/shedding.rs:42-46 | the second half of a release, dropping the field, is the step Return |
| Shedding.LoadSheddingSemaphore.TryAcquireMany | crates/vo-core/src/shedding.rs:108-130 | refused exactly when the low 32 bits exceed what is available, with what is available and the request in the error and nothing changed; granted, the low 32 bits are taken, the whole request is counted modulo 2^64 and the permit has its size; acquired plus available stays at the maximum exactly for requests below 2^32 |
| Shedding.LoadSheddingSemaphore.Release | crates/vo-core/src/shedding.rs:66-70 | dropping a permit takes its whole size from the counter, gives its low 32 bits back and ends that permit only |
| Shedding.LoadSheddingSemaphore.Check | crates/vo-core/src/shedding.rs:148-160 | reports shedding exactly from the threshold on, with the count and the threshold |
| Keys.BigEndianRoundTrip | crates/vo-actor/src/db_writer.rs:593-623 | the big-endian bytes of a number read back as the number |
| Keys.BigEndianOrder | crates/vo-actor/src/db_writer.rs:593-623 | the bytes compare as the numbers do |
| Keys.TimerKeyRoundTrip | crates/vo-actor/src/db_writer.rs:593-623 | a timer key has 40 bytes and decodes to its fire time, instance and timer |
| Keys.TimerKeyOrder | crates/vo-actor/src/db_writer.rs:593-623 | byte order on keys is the order by fire time, instance, timer, both ways; keys are equal only for equal parts |
| Keys.LeaseKeyInjective | crates/vo-actor/src/db_writer.rs:394-420 | with instance ids printed at fixed length, two lease keys are equal exactly for the same instance and step |
| Keys.EventKeyRoundTrip | crates/vo-storage/src/key_encoding/mod.rs:236-271 | an event key has 26 bytes and decodes to its instance and sequence number |
| Keys.EventKeyOrder | crates/vo-storage/src/key_encoding/mod.rs:236-245 | event keys are equal only for equal parts and sort by instance, then by sequence number |
| Keys.InstanceIndexKeyRoundTrip | crates/vo-storage/src/instance_index/mod.rs:46-61 | an instance key has 25 bytes and decodes to its status, time and instance |
| Keys.InstanceIndexKeyOrder | crates/vo-storage/src/instance_index/mod.rs:46-61 | instance keys are equal only for equal parts and sort by status, then time, then instance |
| Keys.SnapshotKeyRoundTrip | crates/vo-storage/src/snapshots/mod.rs:357-370 | a snapshot key has 24 bytes and decodes to its instance and sequence number |
| Keys.SnapshotKeyOrder | crates/vo-storage/src/snapshots/mod.rs:357-370 | snapshot keys are equal only for equal parts and sort by instance, then by sequence number |
| Keys.EffectKeyInjective | crates/vo-storage/src/effect_journal/mod.rs:113-133 | under the placeholder instance effect keys are equal only for equal intents, behind a length prefix that tells their size |
| DbWriter.GroupCommit | crates/vo-actor/src/db_writer.rs:324-338 | one batch of all messages leaves the store that committing them one by one leaves |
| DbWriter.BatchTranslatable | crates/vo-actor/src/db_writer.rs:349-591 | a batch translates if and only if each of its messages does |
| DbWriter.OneByOneConcat | crates/vo-actor/src/db_writer.rs:250-285 | any cut of a message sequence into consecutive commits leaves the same store |
| DbWriter.AppendOnlyPartitions | crates/vo-actor/src/db_writer.rs:349-591 | keys of events, instances, effects and snapshots are never removed |
| DbWriter.LeaseExactly | crates/vo-actor/src/db_writer.rs:394-420 | a lease key is present if and only if the last lease message of its pair was an acquire, or there was none and it was there before |
| DbWriter.NoStrayLease | crates/vo-actor/src/db_writer.rs:394-420 | every new key of the leases partition comes from an acquire of exactly that pair |
| DbWriter.LateTimersAreNeverDeleted | crates/vo-actor/src/db_writer.rs:560-565 | a timer stored with a nonzero fire time survives every sequence of messages |
| DbWriter.DeleteUndoesUpsertExactly | crates/vo-actor/src/db_writer.rs:445-447 | an upsert of a new timer and its delete leave the store as it was if and only if the fire time was 0 |
| DbContents.KeysTellRecords | crates/vo-actor/src/db_writer.rs:349-591 | events, instance entries, leases, timers, effects and snapshots all have keys of their own: two keys are equal only for the same record |
| DbContents.MessageChange | crates/vo-actor/src/db_writer.rs:349-591 | the operations of every kind of message put, delete or keep exactly the records the message names, with the value it carries; an unknown status byte counts as running and a timer delete is about fire time 0 |
| DbContents.StoreExactly | crates/vo-actor/src/db_writer.rs:349-591 | after any messages every record is as the last message about it left it: its value, its absence, or what was there before |
| DbContents.StoreElsewhere | crates/vo-actor/src/db_writer.rs:349-591 | no message touches a key that is not a record's |
| Mailbox.LedgerAnswers | crates/vo-actor/src/db_writer.rs:273-285 | committing requests and then acknowledging each keeps the ledger of durable writes and acknowledgements |
| Mailbox.AckedWereDurable | crates/vo-actor/src/db_writer.rs:629-635 | an acknowledgement answers the next request that is owed one, with that request's port and count: those owed to the requests before it are exactly the ones already sent, and its messages and theirs were durable before it was sent |
| Mailbox.RunAccounts | crates/vo-actor/src/db_writer.rs:216-288 | over every run of a new actor, durable writes are those of the answered requests in order, acknowledgements are theirs with their own counts, and the counts add up to the total committed |
| Mailbox.FailedDrain | crates/vo-actor/src/db_writer.rs:273-274 | in the turn that `DbWriterActor.Handle` is proved to take, a failing drain commit leaves what an empty mailbox leaves and stops the actor: none of the drained requests is committed or acknowledged |
| Mailbox.DrainedAnsweredExactly | crates/vo-actor/src/db_writer.rs:273-285 | the drained requests are answered, all of them, if and only if one of them carries a message |
| Mailbox.TurnExactly | crates/vo-actor/src/db_writer.rs:216-288 | a turn succeeds if and only if the writes of its request, and all waiting writes together, are none or translatable with an accepted commit; durable afterwards, and counted, are the old writes, then the request's, then everything that waited, as far as those commits went |
| Mailbox.TurnAcksExactly | crates/vo-actor/src/db_writer.rs:629-635 | and the acknowledgements sent are those of the direct request and, if some waiting request carries a message, of all that waited |
| Mailbox.RunWithoutFailure | crates/vo-actor/src/db_writer.rs:216-288 | a new actor none of whose turns fails makes every write sent to it durable, in order, and acknowledges every request that carries a message and has a port |
| Mailbox.RunPrefix | crates/vo-actor/src/db_writer.rs:216-288 | the writes durable at any point of a run are a prefix of those durable at any later point |
| MailboxWriter.WriteBatchBuilder.constructor | crates/vo-actor/src/db_writer.rs:330 | an empty batch |
| MailboxWriter.WriteBatchBuilder.ApplyMessage | crates/vo-actor/src/db_writer.rs:349-591 | panics exactly on an effect with an empty or overlong intent and on a transition without a valid instance or sequence number; otherwise appends operations that do to every record what the message is for |
| MailboxWriter.WriteBatchBuilder.ApplyTimerOps | crates/vo-actor/src/db_writer.rs:529-568 | appends one operation per timer operation, in order |
| MailboxWriter.WriteBatchBuilder.ApplyTransition | crates/vo-actor/src/db_writer.rs:487-589 | appends the operations of a transition: event, index, timers, snapshot |
| MailboxWriter.DbWriterActor.constructor | crates/vo-actor/src/db_writer.rs:207-213 | a new actor has committed nothing |
| MailboxWriter.DbWriterActor.CommitBatch | crates/vo-actor/src/db_writer.rs:324-338 | commits all messages or none; the store stays the one that applying the durable writes one by one gives |
| MailboxWriter.DbWriterActor.SendAck | crates/vo-actor/src/db_writer.rs:629-635 | sends the count to the port, if there is one |
| MailboxWriter.DbWriterActor.HandleWrite | crates/vo-actor/src/db_writer.rs:223-233 | succeeds exactly when the message translates and its commit is accepted; then the message is durable, counted once and acknowledged with 1, and otherwise nothing changes |
| MailboxWriter.DbWriterActor.HandleWriteBatch | crates/vo-actor/src/db_writer.rs:234-245 | the same for a batch, acknowledged with its size; an empty one is acknowledged without a commit |
| MailboxWriter.DbWriterActor.Drain | crates/vo-actor/src/db_writer.rs:250-271 | empties the mailbox into one batch in arrival order, with each request's port and count |
| MailboxWriter.DbWriterActor.SendAcks | crates/vo-actor/src/db_writer.rs:281-284 | acknowledges every drained request with its own count |
| MailboxWriter.DbWriterActor.HandleDrain | crates/vo-actor/src/db_writer.rs:248-285 | answers everything drained, or drops it when the commit fails or there is no message |
| MailboxWriter.DbWriterActor.Handle | crates/vo-actor/src/db_writer.rs:216-288 | a call of the handler is a turn of the mailbox protocol, and succeeds exactly when both of its commits are not needed or go through |
| MailboxWriter.RunLeases | crates/vo-actor/src/db_writer.rs:394-420 | over every run from a store without leases, a pair is leased if and only if its last answered lease message was an acquire |
| MailboxWriter.RunLeasesExactly | crates/vo-actor/src/db_writer.rs:394-420 | over every run from a store without leases, the partition holds exactly the keys of the pairs whose last answered lease message was an acquire |
| MailboxWriter.RunStoreExactly | crates/vo-actor/src/db_writer.rs:216-288 | over every run, every record of every partition is as the last answered message about it left it |
| MailboxWriter.RunStoresAll | crates/vo-actor/src/db_writer.rs:216-288 | after a run none of whose turns fails the store is what every message sent, one commit each, would have left |
| MailboxWriter.LaterStore | crates/vo-actor/src/db_writer.rs:216-288 | the store at any later point of a run comes from the earlier one by applying further writes one by one |
| MailboxWriter.RunKeepsKeys | crates/vo-actor/src/db_writer.rs:349-591 | a key of an append-only partition stored at any point of any run is there at every later point |
| MailboxWriter.RunKeepsLateTimers | crates/vo-actor/src/db_writer.rs:560-565 | a timer with a nonzero fire time stored at any point of any run is there at every later point |
| BatchWriter.DbWriterActorState.constructor | crates/vo-core/src/db_writer_actor.rs:110-121 | a new actor with an empty buffer |
| BatchWriter.DbWriterActorState.CommitBatch | crates/vo-core/src/db_writer_actor.rs:127-140 | hands the buffer to the committer; it is empty afterwards, durable exactly when accepted |
| BatchWriter.DbWriterActorState.Commit | crates/vo-core/src/db_writer_actor.rs:205-224 | the loop over single messages does what cutting the request into chunks does, and leaves the buffer empty |
| BatchWriter.DbWriterActorState.GetMailboxDepth | crates/vo-core/src/db_writer_actor.rs:225-231 | received minus committed batches times the limit, not below 0 |
| BatchWriter.DbWriterActorState.Shutdown | crates/vo-core/src/db_writer_actor.rs:232-237 | finds the buffer empty and changes nothing |
| BatchWriter.LoopIsCommitted | crates/vo-core/src/db_writer_actor.rs:205-224 | from any buffer short of the limit, pushing message by message is committing buffer and rest as one request |
| BatchWriter.ChunkSizes | crates/vo-core/src/db_writer_actor.rs:123-125 | all chunks but the last are full, the last is not empty and not over the limit |
| BatchWriter.ChunksExact | crates/vo-core/src/db_writer_actor.rs:205-224 | the chunks in order are the request |
| BatchWriter.CommitOk | crates/vo-core/src/db_writer_actor.rs:205-224 | an Ok request has passed exactly its messages, in order, as full batches and at most one shorter last one |
| BatchWriter.CommitErr | crates/vo-core/src/db_writer_actor.rs:205-224 | a failed request has made a proper prefix durable whose length is a multiple of the limit |
| BatchWriter.ChunkCount | crates/vo-core/src/db_writer_actor.rs:123-125 | a request takes as many batches as its size divided by the limit, rounded up |
| BatchWriter.CommitExactly | crates/vo-core/src/db_writer_actor.rs:205-224 | a request succeeds if and only if the committer accepts every one of its batches; otherwise exactly those before the first refused one are durable, that one is the last tried, and the messages up to its end are received |
| BatchWriter.SmallRequestAllOrNothing | crates/vo-core/src/db_writer_actor.rs:205-224 | a request within the limit is durable as one batch or not at all |
| BatchWriter.RunConsistent | crates/vo-core/src/db_writer_actor.rs:127-140 | over every run the batch count, the sizes and the durable messages agree, and every received message is durable if and only if no commit of the run failed |
| BatchWriter.DepthBounded | crates/vo-core/src/db_writer_actor.rs:225-231 | with a limit of at least 1, the depth is at most the messages not durable, in every run, and 0 in every run in which no commit has failed so far |
| BatchWriter.DepthExactly | crates/vo-core/src/db_writer_actor.rs:225-231 | with a limit of at least 1, in every run, failures included, the depth is the messages not durable less what the durable batches fall short of full ones, and not below 0 |
| BatchWriter.DepthWithoutLimit | crates/vo-core/src/db_writer_actor.rs:225-231 | with limit 0 one durable message is still reported as waiting |
| BatchWriter.DepthHonestExactly | crates/vo-core/src/db_writer_actor.rs:225-231 | that bound holds over all runs if and only if the limit is at least 1 |
| SignalBuffer.SignalBuffer.constructor | crates/vo-actor/src/signal_buffer.rs:371-376 | a new buffer is empty |
| SignalBuffer.SignalBuffer.BufferSignalWithPolicy | crates/vo-actor/src/signal_buffer.rs:583-643 | admission, upgrade of a single entry and the three overflow policies, as one step on the entries; below the capacity a queue takes the signal at its end and answers Buffered under every overflow policy |
| SignalBuffer.SignalBuffer.BufferSignal | crates/vo-actor/src/signal_buffer.rs:487-541 | the drop-oldest case of the same step |
| SignalBuffer.SignalBuffer.PopBuffered | crates/vo-actor/src/signal_buffer.rs:646-674 | removes and returns the oldest signal of the key |
| SignalBuffer.SignalBuffer.ClearKey | crates/vo-actor/src/signal_buffer.rs:746-755 | removes the key's signals and no others |
| SignalBuffer.SignalBuffer.TotalBufferedCount | crates/vo-actor/src/signal_buffer.rs:759-770 | the sum of the lengths of all entries |
| SignalBuffer.OnlyItsKey | crates/vo-actor/src/signal_buffer.rs:583-674 | every operation leaves all other keys alone |
| SignalBuffer.OfferRejects | crates/vo-actor/src/signal_buffer.rs:587-592 | a rejecting policy, and single buffering of a key that has an entry, answer Rejected and change nothing |
| SignalBuffer.OfferFirst | crates/vo-actor/src/signal_buffer.rs:589-595 | single buffering of a new key answers Buffered and holds that signal alone |
| SignalBuffer.OfferBelowCapacity | crates/vo-actor/src/signal_buffer.rs:597-641 | below the capacity, or behind a single signal, the signal is appended and Buffered is answered under every overflow policy |
| SignalBuffer.OfferAtCapacity | crates/vo-actor/src/signal_buffer.rs:603-625 | at the capacity drop-oldest evicts the first, appends and answers Buffered; drop-newest changes nothing and answers Dropped; the error policy changes nothing and answers an overflow of 1 |
| SignalBuffer.PopOldest | crates/vo-actor/src/signal_buffer.rs:646-674 | a pop delivers the first signal whenever there is one and leaves the rest in order |
| SignalBuffer.ClearEmpties | crates/vo-actor/src/signal_buffer.rs:746-755 | after a clear the key holds nothing |
| SignalBuffer.RunInOrder | crates/vo-actor/src/signal_buffer.rs:583-674 | over every run and key, accepted signals are, in order, those that left and those still buffered |
| SignalBuffer.NothingLost | crates/vo-actor/src/signal_buffer.rs:583-674 | without drop-oldest, delivered followed by buffered signals are exactly the accepted ones in arrival order |
| SignalBuffer.OrderedSubsequence | crates/vo-actor/src/signal_buffer.rs:487-541 | with drop-oldest they are an ordered subsequence, and accepted is delivered plus evicted plus buffered |
| SignalBuffer.RunBounded | crates/vo-actor/src/signal_buffer.rs:583-643 | no key ever holds more than the larger of 2 and the capacity |
| SignalBuffer.CapacityBoundExactly | crates/vo-actor/src/signal_buffer.rs:630-640 | the capacity itself bounds every reachable queue if and only if it is at least 2 |
| SignalBuffer.NoEmptyQueueExactly | crates/vo-actor/src/signal_buffer.rs:646-674 | no reachable buffer stores an empty queue if and only if the capacity is at least 1 |
| SignalBuffer.ForetoldExactly | crates/vo-actor/src/signal_buffer.rs:289-308 | the pure policy foretells the answer of `buffer_signal` in every reachable buffer if and only if the capacity is at least 1 |
| SignalBuffer.NumKeysExactly | crates/vo-actor/src/signal_buffer.rs:759-770 | the number of entries is the number of keys with a positive count, in every run, if and only if the capacity is at least 1 |
| SignalBuffer.RunTotal | crates/vo-actor/src/signal_buffer.rs:759-770 | over every run the total is what was gained minus what left, across all keys |
| Generation.RecordedCounts | fleet-feed/src/generation.rs:116-129 | recording raises the count of one module by one and of no other |
| Generation.RecordedUnique | fleet-feed/src/generation.rs:116-129 | entries stay unique per module |
| Generation.RecordedElsewhere | fleet-feed/src/generation.rs:116-129 | recording keeps every name, every closed count and every other module's entry |
| Generation.CreatedExactly | fleet-feed/src/generation.rs:148-158 | a target is recorded if and only if its own creation succeeded |
| Generation.SortIsStable | fleet-feed/src/generation.rs:76 | the sorted list is ordered by count and, for equal counts, by position |
| Generation.ChosenAreLeast | fleet-feed/src/generation.rs:63-82 | the first entries of the sort come before everything not chosen |
| Generation.FleetMetrics.constructor | fleet-feed/src/generation.rs:13-22 | metrics without entries |
| Generation.FleetMetrics.RecordCreated | fleet-feed/src/generation.rs:116-129 | raises the module's entry or adds one |
| Generation.FleetMetrics.SelectTargets | fleet-feed/src/generation.rs:63-82 | the least covered modules, at most as many as asked for |
| Generation.FleetMetrics.GenerateBeads | fleet-feed/src/generation.rs:132-170 | tries at most 10 targets, records exactly those whose creation succeeded and returns their number; when all succeed this is `Round` |
| Generation.TargetsAreLeast | fleet-feed/src/generation.rs:63-82 | targets are distinct scanned modules and none left out has a smaller count |
| Generation.TargetsInOrder | fleet-feed/src/generation.rs:63-82 | targets come by count and, for equal counts, by scan position, and before every position left out |
| Generation.RoundKeepsBalance | fleet-feed/src/generation.rs:132-170 | `Round`, which `GenerateBeads` performs when every create succeeds, keeps counts that differ by at most 1 within 1 |
| Generation.RoundsKeepEven | fleet-feed/src/generation.rs:132-170 | any number of such rounds does, and adds min(10, n) to the sum each time, with entries unique |
| Generation.EvenCoverage | fleet-feed/src/generation.rs:132-170 | from empty metrics, after r rounds every one of n modules has floor or ceiling of r * min(10, n) / n |
| Scheduling.TakeBead | fleet-feed/src/scheduling.rs:44-56 | hands out and claims the first ready bead, or nothing exactly when none is ready |
| Scheduling.FindLocal | fleet-feed/src/scheduling.rs:72-80 | the first pool of the rig kind, if there is one |
| Scheduling.FindBorrow | fleet-feed/src/scheduling.rs:81-96 | a borrowable pool with the most ready beads, as the source breaks ties |
| Scheduling.SelectBeadForPolecat | fleet-feed/src/scheduling.rs:72-96 | local pool first, then the best borrowable one |
| Scheduling.HandedOutExactly | fleet-feed/src/scheduling.rs:44-56 | the bead handed out is the first without an assignee that is not claimed |
| Scheduling.CanTakeExactly | fleet-feed/src/scheduling.rs:58-70 | a polecat can borrow if and only if the status at its first place in the first cycle of that rig kind is dead or idle |
| Scheduling.SelectsNothingExactly | fleet-feed/src/scheduling.rs:72-96 | with one pool per rig kind, what `SelectBeadForPolecat` is proved to do selects nothing if and only if neither the local nor any borrowable pool has a ready bead |
| Scheduling.SelectionIsDetermined | fleet-feed/src/scheduling.rs:72-96 | the relation leaves one result and one new state |
| Scheduling.SelectionLowersTotal | fleet-feed/src/scheduling.rs:37-42 | a success strictly lowers the total ready count; otherwise it stays |
| Scheduling.NoBeadTwice | fleet-feed/src/scheduling.rs:44-56 | over any run, no bead id is handed out twice from one pool |
| Scheduling.AtMostReady | fleet-feed/src/scheduling.rs:72-96 | over any run, successes and what is still ready never exceed what was ready at the start |
| ShellQuote.QuoteIsExact | fleet-feed/src/calculations.rs:30-36 | read outside quotes, a quoted value adds exactly the value to the current word and what follows is read as if it stood alone |
| ShellQuote.QuoteReadsBack | fleet-feed/src/calculations.rs:30-36 | a quoted value is one word, the value |
| ShellQuote.QuoteInjective | fleet-feed/src/calculations.rs:30-36 | quoting is injective |
| ShellQuote.CommandLineReadsBack | fleet-feed/src/calculations.rs:30-36 | quoted values joined by blanks read back as the list of values |
| Probe.WithUpdated | crates/vo-actor/src/probe.rs:259-272 | how one update moves the three counts |
| Probe.OverallFromCounts | crates/vo-actor/src/probe.rs:274-280 | the cascade on counters computes the overall status defined on the statuses themselves |
| Probe.OverallIsUnique | crates/vo-actor/src/probe.rs:274-280 | that definition leaves one status |
| Probe.AggregatedStatus.constructor | crates/vo-actor/src/probe.rs:249-257 | no probes, unknown overall |
| Probe.AggregatedStatus.Update | crates/vo-actor/src/probe.rs:259-281 | the counters stay the numbers of probes by latest status, never below 0, and overall follows |
| Probe.AggregatedStatus.IsHealthy | crates/vo-actor/src/probe.rs:283-285 | true exactly when there are probes and all are healthy |
| Probe.UpdatesCommute | crates/vo-actor/src/probe.rs:259-281 | updates of different probes may be swapped anywhere in a history |
| Probe.LatestIsLast | crates/vo-actor/src/probe.rs:259-281 | the status kept for a probe is that of its last result in the history, and kept only if there is one |
| Probe.SameLastResults | crates/vo-actor/src/probe.rs:259-281 | histories in which every probe has the same last result leave the same statuses, however interleaved |
| Probe.Replay | crates/vo-actor/src/probe.rs:259-281 | after any history the state is the one of the latest result per probe |
| Backoff.DelayBounds | crates/vo-common/src/backoff.rs:38-46 | the delay is positive, at most the maximum, and the base at iteration 0 |
| Backoff.PowAdds | crates/vo-common/src/backoff.rs:42 | exponents add, and the first power is the base |
| Backoff.PowIInverse | crates/vo-common/src/backoff.rs:42 | a negative exponent inverts the power |
| Backoff.DelayRatio | crates/vo-common/src/backoff.rs:38-46 | below 2^31 and until the maximum, each delay is the multiplier times the one before, capped |
| Backoff.NotBelowBaseExactly | crates/vo-common/src/backoff.rs:42 | it is at least the base if and only if the iteration is below 2^31 |
| Backoff.DelayMonotoneExactly | crates/vo-common/src/backoff.rs:38-46 | for `i <= j` the delay falls if and only if `j` has reached 2^31 and `i` has not |
| Backoff.UncastAgrees | crates/vo-common/src/backoff.rs:42 | below 2^31 the cast makes no difference |
| Backoff.ReachesMaximum | crates/vo-common/src/backoff.rs:38-46 | without the cast there is an iteration from which the delay is the maximum for ever |
| Slots.SlotAllocator.constructor | crates/vo-common/src/slot.rs:230-236 | an allocator without slots |
| Slots.SlotAllocator.Alloc | crates/vo-common/src/slot.rs:242-255 | the next index, or the right error without a change; map and list stay inverse and the counter fits 16 bits |
| Slots.SlotAllocator.Get | crates/vo-common/src/slot.rs:259-261 | the index at which the name stands, and only that |
| Slots.SlotAllocator.NameOf | crates/vo-common/src/slot.rs:265-267 | present exactly for allocated indices, and inverse to the lookup |
| Slots.SlotAllocator.CreateSlotArray | crates/vo-common/src/slot.rs:283-285 | an array of as many nulls as there are slots, with every allocated index in bounds |
| Slots.SlotAllocator.Iter | crates/vo-common/src/slot.rs:288-293 | all names with indices 0, 1, 2 and so on |
| Slots.AllocAll | crates/vo-common/src/slot.rs:242-255 | after any run of requests the names are the first requests of each name, in order, up to the limit |
| LazyTrees.RangeAddLawful | crates/vo-core/src/segment_tree/mod.rs:83-95 | sums under range additions meet the laws asked of a caller |
| LazyTrees.RangeAddTotal | crates/vo-core/src/segment_tree/mod.rs:83-95 | adding to every element of a stretch adds to its sum once per element |
| LazyTrees.FoldApplyAll | crates/vo-core/src/segment_tree/lazy.rs:94-95 | updating the fold of a segment is folding the updated elements |
| LazyTrees.Settled | crates/vo-core/src/segment_tree/lazy.rs:131-149 | pushing down changes no element and leaves every cell the fold of its segment |
| LazyTrees.UpdatedMeans | crates/vo-core/src/segment_tree/lazy.rs:83-109 | a range update changes the elements in the range, all of them and no others |
| LazyTrees.AskedMeans | crates/vo-core/src/segment_tree/lazy.rs:61-73 | a query folds the elements in the range and changes none |
| LazyTrees.PlacedMeans | crates/vo-core/src/segment_tree/lazy.rs:116-129 | a point update replaces one element |
| LazySegmentTree.Built | crates/vo-core/src/segment_tree/lazy.rs:29-34 | cells merged bottom-up stand for the leaves |
| LazySegmentTree.LazySegmentTree.FromSlice | crates/vo-core/src/segment_tree/lazy.rs:15-45 | for any functions: leaves hold the data padded with the identity to the least power of two, inner cells are merged from their children, nothing is pending; for lawful functions the tree stands for the array |
| LazySegmentTree.LazySegmentTree.CopyLeaves | crates/vo-core/src/segment_tree/lazy.rs:29-31 | the elements in the leaf cells, every other cell unchanged |
| LazySegmentTree.LazySegmentTree.MergeUpwards | crates/vo-core/src/segment_tree/lazy.rs:32-34 | every inner cell the merge of its children, leaves unchanged |
| LazySegmentTree.LazySegmentTree.PushDown | crates/vo-core/src/segment_tree/lazy.rs:131-149 | refines the push-down on trees and changes no cell outside the subtree |
| LazySegmentTree.LazySegmentTree.UpdateRangeInner | crates/vo-core/src/segment_tree/lazy.rs:83-109 | refines the range update on trees and changes no cell outside the subtree |
| LazySegmentTree.LazySegmentTree.UpdateHalves | crates/vo-core/src/segment_tree/lazy.rs:105-108 | its recursive part |
| LazySegmentTree.LazySegmentTree.QueryInner | crates/vo-core/src/segment_tree/lazy.rs:61-73 | refines the query on trees and changes no cell outside the subtree |
| LazySegmentTree.LazySegmentTree.QueryHalves | crates/vo-core/src/segment_tree/lazy.rs:69-72 | its recursive part |
| LazySegmentTree.LazySegmentTree.UpdatePointInner | crates/vo-core/src/segment_tree/lazy.rs:116-129 | refines the point update on trees and changes no cell outside the subtree |
| LazySegmentTree.LazySegmentTree.UpdateHalf | crates/vo-core/src/segment_tree/lazy.rs:122-128 | its recursive part |
| LazySegmentTree.LazySegmentTree.Query | crates/vo-core/src/segment_tree/lazy.rs:48-59 | for any functions the query on trees; for lawful ones the fold of the plain array's range, and the array is unchanged |
| LazySegmentTree.LazySegmentTree.UpdateRange | crates/vo-core/src/segment_tree/lazy.rs:75-81 | for any functions the range update on trees; for lawful ones the plain array with the update applied in the range |
| LazySegmentTree.LazySegmentTree.UpdatePoint | crates/vo-core/src/segment_tree/lazy.rs:111-114 | for any functions the point update on trees; for lawful ones the plain array with one element replaced |
| RedBlack.RotateLeftSame | crates/vo-core/src/red_black_tree/node.rs:58-69 | a rotation to the left keeps every entry, and leaves order if and only if there was order before it |
| RedBlack.RotateRightSame | crates/vo-core/src/red_black_tree/node.rs:70-81 | so does a rotation to the right |
| RedBlack.FixUpSame | crates/vo-core/src/red_black_tree/node.rs:45-57 | so does the repair after an insertion or removal |
| RedBlack.MoveRedLeftSame | crates/vo-core/src/red_black_tree/node.rs:91-101 | so does moving a red link left |
| RedBlack.MoveRedRightSame | crates/vo-core/src/red_black_tree/node.rs:102-110 | so does moving a red link right |
| RedBlack.InsExact | crates/vo-core/src/red_black_tree/tree.rs:46-63 | insertion into an ordered tree of any colours keeps order, sets the key's value and keeps every other entry |
| RedBlack.InsBalanced | crates/vo-core/src/red_black_tree/tree.rs:46-63 | insertion keeps the black height, and no red right child or red child of a red node, but for one below a red root |
| RedBlack.InsertedBalanced | crates/vo-core/src/red_black_tree/tree.rs:28-45 | with the root made black, nothing of it is left |
| RedBlack.BalancedHeight | crates/vo-core/src/red_black_tree/node.rs:45-57 | a balanced tree of black height n has at least 2^n - 1 entries and height at most 2n + 1 |
| RedBlack.BuiltExactly | crates/vo-core/src/red_black_tree/tree.rs:28-45 | any run of insertions builds an ordered, balanced tree holding the last value of every key |
| RedBlack.MinIsLeast | crates/vo-core/src/red_black_tree/node.rs:111-115 | the leftmost entry of an ordered tree is its least |
| RedBlack.DelMinExactly | crates/vo-core/src/red_black_tree/tree.rs:125-134 | on an ordered tree of any colours, `del_min` removes the least key and nothing else if and only if it drops no right child and rotates the least key nowhere |
| RedBlack.ReplacedExactly | crates/vo-core/src/red_black_tree/tree.rs:113-118 | replacing an entry by its successor loses nothing else if and only if the right child has a left child and the successor leaves cleanly |
| RedBlack.DelNothingNew | crates/vo-core/src/red_black_tree/tree.rs:93-124 | a removal adds no entry, on any tree |
| RedBlack.DelExactly | crates/vo-core/src/red_black_tree/tree.rs:93-124 | on every ordered tree of any colours, a removal returns an ordered tree with exactly the other entries if and only if none of the branches it takes is one of those that lose |
| RedBlack.CleanExactly | crates/vo-core/src/red_black_tree/tree.rs:93-124 | on the way down a balanced tree a removal never panics, and is clean if and only if the right child of the key's node is missing or has a left child; otherwise that child's key is lost with it |
| RedBlack.RemovesExactly | crates/vo-core/src/red_black_tree/tree.rs:78-92 | for every balanced tree, a removal removes the key and nothing else if and only if that holds |
| RedBlack.DelLeansLeft | crates/vo-core/src/red_black_tree/tree.rs:93-124 | whatever the tree, a removal leaves no red right child at the root |
| RedBlack.MinLeaves | crates/vo-core/src/red_black_tree/tree.rs:125-134 | below the root of a balanced tree `del_min` keeps the black height and leaves a root of the foretold colour, or exactly the foretold scar |
| RedBlack.DelLeaves | crates/vo-core/src/red_black_tree/tree.rs:93-124 | so does `del` when it loses nothing else, at every step of the way back up |
| RedBlack.FixUpKeepsScar | crates/vo-core/src/red_black_tree/node.rs:45-57 | a repair above never reaches a red node with a red right child under a black one |
| RedBlack.DelUneven | crates/vo-core/src/red_black_tree/tree.rs:113-118 | a removal that loses a second key leaves paths with different numbers of black nodes, unless the whole tree is lost |
| RedBlack.DelToggled | crates/vo-core/src/red_black_tree/tree.rs:93-124 | the colour of the root goes through a removal unread |
| RedBlack.BalanceExactly | crates/vo-core/src/red_black_tree/tree.rs:78-92 | a removal from a balanced tree leaves a balanced tree if and only if, when nothing else is lost, no plain left child comes back black beside a right child with a red left child, and otherwise the whole tree is lost |
| RedBlack.RemoveAfterInsertions | crates/vo-core/src/red_black_tree/tree.rs:78-92 | both exact conditions, on entries and on balance, for every tree built by insertions |
| RedBlack.RemoveLosesAll | crates/vo-core/src/red_black_tree/tree.rs:118 | of 1, 2 and 3, inserted in this order, removing 2 leaves none |
| RedBlack.RemoveBreaksColours | crates/vo-core/src/red_black_tree/node.rs:91-101 | a removal that loses nothing can leave a red right child |
| RedBlack.FindExactly | crates/vo-core/src/red_black_tree/tree.rs:64-73 | on an ordered tree the search finds the value of every key that is there and no other |
| RedBlack.InsSize | crates/vo-core/src/red_black_tree/tree.rs:28-45 | an insertion adds a node exactly when the search does not find the key |
| RedBlack.CleanSize | crates/vo-core/src/red_black_tree/tree.rs:78-92 | a clean removal takes away exactly one node |
| RedBlack.RedBlackTree.constructor | crates/vo-core/src/red_black_tree/tree.rs:18-20 | an empty tree |
| RedBlack.RedBlackTree.Get | crates/vo-core/src/red_black_tree/tree.rs:64-73 | the loop finds what the search finds; on an ordered tree, exactly the key's value |
| RedBlack.RedBlackTree.Insert | crates/vo-core/src/red_black_tree/tree.rs:28-45 | keeps order, balance and the length, and sets one entry |
| RedBlack.RedBlackTree.Remove | crates/vo-core/src/red_black_tree/tree.rs:78-92 | answers whether the key was there; removes it alone exactly under the two conditions above, and then keeps the length; a balanced tree stays balanced exactly under the condition of `BalanceExactly` |

## Left out

- Process, file, network, storage-engine and actor-runtime calls: only their success or failure enters, as an oracle.
- Whether the storage engine applies the operations of a batch in order and all or nothing: taken as what a commit is.
- Mailbox capacity, the shed threshold, metrics and logging of the mailbox actor: they do not touch what is committed or acknowledged.
- Parsing and printing of instance ids: an id comes with both of its forms, 26 characters and 16 bytes; unparsable ones make a message untranslatable.
- JSON bodies: opaque bytes.
- Overflow of plain counters (`total_committed`, `messages_received`, `batches_committed` and its product with the limit, `beads_created`, the probe counts): unbounded numbers.
- Memory ordering of the semaphore's atomics: steps interleave in one order; waiting acquires and closing are not modelled.
- Backoff.DelayBounds: over real numbers; floating-point rounding and the conversion to a duration are not modelled.
- Generation.FleetMetrics.GenerateBeads: scanning, the category of a bead and saving the metrics file are not modelled; the metrics are kept state.
- Generation.SortIsStable: the sort is modelled by its result, a stable insertion, not by the library's algorithm.
- ShellQuote.QuoteIsExact: expansions, operators and comments are not read; a quoted value never reaches them.
- LazySegmentTree.LazySegmentTree.FromSlice: the empty array, which the source refuses by assertion, is a precondition, as are ranges outside the array for the other operations.
- Shedding.NeverShedsExactly: thresholds up to 2^32; above that, whether sizes from a given set can add up to the threshold is a subset-sum question, answered only for the set of all sizes by `SheddingReachableExactly`.
- `quotas_for_pools` of the scheduler: it rests on a quota function that is not part of this model.
- `can_buffer` of the signal buffer: it ignores existing entries and is not what `buffer_signal` does.
- The message router, the control actor, the timer supervisor, the transition committer and command deduplication: thin layers over storage or simulated delivery.
- RedBlack.DelExactly: keys are integers; the source takes any ordered type. Iteration, ranges, the greatest key and clearing are not modelled.
- The plain segment tree: it is the lazy one without updates of ranges.
- The interval tree, the k-d tree and the quadtree of the core crate.
- Budgets, instance registry, routing tables, command line, HTTP and frontend: they would only add easy members.
