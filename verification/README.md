# tiny_ipc: a verified model of its shared-memory protocol

tiny_ipc passes messages between processes through shared memory. A sender copies a payload
into an arena of its own, puts a descriptor of it into a 256-slot ring, and receivers take the
descriptors out of the ring under a process-shared mutex, look at the payloads, count them down,
and give a ring slot back when they find a count at zero. This project models that protocol and
the machinery around it (locks, slot allocation, reference-counted shared memory) and proves what
they keep in every run.

`dafny verify dfyconfig.toml` checks everything.

## How the model is laid out

| files | what they hold |
|---|---|
| `Words` | 32-bit counters, 8-bit slot indices, the full and the empty test |
| `Protocol`, `ProtocolInv`, `ProtocolSteps` | one sender and any number of receivers as a step system, one atomic operation a step; its inductive invariant; every step keeps it |
| `ProtocolTheorems`, `ProtocolProgress`, `ProtocolJam`, `ProtocolLimits` | what holds in every run: delivery, bounds, release, conservation; that receivers can always catch up; exactly when the ring takes further messages; exactly which counts deliver, are safe, let drains finish and give slots back |
| `ProtocolWait` | when a call of `wait_for` drains, and when its drain ends |
| `ProtocolRounds`, `ProtocolUnlocked` | runs that push and drain in turn, runs with more receivers than take part, and what two drains do that are not kept apart |
| `PoolInArena` | the ring and the arena together: the payloads of the step system are what the arena's bytes hold |
| `Sets` | sizes of finite sets |
| `Payloads`, `Fragment` | the payload arena on values, with runs of writes, reads and handle counts; the two fragments as classes that update memory in place and refine it |
| `Handover`, `Ring`, `Ipc` | reading a batch of descriptors, on values; the segment and the queue as classes; the drain loop and `write` |
| `RwLock` | the reader-writer spin lock over N threads |
| `Connection`, `Allocation`, `Composition` | the slot table as a class; concurrent connects under the spin lock; which receiver counts the table yields and whether the ring is safe with them |
| `Resource` | `align_size` on machine words |
| `HandleModel`, `HandleRuns`, `HandleAnswers`, `SharedHandle` | shared-memory handles on values, any run of them, what their operations answer and leave, and as classes over a modelled name table |
| `RobustMutex` | the mutex wrapper and the waiter's condition wait over a POSIX robust mutex with owners that die |
| `MutexCalls` | what each call on that mutex comes to when nobody interferes, whatever state it is in |
| `WaitDrains` | when the drains that `wait_for` runs exclude each other |

Concurrent code is modelled as a step system: a state, one action per atomic operation, and
theorems about every state that some interleaving reaches. Code that updates its own state
without interference is modelled as classes, whose methods are proved against functions on
values; the theorems are then about those functions.

The history of a run is part of the protocol's state (`hist`, `releases`, and each receiver's
`taken` and `done`). The unwrapped read counter is `|releases|`, the unwrapped write counter is
`|hist|`; the words `r` and `w` wrap at 2^32 from an arbitrary start.

Hypotheses that run through the protocol's theorems: all receivers are attached before the first
message, when the two counters are equal; the locks in `wait_for` succeed (receivers may die at any
point, and a mutex they held is then free for the next); a message's count is zero or at least the number of
receivers (`Fits`). `ProtocolLimits.SafeIffCountFits` shows that the second one is needed, and
`Composition` shows when the connection table's own count meets it. That a new payload's
descriptor is never one already in use, which the step system takes as the guard of its write
step, is what `PoolInArena.HandedOutFresh` proves of the arena.

## Where the code and its intent differ

- `recv_count()` of a broadcast table (`src/core/Connection.hpp:131-135`) shifts the receivers'
  half out of the bitset instead of the senders' half. It is the number of connected senders, plus
  one if there is any receiver (`Allocation.BroadcastReceiverCount`). With more receivers than
  senders plus one, a slot is given back under a receiver; with no more receivers than senders, no
  slot is ever given back, and the ring takes 255 messages in all. For runs in which one of the
  senders pushes, it works with exactly one receiver more than senders
  (`Composition.BroadcastWorksIff`).
- A unicast `connect` that finds every sender slot taken writes at index zero less one, which in
  32 bits lies far behind the table (`src/core/Connection.hpp:48,66`). Some interleaving gets there exactly when there are at
  least as many senders as the table has slots (`Allocation.UnicastStuckIff`).
- A read that fails never counts its payload down, and a receiver that has died never will. The
  message is doomed from then on, whether or not the other receivers have read it, and so is one
  whose count is not the number of receivers. The ring takes further messages exactly as long as
  fewer than 255 are doomed (`ProtocolJam.PushableIff`, `ProtocolJam.JamReached`,
  `ProtocolJam.DeathJams`).
- A condition wait that gets the mutex back from an owner that died just returns
  (`src/sync/Condition.cpp:91-99`), and the guard in `wait_for` unlocks a mutex that nobody has
  declared consistent. That, and only that, makes the mutex unusable for ever
  (`RobustMutex.RuinsIff`, `WaitDrains.CanBeRuinedIff`).
- `wait_for` does not look at the result of its lock (`src/sync/Waiter.h:37-44`). With an unusable
  mutex a call with a timeout does not drain at all, and one without drains unprotected: two drain
  at once in some run exactly when there are three threads or more (`WaitDrains.TwoDrainIff`,
  `WaitDrains.TimedNeverDrains`), and then one message can give its slot back twice
  (`ProtocolUnlocked.UnlockedReleaseTwice`).
- With a count below the number of receivers a receiver that lags 256 messages behind takes the ring
  for empty in `pop`'s own test, and its drain ends early (`ProtocolLimits.SmallCountEndsEarly`).
- A `get` that is repeated after a failed mapping rounds the size it tried once more, and maps a
  counter's width more than other handles do (`HandleAnswers.SecondGetGrows`).
- An acquire that creates its name and then cannot map the object leaves the name linked with no
  handle to unlink it (`HandleRuns.LeaksIff`, `HandleRuns.LeakHappens`).
- `Ipc::write` calls `connect()` without a mode (`src/Ipc.cpp:262`), which connects a sender that
  is not yet connected as a receiver. `Ipc.Write` does the same.
- The arena is never reused: recycling only forgets blocks, since the pool ignores deallocation
  (section 23.12.6 of ISO/IEC 14882:2017). `Payloads.FailsIffFull` says when it is exhausted.
- The size a creating handle maps wraps for requests above 2^64 - 8
  (`HandleModel.MappedSizeRoom`), and `align_size` wraps to zero (`Resource.AlignSizeCovers`).
- The reader count of the reader-writer lock carries into the writer's flag once 2^31 threads read
  at a time (`RwLock.FlagMeansOwnerIff`).

## Model

| member | source | states |
|---|---|---|
| `ProtocolTheorems.DeliversHistory` | src/Ipc.cpp:346-362 | In every interleaving, what a receiver copied out is exactly the history from where it started to its cursor, in order, none lost, repeated or overwritten, and each successful read showed the bytes that were sent |
| `ProtocolTheorems.CountersBracketCursors` | src/core/Content.hpp:104-130 | Unwrapped, read counter <= every cursor <= write counter <= read counter + 255, and the three words are their images modulo 2^32, even when reads fail |
| `ProtocolTheorems.NoSlotRace` | src/core/Content.hpp:112-124 | The sender is never about to store into the slot a receiver is about to copy |
| `ProtocolTheorems.DrainsExclude` | src/sync/Waiter.h:35-45 | As long as the locks in wait_for succeed, at most one receiver is inside its drain, even if receivers die in it |
| `ProtocolTheorems.DrainTests` | src/Queue.hpp:157-160 | Under interference the loop test is true exactly when the cursor has reached the write counter, and pop's own 8-bit test right after it never reports empty |
| `ProtocolTheorems.OnlyTheMutexBlocks` | src/sync/Waiter.h:35-45 | The next step of a receiver that is alive is possible if and only if it holds the mutex or nobody does: the payload and the slot it needs always exist |
| `ProtocolWait.DrainBounds` | src/sync/Waiter.h:35-45 | In every interleaving a drain begins exactly where a call without a timeout has the lock or a wait was woken in time; it goes on, whether its reads succeed or fail, until the cursor has caught up with the history, and nothing else ends it; the mutex is held throughout a call but for the wait |
| `ProtocolWait.CallDrainsIff` | src/sync/Waiter.h:35-45 | A call that finds the mutex free comes to drain if and only if it has no timeout or was woken in time |
| `ProtocolWait.TimedOutReturns` | src/sync/Waiter.h:38-42 | A wait that is not woken in time gives the mutex back and leaves everything as it was: nothing is drained |
| `ProtocolWait.NeverWokenTakesNothing` | src/sync/Waiter.h:38-42 | A receiver whose calls all have a timeout and are never woken takes nothing in any run, whatever the others do |
| `ProtocolTheorems.ReleasedAtMostOnce` | src/core/Fragment.hpp:216-217 | As long as the locks in wait_for succeed, the number of times a message gave its slot back is one if its count was the number of receivers, all have read it and none is between decrement and decision or has died there with the release left to it, and zero otherwise, although decrement and test are separate operations |
| `ProtocolTheorems.ZeroCountMeansRead` | src/core/Fragment.hpp:216-217 | A pushed payload's count is zero exactly when it started from the number of receivers and all have read it, or started from zero and nobody has; with a count of n it is n less the number that have read it |
| `ProtocolTheorems.CompletedPrefix` | src/core/Content.hpp:118-130 | When every count is the number of receivers and no read failed, completed messages form a prefix of the history |
| `ProtocolTheorems.ReadCounterIsLeastDone` | src/core/Content.hpp:125-128 | Under the same hypotheses the read counter equals the least number of messages that a receiver has finished, in the middle of drains too, whenever nobody is between a decrement and the decision after it |
| `ProtocolTheorems.ReadCounterIsLeastCursor` | src/core/Content.hpp:125-128 | Under the same hypotheses, with all receivers alive, it equals the smallest cursor whenever no drain is under way |
| `ProtocolTheorems.SlotsConserved` | src/core/Content.hpp:104-130 | Outstanding slots = messages somebody has yet to finish + messages finished but never to be released + messages whose release is pending + messages that a dead receiver was to release |
| `ProtocolTheorems.RefusedIffFull` | src/core/Content.hpp:107-111 | The full test, in any interleaving, refuses exactly when that sum is 255 |
| `ProtocolTheorems.PushAlone` | src/core/Content.hpp:104-115 | An uninterrupted push is refused and changes nothing exactly when 255 slots are outstanding; otherwise it stores the descriptor, advances the counter and extends the history, and changes nothing else |
| `ProtocolTheorems.OneAtATime` | src/Ipc.cpp:271-279 | In every interleaving a message that is stored is pushed, or refused when 255 slots are outstanding, before the next is stored |
| `ProtocolInv.ReleasedBelow` | src/core/Content.hpp:125-128 | No receiver has finished fewer messages than have been released; the proof counts released messages and does not assume that they form a prefix |
| `ProtocolSteps.StepKeepsInv` | src/core/Content.hpp:104-130 | Every atomic step of the sender or of a receiver, and every death of a receiver, keeps the invariant |
| `ProtocolSteps.RunKeepsInv` | src/core/Content.hpp:104-130 | So does every run |
| `ProtocolSteps.CountZero` | src/core/Fragment.hpp:216-217 | A payload's word is zero, after any number of decrements, only if it started from the number of receivers and all have read it, or started from zero and none has |
| `ProtocolSteps.FirstRelease` | src/core/Content.hpp:125-128 | A receiver that is about to advance the read counter is not repeating an advance made for that message |
| `ProtocolSteps.SlotIntact` | src/core/Content.hpp:124 | The slot a receiver is about to copy still holds the message at its cursor |
| `ProtocolSteps.RefusedWhenFull` | src/core/Content.hpp:107-111 | The sender's test on the slot it loaded earlier and the read counter it loads now decides whether 255 are outstanding |
| `ProtocolProgress.CanCatchUp` | src/Ipc.cpp:346-362 | From every reachable state, steps of receivers alone, with no read failing, can bring all receivers that are alive to the end of the history together and leave the mutex free; the sender and the reads that failed before are as they were |
| `ProtocolProgress.HolderAdvances` | src/Ipc.cpp:346-362 | Each step of the receiver in the drain is possible, whether its reads succeed or fail, and lowers a measure of the work left |
| `ProtocolJam.LostStaysLost` | src/core/Fragment.hpp:204-208 | A message that all have finished with and that was not released stays finished and doomed |
| `ProtocolJam.DoomedStays` | src/core/Fragment.hpp:204-208 | A message whose count is not the number of receivers, that some receiver failed to read, or on which one died, is doomed: no step changes that |
| `ProtocolJam.PushableIff` | src/core/Content.hpp:107-129 | From any reachable state some continuation pushes another message if and only if fewer than 255 messages are doomed |
| `ProtocolJam.JamReached` | src/core/Fragment.hpp:204-208 | For any number of receivers there is a run that jams the ring for good although every message was for all of them and nobody dies: one receiver fails to open 255 payloads, and the others have read nothing |
| `ProtocolJam.DeathJams` | src/core/Content.hpp:107-129 | For any number of receivers there is a run that jams it although every message was for all of them and no read failed: one receiver dies before it reads anything |
| `ProtocolJam.DeathLimitsHistory` | src/core/Content.hpp:107-129 | Once a receiver has died, at most 255 messages are ever pushed beyond those it had finished with |
| `ProtocolJam.DeathFrees` | src/sync/Mutex.cpp:97-109 | A receiver that is alive may die anywhere; the mutex is then free if it was its own, and nothing else changes for the others |
| `ProtocolJam.OrphanHappens` | src/core/Fragment.hpp:216-217 | For any number of receivers some run leaves a message that all have read and whose slot nobody will give back, because a receiver died just before it would have |
| `ProtocolJam.OrphanStays` | src/core/Fragment.hpp:216-217 | The slot of a message that a dead receiver was to release is never given back, in any continuation |
| `ProtocolJam.JammedForEver` | src/core/Content.hpp:107-111 | Once 255 messages are doomed, no continuation pushes anything |
| `ProtocolLimits.SmallCountOvertakes` | src/core/Fragment.hpp:216-217 | For every count c and number of receivers n with 0 < c < n there is a run that gives a slot back under a receiver that has not passed it |
| `ProtocolLimits.SafeIffCountFits` | src/core/Content.hpp:118-130 | With one count for all messages, no run gives a slot back under a receiver if and only if the count is zero or at least the number of receivers |
| `ProtocolLimits.SmallCountMisdelivers` | src/core/Content.hpp:112-124 | For every 0 < c < n there is a run in which a slot is used again under a receiver, which then copies out the 257th message in place of the first |
| `ProtocolLimits.DeliversIffCountFits` | src/core/Content.hpp:104-130 | With one count for all messages, every run delivers the history in order to every receiver if and only if the count is zero or at least the number of receivers |
| `ProtocolLimits.SmallCountEndsEarly` | src/core/Content.hpp:120-123 | For every 0 < c < n there is a run in which pop's own 8-bit test ends a receiver's drain with 256 messages outstanding |
| `ProtocolLimits.DrainsFullyIffCountFits` | src/Ipc.cpp:346-362 | With one count for all messages, no run lets pop's test end a drain after the loop test found something to drain if and only if the count is zero or at least the number of receivers |
| `ProtocolLimits.NeverReleasesIff` | src/core/Content.hpp:125-128 | With one count for all messages, no run ever gives a slot back if and only if the count is zero or more than the number of receivers |
| `ProtocolLimits.AtMostOneFilling` | src/core/Content.hpp:107-111 | A ring whose slots are never given back takes at most 255 messages in any run |
| `ProtocolLimits.WorksIff` | src/core/Content.hpp:118-130 | Slots are given back, and never under a receiver, if and only if the count is the number of receivers and that is not zero |
| `ProtocolRounds.Rounds` | src/Ipc.cpp:346-362 | For any number of receivers and of messages there is a run that pushes the messages and has all receivers read them, one after the other |
| `ProtocolRounds.LiftRuns` | src/core/Content.hpp:117-130 | Every run is a run with more receivers too, of which the others do nothing |
| `ProtocolUnlocked.UnlockedReleaseTwice` | src/core/Fragment.hpp:216-217 | From a reachable state, the steps of two drains that are not kept apart give the slot of one message back twice, so that the read counter overtakes the write counter |
| `Words.FullTestMeans` | src/core/Content.hpp:50-54 | For counters that have wrapped any number of times the 8-bit full test holds exactly when w - r is 255 |
| `Words.EmptyTestMeans` | src/core/Content.hpp:63-66 | The 8-bit empty test and the 32-bit one agree, and hold exactly when cursor and writer are level |
| `Words.SameSlot` | src/core/Segment.hpp:39 | Positions less than 256 apart share a slot only if they are equal |
| `Ring.WindowMoves` | src/core/Content.hpp:112-113 | Storing the next descriptor keeps the last 255 in their slots |
| `Ring.Segment.Push` | src/core/Segment.hpp:26-30 | Fails exactly when 255 are outstanding; otherwise appends to what was pushed |
| `Ring.Segment.Free` | src/core/Content.hpp:125-128 | The read counter moves on by one |
| `Ring.Queue.Connect` | src/Queue.hpp:30-46 | The first successful connect takes the least free slot and starts the cursor at the read counter; a connected queue and its table are left alone; a write outside the table happens exactly for a unicast sender that found nothing |
| `Ring.Queue.Empty` | src/Queue.hpp:157-160 | Empty exactly when nothing is outstanding |
| `Ring.Queue.Take` | src/core/Content.hpp:124 | Yields the oldest outstanding descriptor and moves the cursor past it |
| `Ring.Queue.Pop` | src/Queue.hpp:175-186 | False exactly when nothing is outstanding; otherwise the oldest descriptor, and only that, is read once, its object is kept among the handles, and a slot is given back exactly when the payload's count became zero; the read goes astray exactly when the descriptor does not lie within its object |
| `Handover.HandsOverPayloads` | src/Ipc.cpp:346-362 | A batch of descriptors of disjoint blocks shows the callback every payload as it was before the first read, in order, and finds as many zeros as there were counts of one |
| `Handover.HandOverCounts` | src/core/Fragment.hpp:216 | Each block of the batch has been counted down exactly once |
| `Handover.HandOverLeaves` | src/core/Fragment.hpp:202-218 | No byte of a block apart from the batch changes |
| `Ipc.Drain` | src/Ipc.cpp:346-362 | Without interference the loop makes exactly as many rounds as there are outstanding descriptors, hands over each in order, ends empty and never takes the early return, holds handles of exactly those objects more that the descriptors name and that can be opened, with the effect on memory, callback and released slots of reading them one after the other if they lie within their objects |
| `Ipc.Next` | src/Ipc.cpp:351-360 | One pop hands over the oldest descriptor, keeps a handle of its object if there is one, with exactly the effect of one read on the ring, on the memory, on the callback and on the released slots if it lies within its object |
| `Ipc.Write` | src/Ipc.cpp:250-288 | Nothing is stored without data, connection or connections; otherwise the payload is written with the table's count, and its descriptor is the one pushed, exactly if the ring had room; the callback is told of completion exactly if the message was pushed, of an invalid push exactly if 255 slots were outstanding, of a missing connection or of missing data exactly in those cases; an absent one is called through exactly after a push whose notification failed |
| `Ipc.Prepare` | src/Ipc.cpp:261-263 | True exactly when the queue ends up connected and the table has connections; an unconnected queue takes a receiver's least free slot |
| `Ipc.StoreAndPush` | src/Ipc.cpp:271-279 | A message that a full ring refuses has still taken its place in the arena |
| `Payloads.PayloadRoundTrip` | src/core/Fragment.hpp:113-146 | After any later writes, reads and handle counts, the bytes a descriptor shows begin with the bytes written, and are longer by less than the alignment |
| `Payloads.BlocksApart` | src/core/Fragment.hpp:107-124 | In every run blocks are aligned, pairwise disjoint and clear of the handle's counter at the end of the object |
| `Payloads.TrailerClear` | src/core/Fragment.hpp:107-108 | The pool, though given the counter's bytes too, has never handed them out |
| `Payloads.FailsIffFull` | src/core/Fragment.hpp:117-130 | A write fails exactly when its aligned block does not fit in front of the handle's counter |
| `Payloads.UsedUp` | src/core/Fragment.hpp:113-130 | In every run the blocks lie one behind the other without a gap, and a write fails exactly when the sizes of all blocks so far and its own exceed what is in front of the handle's counter: nothing forgotten is used again |
| `Payloads.FreshKey` | src/core/Fragment.hpp:136-138 | The insert never meets an existing key, nor any offset handed out before |
| `Payloads.WriteCounts` | src/core/Fragment.hpp:132-133 | A write sets its own block's count and no other |
| `Payloads.ReadCounts` | src/core/Fragment.hpp:216 | A read lowers the count of its own block by one, modulo 2^32, and no other |
| `Payloads.HandleCounts` | src/Handle.cpp:22-25 | A handle that counts itself changes no payload's count |
| `Payloads.CountAfterWrite` | src/core/Fragment.hpp:132-133 | In every run a block stands at its first count less the reads since |
| `Payloads.ForgottenWhenRead` | src/core/Fragment.hpp:149-168 | In every run a block leaves the sender's table only after it has been read as often as its count said, and then does at the next recycling |
| `Payloads.WriteForgets` | src/core/Fragment.hpp:113-146 | A write, whether it succeeds or not, leaves in the table just the blocks that were there with a count that is not zero, and the new one |
| `Payloads.ForgottenByNextWrite` | src/core/Fragment.hpp:113-168 | In every run the next write forgets a block if and only if it has been read as often as its count said |
| `PoolInArena.ArenaHoldsMessages` | src/core/Fragment.hpp:132-143 | In every run of the ring with its arena, whatever handles on it come and go, each pushed message lies where its descriptor says: its bytes, and a count of what it started from less one for each receiver that has read it |
| `PoolInArena.ForgottenIffReadByAll` | src/core/Fragment.hpp:149-168 | In every such run a message for all the receivers leaves the sender's table only after every one of them has read it, and the next recycling drops it if and only if they have |
| `PoolInArena.ForgottenByNextWrite` | src/core/Fragment.hpp:113-168 | In every such run the next write forgets a message for all the receivers if and only if every one of them has read it |
| `PoolInArena.HandedOutFresh` | src/core/Fragment.hpp:117-124 | In every such run the arena never hands out the place of a payload already written, so that the guard of the step system's write step always holds |
| `Payloads.WriteKeepsOk` | src/core/Fragment.hpp:113-146 | A write, successful or not, keeps the arena well formed and every earlier payload intact |
| `Payloads.HappensKeepsOk` | src/core/Fragment.hpp:113-146 | So does every run of writes, reads and handle counts, and no block moves |
| `Payloads.PoolSizeIsAlignSize` | src/core/Fragment.hpp:117 | The masking in align_size is rounding up to the alignment, for every payload that fits the address space |
| `Fragment.Sender.constructor` | src/core/Fragment.hpp:89-111 | The object that a handle maps for any capacity that is a multiple of the alignment makes a well-formed arena |
| `Fragment.Sender.RecycleMemory` | src/core/Fragment.hpp:149-168 | In whatever order the table is visited, the loop ends with exactly the blocks whose count is not zero |
| `Fragment.Sender.Write` | src/core/Fragment.hpp:113-146 | The in-place write has the effect and the result of the write on values, and keeps the arena well formed |
| `Fragment.Receiver.Read` | src/core/Fragment.hpp:202-218 | What is shown, the memory after it and the result are those of the read on values; an object that cannot be opened, or the lack of a callback, leaves memory as it was; the object found is among the handles afterwards, with a callback or without, and no other handle changes; the read goes astray exactly when the descriptor does not lie within the object it found |
| `RwLock.WriterIsAlone` | src/sync/RwLock.h:132-178 | In every interleaving of fewer than 2^31 threads a writer inside is alone inside |
| `RwLock.WordMeaning` | src/sync/RwLock.h:118-122 | The word is the flag if somebody owns or waits out readers, plus the number of readers inside; at most one owns |
| `RwLock.ReadersOnlyLeave` | src/sync/RwLock.h:143-147 | With the flag set, no step but the writer's unlock lets a reader in, and each leaving reader lowers the count the writer waits on |
| `RwLock.LockSteps` | src/sync/RwLock.h:132-148 | A writer's first operation leaves the flag set; it gets the lock exactly if nobody is inside or owns it, waits exactly if there are readers but no owner, and repeats exactly while somebody owns it; the wait ends exactly when the last reader is gone |
| `RwLock.LockSharedSteps` | src/sync/RwLock.h:158-173 | A reader gets in exactly if nobody owns the lock and as many readers are inside as when it last looked, unless the weak exchange fails by itself; otherwise it has looked again and nothing else changes |
| `RwLock.UnlockSteps` | src/sync/RwLock.h:150-178 | The writer's unlock leaves the lock free; a reader's takes out that reader alone |
| `RwLock.CallsAlone` | src/sync/RwLock.h:132-173 | While nobody owns the lock, an uninterrupted lock has it after one operation if nobody is inside and otherwise keeps others out, and an uninterrupted lock_shared is inside after two |
| `RwLock.NobodyComesIn` | src/sync/RwLock.h:132-153 | In every run, from the moment a writer waits for the readers or has the lock until its unlock, no reader begins and nobody else owns |
| `RwLock.NoDeadlock` | src/sync/RwLock.h:132-178 | From every reachable state some schedule brings every thread out and leaves the lock free |
| `RwLock.FlagMeansOwnerIff` | src/sync/RwLock.h:118-122 | The flag means an owner in every run if and only if there are fewer than 2^31 threads |
| `RwLock.StepKeepsInv` | src/sync/RwLock.h:132-178 | Every atomic operation keeps the word's meaning |
| `Connection.FirstFree` | src/core/Connection.hpp:116-123 | Zero exactly when the range is taken, otherwise its least free slot |
| `Connection.Table.Search` | src/core/Connection.hpp:116-123 | The loop finds that slot |
| `Connection.Table.Connect` | src/core/Connection.hpp:42-68 | Takes the least free slot of the request's range and sets that bit only; a full range gives zero and changes no bit; a bit outside the table is written exactly when a unicast sender finds every slot taken |
| `Connection.Table.Connections` | src/core/Connection.hpp:77-81 | The number of slots taken |
| `Connection.Table.RecvCount` | src/core/Connection.hpp:131-135 | Of a unicast table, one exactly if the receivers' slot is taken; of a broadcast table, the number of slots taken among the lower half, whatever the shift does to the rest |
| `Allocation.LockExcludes` | src/sync/RwLock.h:98-109 | The exchange loop keeps two threads from being between lock and unlock |
| `Allocation.SpinLockSteps` | src/sync/RwLock.h:98-109 | A thread gets past the exchange exactly if nobody is inside, and changes nothing while somebody is; the store leaves nobody inside and keeps what was decided |
| `Allocation.GrantsDistinct` | src/core/Connection.hpp:109-129 | Ids granted concurrently are distinct, and those of senders lie below those of receivers |
| `Allocation.GrantsLeastFree` | src/core/Connection.hpp:109-129 | The step that decides a request gives the least free slot, and zero exactly if its range is full |
| `Allocation.RefusedStaysFull` | src/core/Connection.hpp:109-129 | A thread that was refused still finds its range full |
| `Allocation.RefusedIfNoRoom` | src/core/Connection.hpp:42-129 | A unicast table has room for one receiver and otherwise for senders, a broadcast table for half receivers and one sender fewer; no more ever connect, and only where so many have is a request refused |
| `Allocation.ConnectedWhenDone` | src/core/Connection.hpp:42-129 | When all have finished, as many are connected as asked to be, up to that room |
| `Allocation.ConnectionsCounted` | src/core/Connection.hpp:77-81 | connections() equals the number of threads that hold a slot |
| `Allocation.UnicastSenderFindsSlot` | src/core/Connection.hpp:57-66 | With fewer senders than slots a unicast sender always finds one |
| `Allocation.UnicastStuckIff` | src/core/Connection.hpp:57-66 | For every even table size from four on, some interleaving makes a unicast sender search in vain, and write outside the table, if and only if there are at least as many senders as slots |
| `Allocation.AllCanFinish` | src/sync/RwLock.h:98-109 | From every reachable state of a broadcast table, or of a unicast table with fewer senders than slots, some schedule finishes every connect: the spin lock never shuts everybody out |
| `Allocation.UnicastReceiverCount` | src/core/Connection.hpp:83-87 | recv_count() of a unicast table is the number of receivers |
| `Allocation.BroadcastReceiverCount` | src/core/Connection.hpp:131-135 | recv_count() of a broadcast table is the number of senders, plus one if there is any receiver |
| `Composition.BroadcastSafeIff` | src/Ipc.cpp:271 | With the count write takes from a broadcast table, no slot is given back under a receiver, in any run, if and only if receivers <= senders + 1 |
| `Composition.BroadcastWorksIff` | src/Ipc.cpp:271 | With that count no slot is ever given back, in any run, if and only if receivers <= senders; the ring gives slots back and does so safely if and only if receivers == senders + 1 |
| `Composition.UnicastSafe` | src/Ipc.cpp:271 | With the count it takes from a unicast table, no slot is given back under a receiver, and some run gives one back if and only if there is a receiver |
| `Resource.AlignSizeRoundsUp` | src/Resource.hpp:65-68 | For any width and power of two, align_size is the least multiple at or above the size unless the sum wraps |
| `Resource.AlignSizeCovers` | src/Resource.hpp:65-68 | The result covers the size if and only if the sum does not wrap; otherwise it is zero |
| `HandleModel.MappedSizeRoom` | src/Handle.cpp:205-209 | A creating handle's size has room for the request before the counter if and only if the request is at most 2^64 - 8, and is then accepted by an opener, with an aligned counter |
| `HandleModel.OpenAcceptsIff` | src/Handle.cpp:192-204 | An opener accepts a size if and only if some request makes a creator map it |
| `HandleModel.ArenaFits` | src/Handle.cpp:207-209 | A capacity that is a multiple of the alignment is mapped with nothing but the counter behind it |
| `HandleRuns.EventKeepsInv` | src/Handle.cpp:114-226 | Every acquire, release, move and creation of a handle, however far its system calls succeed, keeps the invariant |
| `HandleRuns.CounterIsMappings` | src/Handle.cpp:154-179 | In every run the counter of a mapped object is the number of handles that map it, and all of them find it at the same offset |
| `HandleRuns.UnlinkedByLast` | src/Handle.cpp:160-167 | A release leaves the name linked exactly if another handle maps the object |
| `HandleRuns.CreatesZeroed` | src/Handle.cpp:114-151 | An acquire, by whatever handle, under a name that is not linked once the handle has released what it held, maps an object nobody has seen, with room for the request, zero but for a counter of one |
| `HandleRuns.LeaksIff` | src/Handle.cpp:114-151 | From a state in which every linked name has a handle that maps it, an event leads to one without if and only if it is an acquire that creates its name and then fails to set the size or to map |
| `HandleRuns.LinkedThroughoutIff` | src/Handle.cpp:114-179 | Throughout a run every name is linked exactly as long as some handle maps its object, if and only if no acquire of the run creates a name and then fails |
| `HandleRuns.LeakHappens` | src/Handle.cpp:141-151 | A run of two events that leaves a name linked with no handle to unlink it |
| `HandleRuns.MoveMapping` | src/Handle.cpp:48-61 | A move changes who maps an object, not how many do |
| `HandleAnswers.AcquireRefusedIff` | src/Handle.cpp:114-145 | After its own release an acquire does nothing more, closes the handle and answers false if and only if the name is empty, the open fails, an exclusive creation finds the name linked, or a plain open does not |
| `HandleAnswers.AcquireSucceedsIff` | src/Handle.cpp:114-151 | It answers true if and only if it is not refused so and the object can be mapped: at its own size, if that is acceptable and none was requested, or else at the size requested |
| `HandleAnswers.AcquireAnswers` | src/Handle.cpp:141-151 | The answer is true exactly if the handle maps something, which is the object that the name is linked to; otherwise it still has that object open |
| `HandleAnswers.JoinsObject` | src/Handle.cpp:114-226 | In every run, acquiring a name whose object somebody has sized, in whatever mode and however far it gets, maps that object or none, and changes no byte of any object but the counter |
| `HandleAnswers.ReleaseAnswers` | src/Handle.cpp:154-179 | In every run a release answers the number of handles that mapped the object, or -1 if this one mapped nothing, and changes no byte but the counter; a second one changes nothing and answers -1 |
| `HandleAnswers.GetIsIdle` | src/Handle.cpp:181-191 | In every run a get of a handle that maps something answers true, one of a closed handle false, and neither changes anything |
| `HandleAnswers.MoveThenRelease` | src/Handle.cpp:48-61 | In every run a handle that was moved from has nothing left to release, and releasing the new one does what releasing the old one would have done |
| `HandleAnswers.SecondGetGrows` | src/Handle.cpp:205-215 | A get that is repeated after a failed mapping maps four bytes more than a handle that succeeded at once |
| `SharedHandle.Handle.Move` | src/Handle.cpp:48-61 | The new handle has everything the old one had, and the old one is closed |
| `SharedHandle.Handle.Release` | src/Handle.cpp:154-179 | Handle, name table, objects and result are those of the release on values |
| `SharedHandle.Handle.Get` | src/Handle.cpp:181-226 | Likewise for get, wherever it gives up |
| `SharedHandle.Handle.Acquire` | src/Handle.cpp:114-152 | Likewise for acquire, in each mode |
| `RobustMutex.ResultTellsOwnership` | src/sync/Mutex.cpp:81-147 | With owners dying at any point, in waits or outside, true goes only to the one owner of a consistent mutex; who got false or an exception does not own it |
| `RobustMutex.NeverRuined` | src/sync/Mutex.cpp:97-109 | In runs without condition waits the mutex never becomes unrecoverable |
| `RobustMutex.WakeAbandonsIff` | src/sync/Condition.cpp:91-99 | A wait ends owning an inconsistent mutex exactly when it takes it from a dead owner |
| `RobustMutex.RuinsIff` | src/sync/Waiter.h:37-42 | The one kind of step that makes the mutex unrecoverable is the unlock by the guard of such a waiter |
| `RobustMutex.RuinedIff` | src/sync/Waiter.h:37-42 | A run ends with an unrecoverable mutex if and only if it contains such a step |
| `WaitDrains.CanBeRuinedIff` | src/sync/Waiter.h:37-42 | Some run, with faults of system calls or without, makes the mutex unrecoverable if and only if there are at least two threads |
| `RobustMutex.RuinedForEver` | src/sync/Mutex.cpp:111-112 | After that, nobody ever owns it again |
| `RobustMutex.RecoverySucceeds` | src/sync/Mutex.cpp:97-109 | The consistency call and the unlock in the recovery of lock and try_lock never fail |
| `RobustMutex.RetriesPaidByDeaths` | src/sync/Mutex.cpp:85-114 | In every run the repetitions of the loop and the waits that find a dead owner are together at most as many as the deaths of owners |
| `RobustMutex.Mutex.Lock` | src/sync/Mutex.cpp:81-115 | A blank mutex is refused. Otherwise, however the other threads leave the mutex before each call: the loop repeats on dead owners only, the result is true exactly if the last call found the mutex free and usable, and then the caller owns it consistent; if not it is as that call found it |
| `RobustMutex.Mutex.TryLock` | src/sync/Mutex.cpp:117-147 | A blank mutex is refused. Otherwise true exactly if the mutex is free and usable, and then owned; false exactly if a live owner has it; otherwise it throws, leaving a dead owner's mutex free and consistent |
| `RobustMutex.Mutex.Unlock` | src/sync/Mutex.cpp:149-159 | True exactly for the owner of a mutex that is not blank; the mutex is then free, and unusable for ever if it was never declared consistent |
| `MutexCalls.OneKind` | src/sync/Mutex.cpp:81-115 | In every reachable state the mutex is either usable, a live owner's, a dead owner's or beyond recovery, and only one of these |
| `MutexCalls.LockAlone` | src/sync/Mutex.cpp:81-147 | In every reachable state, without interference: lock gets a usable mutex and a dead owner's, which it has put in order; try_lock gets a usable one, and throws on a dead owner's, which it leaves usable; a live owner's is waited for by a lock with patience and otherwise refused, one beyond recovery is refused or makes try_lock throw |
| `MutexCalls.LockFaults` | src/sync/Mutex.cpp:111-112 | A system call that fails of itself makes lock answer false and try_lock throw, and leaves the mutex as it was |
| `MutexCalls.WaitAlone` | src/sync/Waiter.h:35-45 | A wait_for that has its lock, with a timeout or without, drains and leaves the mutex usable |
| `MutexCalls.WaitForSteps` | src/sync/Waiter.h:35-45 | A wait_for without a timeout can only drain, whether it has the lock or not; one with a timeout can only wait or leave if it has the lock, and drains only after a wait that got the mutex back usable |
| `MutexCalls.WakeOutcome` | src/sync/Condition.cpp:74-104 | A wait can end exactly where the mutex is not a live owner's: with the mutex and a drain if it was usable, with nothing but the unlock if a dead owner left it, and with nothing if it is beyond recovery |
| `MutexCalls.UnlockOutcome` | src/sync/Mutex.cpp:149-159 | An unlock by the owner leaves the mutex usable unless it was a dead owner's that nobody put in order; by anybody else it changes nothing |
| `MutexCalls.RefusedReturns` | src/sync/Waiter.h:35-45 | A refused call, and a try_lock that threw, returns without touching the mutex; a refused wait_for without a timeout drains first |
| `MutexCalls.TimedOutReturns` | src/sync/Waiter.h:38-42 | A wait that ran out of time leaves the mutex usable by way of the guard alone |
| `MutexCalls.DeathOutcome` | src/sync/Mutex.cpp:97-109 | A thread may die anywhere, once, and the mutex is a dead owner's afterwards exactly if it was before or the thread owned it |
| `MutexCalls.NobodyStuck` | src/sync/Waiter.h:35-45 | A thread has a next step unless it is dead or waits in a condition for a mutex that a live owner has |
| `WaitDrains.TwoDrainIff` | src/sync/Waiter.h:35-45 | Some run without faults of system calls has two threads draining at once if and only if there are at least three: the guard ignores a lock that fails on an unrecoverable mutex, and a call without a timeout drains all the same |
| `WaitDrains.TwoDrainOnFaultIff` | src/sync/Waiter.h:35-45 | If a lock may also fail of itself, two threads are enough |
| `WaitDrains.DrainsExcludeIff` | src/sync/Waiter.h:35-45 | Throughout a run without faults the drains exclude each other if and only if no call without a timeout goes past its failed lock while another is draining |
| `WaitDrains.OverlapsOnRuin` | src/sync/Waiter.h:35-45 | Where that happens the mutex is unrecoverable and neither of the two owns it |
| `WaitDrains.ExclusiveUnlessRuined` | src/sync/Waiter.h:35-45 | As long as the mutex is recoverable, the drains of a run without faults exclude each other |
| `WaitDrains.TimedNeverDrains` | src/sync/Waiter.h:38-42 | On an unrecoverable mutex only a call without a timeout drains |

## Left out

- Weak memory: every atomic operation is sequentially consistent; memory orders are not modelled.
- Several senders pushing on one segment at once: `push` loads, stores and advances in separate steps, so that the ring is a queue for one sender only.
- Receivers that join while messages are outstanding: their cursor starts at the read counter, but earlier counts do not include them.
- `Connection::disconnect`: it clears the bit after the one that `connect` set. Slot claims are about connect-only runs.
- `Head::init`: it rebuilds its own held lock; the model starts from an initialised segment.
- Delivery liveness and wake-ups: `wait_for` waits before it looks at the queue, and `notify` is sent without the mutex. What is proved is that catching up is always possible, not that it happens.
- Failed locks in the ring's step system: its mutex is freed by a death, as `Mutex::lock` sees to. That a condition wait gets it back from a dead owner, and locks that fail after that, are in `RobustMutex` and `WaitDrains`; `ProtocolUnlocked` shows what they do to the ring.
- The concurrent behaviour of `RwLock`, of `SpinLock`, of the ring and of the robust mutex is modelled on values, as step systems, since a class method has no interference; update in place is covered by the classes for the sequential code.
- In the step systems the store of a whole payload, the copy of a slot and a callback are one step each.
- Connection.Table.Connect: table sizes are even, as the source asserts, and at least four, so that each half has a slot. What a write outside the table does to other memory is not modelled.
- Fragment.Receiver.Read: what a read outside an object does to memory is not modelled, here and in `Ring.Queue.Pop`, `Ipc.Next` and `Ipc.Drain`. Nor is the count that opening an object adds in its last bytes: `SharedHandle.Handle.Get` has that, and `PoolInArena` shows that it touches no payload.
- Fragment.Sender.Write: the empty descriptor for a missing lock and payload sizes that wrap near 2^64 are not modelled; the exception of the exhausted pool is the result None.
- Two sender fragments of one thread on one arena.
- Ipc.Write: whether the waiter's notification succeeds, and whether there is a callback, are given from outside; an invalid `Ipc` and a missing queue are not modelled.
- `Handle::operator=`, which drops its mapping without releasing it, `sub_ref`, and an `fstat` that fails; a second `get` after a failed mapping is in `HandleAnswers.SecondGetGrows` but not an event of the runs.
- HandleRuns.CounterIsMappings: the handles of a name agree on its non-zero size, there are fewer than 2^31 of them, and each acquire, release and move is one step.
- RobustMutex.Mutex.Lock: requires that some call does not find a dead owner; without it the loop need not end.
- `Buffer`, `Callback`, `Descriptor`, `ScopeGuard`, `RobustExclusiveLock`, `MessageQueue`, connecting and disconnecting in `Ipc`, back-off, time stamps and strings: plumbing without a hard property.
