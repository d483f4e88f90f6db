# Verification of the Fast Message Queue

A Dafny model of libfmq, the shared-memory Fast Message Queue, with proofs about its ring protocol, its event flag,
the blocking calls built on both, and the layout and export of its shared memory.

`dafny verify dfyconfig.toml` checks everything.

## What is modelled

- **The ring** (`MemTransactions.dfy`, `QueueCore.dfy`, `RingContents.dfy`, `MessageQueues.dfy`). A ring of bytes and
  two 64-bit byte counters that wrap. `QueueCore` holds the decisions of `beginWrite`, `beginRead` and `commitRead` as
  functions of the counter values they load; the class `MessageQueue` runs them in place on an array, with the two
  `memcpy` calls of a transaction as loops.
- **The synchronized queue under interleaving** (`SynchronizedProtocol.dfy`). One writer and one reader, interleaved at
  every load of the other side's counter, every copied message and every counter store, on the wrapping counters
  themselves. A load of the other side's counter may be stale: it returns any value stored since the one last seen.
- **The unsynchronized queue under interleaving** (`UnsynchronizedProtocol.dfy`). One writer that overwrites, any number
  of readers with private counters, sequentially consistent accesses, no counter wrap.
- **The event flag** (`FutexWord.dfy`, `EventFlagProtocol.dfy`, `EventFlags.dfy`). `wake` and `wait` of the Linux build:
  once as a protocol of any number of threads, once as methods against a kernel that lets time pass and lets other
  threads change the word between any two operations. A word is the set of its bit positions, so `|` is union, `&`
  intersection and `& ~` difference. The methods keep a trace of their atomic operations, futex calls, wait answers and
  transfer attempts, and their contracts are about that trace.
- **The blocking calls** (`BlockingProtocol.dfy`). A loop of `writeBlocking` and a loop of `readBlocking` on one event
  word, without timeout. Their timed form is in `EventFlags.dfy`.
- **Layout and descriptors** (`Descriptors.dfy`, `QueueLayout.dfy`). The grantor loops, the size guards, the mapped
  windows, and the export to the signed AIDL parcelable and back, with the narrowing casts written out.

## Assumptions

- `sizeof(T)` and the queue size are positive, the size is a multiple of `sizeof(T)`, and products such as
  `nMessages * sizeof(T)` and `startIdx + nMessages` do not overflow; the code does not check these.
- A commit is for as many messages as its begin, and counters are reset only before traffic starts.
- For counter wrap, a run is considered while offsets stay exact: always for a ring size that divides 2^64, and for
  other sizes while fewer than 2^64 bytes have been written. `OffsetsSurviveWrapIff` shows that this is the exact line.
- The notification masks of the two sides of the blocking calls are not empty and do not intersect.
- Futex wait compares and sleeps in one step; futex wake wakes every sleeper whose mask intersects; ETIMEDOUT is not
  early; EINVAL means a malformed deadline. `elapsedRealtimeNano` and CLOCK_MONOTONIC are one monotone clock.

Where the code and its comments differ, the model follows the code: `getSlot` one past the end of a wrapped transaction
is not null (`GetSlotPastEnd`), `beginWrite` with a misaligned counter leaves its out-parameter alone instead of
nulling it, and `wake` with an empty mask returns NO_ERROR rather than BAD_VALUE.

## Model

| member | source | states |
|---|---|---|
| `BlockingProtocol.DeadlockIff` | include/fmq/MessageQueueBase.h:878-960 | From an empty queue and any initial event word, a blocking writer loop of nW and a blocking reader loop of nR can end up both asleep exactly when the capacity is below nR + nW - gcd(nR, nW) |
| `BlockingProtocol.EqualCountsNeverDeadlock` | include/fmq/MessageQueueBase.h:994-1076 | Reading and writing in equal portions never deadlocks, at any capacity the calls accept |
| `BlockingProtocol.NoStrandedTransfer` | include/fmq/MessageQueueBase.h:1009-1076 | If a side sleeps although it has data or room, the other side is between its counter store and the end of its wake; spurious returns and signals included |
| `BlockingProtocol.StepsBetweenCommits` | include/fmq/MessageQueueBase.h:903-958 | Under every schedule without spurious returns at most 104 steps pass between two commits |
| `BlockingProtocol.KeepsTransferring` | include/fmq/MessageQueueBase.h:1020-1075 | With enough capacity some thread can always move and every long enough run commits any wanted number of transfers |
| `BlockingProtocol.AttemptMatchesQueue` | include/fmq/MessageQueueBase.h:1101-1112 | The room and data tests of the blocking model are the decisions of beginWrite and beginRead on the wrapped counters |
| `BlockingProtocol.StepProgress` | EventFlag.cpp:83-179 | Every step commits or lowers the rank built from due raises, bits that can be taken and program positions |
| `EventFlagProtocol.NoLostWakeup` | EventFlag.cpp:83-179 | In every reachable state of any number of threads, a sleeper whose bits are set has a waker with an intersecting mask that has not issued its futex wake yet, also when wakes skip the syscall |
| `EventFlagProtocol.BitsConserved` | EventFlag.cpp:117-219 | For every bit and schedule, initial value plus 0 to 1 transitions equals deliveries with NO_ERROR plus current value |
| `EventFlagProtocol.EveryChangeIsLogged` | EventFlag.cpp:126-177 | In every run a wake raises exactly its mask, and a wait hands back and clears exactly the bits of the mask it was called with that were set, or changes nothing; no thread leaves wait, and no bit moves, without such a record |
| `EventFlagProtocol.WaiterLeavesOtherBits` | EventFlag.cpp:126-170 | A thread inside wait never changes a bit outside its mask and never sets one |
| `EventFlagProtocol.ThreadsServeTheirCalls` | EventFlag.cpp:186-219 | Through sleeps, wake-ups and retries a thread keeps to the mask and retry flag of its call |
| `EventFlagProtocol.SleepsExactlyIfUnchanged` | EventFlag.cpp:126-160 | A wait goes to the futex exactly if its take found nothing, and sleeps exactly if the word has not changed since, at a moment when none of its bits is set |
| `EventFlagProtocol.WakesExactlyTheMeant` | EventFlag.cpp:92-103 | The futex wake is issued exactly if a bit was new, and wakes exactly the sleepers with an intersecting mask; no thread is moved by anything else |
| `EventFlagProtocol.AnswerCauses` | EventFlag.cpp:163-217 | Which step makes wait return which status: a take answers exactly if it finds a bit, TIMED_OUT comes from the deadline only, and signals, changed words and empty wake-ups answer exactly without retry |
| `EventFlagProtocol.ReturnsSound` | EventFlag.cpp:163-218 | Every wait of every run returns bits of its own mask only, NO_ERROR exactly with a non-zero efState, BAD_VALUE exactly for an empty mask, and neither EAGAIN nor EINTR if it retries |
| `EventFlags.AddNanosecondsExact` | EventFlag.cpp:253-270 | The deadline is the clock plus the duration for every duration, and normalised exactly when a negative duration does not borrow from the seconds |
| `EventFlags.Wake` | EventFlag.cpp:83-111 | An empty mask does nothing; otherwise there is one atomic fetch_or of the whole mask, and the futex wake follows exactly if that set a new bit |
| `EventFlags.WaitHelper` | EventFlag.cpp:117-179 | efState is what the last fetch_and found and all other fetch_ands of the call found nothing; without a futex wait the first one found it; the one futex wait expects the word that an empty take left, is untimed only for a zero timeout and else due neither before the timeout nor more than the timeout ahead; its result decides the status |
| `EventFlags.Wait` | EventFlag.cpp:186-219 | The same for the whole retry loop: exactly one take, the last, finds the bits handed back, and a wait that times out has taken none; with timeout T from start s every deadline is normalised and at or after s + T, no untimed wait, no timeout before s + T, never EAGAIN, EINTR or EINVAL, and at most T turns if waits advance the clock |
| `EventFlags.WaitForTransfer` | include/fmq/MessageQueueBase.h:900-954 | Every notification taken from the word is followed by an attempt; every further attempt answers a notification or is the last one, at or after the deadline; no wait starts without time left; the nested timeouts keep their promises for the whole call |
| `EventFlags.TransferBlocking` | include/fmq/MessageQueueBase.h:868-960 | The call succeeds exactly if its last attempt did, all others having failed; it expires by its own clock only after an attempt at or after the deadline; it wakes the other side exactly after a success, and refuses exactly the impossible calls |
| `SynchronizedProtocol.DeliveredIsPrefixOfWritten` | include/fmq/MessageQueueBase.h:847-851 | In every interleaving what is written is the data of the committed write calls, in order and complete, and what is delivered is its first messages, as many as the committed read calls asked for, at most a ring behind |
| `SynchronizedProtocol.StepRefinesFifo` | include/fmq/MessageQueueBase.h:1101-1278 | Every step of the wrapping, interleaved implementation is a step of a bounded FIFO on unbounded indices; commits enqueue the data of the open write call and dequeue as many messages as the open read call asked for |
| `SynchronizedProtocol.OpenTransactionsDisjoint` | include/fmq/MessageQueueBase.h:1108-1145 | Even with stale loads the open write and the open read never share a ring slot |
| `SynchronizedProtocol.AttemptsDecidedBySeenCounter` | include/fmq/MessageQueueBase.h:1201-1226 | A write or read is granted exactly when the counter value that its call has loaded leaves room for its data or has its count, and is over otherwise |
| `SynchronizedProtocol.AvailabilityAccounting` | include/fmq/MessageQueueBase.h:1086-1097 | Counters stay whole messages, the misalignment and overflow guards cannot fire, and the two availabilities sum to getQuantumCount |
| `SynchronizedProtocol.ObservedAvailabilityLasts` | include/fmq/MessageQueueBase.h:1169-1176 | What a side saw as free or available stays so until its own next commit |
| `SynchronizedProtocol.CopiesStayInRing` | include/fmq/MessageQueueBase.h:1181-1182 | The next message of an open copy always has a slot inside the ring |
| `UnsynchronizedProtocol.DeliveredElementsValid` | include/fmq/MessageQueueBase.h:1261-1277 | In a successful read the element at stream index i is the one written at i whenever i plus the capacity is at least the number stored at the commit, in-flight messages included |
| `UnsynchronizedProtocol.CopiedElementIdentity` | include/fmq/MessageQueueBase.h:1179-1183 | A copied element is that of the newest index stored in its slot, its own exactly if the writer was not a ring ahead when it was copied |
| `UnsynchronizedProtocol.ReaderBeginDecided` | include/fmq/MessageQueueBase.h:1202-1253 | A reader more than a ring behind is moved up to the write counter and logs exactly that skip; with enough unread the read is open on the next n messages; otherwise it changes nothing |
| `UnsynchronizedProtocol.ReaderCommitDecided` | include/fmq/MessageQueueBase.h:1264-1277 | A commit delivers exactly what the read has copied and advances by its count, or, more than a ring behind, skips to the write counter; also while a write is open |
| `UnsynchronizedProtocol.WriterBeginDecided` | include/fmq/MessageQueueBase.h:1108-1145 | The writer is granted exactly what fits the ring, whatever the readers have read |
| `UnsynchronizedProtocol.StreamIsTheCalls` | include/fmq/MessageQueueBase.h:847-851 | What is written is the data of the committed write calls, in order and complete; an open write or read is for the arguments of its call |
| `UnsynchronizedProtocol.WriterStoresOne` | include/fmq/MessageQueueBase.h:847-851 | Each copy step of a write stores the next message of its call |
| `UnsynchronizedProtocol.CommitBetweenWritesIsExact` | include/fmq/MessageQueueBase.h:1264-1277 | A read that commits while no write is open delivers exactly its messages, or reports the overwrite and resyncs |
| `UnsynchronizedProtocol.OverlappedReadDelivers` | include/fmq/MessageQueueBase.h:1156-1165 | A concrete run in which a read overlapping an open write succeeds with the new message, so the in-flight term is needed |
| `UnsynchronizedProtocol.ReaderHistoryOrdered` | include/fmq/MessageQueueBase.h:1215-1218 | Each reader's history splits the stream into consecutive ranges, reads disjoint and in order, and skips only of more than a ring |
| `UnsynchronizedProtocol.ReaderIsInvisible` | include/fmq/MessageQueueBase.h:630-652 | Leaving out all steps of a reader leaves a run in which the writer and all other readers are the same |
| `UnsynchronizedProtocol.ReaderMovesItself` | include/fmq/MessageQueueBase.h:634-641 | Over any schedule without its own steps a reader stays as it was |
| `UnsynchronizedProtocol.CopiesStayInRing` | include/fmq/MessageQueueBase.h:1228-1250 | The next message of an open copy always has a slot inside the ring, for the writer and every reader |
| `QueueCore.OffsetsSurviveWrapIff` | include/fmq/MessageQueueBase.h:1122 | Ring offsets computed from the wrapping counter are right for every message count exactly when the ring size divides 2^64 |
| `QueueCore.SlotPosition` | include/fmq/MessageQueueBase.h:1122-1145 | Slot j of a granted transaction is ring slot (start + j) mod capacity, on either side of the wrap |
| `QueueCore.TransactionGeometry` | include/fmq/MessageQueueBase.h:1228-1250 | The regions of a granted transaction lie in the ring, do not overlap, and have exactly n messages |
| `QueueCore.GrantedWriteInRing` | include/fmq/MessageQueueBase.h:1108-1145 | For arbitrary counter values, a misaligned write counter is never granted and a granted write has n whole messages inside the ring |
| `QueueCore.GrantedReadInRing` | include/fmq/MessageQueueBase.h:1207-1250 | The same for reads, which are refused as misaligned exactly if either counter is |
| `QueueCore.AvailabilityExact` | include/fmq/MessageQueueBase.h:1086-1097 | availableToRead is exact however far the reader is behind, up to 2^64 bytes; availableToWrite is exact up to a full ring and wraps beyond it |
| `QueueCore.BeginWriteExact` | include/fmq/MessageQueueBase.h:1101-1148 | beginWrite grants exactly what fits behind the read counter (synchronized) or the capacity (unsynchronized), at the right place |
| `QueueCore.BeginReadExact` | include/fmq/MessageQueueBase.h:1191-1253 | beginRead detects an overwrite exactly when more than a ring is unread, and otherwise grants exactly what is there |
| `QueueCore.CommitReadExact` | include/fmq/MessageQueueBase.h:1261-1278 | commitRead fails exactly when more than a ring is unread, and otherwise counts n more messages |
| `MemTransactions.SlotIsByteRange` | include/fmq/MessageQueueBase.h:496-509 | getSlot(idx) is the first of quantum consecutive transaction bytes; no message is split between regions |
| `MemTransactions.GetSlotPastEnd` | include/fmq/MessageQueueBase.h:496-509 | For invalid indices getSlot is null exactly unless asked one past the end of a wrapped transaction |
| `MemTransactions.InfoIsBlocks` | include/fmq/MessageQueueBase.h:512-543 | getMemRegionInfo returns two blocks that together are the requested messages in order |
| `MemTransactions.CopyTo` | include/fmq/MessageQueueBase.h:577-605 | Succeeds exactly for a buffer and a request in range, and then stores the messages at their slots and nothing else |
| `MemTransactions.CopyFrom` | include/fmq/MessageQueueBase.h:546-574 | Succeeds exactly for a buffer and a request in range, and then loads those slots in order |
| `MemTransactions.ScatterFillsSlots` | include/fmq/MessageQueueBase.h:596-602 | Copying in puts message j at getSlot(startIdx + j) and leaves every other byte of the ring alone |
| `MemTransactions.GatherAfterScatter` | include/fmq/MessageQueueBase.h:546-605 | Copying out what was copied in returns it for any wrap position |
| `MemTransactions.FillingSlotsIsScatter` | include/fmq/MessageQueueBase.h:323-378 | Filling the slots in place gives the same ring as copyTo |
| `RingContents.FilledSlotsExtend` | include/fmq/MessageQueueBase.h:409-431 | Zero-copy writing by slots extends the stream exactly as write() does |
| `RingContents.ScatterExtends` | include/fmq/MessageQueueBase.h:847-851 | A granted copy appends its data to the stream and costs at most the oldest messages |
| `RingContents.GatherUnread` | include/fmq/MessageQueueBase.h:1179-1183 | A granted read covers exactly the next n messages of the stream |
| `MessageQueues.MessageQueue.BeginWrite` | include/fmq/MessageQueueBase.h:1101-1148 | All outcomes, including the untouched out-parameter of the misaligned case; a grant lies inside the ring for any counter values |
| `MessageQueues.MessageQueue.CommitWrite` | include/fmq/MessageQueueBase.h:1156-1166 | Appends the data of the open write to the stream and keeps the queue consistent across wrap |
| `MessageQueues.MessageQueue.Write` | include/fmq/MessageQueueBase.h:847-851 | Succeeds exactly when a buffer is given and the messages fit, and then appends exactly them; otherwise changes nothing |
| `MessageQueues.MessageQueue.BeginRead` | include/fmq/MessageQueueBase.h:1191-1253 | Grants exactly what is unread, and moves the read counter up exactly on overwrite |
| `MessageQueues.MessageQueue.CommitRead` | include/fmq/MessageQueueBase.h:1261-1278 | Advances by n or resyncs to the write counter |
| `MessageQueues.MessageQueue.Read` | include/fmq/MessageQueueBase.h:1179-1183 | Returns exactly the next n messages of the stream in order, or fails and says why |
| `Descriptors.AlignToWordBoundary` | base/fmq/MQDescriptorBase.h:78-88 | The least multiple of 8 not below the length |
| `Descriptors.AidlMQDescriptorShim.FromSize` | include/fmq/AidlMQDescriptorShim.h:216-268 | The layout loop gives the contiguous single-file layout, or no grantors for a queue that is too large |
| `Descriptors.AidlMQDescriptorShim.FromDescriptor` | include/fmq/AidlMQDescriptorShim.h:120-170 | Rebuilding stops at the first negative value and then leaves no handle |
| `Descriptors.AidlMQDescriptorShim.DupeDesc` | include/fmq/AidlMessageQueue.h:134-188 | Export narrows every value to its signed type and splits the handle back into its files and ints |
| `Descriptors.ImportHandleIff` | include/fmq/AidlMQDescriptorShim.h:120-170 | A rebuilt shim has a handle exactly if no value of the descriptor is negative, and then all values have arrived unchanged |
| `Descriptors.RoundTripIff` | include/fmq/AidlMessageQueue.h:134-188 | Export followed by rebuild is the identity exactly when every value fits its signed type and grantor flags are zero |
| `Descriptors.SingleFileRoundTrip` | include/fmq/AidlMQDescriptorShim.h:224-237 | Every queue the size guard lets through survives the round trip with the same ring size |
| `Descriptors.TwoFileRoundTripIff` | include/fmq/MessageQueueBase.h:770-801 | With a ring in its own file the round trip needs a ring below 2^63 bytes and a quantum below 2^31 |
| `QueueLayout.CreateQueue` | include/fmq/MessageQueueBase.h:692-812 | Exactly when the constructor gives up, and the exact grantors and region size it asks for otherwise |
| `QueueLayout.TwoFileGrantors` | include/fmq/MessageQueueBase.h:770-798 | The grantor loop places the ring alone in file 1 and the rest contiguously in file 0 |
| `QueueLayout.RoundUpLeast` | include/fmq/MessageQueueBase.h:719-732 | The region is the least number of whole pages for the length |
| `QueueLayout.CreateSoundQueue` | include/fmq/MessageQueueBase.h:608-628 | A queue passes the checks of initMemory exactly under the listed size conditions, and then its parts are aligned, disjoint per file and inside their files, whose last page is needed |
| `QueueLayout.SingleFileSound` | include/fmq/MessageQueueBase.h:729-731 | In one file the counters, the ring and the event word are aligned, disjoint and inside a region of the size asked for |
| `QueueLayout.WindowExactIff` | include/fmq/MessageQueueBase.h:1310-1318 | The mapped window is page aligned and covers exactly up to the end of the grantor iff its length fits an int |
| `QueueLayout.SingleFileWindowsExact` | include/fmq/MessageQueueBase.h:1310-1318 | Every part of a single-file queue is mapped exactly |
| `QueueLayout.TwoFileRingWindowIff` | include/fmq/MessageQueueBase.h:1314-1318 | A ring in its own file is mapped exactly iff it is shorter than 2^31 bytes |
| `QueueLayout.UnmapUndoesMap` | include/fmq/MessageQueueBase.h:1327-1339 | Unmapping a mapped grantor releases the window that was mapped for it |

## Left out

- The Windows branches, named shared memory and the JSON form of descriptors, whose functions are not in this model.
- mmap, ashmem, dup and native_handle themselves: a handle is a list of file identities, a mapping a base address, and
  none of these calls fails.
- The error return of the futex wake syscall, which `wake` only passes on.
- C++ weak memory beyond coherent stale loads of the two counters of a synchronized queue.
- EventFlags.Wait: models the retrying form, watched for a given number of loop turns because an untimed wait need not
  end; the form without retry is `WaitHelper`. Overflow of 64-bit times is not modelled.
- EventFlags.TransferBlocking: stands for writeBlocking and readBlocking alike; whether a non-blocking attempt inside
  succeeds is left to the environment, since `BlockingProtocol` and the queue modules describe that.
- MessageQueues.MessageQueue.Write: one object holds both counters; sharing of the memory between processes is modelled
  by the interleaved protocols, on messages rather than bytes.
- UnsynchronizedProtocol.DeliveredElementsValid: assumes that fewer than 2^64 bytes are written.
- HIDL queues, generated parcel code, the copy operations of shims, logging, creation and deletion of event flags.
