# NESESLIB in Dafny

A model of the concurrency library NESESLIB and proofs about it. `dafny verify dfyconfig.toml` checks everything.

## How the model is built

A component that threads share is a labelled transition system: a state datatype and a function `Next(state, label)`.
One label is one atomic action of the source (a critical section, a load, a store, a compare-exchange, a notification),
and the label carries every choice: which thread moves, which sleeper is woken, what a racy load returns. `Runs.Exec`
runs a list of labels, so a lemma over all label lists speaks of every interleaving of any number of threads. What a
method of the source does without interruption is a method of a class over the same fields, and its loops are loops.

| file | component |
|---|---|
| QueueFifoWaitable, QueueMonitor | the blocking bounded queue: critical sections in place, and the monitor with its condition variable |
| TaskPool | the task pool as a protocol |
| TaskPoolSafety, TaskPoolShutdown, TaskPoolLimit | what every step of the pool keeps; when shutdown works; how full the queue gets |
| TaskPoolHistory | what a run of the pool did, read off its labels |
| TaskPoolThreads, TaskPoolCalls | the pool seen from one thread; Enqueue, WorkerFunction and StopAll in place, with interference |
| SpscRing, SpscProtocol | the lock-free ring: calls in place, and the two sides interleaved at single loads and stores |
| SlotArray | the lock-free slot array |
| Logger | producers, consumer thread, stop and restart |
| Utf8, Utf8Language | the UTF-8 shape validator and the language it accepts |
| Framing, TcpSyncClient | cutting a byte stream at a delimiter, and the read loop that does it |
| FileList, DirWatcher | the tracked-file list and the watcher's loops |
| DirWatcherScan, DirWatcherSettles | what a scan reports, and what turn after turn leads to |
| Timer | tick arithmetic and stop handshake |
| NesesThread, ThreadManager | the restartable thread and the bounded registry |
| Runs, Counting | finite runs, and counting threads in a phase |

`TaskPoolCalls` ties the two forms together: between any two atomic actions of a call its method `Others` stands for any
run of labels of other threads. Its body does nothing, which is one such run; the calls are proved against its contract
alone.

History variables (marked as such in the state datatypes) record what happened and are not read by the protocol. In
`SpscProtocol` they also say which of the values a side may still read of the other side's index.

The labels of the protocols, by the source lines they stand for:

- `QueueMonitor`: Push 33-37 and NotifyOne 38, Pop 55-62, Close 92-95 and NotifyAll 96, Wait/Sleep/FinishWait 68-73 and
  80-86, TimeOut 81-82 of NESESLIB/QueueFifoWaitable.hpp; Deadline and SpuriousWake are events of the condition
  variable.
- `TaskPool`: CheckStop 189, CheckCount 190, CreateWorker 192, PushTask 193-196, NotifyOne 197, MarkTasks 213-219,
  StoreStop 222, NotifyAll 223, BeginJoin/JoinNext/Return 224-227, Acquire 61, Test and Sleep 62-64, Proceed 66-76,
  Finish 80-82 of NESESLIB/TaskPool.hpp.
- `SpscProtocol`: LoadHead 38, LoadTail 40, WriteSlot 45, StoreHead 46, LoadOwnTail 65, LoadOtherHead 66, ReadSlot 71,
  StoreTail 72 of NESESLIB/QueueFifoSPSC.hpp.
- `SlotArray`: Set 28-34, Load 40 and CompareExchange 42, Peek 48-53, Clear 55-59 of NESESLIB/QueueSlot.hpp.
- `Logger`: AddLog 120-126, ReturnFromWait 218, ReadFirstFlag and ReadFirstClosed 221, Handle 223-235, ReadSecondFlag and
  ReadSecondClosed 237, BeginStart 302-307, Launch 308-309, BeginStop, CloseQueue and Join 292-297 with 207-211 of
  NESESLIB/Logger.hpp; ClearAgain 128-129, RaiseFlag and CloseAfterRaise 96-101 of NESESLIB/NesesThread.hpp.
- `Timer`: Start and Launch 31-41, Check 42, Tick 45-47, Fire 49, Reset 50, Expire and Notify 54-59, Stop 74, ReadTry 77,
  StoreTry 81, LookUnderLock 83-88 of NESESLIB/Timer.hpp.
- `ThreadManager`: GetNew 95-102, BeginStopAll 66-73, BeginRemoveFinished 108-127, StopNext 76-84 and 130-135 of
  NESESLIB/ThreadManager.hpp.

## What turned out false of the code

Each of these is stated with the exact condition under which it does hold, and a lemma that reaches a failing case.

- StopAll of the task pool does not always drain the queue: `TaskPoolShutdown.StopAllDrainsIff`, `DrainCanFail`,
  `TaskCanBeLost`.
- Its notify_all does not always reach every worker, because stopFlag is stored outside the lock that the workers'
  wait predicate is tested under: `TaskPoolShutdown.StopReachesEveryWorkerIff`, `NotificationCanBeMissed`. Then StopAll
  hangs: `ReturnsUnaidedIff`.
- The queue limit of the pool can be exceeded, by one less than the number of calling threads:
  `TaskPoolSafety.QueueLimit`, `TaskPoolLimit.QueueLimitIsReached`.
- The watcher's cleanup loop can leave stale entries behind: `DirWatcher.CleanupCompleteIff`, `CleanupCanLeaveStale`;
  some of them for ever: `DirWatcherSettles.EventuallyCleanIff`.
- Scanning an unchanged directory twice can fire callbacks: `DirWatcherScan.RescanSilentIff`,
  `HashZeroIsReportedAgain`, `CollisionIsReportedAgain`.
- A watcher that fetches its directory again can report failure: `DirWatcherScan.RefetchFailsIff`, `RefetchCanFail`. After
  a failed fetch it does not start its thread (NESESLIB/DirWatcher.hpp:237-241).
- Stopping a thread that never started does not mark it done: `NesesThread.StopMarksDoneIff`, `NeverStartedNeverDone`.
  The watcher's Stop waits for that mark (NESESLIB/DirWatcher.hpp:250-254).
- The consumer's stop flag does not hold while Start is between its two clearing stores: `Logger.FlagHoldsIff`,
  `FlagCanBeWiped`.
- A logger that was stopped once accepts and handles nothing after a restart: `Logger.CanLogIff`, `RestartIsDeaf`.
- Stop of the logger does not hand every accepted entry to the handler: `Logger.StopHandlesAllIff`, `StopCanLose`.
- Joining messages with the delimiter and cutting again does not always give them back: `Framing.JoinCutIff`,
  `RoundTripCanFail`.
- IsValidUtf8 accepts byte strings that are not UTF-8: `Utf8Language.AcceptedIsUtf8Iff`, `OverlongIsAccepted`.

## Model

| member | source | states |
|---|---|---|
| QueueFifoWaitable.Queue.Push | NESESLIB/QueueFifoWaitable.hpp:31-40 | push returns true exactly if the queue is open and below capacity, and then appends the item; otherwise nothing changes |
| QueueFifoWaitable.Queue.Pop | NESESLIB/QueueFifoWaitable.hpp:55-62 | pop hands out the front item, or reports empty and changes nothing |
| QueueFifoWaitable.Queue.FinishWait | NESESLIB/QueueFifoWaitable.hpp:66-87 | a wait that is over hands out the front item; it reports false only on a closed and empty queue |
| QueueFifoWaitable.Queue.Close | NESESLIB/QueueFifoWaitable.hpp:90-97 | close marks the queue closed and leaves the items |
| QueueMonitor.NoLostWakeUp | NESESLIB/QueueFifoWaitable.hpp:31-97 | in every reachable state of any number of threads, with timeouts, spurious wake-ups and non-blocking pops: an open queue with a sleeper holds at most as many items as threads awake in a wait call plus notify_one calls owed; a closed queue with a sleeper has a closer that owes notify_all; never more items than the capacity |
| QueueMonitor.QuietSleepersHaveNothingToDo | NESESLIB/QueueFifoWaitable.hpp:66-97 | when all threads are outside or asleep, nobody sleeps beside an item or on a closed queue |
| QueueMonitor.FifoOverRuns | NESESLIB/QueueFifoWaitable.hpp:31-97 | over every run the accepted items are the items handed out followed by the items still queued, in order; closing is final and nothing is accepted after it |
| QueueMonitor.FalseMeansDrained | NESESLIB/QueueFifoWaitable.hpp:64-87 | when a wait call reports false everything accepted has been handed out, and the queue is closed, or the timed wait ran out on an open queue |
| QueueMonitor.AnswersAreExact | NESESLIB/QueueFifoWaitable.hpp:31-62 | push succeeds exactly if the queue is open and below capacity, pop comes back empty-handed exactly if it is empty, and any thread outside can call at any time |
| QueueMonitor.WaitReturnsIff | NESESLIB/QueueFifoWaitable.hpp:66-87 | a thread awake in a wait call can return the front item exactly if there is one, false exactly if there is none and the queue is closed, and can sleep or give up exactly otherwise |
| QueueMonitor.WakeUpsIff | NESESLIB/QueueFifoWaitable.hpp:38 | notify_one can wake any sleeper, and wakes one if there is one |
| QueueMonitor.DeadlineIff | NESESLIB/QueueFifoWaitable.hpp:77-87 | time runs out exactly inside a timed wait, which can then end |
| QueueMonitor.OnlyTimedWaitsTimeOut | NESESLIB/QueueFifoWaitable.hpp:77-87 | over every run only a call of wait_pop_for gives up |
| QueueMonitor.ClosedIffCloseCalled | NESESLIB/QueueFifoWaitable.hpp:90-97 | over every run the queue is closed exactly if some thread called close |
| QueueMonitor.CapacityIsReached | NESESLIB/QueueFifoWaitable.hpp:33-37 | some run fills any queue to its capacity |
| TaskPoolSafety.NoWorkerSleepsThroughWork | NESESLIB/TaskPool.hpp:61-76 | while a worker sleeps every queued task has a worker about to look at the queue or a notify_one to come; a task is queued only if there is a worker; the workers never outgrow the reserved vector |
| TaskPoolSafety.QueueLimit | NESESLIB/TaskPool.hpp:186-199 | with P calling threads at most maxTaskCount_ - 1 + P tasks are queued or between the count check and the push, so the limit is exact for one; a limit of 0 admits nothing |
| TaskPoolLimit.QueueLimitIsReached | NESESLIB/TaskPool.hpp:190-196 | for every limit and every P some run queues exactly that many |
| TaskPoolSafety.TasksRunExactlyOnce | NESESLIB/TaskPool.hpp:70-83 | the queue is the accepted tasks not yet popped, in order; each popped one is being executed by one worker or was executed once, no other ever |
| TaskPoolSafety.ChosenWorkerHasTaskOrLeaves | NESESLIB/TaskPool.hpp:66-82 | the null check after the pop never fires |
| TaskPoolSafety.DrainedOnReturn | NESESLIB/TaskPool.hpp:210-228 | when StopAll has returned, every task accepted before stopFlag was stored was popped, and no more are left than Enqueue calls were under way then; if none was, all workers have exited, the queue is empty and every accepted task was executed exactly once |
| TaskPoolHistory.RunIsWhatCallsSay | NESESLIB/TaskPool.hpp:103-110 | over every run: the accepted tasks are the arguments of the Enqueue calls that pushed, in that order; there are as many workers as CreateWorker was called, up to the limit; the pool stops exactly if stopFlag was stored |
| TaskPoolHistory.StopIsRemembered | NESESLIB/TaskPool.hpp:222 | the numbers in DrainedOnReturn are the Enqueue calls under way and the tasks accepted when stopFlag was first stored |
| TaskPoolShutdown.StopAllDrainsIff | NESESLIB/TaskPool.hpp:186-228 | from any reachable store of stopFlag: no continuation returns from StopAll with a task queued, exactly if no Enqueue is between its stop check and its push (or the pool admits no tasks) |
| TaskPoolShutdown.TaskCanBeLost | NESESLIB/TaskPool.hpp:186-228 | the run that loses a task, built from any reachable state with such an Enqueue |
| TaskPoolShutdown.DrainCanFail | NESESLIB/TaskPool.hpp:189-222 | with two callers such a state is reached |
| TaskPoolShutdown.StopReachesEveryWorkerIff | NESESLIB/TaskPool.hpp:222-223 | after StopAll's notify_all no worker ever sleeps again, exactly if none was between testing its wait predicate and falling asleep |
| TaskPoolShutdown.NotificationCanBeMissed | NESESLIB/TaskPool.hpp:61-64 | with two callers a run from every start state reaches such a worker, with notify_all about to be called |
| TaskPoolShutdown.StopAllCanReturn | NESESLIB/TaskPool.hpp:54-93 | from every reachable state after the notification some run, possibly with spurious wake-ups, lets StopAll return; it leaves an empty queue unless all workers had exited beside a queued task already |
| TaskPoolShutdown.ReturnsUnaidedIff | NESESLIB/TaskPool.hpp:222-227 | after its notify_all StopAll can return by its own steps and those of the workers, without a spurious wake-up, exactly if no worker sleeps or is about to |
| TaskPoolCalls.Members.constructor | NESESLIB/TaskPool.hpp:120-126 | a new pool is empty and running; the worker limit is the hardware concurrency, or 1 if that is unknown |
| TaskPoolCalls.Members.Enqueue | NESESLIB/TaskPool.hpp:186-199 | with any interference between its steps: true means the five steps were taken once and in order, the argument was pushed, and a worker was created unless there are as many as allowed; false means that nothing was pushed, and stopFlag was up or the queue at its limit; a stop flag that is up is obeyed; a call that has not ended waits for the lock |
| TaskPoolCalls.Members.WorkerFunction | NESESLIB/TaskPool.hpp:54-93 | with any interference: the tasks it executes are accepted ones in the order of acceptance, all that it executes and each to its end; it leaves only with the stop flag up and the queue empty, and otherwise has gone all the turns observed, or waits for the lock or a wake-up |
| TaskPoolCalls.Members.StopAll | NESESLIB/TaskPool.hpp:210-228 | with any interference: returning means all steps were taken once and in order; then the members show an empty queue and terminated threads if no Enqueue was under way at the stop, and otherwise at most that many tasks; a call that has not ended waits for the lock or for a worker |
| SpscRing.Increment | NESESLIB/QueueFifoSPSC.hpp:89-92 | the next index, back to 0 at the end of the buffer |
| SpscRing.SPSCFifoQueue.Push | NESESLIB/QueueFifoSPSC.hpp:36-48 | an uninterrupted push appends unless capacity items are queued |
| SpscRing.SPSCFifoQueue.Pop | NESESLIB/QueueFifoSPSC.hpp:64-74 | an uninterrupted pop hands out the front, or nothing if empty |
| SpscRing.SPSCFifoQueue.Empty | NESESLIB/QueueFifoSPSC.hpp:76-79 | empty says whether no item is queued |
| SpscRing.SPSCFifoQueue.Full | NESESLIB/QueueFifoSPSC.hpp:81-83 | full says whether capacity items are queued |
| SpscProtocol.RingHoldsQueue | NESESLIB/QueueFifoSPSC.hpp:36-74 | with both sides interleaved at single accesses and stale but monotone loads: what was pushed is what was popped followed by the slots from tail to head, wrapping, at most capacity of them |
| SpscProtocol.EveryAccessRefinesFifo | NESESLIB/QueueFifoSPSC.hpp:36-74 | storing head_ appends to a queue with room, storing tail_ hands out its front, every other access leaves it alone |
| SpscProtocol.GivesUpOnlyWhenFullOrEmpty | NESESLIB/QueueFifoSPSC.hpp:40-43 | push gives up exactly if the queue was full as of the pops it has seen, pop exactly if it was empty as of the pushes it has seen |
| SpscProtocol.SlotAccessesAreOrdered | NESESLIB/QueueFifoSPSC.hpp:45-71 | a writer has seen the pop of everything its slot held, a reader has seen the push of what it reads, and they are never at the same slot |
| SpscProtocol.QueueIsWhatCallsSay | NESESLIB/QueueFifoSPSC.hpp:36-74 | over every run: pushed are the arguments of the push calls that succeeded, in order, and popped the first of them, as many as pop calls succeeded |
| SpscProtocol.UninterruptedPush | NESESLIB/QueueFifoSPSC.hpp:36-48 | a push with a fresh load that nobody interrupts appends its argument if there is room, and gives up otherwise |
| SpscProtocol.UninterruptedPop | NESESLIB/QueueFifoSPSC.hpp:64-74 | such a pop hands out the front, or gives up if there is none |
| SpscProtocol.LoadsMayBeStale | NESESLIB/QueueFifoSPSC.hpp:40 | a load can return the other index as it was at any time since this side last saw it |
| SpscProtocol.PushCanGiveUpOnEmptyQueue | NESESLIB/QueueFifoSPSC.hpp:40-43 | so push can give up on a queue that is empty by then |
| SlotArray.LockFreeSignedSlotArray.SetKey | NESESLIB/QueueSlot.hpp:28-34 | set stores a non-null pointer under a valid key, refuses anything else, as the protocol says |
| SlotArray.LockFreeSignedSlotArray.ClearKey | NESESLIB/QueueSlot.hpp:55-59 | clear empties the slot of a valid key |
| SlotArray.LockFreeSignedSlotArray.PeekKey | NESESLIB/QueueSlot.hpp:48-53 | peek shows the pointer of a valid key, if any, and changes nothing |
| SlotArray.LockFreeSignedSlotArray.LoadKey | NESESLIB/QueueSlot.hpp:39-41 | the load of try_consume: the pointer in the slot of a valid key, or an immediate nullopt if there is none |
| SlotArray.LockFreeSignedSlotArray.CompareExchangeKey | NESESLIB/QueueSlot.hpp:42-45 | the compare-exchange of try_consume takes the step of the protocol, whatever happened since the load |
| SlotArray.ConsumesPickFromSets | NESESLIB/QueueSlot.hpp:28-45 | per key and for every interleaving, with reinstalled pointers: each consume returned the latest set before it, and no set was consumed twice, so the consumed pointers are a subsequence of the pointers set |
| SlotArray.ConsumeReturnsLatestSet | NESESLIB/QueueSlot.hpp:36-45 | after any run a successful consume returns the pointer set last under its key |
| SlotArray.SetBetweenConsumes | NESESLIB/QueueSlot.hpp:28-45 | two successful consumes of a key have a successful set of it between them |
| SlotArray.SlotHoldsLast | NESESLIB/QueueSlot.hpp:28-59 | over every run a slot holds what the last successful set, clear or consume of its key left |
| SlotArray.FindsWhatWasSet | NESESLIB/QueueSlot.hpp:37-53 | after any run: if that was a set, an uninterrupted try_consume returns its pointer and leaves null, and peek shows it; if not, both find nothing |
| SlotArray.SetAnswersExactly | NESESLIB/QueueSlot.hpp:28-34 | set succeeds exactly for a valid key and a pointer that is not null |
| SlotArray.ConsumeSucceedsIff | NESESLIB/QueueSlot.hpp:42-45 | the compare-exchange succeeds exactly if the slot holds the pointer loaded |
| Logger.ConsumeLogs | NESESLIB/Logger.hpp:213-245 | for any reads of the stop flag: one stretch of the consumer loop handles the leading entries in order until the first read that is up, and loses the entry in hand exactly if that was a first read; it leaves only then or on a closed queue, where it handles nothing |
| Logger.HandledIsPrefixOfAccepted | NESESLIB/Logger.hpp:120-126 | over every run with stops and restarts the handled entries are the first accepted ones, none missed, none twice, empty ones skipped |
| Logger.AtMostOneAfterFlag | NESESLIB/Logger.hpp:207-239 | once the stop flag is up, until Start clears it for the first or the second time, at most one more entry is handled, and only one past the first flag check |
| Logger.FlagHoldsIff | NESESLIB/NesesThread.hpp:118-129 | in every reachable state with the flag up: no run without a new Start handles more than one more entry, exactly if no Start is between its two clearing stores or the queue is closed |
| Logger.FlagCanBeWiped | NESESLIB/NesesThread.hpp:96-129 | such a state is reached when another thread raises the flag during a Start |
| Logger.AtMostOneTakenAfterFlag | NESESLIB/Logger.hpp:218-239 | once the flag is up, until the next Start, at most one more entry is taken off the queue, and none by a consumer that has one or has just handled one |
| Logger.StopFlagIsLastStored | NESESLIB/Logger.hpp:292-310 | the flag is cleared by both stores of a Start that goes on, raised by a Stop that goes on and by others, and otherwise left alone |
| Logger.RepeatedCallsDoNothing | NESESLIB/Logger.hpp:292-304 | Start on a started logger and Stop on a stopped one do nothing |
| Logger.AddLogAnswersExactly | NESESLIB/Logger.hpp:120-126 | an entry is accepted exactly if the queue is open and holds fewer than 255 |
| Logger.AtMostOneAfterClose | NESESLIB/Logger.hpp:292-310 | once the queue is closed at most one more entry is ever handled and none accepted, over any restarts |
| Logger.AtMostOneTakenAfterClose | NESESLIB/Logger.hpp:218-239 | once the queue is closed the running consumer takes at most one more entry |
| Logger.StopIsFinal | NESESLIB/Logger.hpp:292-300 | after the join in Stop nothing is accepted or handled in any run, restarts included |
| Logger.StopCanReturn | NESESLIB/Logger.hpp:292-300 | from every reachable state of a started logger Stop can return, and it leaves the queue closed |
| Logger.StopHandlesAllIff | NESESLIB/Logger.hpp:218-239 | from every reachable state of a started logger: in every run that accepts nothing more, all accepted entries have been dealt with once Stop has ended, exactly if none is queued, none was dropped and none is in hand before its second check |
| Logger.StopCanLose | NESESLIB/Logger.hpp:292-300 | a logged entry that is never handled, since Stop comes before the consumer looks |
| Logger.CanLogIff | NESESLIB/Logger.hpp:302-310 | with no Start, Stop or close under way, some run accepts and handles a given further entry exactly if the queue is not closed |
| Logger.RestartIsDeaf | NESESLIB/Logger.hpp:292-310 | start, stop and start again reach a running consumer with which no run logs anything |
| Utf8.IsValidUtf8 | NESESLIB/NesesString.cpp:170-204 | accepts exactly the concatenations of a lead byte and as many continuation bytes as it announces, for every input, without leaving the string |
| Utf8.TextHead | NESESLIB/NesesString.cpp:176-201 | a non-empty string is accepted exactly if it begins with a whole character and the rest is accepted |
| Utf8Language.CharactersByBits | NESESLIB/NesesString.cpp:180-198 | the accepted characters are those of the bit patterns of section 3 of RFC 3629 |
| Utf8Language.AcceptedPrefix | NESESLIB/NesesString.cpp:176-203 | after an accepted prefix the rest decides: closure under concatenation, and cancellation |
| Utf8Language.CutIff | NESESLIB/NesesString.cpp:193-195 | an accepted string falls into two accepted parts exactly at its end and before non-continuation bytes |
| Utf8Language.OneReading | NESESLIB/NesesString.cpp:176-203 | an accepted string is a concatenation of characters in one way only |
| Utf8Language.WellFormedIsProperCharacter | NESESLIB/NesesString.cpp:197-198 | a character of section 4 of RFC 3629 is an accepted one that is not overlong, not a surrogate and not beyond U+10FFFF |
| Utf8Language.AcceptedIsUtf8Iff | NESESLIB/NesesString.cpp:197-198 | an accepted string is UTF-8 exactly if none of its characters is overlong, a surrogate or beyond U+10FFFF |
| Utf8Language.Utf8IsAccepted | NESESLIB/NesesString.cpp:170-204 | all UTF-8 is accepted |
| Utf8Language.OverlongIsAccepted | NESESLIB/NesesString.cpp:197-198 | the overlong C0 80, the surrogate ED A0 80 and F7 BF BF BF beyond U+10FFFF are accepted |
| Framing.Find | NESESLIB/TcpSyncClient.cpp:38 | the first occurrence of the delimiter |
| Framing.CutRejoins | NESESLIB/TcpSyncClient.cpp:24-52 | cutting loses nothing: the messages with their delimiters and the rest are the stream; each message ends at its first delimiter and the rest holds none |
| Framing.CutAppend | NESESLIB/TcpSyncClient.cpp:24-52 | what was read in complete frames does not depend on what follows |
| Framing.JoinCutIff | NESESLIB/TcpSyncClient.cpp:24-52 | joining messages and cutting again gives them back exactly if in each, with its delimiter, the delimiter first occurs at the end |
| Framing.RoundTripCanFail | NESESLIB/TcpSyncClient.cpp:38-46 | a message without the delimiter in it that does not come back |
| TcpSyncClient.Socket.ReadUntil | NESESLIB/TcpSyncClient.cpp:219 | what is assumed of boost::asio::read_until: bytes move from the socket to the buffer in order until it holds the delimiter; the length reaches to its end; 0 on an error |
| TcpSyncClient.ExtractSingleResponse | NESESLIB/TcpSyncClient.cpp:24-52 | takes the first message and its delimiter off the buffer and appends the message; without a delimiter changes nothing; returns what is left |
| TcpSyncClient.ReadFrame | NESESLIB/TcpSyncClient.cpp:219-237 | one turn of the loop takes exactly one frame off the stream, at least as long as the delimiter, or fails without one |
| TcpSyncClient.Receive | NESESLIB/TcpSyncClient.cpp:217-240 | for any chunking: on success at least one and only complete frames were taken, the response is their messages, the count is their bytes, the buffer is empty; the loop goes on while something is left in the buffer or readable, and stops at once when neither; it ends on every finite stream |
| TcpSyncClient.ErrorMeansDrained | NESESLIB/TcpSyncClient.cpp:221-229 | on an error the response is every message of the stream so far, and what followed the last delimiter is lost |
| TcpSyncClient.ChunkingDecidesOnlyWhereToStop | NESESLIB/TcpSyncClient.cpp:217-240 | two reads of one stream that take the same bytes give the same response, and one that takes more extends it |
| FileList.List.AddItem | NESESLIB/FileList.hpp:19-35 | adds at the end exactly if there is room and the hash is not tracked; keeps hashes unique |
| FileList.List.Contains | NESESLIB/FileList.hpp:37-46 | whether a live entry has this hash; never for hash 0 |
| FileList.List.GetIfContains | NESESLIB/FileList.hpp:93-101 | the first live entry with this hash |
| FileList.List.Front | NESESLIB/FileList.hpp:83-86 | the first entry of a list that is not empty |
| FileList.List.PopFront | NESESLIB/FileList.hpp:88-91 | removes the first entry of a list that is not empty |
| FileList.TrackedIff | NESESLIB/FileList.hpp:37-46 | a hash is tracked exactly if it is not 0 and a live entry has it |
| DirWatcher.Watcher.Cleanup | NESESLIB/DirWatcher.hpp:113-140 | pops only entries that are outside the watched directory, marked deleted or gone, from the front up to the first that is none of these, or to half the list rounded up; keeps the rest in order; fires, in list order, the message for each that moved away, erased for each that is gone, nothing for one marked deleted; never asks an empty list for its front |
| DirWatcher.CleanupCompleteIff | NESESLIB/DirWatcher.hpp:113-140 | no stale entry is left exactly if the stale ones are at the front and are at most half of the list |
| DirWatcher.CleanupCanLeaveStale | NESESLIB/DirWatcher.hpp:113-140 | both ways to leave one: three stale entries, and a stale entry behind a live one |
| DirWatcher.Watcher.Scan | NESESLIB/DirWatcher.hpp:149-190 | the scan loop has the effect of its entries one after another |
| DirWatcher.Watcher.GetFiles | NESESLIB/DirWatcher.hpp:50-70 | the fetch adds the eligible entries and reports the last addition |
| DirWatcher.Watcher.WatchRoutine | NESESLIB/DirWatcher.hpp:101-196 | turn after turn: skipped if the path is not valid, else cleanup and then scan, with the stop flag read after each |
| DirWatcher.Watcher.ScanEntry | NESESLIB/DirWatcher.hpp:151-189 | one directory entry: added and reported as created if not tracked and there is room; path, hash and time recorded and reported as modified if tracked with another time; ignored otherwise |
| DirWatcher.WatchedOne | NESESLIB/DirWatcher.hpp:103-194 | one turn: only a message if the path is not valid; the cleanup alone if the stop flag is up after it; else cleanup and scan |
| DirWatcher.WatchedGoesOn | NESESLIB/DirWatcher.hpp:101-196 | exactly a turn that reads the stop flag up is the last; one that finds the path not valid is followed by the next |
| DirWatcherScan.ScanReportsExactly | NESESLIB/DirWatcher.hpp:149-190 | for distinct hashes other than 0: created fires exactly for files that were not tracked and now are, modified exactly for files tracked with another time; afterwards tracked times are the scanned times, and a file is left out only if the list is full |
| DirWatcherScan.RescanSilentIff | NESESLIB/DirWatcher.hpp:149-190 | a second scan of the same directory fires nothing exactly if no file has hash 0, unless the list is full, and files with the same tracked hash have the same time |
| DirWatcherScan.HashZeroIsReportedAgain | NESESLIB/FileList.hpp:37-46 | a file with hash 0 is reported as created again |
| DirWatcherScan.CollisionIsReportedAgain | NESESLIB/DirWatcher.hpp:176-186 | two files with one hash and different times are both reported as modified by every scan |
| DirWatcherScan.RescanSilent | NESESLIB/DirWatcher.hpp:161-187 | for distinct hashes other than 0 the second scan fires nothing and changes nothing, also with a full list |
| DirWatcherScan.ScanAfterFetchSilent | NESESLIB/DirWatcher.hpp:50-70 | the first scan after the fetch of the same directory fires nothing |
| DirWatcherScan.RefetchFailsIff | NESESLIB/DirWatcher.hpp:293-309 | a second fetch of any directory adds only its files with hash 0, while there is room, and reports success exactly if there is no eligible file, or the last one has hash 0 and there is room up to it |
| DirWatcherScan.RefetchCanFail | NESESLIB/DirWatcher.hpp:50-70 | a directory with one file: the first fetch succeeds, the second fails |
| DirWatcherScan.PassesKeepWellFormed | NESESLIB/FileList.hpp:19-46 | over all passes: at most 10000 entries, none marked deleted, no two with the same hash other than 0 |
| DirWatcherSettles.CleanupConverges | NESESLIB/DirWatcher.hpp:113-140 | over repeated passes on one snapshot: n passes remove exactly the stale front run of any list shorter than 2^n |
| DirWatcherSettles.EventuallyCleanIff | NESESLIB/DirWatcher.hpp:113-140 | some number of passes leaves no stale entry exactly if all stale entries are at the front |
| DirWatcherSettles.WatcherSettles | NESESLIB/DirWatcher.hpp:101-196 | over a directory that does not change, with distinct hashes other than 0 and from any list, all turns after the first ones, one more than the stale front run is long, fire nothing and leave the list alone |
| Timer.Loop.Run | NESESLIB/Timer.hpp:42-52 | the callback runs once per full period of ticks, counting what is left over from earlier starts and leaving over the rest |
| Timer.FiringCount | NESESLIB/Timer.hpp:31-61 | in every reachable state the completed periods are the ticks divided by the period, rounded down, over all starts and stops; between ticks the counter is below the elapsed time |
| Timer.StopIsWoken | NESESLIB/Timer.hpp:71-89 | a sleeping stop has a loop that will see its request or a notification to come, and can wake without; no stop request is up outside stop |
| Timer.StopCanReturn | NESESLIB/Timer.hpp:71-89 | from every reachable state of a stop past its first look some run without spurious wake-ups ends the loop and lets stop return |
| Timer.OneLoopAtATime | NESESLIB/Timer.hpp:31-61 | a loop is launched only when none runs |
| Timer.StartLeadsToCallback | NESESLIB/Timer.hpp:31-51 | from every reachable state in which no loop runs, start leads to a further run of the callback |
| Timer.RepeatedCallsDoNothing | NESESLIB/Timer.hpp:33-75 | start on a started timer and stop on an expired one do nothing |
| Timer.NothingRunsAfterStop | NESESLIB/Timer.hpp:71-89 | when stop returns, by either way out, no loop runs, and the callback does not run until the next start |
| NesesThread.Thread.Set | NESESLIB/NesesThread.hpp:106-111 | binds the callable, and marks it as set |
| NesesThread.Thread.SetStopFlag | NESESLIB/NesesThread.hpp:96-101 | stores the stop flag, and calls the registered notifier if it was raised |
| NesesThread.Thread.Start | NESESLIB/NesesThread.hpp:118-144 | starts exactly if set, not started, and the thread can be created; then it runs the callable set last, with the flags cleared |
| NesesThread.Thread.Stop | NESESLIB/NesesThread.hpp:146-164 | raises the stop flag, which calls the notifier, and joins and resets a thread that is joinable |
| NesesThread.JoinableIffStarted | NESESLIB/NesesThread.hpp:106-164 | over every sequence of calls the thread is joinable exactly while started, so Start never overwrites a joinable thread; it counts as set exactly if a callable is bound |
| NesesThread.NotifiedOncePerRaise | NESESLIB/NesesThread.hpp:96-116 | over every sequence of calls the registered notifier, and no other, is called exactly once for each raising of the flag |
| NesesThread.Thread.SetIsDone | NESESLIB/NesesThread.hpp:104 | stores the mark |
| NesesThread.FlagsAreLastStored | NESESLIB/NesesThread.hpp:96-164 | the stop flag and the mark are what was stored last; Start stores them only if it goes on, Stop the mark only if it joins |
| NesesThread.StopMarksDoneIff | NESESLIB/NesesThread.hpp:146-164 | a stop leaves the thread marked done exactly if it was started or already marked |
| NesesThread.NeverStartedNeverDone | NESESLIB/NesesThread.hpp:146-164 | a thread that is never started is never marked done by any stops |
| ThreadManager.Registry.GetNew | NESESLIB/ThreadManager.hpp:93-103 | creates and registers a thread exactly if the registry is below its limit; the threads stay distinct and within the limit |
| ThreadManager.Registry.StopAll | NESESLIB/ThreadManager.hpp:63-85 | empties the registry; every thread that was in it has its flag raised and is then stopped: its notifier, if any, is called exactly twice, it is joined, and marked done if it was running |
| ThreadManager.Registry.TakeFinished | NESESLIB/ThreadManager.hpp:107-127 | erasing while iterating keeps exactly the unfinished threads, in order, and takes out exactly the finished ones |
| ThreadManager.Registry.RemoveFinished | NESESLIB/ThreadManager.hpp:105-136 | finished threads leave and are stopped once each, the others are untouched |
| ThreadManager.EveryThreadInOnePlace | NESESLIB/ThreadManager.hpp:63-136 | under any interleaving of calls the registry keeps its limit and every thread ever created is in the registry, on one call's list, or stopped, exactly once |
| ThreadManager.GetNewFills | NESESLIB/ThreadManager.hpp:93-103 | n calls of GetNew on an empty registry create and register n threads, up to the limit |
| ThreadManager.CallsTakeOver | NESESLIB/ThreadManager.hpp:66-127 | StopAll takes over all threads of the registry in order, RemoveFinished exactly the finished ones |
| ThreadManager.CallCanFinish | NESESLIB/ThreadManager.hpp:76-84 | a call can always go on to stop all the threads it took over |

## Left out

- QueueFifoWaitable: is_closed, is_empty, is_full, size and capacity read one field under the lock; the destructor calls close.
- QueueMonitor: the mutex is not a state component; what the source does while it holds it is one label.
- TaskPool: that StopAll returns is claimed only where `ReturnsUnaidedIff` says it can. Stop flags of single tasks, futures, exceptions thrown by tasks and rejected null or invalid tasks are not modelled.
- TaskPoolCalls: a call is observed up to an arbitrary point, where a lock or a thread it waits for was not ready; what it waits for and for how long is not modelled. Workers are what the operating system shows of them, and tasks are identities, so aliasing of task objects is not captured.
- SpscProtocol: the order of memory accesses is modelled by what each side has seen of the other's index; other relaxed behaviours of the C++ memory model are not. empty and full called from a third thread are not modelled.
- Logger: the threads around ConsumeLogs are modelled on values; file and console sinks, time formatting and LogStream are left out. A consumer thread that cannot be created, and an App shutdown that joins the consumer while Stop does, are not modelled.
- TcpSyncClient.Receive: timers, connecting and writing are left out; `available` answers anything; a read that blocks for ever is not modelled.
- DirWatcher: the file system is a fixed snapshot per pass, path comparison is equality, hashes come with the entries; the front entry is copied before it is popped. RemoveItem, RemoveDeleted and the watcher's thread are left out.
- Timer: one controlling thread, and the same interval (at least 1) and elapsed time at every start; counter overflow, startOnce and the copy constructor are left out.
- NesesThread: moving a thread is left out; calls on one thread object do not overlap; what callables and notifiers do is in the models of those who register them.
- ThreadManager.Registry.StopAll: joining is taken to succeed; the exceptions that the source swallows are left out.
- TcpAsyncClient, QueueFifo, NesesTime, ConfigManager, NesesIO, WebContext, the rest of NesesString and the plain-data headers: thin wrappers, duplicates or plumbing.
