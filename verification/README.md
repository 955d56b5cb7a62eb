# A verified model of the event loop's bookkeeping

This project models the parts of libev and of the UART/HSM examples beside it that keep redundant
state in step with something simpler, and proves what that state is for.

* **Wakeup, WakeupProgress** are the protocol by which other threads and signal handlers wake a loop that
  is about to block. It is a state machine with one shared access per step, any number of senders and
  every interleaving. WakeupProgress says what a send and a pass come to: a send to a sleeping loop is
  received, and a loop that is left alone goes to sleep.
* **Heap, ArrayGrowth, PendingQueues, EventLoop, TimerOrder, TimerRun** follow a relative timer from
  `ev_timer_start` through the 4-ary heap with its back-pointers, `timers_reify`, the reversed
  feeding and the priority stacks to the call of its callback. A ghost history of feeds, clears and
  calls says what every watcher is owed; the queues are proved to hold exactly that. TimerRun runs the
  loop's own methods, once and for any number of iterations, and states the order and the times of the
  calls of that run.
* **Periodic** is the interval arithmetic of periodic timers and their pass.
* **FdInterest, PollBackend, SelectBackend, EpollCache, Masks** follow interest in file descriptors
  from linked watcher lists through the lazy change list into the tables of three backends.
* **SpscRing, SpscRuns, Bits** are the single-producer single-consumer byte ring: the code of each thread,
  the interleaving of both with stale reads and 32-bit wrap-around, and which bytes the calls of a run
  publish and take.
* **Crc, UartFrame, UartParser, UartBuffers** are the frame codec: the table-driven CRC against polynomial
  division, the frame builder, a byte-driven parser that undoes it, and the bounds of its buffers.
* **Hsm, HsmPointers, HsmParser** are the two hierarchical state machine engines, and the parser run as
  a table of the first of them.

Everything is stated for all inputs, all runs or all reachable states. Memory is sequentially
consistent, timestamps are exact reals, counters that only grow are unbounded unless their width is
the point (ring indices, epoll generations, frame lengths).

Where the code does not do what its comments or tests suggest, the model follows the code:

* A signal that is stopped while its pending byte is set and then watched again can stay pending while
  the loop sleeps (`Wakeup.StaleSignalSleeps`). `Wakeup.NoLostWakeup` says exactly which signals can be
  in that state, `Wakeup.NoPendingSignalAsleep` that there are none when every watch starts with a
  clear byte.
* The parser judges a frame's length by its low byte alone, so built frames with 254 or 255 data bytes
  are turned away (`UartParser.LengthRejected`, an equivalence).
* For the same reason the parser accepts lengths far above what its buffers hold.
  `UartBuffers.LengthBeyondBuffer` and `UartBuffers.OverflowExample` give the bytes (AA 03 01, class,
  command and 257 data bytes are the shortest) after which it stores behind the end of `frame.data`;
  `UartBuffers.BuffersSuffice` says for every byte stream whether that happens, by a condition on the
  bytes alone.
* The CRC is sent low byte first, so a two-byte burst over the last data byte and the first CRC byte can
  go unnoticed: `UartParser.BoundaryBurst` says that the one such change flips 0x89 and 0xA1,
  `UartParser.BoundaryBurstExample` that it happens.
* Neither state machine engine exits anything when it is initialised a second time, so its actions from
  the previous initialisation on no longer balance (`Hsm.Engine.Init`, `HsmPointers.Machine.Init`);
  what holds is stated of the trace since the last one.

## Model

| member | source | states |
|---|---|---|
| `Wakeup.InvKept` | src/ev.c:2783-2896 | every step of senders, signal handlers and loop keeps: a raised flag always has something that makes the loop look again; marked targets are covered by the flag, a sender or the scan; whatever is owed is marked |
| `Wakeup.InvAlways` | src/ev.c:4094-4173 | the invariant holds in every state of every interleaving |
| `Wakeup.NoLostWakeup` | src/ev.c:2783-2829 | a loop blocked in the poll with an empty pipe and no sender under way has both flags clear, no active async marked as sent and owes no event; the signals still pending are exactly those attached with their byte already set |
| `Wakeup.NoPendingSignalAsleep` | src/ev.c:4563-4680 | if no signal is started while its byte is set, a sleeping loop has no signal pending |
| `Wakeup.CleanStartsNeverStale` | src/ev.c:4563-4680 | without such starts the stale set stays empty over the whole run |
| `Wakeup.StaleSignalSleeps` | src/ev.c:4646-4680 | a concrete run in which a raised, stopped and restarted signal stays pending while the loop sleeps |
| `Wakeup.OwedEventEndsSleep` | src/ev.c:2900-2914 | a blocked loop that owes an event has bytes in its pipe, or some sender can still move |
| `Wakeup.SleepEnds` | src/ev.c:2783-2829 | once an event is owed to a blocked loop, the senders under way make no more steps than they have before them, however they are scheduled, and when they are done there is a byte in the pipe |
| `Wakeup.PassFeedsAllOwed` | src/ev.c:2831-2896 | once the poll has reported the pipe, pipecb ends within a bounded number of steps and has then fed every target that was owed |
| `Wakeup.NoSpuriousEvent` | src/ev.c:2833-2896 | no target is fed more often than it was marked |
| `WakeupProgress.PassEmptiesPipe` | src/ev.c:2838-2896 | a pass that the poll reports p bytes to leaves 0 bytes behind an eventfd and p less min(4, p) in a pipe, with all flags and the skipped note clear and nothing pending on pipe_w |
| `WakeupProgress.FallsAsleep` | src/ev.c:4094-4173 | from every reachable state between two calls, with nobody sending, finitely many visits to the poll and calls of pipecb lead to a state with an empty pipe from which entering the poll puts the loop to sleep |
| `WakeupProgress.SoloSend` | src/ev.c:2783-2829 | a send that nobody interleaves with marks its target once; if the flag was up already it changes nothing else and writes nothing; otherwise it raises the flag and either writes one byte, if a write is wanted, or notes that it was skipped; for an unwatched signal it does nothing |
| `WakeupProgress.SendIsReceived` | src/ev.c:2783-2896 | a send of an active target to a sleeping loop, run to its end, wakes the loop, and the pass that follows has fed the target once more and leaves the pipe empty |
| `WakeupProgress.WatchedIsReceived` | src/ev.c:4563-4680 | after the start of an async or signal watcher in any reachable state between two calls, with nobody sending, the loop can go to sleep and a send then is received |
| `Heap.HParent` | src/ev.c:2592 | with truncating division the root is its own parent and every other parent lies strictly above |
| `Heap.ChildrenHaveParent` | src/ev.c:2592-2606 | the four entries downheap looks at are exactly those whose parent is k |
| `Heap.UpRestoresOrder` | src/ev.c:2675-2695 | moving up repairs a heap whose entry k may be too small |
| `Heap.DownRestoresOrder` | src/ev.c:2595-2638 | moving down repairs a heap whose entry k may be too large |
| `Heap.OverwriteKeepsRest` | src/ev.c:4430-4437 | overwriting one entry by anything leaves a heap that is in order except around it, also when the last entry is dropped |
| `Heap.AdjustRestoresOrder` | src/ev.c:2697-2705 | one repair restores order after any entry was overwritten |
| `Heap.RootIsSmallest` | src/ev.c:3587-3611 | in a heap of any size the root is a smallest entry |
| `Heap.UpHeap` | src/ev.c:2675-2695 | the in-place loop computes Up of the old array and every watcher ends up knowing its index |
| `Heap.SmallestChild` | src/ev.c:2606-2627 | both the fast and the slow search find the first smallest child |
| `Heap.DownHeap` | src/ev.c:2595-2638 | the in-place loop computes Down and keeps every back-pointer right |
| `Heap.AdjustHeap` | src/ev.c:2697-2705 | the in-place repair computes Adjust and keeps every back-pointer right |
| `Heap.ReHeap` | src/ev.c:2707-2717 | after arbitrary new times the rebuilt heap is in order, a permutation of what it was, and indexed |
| `ArrayGrowth.ArrayNextSize` | src/ev.c:2250-2271 | terminates with room for cnt and at least double the old size, and a rounded allocation plus four pointers fills whole chunks up to less than one element |
| `PendingQueues.MergeExplained` | src/ev.c:2317-2335 | feeding a queued watcher adds the events to its entry and keeps queues and history in agreement |
| `PendingQueues.AppendExplained` | src/ev.c:2317-2335 | feeding an idle watcher appends an entry, in the order in which debts began |
| `PendingQueues.ClearExplained` | src/ev.c:4282-4290 | putting the dummy in a cleared watcher's place settles its debt and nobody else's |
| `PendingQueues.PopExplained` | src/ev.c:3769-3775 | popping and calling the top settles exactly its watcher's debt |
| `PendingQueues.TopIsDue` | src/ev.c:3764-3775 | the top of the highest nonempty stack owes exactly its events, and nobody owed has a higher priority or, at the same priority, a younger debt |
| `PendingQueues.OwedExactly` | src/ev.c:2317-2335 | what a watcher is owed are exactly the events of all feeds since its last clear or call, and the debt began with the first of those |
| `EventLoop.Loop.constructor` | src/ev.c:3613-3698 | a new loop satisfies the invariants of the timer heap and of the pending queues |
| `EventLoop.Loop.FeedEvent` | src/ev.c:2317-2335 | extends the history by the feed, keeps queues, back-pointers and history in agreement, restarts the scan |
| `EventLoop.Loop.ClearPending` | src/ev.c:4282-4290 | extends the history by the clear and keeps the agreement |
| `EventLoop.Loop.EvClearPending` | src/ev.c:4292-4308 | returns exactly the events that were owed |
| `EventLoop.Loop.InvokePending` | src/ev.c:3760-3781 | whatever feeds and clears the callbacks do: terminates, all queues end empty, every call is due when it is made, and nothing happens besides the calls and what their callbacks do |
| `EventLoop.Loop.TimerStart` | src/ev.c:4389-4412 | keeps all heap invariants, puts the timer on the schedule with its remaining time preserved, leaves an active timer alone |
| `EventLoop.Loop.TimerStop` | src/ev.c:4414-4443 | keeps all invariants, takes exactly this timer off the schedule, clears it and preserves its remaining time |
| `EventLoop.Loop.TimerAgain` | src/ev.c:4445-4470 | restarts the timer for its repeat interval, or stops it if there is none |
| `EventLoop.Loop.TopIsNext` | src/ev.c:3814-3818 | the root of the heap is a scheduled timer that expires first |
| `EventLoop.Loop.RescheduleTop` | src/ev.c:3818-3837 | one round: the earliest timer fires; if it repeats its new time is the old one plus the interval, or exactly now if that would be in the past, else it leaves the schedule; no other timer changes |
| `EventLoop.Loop.TimersReify` | src/ev.c:3808-3844 | fires exactly the expired timers, once each and in the order of their expiry times; a fired timer that repeats moves on by one interval, or to exactly now if it is later than that, any other leaves the schedule; all others stay where they were; terminates with nothing expired, and feeds the fired ones in reverse |
| `EventLoop.Loop.FeedReverseDone` | src/ev.c:2337-2350 | the collected watchers become pending, last one first |
| `EventLoop.FiredAreTheExpired` | src/ev.c:3814-3844 | once nothing is expired the fired timers are exactly those that were |
| `EventLoop.FiredMoveOn` | src/ev.c:3818-3837 | where such a pass leaves every timer, in plain arithmetic: unfired ones in place, repeating ones one interval on or at now, the rest gone |
| `TimerOrder.FeedsReverse` | src/ev.c:2337-2350 | the first timer to expire is fed last, so its debt is the youngest |
| `TimerOrder.YoungerDebtFirst` | src/ev.c:3760-3781 | with callbacks that do not feed, calls go by priority and, within one, youngest debt first |
| `TimerOrder.InterleaveNeverFeeds` | src/ev.c:3760-3781 | callbacks that only clear add no feed to the history of ev_invoke_pending |
| `TimerOrder.CalledInExpiryOrder` | src/ev.c:3808-3844 | in any history of timers_reify followed by ev_invoke_pending, expired timers of equal priority are called in nondecreasing order of their expiry times, through heap, reversal and stack |
| `TimerOrder.FiredCalledExactlyOnce` | src/ev.c:3760-3844 | in any such history every fired timer that no callback clears is called exactly once, with exactly the timer event |
| `TimerOrder.NeverEarly` | src/ev.c:3818-3826 | in any sequence of passes the k-th firing of a repeating timer, counted from 0, comes strictly after its first expiry time plus k intervals, however the passes fall |
| `TimerOrder.NoDrift` | src/ev.c:3822-3825 | while no pass is more than an interval late, expiry times are exact multiples of the interval |
| `TimerOrder.IntervalsIsProduct` | src/ev.c:3822 | k intervals are k times the interval |
| `TimerRun.RunTimers` | src/ev.c:3760-3844 | on the loop's own heap, schedule, queues and history: timers_reify followed by ev_invoke_pending fires exactly the expired timers and leaves nothing pending; if no callback feeds, expired timers of equal priority that were not pending are called in the order of their expiry times, and each that no callback clears exactly once, for the timer event |
| `TimerRun.PassKeepsPromises` | src/ev.c:3760-3844 | any history that the contracts of the two methods allow has these two properties: expiry order within a priority, and one timer call for each fired timer that was not pending and is not cleared |
| `TimerRun.StartAndRun` | src/ev.c:3808-3844 | after ev_timer_start of a repeating timer, over any number of loop iterations at any times, with other timers started, stopped and rearmed between them and callbacks that feed and clear: in each it fires iff it is expired, is then fed, is never early and, while no iteration is an interval late, does not drift; after an iteration more than an interval late it fires in the next one iff time has gone on at all |
| `TimerRun.RunKeepsTime` | src/ev.c:3818-3826 | the timing half of that, for every run of passes that follows the iterations |
| `Periodic.EvFloor` | src/ev.c:1906-1940 | in exact arithmetic the recursive replacement is the mathematical floor, for every real, and terminates |
| `Periodic.PeriodicRecalc` | src/ev.c:3848-3871 | terminates with at - interval <= now < at, a whole number of intervals after the last point not after now of the grid from offset whose step is the interval or, if that is smaller, the minimum |
| `Periodic.LeastAfterNow` | src/ev.c:3848-3871 | that time is the least point of the grid strictly after now |
| `Periodic.RecalcIsFirst` | src/ev.c:3848-3871 | for an interval that is not below the minimum, the result is on the grid of offset and interval, after now, and no point of that grid after now is smaller |
| `Periodic.PassStep` | src/ev.c:3880-3908 | firing the earliest expired periodic leaves it out of reach of this pass |
| `Periodic.PeriodicsReify` | src/ev.c:3873-3913 | on the heap array: with reschedule callbacks that never answer with the past, fires exactly the expired periodics, once each, in order; afterwards a fired one is at its callback's answer, or at the first point of the grid of its own offset and interval after now (for an interval below the minimum, at the time PeriodicRecalc states), or gone if it has neither, and every other one is where it was; clears those it stops, feeds all in reverse, keeps heap and queues valid and terminates |
| `Periodic.PeriodicsReschedule` | src/ev.c:3917-3937 | after a clock jump every periodic has its callback's answer, or the first point of the grid of its own offset and interval after now (for an interval below the minimum, the time PeriodicRecalc states), or if it has neither its old time; the rebuilt heap is valid, and nobody is lost or added |
| `FdInterest.FdLoop.FdChange` | src/ev.c:2476-2490 | flags the fd and queues it unless it is queued: flagged fds and the list agree, without duplicates |
| `FdInterest.FdLoop.WlistAdd` | src/ev.c:4260-4264 | the watcher becomes the head; all lists stay well linked and hold exactly the active watchers |
| `FdInterest.FdLoop.WlistDel` | src/ev.c:4267-4279 | exactly this watcher leaves its list; all lists stay well linked |
| `FdInterest.FdLoop.IoStart` | src/ev.c:4336-4363 | keeps lists, change list, anfds and backend in agreement and puts the watcher at the head of its list |
| `FdInterest.FdLoop.IoStop` | src/ev.c:4366-4387 | asks the pending queues to clear the watcher, active or not, removes exactly this watcher from its list and keeps the agreement |
| `FdInterest.FdLoop.Collect` | src/ev.c:2455-2456 | the loop over the list yields READ iff some watcher on it wants READ, and WRITE iff some watcher on it wants WRITE |
| `FdInterest.FdLoop.FdReify` | src/ev.c:2396-2473 | afterwards the list is empty and for every fd, READ is in its anfds events, and asked of the backend, iff some active watcher of the fd wants READ; likewise WRITE |
| `FdInterest.WantedIsUnion` | src/ev.c:2455-2456 | the union of the masks of a list has a bit iff some watcher of the list wants it |
| `FdInterest.MatchingExactly` | src/ev.c:2362-2376 | a watcher is fed for an event iff it is on the list and wants some of it, and then with exactly the bits that it wants and that happened |
| `FdInterest.MatchingInOrder` | src/ev.c:2362-2376 | and the watchers are fed in the order of the list, each once |
| `FdInterest.KillingExactly` | src/ev.c:2491-2504 | killing an fd clears each watcher of its list and then feeds it READ, WRITE and the error bit, in the order of the list |
| `FdInterest.FdLoop.FdEvent` | src/ev.c:2362-2387 | an event is fed to exactly the watchers of the fd that want part of it, or to nobody while the fd is flagged |
| `FdInterest.FdLoop.FdKill` | src/ev.c:2491-2504 | stops every watcher of the fd and tells each so, head first, until the list is empty; no other fd is touched |
| `FdInterest.FdLoop.PollPoll` | src/unix/ev_poll.c:91-132 | scan and delivery together: exactly the fds with a result are dealt with, each as its result says, fed or killed, independently of the others |
| `PollBackend.Poll.PollModify` | src/unix/ev_poll.c:54-89 | polls and pollidxs stay inverse to each other, the fd gets exactly its new mask, every other fd keeps its own, through appending and swap-removal |
| `PollBackend.Poll.Scan` | src/unix/ev_poll.c:110-132 | stops after as many results as poll announced and reports exactly the entries that have one, as events or as invalid |
| `PollBackend.ReportedExactly` | src/unix/ev_poll.c:110-132 | every fd with a result is reported once: as invalid if that bit is set, otherwise as readable iff POLLIN, POLLERR or POLLHUP is set and as writable iff POLLOUT, POLLERR or POLLHUP is |
| `SelectBackend.Select.SelectModify` | src/unix/ev_select.c:106-136 | with or without growth the bits of fd are exactly its new mask and no other bit changes |
| `SelectBackend.Switched` | src/unix/ev_select.c:109 | oring in the mask of a bit, or anding with its complement, changes that bit of a 64-bit word and no other |
| `SelectBackend.Put` | src/unix/ev_select.c:128-134 | setting and then clearing one bit sets it as wanted and touches no other of any fd |
| `SelectBackend.Select.Scan` | src/unix/ev_select.c:246-269 | the scan by words and bits, skipping zero words, yields the descending list of fds with bits |
| `SelectBackend.ScannedExactly` | src/unix/ev_select.c:246-269 | every ready fd is reported exactly once with exactly its events |
| `SelectBackend.ScannedBits` | src/unix/ev_select.c:246-269 | an fd is reported as readable iff its bit of the first vector is set and as writable iff its bit of the second is, and not at all if neither is |
| `EpollCache.Epoll.EpollModify` | src/unix/ev_epoll.c:70-141 | every registration with a nonzero mask that the kernel takes leaves the current file's entry with exactly that mask and the current generation, whatever the kernel's table held before; a refused file is listed as always ready, an fd that cannot be added is killed and keeps its generation; removals send nothing |
| `EpollCache.Epoll.HandleEvent` | src/unix/ev_epoll.c:166-216 | events of older generations are dropped, wanted ones passed on, unwanted ones repair the kernel's entry or show that there is none |
| `EpollCache.Epoll.HandleEvents` | src/unix/ev_epoll.c:166-224 | every event of a batch is either passed on, in order and as it came, or makes the backend rebuild its epoll fd: passed on are the current ones that have nothing unwanted or still find their entry; afterwards the kernel's entry of every fd whose events showed it to be out of date is exactly what is wanted, or gone if nothing is, and every other entry is as before |
| `EpollCache.Epoll.PollEperms` | src/unix/ev_epoll.c:226-240 | the loop with swap-removal over the refused fds reports every one that is still wanted, keeps it listed and clears the mark of the others |
| `EpollCache.SynthesizedExactly` | src/unix/ev_epoll.c:226-240 | what it reports are exactly the wanted events of the listed fds that are marked as refused |
| `EpollCache.Epoll.Reopen` | src/unix/ev_epoll.c:40-64 | the cache invariants survive an fd number being closed and reopened as a new file, with or without its old entry staying behind |
| `EpollCache.Epoll.ArmedIsExact` | src/unix/ev_epoll.c:70-141 | a registered fd is known to the kernel with exactly the wanted events and the current generation |
| `EpollCache.Epoll.StaleIsDropped` | src/unix/ev_epoll.c:183-190 | while the current file is registered, an entry of a file that left the fd number has an older generation, told apart in 32 bits unless 2^32 registrations lie between |
| `Bits.MaskIsRemainder` | examples/cpp/spsc_ring.hpp:42 | masking with a power of two less one is the remainder |
| `Bits.Pow2Test` | examples/cpp/spsc_ring.hpp:20 | the static assertion on the capacity holds exactly for powers of two |
| `SpscRing.SlotIsRemainder` | examples/cpp/spsc_ring.hpp:42-49 | across index wrap-around both chunks of a copy use stream position modulo capacity |
| `SpscRing.InvAlways` | examples/cpp/spsc_ring.hpp:27-82 | over every interleaving of push and pop with stale index reads: indices count bytes, unread bytes are in place, copies in progress are sound |
| `SpscRing.FirstInFirstOut` | examples/cpp/spsc_ring.hpp:27-88 | what was popped is always a prefix of what was pushed, the ring never holds more than its capacity, and the index difference is what it holds |
| `SpscRuns.StoreTailPublishes` | examples/cpp/spsc_ring.hpp:37-47 | in every reachable state whose producer has copied all its data, storing the tail appends exactly that data to what was pushed, and the tail is the number of bytes pushed in 32 bits |
| `SpscRuns.StoreHeadTakes` | examples/cpp/spsc_ring.hpp:71-83 | in every reachable state whose consumer has copied all it takes, storing the head appends exactly the next bytes of the stream to what was popped |
| `SpscRuns.PushedAreTheCompleted` | examples/cpp/spsc_ring.hpp:27-48 | over every interleaving, what was pushed is the concatenation of the data of exactly the pushes that were accepted and have stored the tail |
| `SpscRuns.SoloPush` | examples/cpp/spsc_ring.hpp:27-48 | from every reachable state, a push that runs without interruption publishes all its bytes if they fit and changes nothing otherwise |
| `SpscRuns.SoloPop` | examples/cpp/spsc_ring.hpp:51-83 | from every reachable state, a pop that runs without interruption takes the next min(len, held) bytes of the stream |
| `SpscRing.CopiesNeverCollide` | examples/cpp/spsc_ring.hpp:45-77 | no slot is written while its byte is unread or being read |
| `SpscRing.CopiesStayInside` | examples/cpp/spsc_ring.hpp:45-77 | every byte of a copy in progress has a slot inside the buffer |
| `SpscRing.RefusedIffFull` | examples/cpp/spsc_ring.hpp:37-40 | a push is refused exactly when the bytes do not fit at the moment it looks |
| `SpscRing.EmptyIffNothingPushed` | examples/cpp/spsc_ring.hpp:59-69 | a pop that sees a current tail finds nothing exactly when there is nothing, and otherwise takes as much as was asked for and is there |
| `SpscRing.Ring.Push` | examples/c/uart-hsm/spsc_queue.h:146-182 | run alone, appends all bytes or, if they do not fit or there are none, nothing |
| `SpscRing.Ring.Pop` | examples/c/uart-hsm/spsc_queue.h:192-234 | run alone, removes and returns the first min(len, held) bytes and writes nothing behind them |
| `Crc.TableIsBits` | examples/cpp/uart_protocol.hpp:27-60 | every table entry is eight shift steps of its index with the generator |
| `Crc.CrcIsRemainder` | examples/cpp/uart_protocol.hpp:62-77 | the table-driven CRC of any byte string is the remainder of the string times x^16 divided by x^16 + x^12 + x^5 + 1 over GF(2) |
| `Crc.ComputeCrc16` | examples/cpp/uart_protocol.hpp:62-77 | the loop computes that CRC, and 0 for a null pointer |
| `Crc.LowBytesPermute` | examples/cpp/uart_protocol.hpp:27-60 | no two table entries have the same low byte |
| `Crc.StepInjective` | examples/cpp/uart_protocol.hpp:70-71 | different registers stay different whatever byte follows |
| `Crc.TwoStepsInjective` | examples/cpp/uart_protocol.hpp:70-71 | from one register, two bytes are determined by the register after them |
| `Crc.BurstDetected` | examples/cpp/uart_protocol.hpp:62-77 | messages of any length that differ only within two adjacent bytes have different CRCs |
| `Crc.DivideLinear` | examples/cpp/uart_protocol.hpp:62-77 | the division is linear: the remainder of a sum is the sum of the remainders |
| `Crc.BitBurstDetected` | examples/cpp/uart_protocol.hpp:62-77 | messages of any length that differ only within any sixteen consecutive bits have different CRCs |
| `Crc.LastByteDifference` | examples/cpp/uart_protocol.hpp:70-71 | changing the last byte changes the CRC by the table entry of the change |
| `Crc.ByteEntries` | examples/cpp/uart_protocol.hpp:27-60 | the only table entries below 256 are those of 0 and 0x89 |
| `UartFrame.BuildFrame` | examples/cpp/uart_protocol.hpp:79-110 | writes exactly the frame and nothing behind it, also for null buffers and null data |
| `UartFrame.Layout` | examples/cpp/uart_protocol.hpp:79-110 | the built frame byte by byte: 0xAA, the length of class, command and data in two bytes, those, the CRC of those in two bytes, 0x55 |
| `UartFrame.CrcValue` | examples/cpp/hsm_parser.hpp:263 | a CRC survives its two bytes |
| `UartParser.ArrivedFrame` | examples/cpp/hsm_parser.hpp:104-142 | a frame of accepted length with any content and trailer ends in Idle and is delivered iff its last byte and its CRC are right; otherwise exactly one error is counted |
| `UartParser.RoundTrip` | examples/cpp/uart_protocol.hpp:79-110 | the parser undoes the builder for every accepted length |
| `UartParser.StreamRoundTrip` | examples/cpp/hsm_parser.hpp:313-329 | any list of built frames with noise between them yields exactly those frames in order, one sync error per noise byte and no other error |
| `UartParser.SplitDoesNotMatter` | examples/cpp/hsm_parser.hpp:320-329 | however put_data calls cut the stream, the parser ends in the same state |
| `UartParser.LengthRejected` | examples/cpp/hsm_parser.hpp:184-187 | a built frame passes the length guard iff it has not 254 or 255 data bytes; those count one length error |
| `UartParser.CorruptionCaught` | examples/cpp/hsm_parser.hpp:260-281 | a built frame whose payload is altered within two adjacent bytes is never delivered: one CRC error, back in Idle |
| `UartParser.BitBurstCaught` | examples/cpp/hsm_parser.hpp:260-281 | nor is one whose payload is altered within any sixteen consecutive bits |
| `UartParser.BoundaryBurst` | examples/cpp/uart_protocol.hpp:104-107 | a change of the last data byte and the first CRC byte goes unnoticed iff it changes nothing or flips exactly 0x89 and 0xA1 |
| `UartParser.BoundaryBurstExample` | examples/cpp/uart_protocol.hpp:104-107 | such a change exists |
| `UartBuffers.BuffersSuffice` | examples/cpp/hsm_parser.hpp:184-246 | for every byte stream from Idle: some byte is stored behind the end of a buffer iff somewhere at the start of a frame a length with an accepted low byte and a value above 258 is followed by more than 258 bytes |
| `UartBuffers.LengthBeyondBuffer` | examples/cpp/hsm_parser.hpp:238-246 | after any such length and 256 data bytes the data buffer is full and the next byte is stored behind it, and not before |
| `UartBuffers.OverflowExample` | examples/cpp/hsm_parser.hpp:238-246 | AA 03 01, class, command and 257 data bytes |
| `UartBuffers.SmallLengthsSuffice` | examples/cpp/hsm_parser.hpp:221-246 | from any point of a stream, without a declared length above 258 the next buffer index written is always inside |
| `Hsm.ChainStep` | examples/cpp/hsm.hpp:120-157 | for a topology that passes validation every state's chain is its parent's chain and itself |
| `Hsm.TransitionReplays` | examples/cpp/hsm.hpp:203-247 | replaying the trace of any transition as pops and pushes takes the root-to-leaf chain of the old leaf to that of the new one |
| `Hsm.TransitionActs` | examples/cpp/hsm.hpp:203-247 | what a transition does to the context, on the actions the states were declared with: the exit actions of the active states below the pivot, innermost first, its own action, and the entry actions of the new states, outermost first; an internal one runs its own action only |
| `Hsm.DescendsByInitialChildren` | examples/cpp/hsm.hpp:272-288 | the initial leaf has no initial child, and every state on the way to it is the initial child of the one before |
| `Hsm.RunBegins` | examples/cpp/hsm.hpp:67-76 | the entries of an init replay to the initial leaf from nowhere, and never after a run that left a state active |
| `Hsm.LcaIsDeepest` | examples/cpp/hsm.hpp:170-183 | the state whose chain is the longest common prefix is below every common ancestor |
| `Hsm.Engine.FindLca` | examples/cpp/hsm.hpp:170-183 | the climbing loops find that state |
| `Hsm.Engine.FindTransition` | examples/cpp/hsm.hpp:185-201 | finds the first enabled entry of the table for the state, or none |
| `Hsm.Engine.AncestorAtDepth` | examples/cpp/hsm.hpp:159-168 | finds the ancestor whose chain has the given length |
| `Hsm.Engine.ExitToLca` | examples/cpp/hsm.hpp:249-258 | exits exactly the active states below lca, innermost first, and runs their exit actions in that order |
| `Hsm.Engine.EnterPath` | examples/cpp/hsm.hpp:260-270 | enters exactly the states below lca down to the target, outermost first |
| `Hsm.Engine.EnterInitialDescendants` | examples/cpp/hsm.hpp:272-288 | descends to the initial leaf, which every chain of initial children reaches; its assertion on the number of hops holds iff the leaf is at most max_depth hops below |
| `Hsm.Engine.Init` | examples/cpp/hsm.hpp:67-76 | enters the whole chain of the initial leaf, whatever is active: nothing is exited, and the trace since this init replays to the leaf; an initial state out of range changes nothing |
| `Hsm.Engine.ExecuteTransition` | examples/cpp/hsm.hpp:203-247 | exits below the deepest common proper ancestor, acts, enters down to the initial leaf; the trace since the last init still replays to the current chain |
| `Hsm.Engine.Dispatch` | examples/cpp/hsm.hpp:78-106 | handled iff some ancestor-or-self within max_depth hops has an enabled transition; executed is the first enabled entry of the innermost such state; otherwise nothing changes |
| `HsmPointers.Machine.PerformTransition` | examples/c/hsm.c:38-93 | exits up to the deepest common ancestor-or-self and enters from there, or re-enters the same state, applying the exit and entry actions in that order; the trace since the last init replays to the current chain |
| `HsmPointers.PerformedActs` | examples/c/hsm.c:38-93 | what that does to the context, on the actions the states were declared with: exit and entry action of the one state, or the exit actions up to the deepest common ancestor-or-self and the entry actions down to the target |
| `HsmPointers.PathSuffices` | examples/c/hsm.c:72-91 | a path array of n entries holds every entry path iff no chain is longer than n |
| `HsmPointers.Machine.Lca` | examples/c/hsm.c:24-36 | the unguarded climbing loop meets at the longest common prefix |
| `HsmPointers.Machine.Init` | examples/c/hsm.c:131-138 | forgets any current state without exiting it and enters the whole chain of the initial state with its entry actions |
| `HsmPointers.Machine.Dispatch` | examples/c/hsm.c:95-129 | handled iff some active state's table has an entry for the event whose guard passes; taken is the first such entry of the innermost such state, its action applied before the exits and entries; otherwise nothing changes |
| `HsmPointers.Machine.IsIn` | examples/c/hsm.c:140-154 | true exactly for the active states |
| `HsmParser.FirstRow` | examples/cpp/hsm_parser.hpp:104-142 | which row of the transition table a byte takes in every state |
| `HsmParser.RowDoes` | examples/cpp/hsm_parser.hpp:104-142 | that row's target and action are what the parser's step says |
| `HsmParser.Parser.PutByte` | examples/cpp/hsm_parser.hpp:313-318 | the table run by the engine does exactly the parser's step |
| `HsmParser.Parser.PutData` | examples/cpp/hsm_parser.hpp:320-329 | feeds all bytes in order; a null pointer is ignored |
| `HsmParser.Parser.Init` | examples/cpp/hsm_parser.hpp:304-311 | starts in Idle with cleared statistics and frame, also from the middle of a frame |

## Left out

- Wakeup: creating the pipe, so `ev_async_send` before the first watcher is not covered; weak memory (the fences are taken to give sequential consistency); fork.
- Wakeup: the number of asyncs scanned is one per step, and other watchers that may end a poll are the step in which the poll returns without the pipe being readable.
- EventLoop: event masks are sets of bits, the dummy watcher is null, the collecting array of timers_reify is a local variable because it is empty outside it, and a callback is a finite list of feeds and clears.
- EventLoop: the index of a stopped timer is reset before the heap is repaired, which does not look at it; the array is grown before a started timer gets its index.
- EventLoop: idle, prepare, check, fork, cleanup, child, stat and embed watchers, whose arrays repeat the swap-removal of PollBackend or need no ordering.
- TimerOrder.CalledInExpiryOrder: for callbacks that may clear but do not feed, as the order is only promised then; the same holds for the order in TimerRun.RunTimers.
- TimerRun.StartAndRun: callbacks do not start or stop timers themselves; what happens to other timers happens between two iterations. timers_reschedule after a jump of the clock is not part of the model.
- EventLoop.Loop.constructor: ev_verify's checks of periodics, fds and the other watcher arrays are stated in the modules of those, not of one loop.
- Periodic.PeriodicsReify: the heap of periodics is that of a Loop object of its own.
- Periodic: IEEE rounding, and with it the branches of ev_floor and periodic_recalc for numbers too large to change.
- FdInterest: fd_ebadf, fd_enomem, fd_rearm_all and the Windows socket branch of fd_reify; a watcher's fd and events do not change while it is active. What ev_io_stop, fd_event and fd_kill ask of the pending queues is recorded as a list of calls.
- PollBackend.Poll.Scan: the assertion that poll finds no invalid fd is taken to be compiled out.
- SelectBackend: the fd_set and Windows branches.
- EpollCache: the event bits of epoll_wait, which become READ and WRITE as those of poll do in PollBackend; fds that refer to no file, rebuilding the kernel's table after `postfork`, and growing the event array.
- EpollCache.Epoll.EpollModify: a killed fd is recorded; what fd_kill does is FdInterest.FdLoop.FdKill. The list of refused fds can hold an fd twice when a failing epoll_wait keeps it from being cleaned.
- EpollCache.Epoll.HandleEvent: a registration's count is kept unbounded and compared as 32 bits; an event sent back to the kernel carries the current count, which has the same 32 bits.
- SpscRing: data_len called by a third thread, whose two loads belong to different moments.
- UartParser: the reset and timeout signals, which the parser class never sends; frame buffers are the bytes received so far, so data behind them is not modelled.
- UartBuffers.BuffersSuffice: what the parser does after a byte has been stored outside is undefined in the program; the model goes on as if the buffers had room.
- HsmPointers: actions and guards see the event as part of the context, and the path array is assumed as long as the forest is deep, which PathSuffices shows to be needed.
- Hsm.Engine.EnterInitialDescendants: the assertion is recorded and the descent goes on, as when assertions are compiled out.
- Hsm: dispatch called from an action.
- examples/c/uart-hsm/state_machine.c: its initialisation runs no entry action, so the configuration property does not hold for it.
- kqueue, port, linuxaio, io_uring and Windows backends, the C++ wrappers, the other demos and the embedded libecb.
