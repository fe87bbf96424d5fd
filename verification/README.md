# Verified models of the C snippets

A Dafny 4.11 model of the seven programs of this repository whose correctness is not obvious from
reading one function: three concurrent protocols, a ring buffer, an intrusive list, a state machine
and a recursive base conversion. `dafny verify dfyconfig.toml` checks everything.

| file | program | form of the model |
|---|---|---|
| `OrderedThreads.dfy` | `conditional_wait` | step relation over any number of threads, and a class whose methods execute a thread's loop |
| `LockCoupling.dfy` | `async_UDP_multithread`, list walk and handlers | step relation over any number of agents and connections, with datagrams arriving at any time |
| `SocketOrder.dfy` | `async_UDP_multithread`, what handlers hand over | theorems about the same runs: callbacks, outcomes, determinacy |
| `FindConnection.dfy`, `UdpHandler.dfy` | `async_UDP_multithread`, the search and the handler | the code as methods that are runs of the step relation |
| `UdpDrain.dfy` | `async_UDP_multithread`, the receive loop | methods over a socket object and a byte array |
| `NotifyOnce.dfy` | `async_posix_message_queues_SIGEV_THREAD` | step relation over senders, queue and handler threads, and a class whose method is the handler |
| `RingBuffer.dfy` | `ring_buffer` | a class over a byte array, refining a bounded FIFO |
| `IntrusiveList.dfy`, `ListHistory.dfy` | `linked_list_advanced` | heap nodes with a ghost ring, and histories of calls |
| `StateRegistry.dfy`, `StateMachine.dfy` | `state_machine` | a class over a linked list, against a registry and a trace on values |
| `BaseConversion.dfy` | `recursive_function` | methods over a character array |
| `CTypes.dfy` | | bytes, `size_t`, `ssize_t`, `unsigned int` |

## How the concurrent programs are modelled

A state holds the shared variables and, for each thread, the statement it executes next. `Step` executes
one statement of one thread; `Enabled` says when that is possible (a lock operation needs a free lock).
A run is any sequence of enabled steps, so every interleaving is covered, and theorems quantify over all
runs from the initial state.

* `OrderedThreads.Step` follows conditional_wait/src/main.c:40-50 (and 94-103 for the last thread, which does
  not increment). Waiting releases the mutex and blocks in one step, a broadcast unblocks every waiter, an
  unblocked thread must take the mutex again, and a waiter may be unblocked spuriously at any time, as
  pthread_cond_wait and pthread_cond_broadcast are described in chapter 3 of System Interfaces, IEEE Std
  1003.1-2017.
* `LockCoupling.Step` follows async_UDP_multithread/src/main.c:94-121 for a call of `findConnection` and 174-192
  for a whole handler, whose every lock operation, recv and callback is a step of its own. Kinds other than TCP
  and UDP return from inside the switch with both locks held, as the code does; the pc `Leaked` stands for that.
  A handler whose search returned NULL dereferences it at line 177, before the check at 179: it steps to `Crashed`,
  the process is dead and no step is enabled any more. The state holds, for each connection, the datagrams that
  have arrived, how many recv has taken, the buffer, and the callbacks made.
* `NotifyOnce.Step` follows async_posix_message_queues_SIGEV_THREAD/src/main_server.c:79-88 for a handler and
  174 for a sender. A registration is consumed, and a handler started, when a message arrives at an empty
  queue (mq_notify in the same chapter). The queue may hold messages when it is opened, because mq_open is
  called with O_CREAT alone.

The C functions themselves appear beside the step relations as imperative methods (`Program.Pass`,
`Program.Retry`, `Connections.FindConnection`, the two servers' `Handle` and `SigHandler`) over the shared variables,
and are proved to be runs of the step relation in which only their own thread moves.

## What the theorems say about the code

* The ordered threads never deadlock, lose no wakeup, end after a number of steps bounded by the number of
  threads and of spurious wakeups, and print 1..n.
* The lock coupling is free of deadlock exactly when the list is empty, or at most one agent runs, or every
  agent asks for TCP or UDP. The process can crash exactly when some handler's descriptor belongs to no UDP
  connection in the list, as with a SIGIO that another process raised.
* However many handlers drain one socket, its callbacks get its datagrams once each, in socket order. With TCP and
  UDP agents and registered handlers, all complete interleavings of a given set of datagrams end in the same
  state, down to buffers, callbacks and datagrams left over.
* The receive loop never runs two handlers of one queue at once, never receives from an empty queue and never
  fails to register again; but everything sent is received exactly when the queue was opened empty and no
  message was sent between a notification and the handler's re-registration. Otherwise the server goes deaf.
* The text the k-th message callback prints is its message exactly when no earlier message was longer, and a UDP
  callback sees a datagram intact exactly when it fits and already ends in a zero byte.
* The ring buffer is a bounded drop-oldest FIFO; `rbuf_size` is right for every capacity that `size_t` can
  express, since its conversions are all modulo 2^64. A buffer of no items can be made, but not put to.
* ll.h:47 stores `next` where `prev` is meant. The forward ring survives a deletion exactly when the deleted
  member's own back link was not damaged by an earlier one, and `ll_add_tail` works exactly at undamaged members.
  Damage can be told from the calls alone: a member is damaged exactly when it is not alone and got the neighbour
  before it by a deletion. So the links follow the order that the calls mean exactly over those histories in which
  no `ll_del` and no `ll_add_tail` is made at such a member.
* sm.c:50 labels the predecessor of the new node: the ID that `addState` returns names the state added before,
  the first ID names nothing, and the newest state answers to ID 0 and cannot be deleted.
* sm.c:111 tests the address of `smInit`, so `current` stays NULL and the first pass of the loop dereferences it,
  whatever is registered. Started as evidently intended, a pass fails exactly when the current state has been
  deleted or the request names no state.
* `anybase` is injective exactly up to base 19, because `G` stands for 16 and 19, and a text decodes to its number
  exactly when 19 is none of the digits; `D` and `E` are swapped and zero is
  printed as the empty string, so the text is the conventional one exactly for positive numbers without a digit
  13, 14 or 19.

## Model

| member | source | states |
|---|---|---|
| `OrderedThreads.StepKeepsInv` | conditional_wait/src/main.c:37-106 | every statement of every thread, and every spurious wakeup, keeps the invariant that ties program counters, mutex owner, count and output together; count never decreases and output only grows |
| `OrderedThreads.OutputInOrder` | conditional_wait/src/main.c:41-46 | in every reachable state the output is a prefix of 1..n and count is between 1 and n |
| `OrderedThreads.MutualExclusion` | conditional_wait/src/main.c:40-50 | no two threads are between taking and releasing the mutex |
| `OrderedThreads.NoLostWakeup` | conditional_wait/src/main.c:43-49 | a thread that waits although it is its turn has its predecessor on the way to the broadcast |
| `OrderedThreads.NoDeadlock` | conditional_wait/src/main.c:37-106 | in every reachable state all threads have returned or one can execute its next statement, without counting spurious wakeups |
| `OrderedThreads.StepDecreasesMeasure` | conditional_wait/src/main.c:39-51 | each statement lowers the termination measure, a spurious wakeup raises it by exactly 7 |
| `OrderedThreads.RunBound` | conditional_wait/src/main.c:39-51 | a run of n threads with k spurious wakeups has at most n(7n+6)+8k steps |
| `OrderedThreads.MaximalRunPrintsAll` | conditional_wait/src/main.c:91-106 | a run that cannot go on has every thread returned, printed exactly 1..n, freed the mutex and left count at n |
| `OrderedThreads.CanAlwaysFinish` | conditional_wait/src/main.c:37-106 | from every reachable state the program can complete without any spurious wakeup |
| `OrderedThreads.FourThreads` | conditional_wait/src/main.c:22-35 | the program's four threads: output is a prefix of, and in the end equal to, 1,2,3,4, within 136 steps plus 8 for each spurious wakeup |
| `OrderedThreads.BroadcastWakesAll` | conditional_wait/src/main.c:45 | a broadcast leaves no thread waiting, wakes every thread that was, and touches nothing else but its own return |
| `OrderedThreads.BlockedUntilWoken` | conditional_wait/src/main.c:45-49 | a waiter is unblocked by a broadcast or its own spurious wakeup and by nothing else; threads that do not move otherwise stay where they are |
| `OrderedThreads.AnyScheduleIff` | conditional_wait/src/main.c:39-51 | after any run the scheduler may pick exactly the threads that neither wait, nor have returned, nor want a mutex that is taken; and any waiter may be woken spuriously |
| `OrderedThreads.Program.Pass` | conditional_wait/src/main.c:39-51 | the loop body, executed alone, is a run of the step relation by that thread only; it returns exactly when count is its number, having printed, counted on and unblocked every waiter, and otherwise ends waiting with nothing else changed |
| `OrderedThreads.Program.TakeTurn` | conditional_wait/src/main.c:42-46 | print, increment unless last, unlock, broadcast and return are such a run, with the output, the count, the free mutex and every other thread given: the waiters woken, the rest where they were |
| `OrderedThreads.Program.Resume` | conditional_wait/src/main.c:48-49 | a woken thread's return from the wait and its unlock are such a run; it is back at the loop head, and mutex, count, output and the other threads are as before |
| `OrderedThreads.Program.Retry` | conditional_wait/src/main.c:39-51 | from the wakeup on, a thread executed alone comes back to the test and returns exactly when count is its number by then, and otherwise waits again |
| `LockCoupling.StepKeepsInv` | async_UDP_multithread/src/main.c:90-122 | every step keeps lock ownership equal to what the agents hold and keeps what each has established about the list |
| `LockCoupling.LocksExclusiveAndAdjacent` | async_UDP_multithread/src/main.c:94-120 | no lock has two holders, and an agent's locks are at adjacent positions |
| `LockCoupling.SearchIsCorrect` | async_UDP_multithread/src/main.c:95-121 | under every interleaving a TCP/UDP search that has returned a connection has the first one in the list with that kind and descriptor, and one that has returned NULL was for a kind and descriptor that none has |
| `LockCoupling.FirstMatchInFields` | async_UDP_multithread/src/main.c:97-106 | the first match is the first connection whose type and descriptor both are the ones asked for |
| `LockCoupling.AnyScheduleIff` | async_UDP_multithread/src/main.c:90-193 | after any run that has not crashed exactly the agents that have not returned and are at no lock that is taken may move, and a datagram may arrive at any connection |
| `LockCoupling.NoOvertaking` | async_UDP_multithread/src/main.c:94-120 | of two agents that keep holding locks, the one behind stays behind over every run |
| `LockCoupling.FrontsDiffer` | async_UDP_multithread/src/main.c:94-120 | two active agents are always at different positions |
| `LockCoupling.ChainReachesMover` | async_UDP_multithread/src/main.c:95-96 | following who waits for whom from any walker ends at an agent that can move |
| `LockCoupling.SafeNeverDeadlocks` | async_UDP_multithread/src/main.c:170-193 | any number of TCP/UDP searches and handlers never deadlock: when no agent can move, all have finished or the process has crashed |
| `LockCoupling.LeakBlocksEveryone` | async_UDP_multithread/src/main.c:107-115 | three steps of a search for another kind leave everyone else stuck for ever |
| `LockCoupling.NeverDeadlocksIffSafe` | async_UDP_multithread/src/main.c:90-122 | freedom from deadlock, crashes apart, holds if and only if the list is empty, at most one agent runs, or all ask for TCP/UDP |
| `LockCoupling.LoneHandlerCrashes` | async_UDP_multithread/src/main.c:174-179 | a handler for an unregistered descriptor that runs before the others walks the whole list and takes the process down |
| `LockCoupling.CrashesIffUnregistered` | async_UDP_multithread/src/main.c:174-179 | some schedule crashes the process if and only if some handler's descriptor is that of no connection of type UDP in the list |
| `LockCoupling.RunBound` | async_UDP_multithread/src/main.c:90-193 | no interleaving takes more steps than the agents' own budgets, twice the datagrams queued at the start and three times those that arrive add up to |
| `SocketOrder.ArrivedInOrder` | async_UDP_multithread/src/main.c:183-184 | over every run a socket has had the datagrams that were queued, followed by those that arrived at it, in the order of their arrival |
| `SocketOrder.CallbacksInSocketOrder` | async_UDP_multithread/src/main.c:181-192 | in every state of every interleaving, with any number of handlers, a connection's callbacks are those of the datagrams queued and then arriving at its socket, as far as taken, once each and in order, except for the one in the hands of the lock's holder |
| `SocketOrder.MaximalRunOutcome` | async_UDP_multithread/src/main.c:174-192 | with TCP/UDP agents and registered handlers, a complete run has not crashed and ends with every lock free and every agent at the outcome the list prescribes |
| `SocketOrder.PositionsAgree` | async_UDP_multithread/src/main.c:90-193 | under the same condition, all complete runs end with the same agent positions and locks, whatever arrives |
| `SocketOrder.CanComplete` | async_UDP_multithread/src/main.c:90-193 | under the same condition, from every state that keeps the invariant the agents can complete without further datagrams |
| `SocketOrder.CallIntactIff` | async_UDP_multithread/src/main.c:183-190 | in every run the k-th callback of a connection gets the k-th datagram, in the order of arrival, that is not empty, cut to the buffer and with its last byte zeroed; unaltered if and only if it fits and ends in a zero byte |
| `SocketOrder.DatagramAltered` | async_UDP_multithread/src/main.c:183-190 | for every datagram that does not, a run in which the callback sees it altered |
| `SocketOrder.FinalChannel` | async_UDP_multithread/src/main.c:181-192 | without arrivals, a socket ends drained as far as the handlers that the agents and the list give it, one after the other, get: each stops behind the next datagram that recv returns 0 for; buffer and callbacks follow |
| `SocketOrder.AllSchedulesAgree` | async_UDP_multithread/src/main.c:90-193 | under the same condition and without arrivals, all complete interleavings end in the same whole state |
| `FindConnection.Connections.Compare` | async_UDP_multithread/src/main.c:97-116 | for TCP and UDP the switch finds a match exactly when type and descriptor of the connection are those asked for; it returns early for every other kind |
| `FindConnection.Connections.Visit` | async_UDP_multithread/src/main.c:95-119 | one pass of the loop is a run by the only agent, with the locks held afterwards for each way it can end |
| `FindConnection.Connections.FindConnection` | async_UDP_multithread/src/main.c:90-122 | the loop is a run of the step relation by one agent; it returns the first connection with that type and descriptor, or NULL if none has both, and gives back every lock; for other kinds it returns NULL with exactly the first two locks held |
| `UdpDrain.Socket.Recv` | async_UDP_multithread/src/main.c:183-184 | recv on a non-blocking datagram socket: the next datagram cut to the buffer, with the bytes behind it left alone, or -1 |
| `UdpDrain.HandOver` | async_UDP_multithread/src/main.c:185-189 | the terminator is written inside the buffer, over the last byte received, nothing else in it changes, and the callback gets those bytes |
| `UdpDrain.Drain` | async_UDP_multithread/src/main.c:183-190 | the callbacks get every datagram up to the first empty one, in order, each as Delivered says; what follows stays in the socket, and the buffer is the one those datagrams leave |
| `UdpHandler.DrainRun` | async_UDP_multithread/src/main.c:183-190 | from any state in which an agent is at the head of its receive loop, its moves alone lead to the loop's end, behind the next datagram that stops it, with nothing else changed |
| `UdpHandler.Server.Handle` | async_UDP_multithread/src/main.c:170-193 | the handler, executed alone, is a run of the step relation by that agent only, ending in the locks, socket, buffer and callbacks it leaves behind; it crashes exactly if no UDP connection has its descriptor, and otherwise touches only the first one that has |
| `UdpDrain.DeliveredIntactIff` | async_UDP_multithread/src/main.c:185-189 | a datagram reaches the callback unaltered if and only if it fits and ends in a zero byte |
| `UdpDrain.DeliveredIsDelivery` | async_UDP_multithread/src/main.c:183-189 | what is delivered of a datagram, byte by byte: what fits of it, its last byte zeroed |
| `UdpDrain.HandedInOrder` | async_UDP_multithread/src/main.c:183-190 | datagrams are handed over in order, each independently of the others |
| `UdpDrain.HandedOne` | async_UDP_multithread/src/main.c:183-184 | a datagram is left out exactly if it is empty or the buffer has no room |
| `NotifyOnce.StepKeepsInv` | async_posix_message_queues_SIGEV_THREAD/src/main_server.c:73-89 | every step of senders and handlers keeps the protocol invariant |
| `NotifyOnce.ReceiveLoopIsExclusive` | async_posix_message_queues_SIGEV_THREAD/src/main_server.c:79-88 | at any moment registered or exactly one handler before its re-registration; the receive finds a message, re-registration succeeds, the process does not exit |
| `NotifyOnce.NothingLostOrReordered` | async_posix_message_queues_SIGEV_THREAD/src/main_server.c:79-82 | received followed by queued is the backlog followed by the messages that the run's sends name, in order; callbacks made are those owed |
| `NotifyOnce.CallbacksCarryTheMessages` | async_posix_message_queues_SIGEV_THREAD/src/main_server.c:79-82 | with no handler at work, the callbacks have got every nonempty received message once, in order and intact |
| `NotifyOnce.NonemptyInOrder` | async_posix_message_queues_SIGEV_THREAD/src/main_server.c:81-82 | the messages owed a callback are picked in order, each independently of the others |
| `NotifyOnce.NonemptyOne` | async_posix_message_queues_SIGEV_THREAD/src/main_server.c:81-82 | a message is owed no callback exactly if it is empty |
| `NotifyOnce.RunSends` | async_posix_message_queues_SIGEV_THREAD/src/main_server.c:174-177 | what a run has sent is what its sends name, unaltered and in order |
| `NotifyOnce.AnyScheduleIff` | async_posix_message_queues_SIGEV_THREAD/src/main_server.c:73-89 | after any run exactly the handlers that have not finished may move, and any message may be sent while there is room |
| `NotifyOnce.DeafForEver` | async_posix_message_queues_SIGEV_THREAD/src/main_server.c:84-88 | registered with messages waiting is absorbing: no handler, no receive, and at most the remaining capacity can still be sent |
| `NotifyOnce.DeliveredIffSentWhileRegistered` | async_posix_message_queues_SIGEV_THREAD/src/main_server.c:79-88 | a run ending with no handler at work has received everything if and only if the queue was opened empty and nothing was sent while a handler was at work |
| `NotifyOnce.DeliveredIffRegisteredOnEmpty` | async_posix_message_queues_SIGEV_THREAD/src/main_server.c:84-88 | equally, if and only if it was opened empty and every re-registration found it empty |
| `NotifyOnce.SecondMessageLost` | async_posix_message_queues_SIGEV_THREAD/src/main_server.c:174-177 | two messages in quick succession leave the server deaf with the second one queued |
| `NotifyOnce.PrintsMessageIff` | async_posix_message_queues_SIGEV_THREAD/src/main_server.c:202-212 | the text in the shared buffer after a receive is the message if and only if no earlier message was longer |
| `NotifyOnce.CallPrintsIff` | async_posix_message_queues_SIGEV_THREAD/src/main_server.c:79-82 | in every run the k-th callback prints the k-th nonempty message received if and only if no nonempty message before it was longer |
| `NotifyOnce.StaleTail` | async_posix_message_queues_SIGEV_THREAD/src/main_server.c:202-212 | a run for any two messages of which the second is shorter: its callback prints it followed by the rest of the first |
| `NotifyOnce.DeliverAll` | async_posix_message_queues_SIGEV_THREAD/src/main_server.c:73-89 | any sequence of messages is received in full by some run |
| `NotifyOnce.Server.constructor` | async_posix_message_queues_SIGEV_THREAD/src/main_server.c:107-147 | after opening: zeroed buffer, registered, whatever was queued before |
| `NotifyOnce.Server.Receive` | async_posix_message_queues_SIGEV_THREAD/src/main_server.c:79 | the oldest message copied over the start of the buffer, the rest of the buffer left alone, or -1 |
| `NotifyOnce.Server.SigHandler` | async_posix_message_queues_SIGEV_THREAD/src/main_server.c:73-89 | the handler, executed alone, is a run of the step relation by that handler only; it exits the process exactly if the queue was registered already |
| `BoundedFifo.Conservation` | ring_buffer/src/rbuf.c:76-123 | over every run of put, overwriting put, get and reset, what left the queue followed by what is in it is what was accepted, in order |
| `BoundedFifo.AcceptedIsStored` | ring_buffer/src/rbuf.c:86-108 | over every run what was accepted is what the puts stored: with room, or by overwriting |
| `BoundedFifo.GotIsReturned` | ring_buffer/src/rbuf.c:111-123 | over every run what left by a get is what the gets returned, in order |
| `BoundedFifo.BurstKeepsNewest` | ring_buffer/src/rbuf.c:100-108 | after any burst of overwriting puts the queue holds the most recent items, up to capacity |
| `RingBuffer.WriteSlot` | ring_buffer/src/rbuf.c:93-94 | writing one slot changes its own bytes and no other slot, for every item size and count |
| `RingBuffer.QueueExtends` | ring_buffer/src/rbuf.c:93-95 | writing the slot behind the newest item extends the queue by that item and preserves the others byte for byte |
| `RingBuffer.QueueTail` | ring_buffer/src/rbuf.c:39-41 | advancing the oldest index drops exactly the first item |
| `RingBuffer.RingBuf.constructor` | ring_buffer/src/rbuf.c:47-63 | a new buffer is the empty FIFO of the given capacity, also when that is 0 |
| `RingBuffer.RingBuf.IncBuf` | ring_buffer/src/rbuf.c:18-33 | one more slot in use, or when full the oldest given up |
| `RingBuffer.RingBuf.DecBuf` | ring_buffer/src/rbuf.c:35-42 | the oldest slot given up, one fewer in use |
| `RingBuffer.RingBuf.Reset` | ring_buffer/src/rbuf.c:76-83 | refines the FIFO reset |
| `RingBuffer.RingBuf.Put` | ring_buffer/src/rbuf.c:86-98 | refines the FIFO put; on full it returns -1 and changes nothing |
| `RingBuffer.RingBuf.ForcePut` | ring_buffer/src/rbuf.c:101-108 | refines the overwriting put; on full it drops exactly the oldest item |
| `RingBuffer.RingBuf.Get` | ring_buffer/src/rbuf.c:111-123 | refines the FIFO get; copies out the oldest item and no more, or returns -1 and changes nothing |
| `RingBuffer.RingBuf.IsEmpty` | ring_buffer/src/rbuf.c:126-131 | true exactly on the empty queue |
| `RingBuffer.RingBuf.IsFull` | ring_buffer/src/rbuf.c:133-138 | true exactly when the queue has reached a capacity that is not 0 |
| `RingBuffer.RingBuf.Count` | ring_buffer/src/rbuf.c:141-154 | the unsigned difference kept in a signed variable is the queue length, 0 exactly when empty and a nonzero capacity exactly when full |
| `IntrusiveList.DamageIsVisible` | linked_list_advanced/include/ll.h:44-48 | a member is damaged if and only if it points back to itself without being alone, which a caller can test |
| `IntrusiveList.InitList` | linked_list_advanced/include/ll.h:15-19 | a ring of one |
| `IntrusiveList.LinkBetween` | linked_list_advanced/include/ll.h:21-29 | the four link updates of an insertion, and no other field changed |
| `IntrusiveList.SplicedIsRing` | linked_list_advanced/include/ll.h:25-28 | those links make the ring with the new member spliced in, and repair the successor's back link |
| `IntrusiveList.Add` | linked_list_advanced/include/ll.h:32-35 | the new member lands exactly after its anchor; only the new member and two neighbouring links change |
| `IntrusiveList.AddTail` | linked_list_advanced/include/ll.h:38-42 | the new member lands exactly before its anchor if and only if the anchor is undamaged; at a damaged one the two become a ring of their own |
| `IntrusiveList.PairIsInNoOtherRing` | linked_list_advanced/include/ll.h:38-42 | such a pair is part of no larger forward ring |
| `IntrusiveList.UnlinkedIsRing` | linked_list_advanced/include/ll.h:44-48 | unlinking an undamaged member leaves the ring of the others with its successor's back link damaged |
| `IntrusiveList.Del` | linked_list_advanced/include/ll.h:50-55 | nulls the member's links and points its successor's back link to the successor itself; the others form the forward ring if and only if the member was undamaged; from an intact ring the back links survive if and only if predecessor and successor coincide |
| `IntrusiveList.PointsOutside` | linked_list_advanced/include/ll.h:50-55 | a member that still points to a deleted one is in no forward ring of the others, in any order |
| `IntrusiveList.AddThenDel` | linked_list_advanced/include/ll.h:32-55 | adding and deleting restores the forward ring; only the anchor's successor loses its back link |
| `IntrusiveList.DelNeighbours` | linked_list_advanced/include/ll.h:44-55 | deleting two neighbours in turn leaves the member before them pointing to a deleted one |
| `IntrusiveList.IsEmpty` | linked_list_advanced/include/ll.h:61-64 | true exactly when the ring is the head alone |
| `ListHistory.DamageStep` | linked_list_advanced/include/ll.h:21-55 | the damaged members, as each call changes them, are those that the history of calls tells: not alone, and given their present predecessor by a deletion |
| `ListHistory.BeforeInserted` | linked_list_advanced/include/ll.h:32-42 | an insertion changes the predecessor of one member alone |
| `ListHistory.BeforeRemoved` | linked_list_advanced/include/ll.h:50-55 | a deletion changes the predecessor of the successor alone |
| `ListHistory.Do` | linked_list_advanced/include/ll.h:32-55 | after any one call the links follow the order meant if and only if the call does not rely on a damaged member's back link |
| `ListHistory.Perform` | linked_list_advanced/include/ll.h:15-55 | over every history of calls on a fresh list the links follow the order meant throughout if and only if no ll_del or ll_add_tail is made at a member that the history has spoilt; the first such call is the one that breaks them |
| `StateRegistry.RunLabelled` | state_machine/src/sm.c:35-51 | over every history that does not wrap the counter the last node carries 0 and the others strictly increasing IDs from 2 to the counter, each naming the state added one call earlier |
| `StateRegistry.FoundIffLive` | state_machine/src/sm.c:53-62 | findState(k) finds a state if and only if the k-th addState was made, is not the first, and deleteState(k) was not called since; it finds the (k-1)-th state added |
| `StateRegistry.ZeroIsNewest` | state_machine/src/sm.c:50-83 | over every history ID 0 is found if and only if anything was ever added, and names the state added last, which therefore survives every deletion |
| `StateRegistry.DeletedIdNeverReturns` | state_machine/src/sm.c:64-83 | an ID found and then deleted is never found again |
| `StateRegistry.OffByOne` | state_machine/src/sm.c:43-50 | after n additions ID k names the (k-1)-th state, ID 1 nothing, and ID 0 the last |
| `StateRegistry.ReturnedIdNamesPredecessor` | state_machine/src/sm.c:50 | the ID addState returns names the state added before |
| `TickTrace.TraceIsTheBlockedTrace` | state_machine/src/sm.c:120-131 | a run of ticks produces the one sequence of events made of blocks of runs joined by exit and enter in which each tick runs its target |
| `StateMachine.Machine.AddState` | state_machine/src/sm.c:35-51 | the linked list after addState is the registry after Add |
| `StateMachine.Machine.FindState` | state_machine/src/sm.c:53-62 | returns the node the registry's Find names, or NULL |
| `StateMachine.Machine.DeleteState` | state_machine/src/sm.c:64-83 | the linked list after deleteState is the registry after Delete, and exactly the nodes no longer in it are freed |
| `StateMachine.Machine.Start` | state_machine/src/sm.c:110-114 | with the 0 that a call of smInit returns, current and next are the first state, or there is none; with the function's address, as written, both stay NULL |
| `StateMachine.Machine.FirstPass` | state_machine/src/sm.c:110-131 | the task as written crashes in its first pass, whatever is registered and requested |
| `StateMachine.CalledTick` | state_machine/src/sm.c:121-131 | one more tick adds the exit callback of the state left and the enter callback of the new one, if the state changes, and the run callback, each if it is not NULL |
| `StateMachine.Machine.Dispatch` | state_machine/src/sm.c:120-131 | the exit, enter and run callbacks one pass makes, in that order and each exactly if the state has it, and that it follows a bad pointer exactly when current or next is NULL or freed |
| `StateMachine.Machine.Tick` | state_machine/src/sm.c:117-131 | over every sequence of ticks the callbacks made are those of the trace of the requested states, this tick's given field by field; it crashes exactly without a current state, on one that has been deleted, or on an unregistered request |
| `BaseConversion.ValueOfDigits` | recursive_function/src/main.c:10-13 | the digits denote the number |
| `BaseConversion.DigitCount` | recursive_function/src/main.c:8-16 | b^(k-1) <= n < b^k for the k digits of n > 0 |
| `BaseConversion.Digits` | recursive_function/src/main.c:8-16 | every digit is below the base and the leading one is not zero |
| `BaseConversion.FitsIn31` | recursive_function/src/main.c:5-16 | a nonnegative 32-bit int has at most 31 digits |
| `BaseConversion.AlphabetClash` | recursive_function/src/main.c:6 | only digits 16 and 19 share a character |
| `BaseConversion.RoundTripIff` | recursive_function/src/main.c:6-16 | in every base from 2 to 36 the text decodes to the number if and only if 19 is none of its digits |
| `BaseConversion.RoundTrip` | recursive_function/src/main.c:8-16 | in bases 2 to 19 the text decodes to the number |
| `BaseConversion.SameTextIff` | recursive_function/src/main.c:6-16 | two numbers are printed alike if and only if their digits agree once 19 is read as 16 |
| `BaseConversion.InjectiveIff` | recursive_function/src/main.c:6-16 | the conversion is injective if and only if the base is at most 19 |
| `BaseConversion.ConventionalIff` | recursive_function/src/main.c:6-16 | the text is the conventional one if and only if the number is not 0 and no digit is 13, 14 or 19 |
| `BaseConversion.AppendChar` | recursive_function/src/main.c:13 | one character appended in place, the terminator moved, nothing behind it touched |
| `BaseConversion.Anybase` | recursive_function/src/main.c:8-16 | the buffer's string is kept and the number's text appended in place |
| `BaseConversion.Convert` | recursive_function/src/main.c:18-23 | any nonnegative int fits the zeroed 200-byte buffer in any base |

## Left out

- The interleavings of the three concurrent programs are modelled on values, one step per statement: no memory
  model weaker than interleaving, and no fairness of locks.
- Thread creation and joining in conditional_wait: a thread not yet created is one that has not moved.
- Insertion into and removal from the connection list, and signals delivered to a thread that already holds a
  lock, in async_UDP_multithread: the list is fixed during a run.
- A message-queue sender that exceeds the message size, uses a priority, or another process that receives from
  or registers on the same queue; closing and unlinking queues.
- Machine.Start: smInit and the init callbacks are not modelled, nor is the one-bit counter of the task's starts.
- Machine.Tick: takes the request as the byte that `state_in` can hold; the queue's items are wider than that
  variable, and what the excess overwrites is not modelled. Following a pointer to a freed state counts as a crash.
- `rbuf_free`, allocation failure, and memory release in general.
- `get_container` in ll.h: address arithmetic with no counterpart in Dafny.
- Negative numbers and bases outside 2..36 in `anybase`: the code indexes outside its alphabet or does not end.
- StateRegistry.RunLabelled: histories of 2^32 or more additions, where the counter wraps, are outside its
  precondition; the class itself models the wrap.
- The socket, serial, signal, ioctl, Raspberry Pi, string-class, dice, regex, prompt and button programs, and the
  signal-based twin of the message-queue server: input/output around the kernel, or thin wrappers that would
  only add easy members.
- Printing and formatting.
