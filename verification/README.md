# A model of the POP3 proxy

The proxy accepts POP3 clients, resolves and connects to one origin server for each of them, relays
the origin's greeting, asks it for its capabilities, and then forwards batches of commands and their
responses.  One thread runs everything around `pselect`; only name resolution happens in worker
threads.  A second, datagram socket serves the administrator.

The model follows the program's own structure, in layers.

* `Lifecycle` says, as functions, what each callback does to the descriptor table, to the connections
  (state, descriptors, reference count), to the free pool and to the pending resolutions.  What the
  kernel, the allocator or the payload decides is an `Oracle`, so a statement for every oracle is a
  statement for every behaviour of the environment.  `LifecycleSafety` states the joint invariant and
  proves that every callback keeps it.
* `HandlerOutcomes` says of every callback which results make it fail, which state it returns and whose
  turn it is next; `Reachability` runs one client through all states.
* `Selector`, `StateEngine` and `Proxy` are the same thing as it runs: the jump table and its two
  prototype sets, the engine's current state, `struct sock` on the heap with its `next` chain, and the
  loops of `selector.c`.  Each method is tied to the function of `Lifecycle` it implements, so what is
  proved about runs of the functions holds of the loops over the heap.
* `Notification` interleaves the steps of the worker threads with those of the main loop, and `System`
  composes it with `Lifecycle`: each resolution a connection waits for is a worker of the protocol.

Beside them stand the byte buffer and the code that moves data through it (`ByteBuffer`,
`GreetingRelay`, `CapaReply`, `ResponseCounts`, `ResponseRelay`, `CopyRelay`, `BlockingCopy`,
`CommandQueue`, `RequestSend`), the automata (`ResponseEnd`, `Parser`, `StringCompare`) and the administrator (`Admin`).

## Main results

* **One token.** In every reachable state a live connection waits for exactly one thing: one operation
  on one of its two descriptors, or one resolution (`LifecycleSafety.ExactlyOneToken`, over every run
  by `RunSafe`).
* **Aborts.** Of the `abort()` calls, the failing assertions and the calls through a null handler in
  the modelled files, a run can reach only three: the `abort()` after a non-blocking `connect()` that
  succeeds at once (src/dns_resolution_events.c:84-86), and the assertion of `buffer_write_adv`
  (src/buffer.c:53) from `capa_read` and from `response_read`.  `LifecycleSafety.StepSafe` has this as
  an equivalence over the oracle; `CapaReply` and `ResponseRelay` give the condition on the bytes:
  a reply to CAPA that is longer than the buffer and has no end among the prefixes that fit, and
  responses whose counts, one for each command taken as answered, add up to more than the room.
  `Reachability.EveryStopOccurs` gives runs that come to each of the three.  A callback calls `exit()` exactly when `recvfrom` returns nothing on the administration socket
  (src/admin.c:22-24).
* **References.** The reference count is the number of table slots that carry the connection, it
  becomes pooled or freed with its last slot, and it is never pooled while it is registered or twice.
* **Mid-iteration changes.** `handle_iteration` makes exactly the calls that are due at the moment it
  looks, although the callbacks change the table it walks, and every turn of `selector_select` is such
  an iteration over the ready descriptors and then the delivery of every listed job.
* **No lost wake-up**, and `pushed == delivered + dropped + pending` under every interleaving; in the
  composed system nothing is ever dropped.
* **Streams.** The buffer is a FIFO; the two-way copy and the blocking loops neither lose, invent nor
  reorder bytes under partial reads and writes.  The greeting relay reads exactly the first line and
  keeps what it has not sent, and the client gets the whole line if and only if the final send is
  complete.  `request_send` delivers a batch as encoded if and only if none of its sends is cut short,
  and what arrives otherwise is given exactly.
* **Automata.** The compiled comparer decides case-insensitive equality; the multi-line detector
  accepts an exactly described language, and stops at the terminator of section 3 of RFC 1939 exactly
  when no earlier line consists of two or more dots.
* **Password.** It stays six characters without NUL, space or newline over every sequence of messages none
  of which is authorized and carries a command word or an argument of thirty characters or more (those are copied
  past an array, and nothing is claimed after them); what a formatted `SET_AUTH` message sets depends
  exactly on whether a space is left behind it in the buffer.

## Where the code differs from what it says

* `selector_register` grows the table when `ufd > fd_size`, so the descriptor equal to `fd_size` is
  written out of bounds; `selector_set_interest` and `selector_unregister_fd` check nothing.  With the
  1024 elements that main.c asks for the table has 1025 slots and every valid descriptor is inside.
  `Selector.GuardMissesOneDescriptor` gives both directions.
* `items_init` assumes cleared memory, which `realloc` does not give.  Nothing depends on it: a slot
  that a callback has just unregistered was cleared by `selector_unregister_fd`, and slots never used
  are skipped.  The ghost field `zeroed` only lets the invariant speak of all unused slots alike.
* `capa_read` does not ask whether its buffer is full, so a reply without an end aborts the process on
  the byte after the last that fits (`CapaReply.EndlessReplyOverruns`).
* `response_read` takes a command off the queue for every read.  A reply that does not end within the
  first read for its command is therefore never handed on: `ResponseRelay.ReadReply` for one command,
  `ResponseCounts.CountedIff` for several, `ResponseCounts.SplitReplyIsLost` for an input.
* `response_read` counts from the start of what it read for every command, and the finished flag stays
  set.  With another command waiting a single byte behind the first reply counts that reply again
  (`ResponseCounts.ForwardedOnceIff`): the client is sent bytes twice, or bytes that never arrived
  (`ResponseCounts.ShortRepliesRepeat`), or the assertion of `buffer_write_adv` fails
  (`ResponseCounts.TwoRepliesOverrun`); `ResponseCounts.ExceedsIff` says when.
* `request_send` does not look at short counts: the rest of a command is never sent, its line ending
  is (`RequestSend.ShortSendLosesBytes`).
* What the final send of the greeting does not take stays in a buffer that `request_init` resets; what
  the send of a finished response does not take stays in a buffer that is sent next with the following
  response (`ResponseRelay.Responses.SendReady`).
* The detector sets `dot` again on every dot, so the byte-stuffed line `..` ends a response.
* `-OP_READ` and `-OP_WRITE` are used as masks where complements are meant: the first clears nothing
  and the second clears reading.  A copy therefore never returns `DONE_ST`, and a failed `recv` leaves
  the failing side's own interest in reading.
* `SET_AUTH` takes its argument after the last space of the C string in the buffer, which is not
  cleared between messages, so the remains of a longer message can replace the argument.
* `selector_notify_block` gives up when `malloc` fails; the connection then waits for a notification
  that never comes.  `System.WaitingConnectionHasItsWorker` names this case.

## Model

| member | source | states |
|---|---|---|
| Selector.NextCapacity | src/selector.c:170-187 | the capacity is one more than the least power of two strictly above n, capped at the number of descriptors `select` can watch |
| Selector.BitsGiveLeastPower | src/selector.c:172-178 | shifting one by the bit length of n gives a power of two above n, and no smaller power of two is above n |
| Selector.GuardMissesOneDescriptor | src/selector.c:343-354 | the growth guard keeps `register` inside the table exactly when the descriptor is not the current size; always with main.c's table, not with two slots |
| Selector.Selector.ItemsInit | src/selector.c:198-204 | slots below `last` are untouched, all others become unused and keep their other fields |
| Selector.Selector.EnsureCapacity | src/selector.c:244-286 | which status each case gives; the table never shrinks or loses a descriptor; on success there is room for n; only a first allocation is known to be zeroed |
| Selector.Selector.ItemsMaxFd | src/selector.c:209-221 | scanning up to the old maximum finds the largest used descriptor, 0 when there is none |
| Selector.Selector.UpdateFdset | src/selector.c:223-237 | after it one descriptor is in each prototype set exactly if its interest says so, and no other descriptor moved |
| Selector.Selector.Register | src/selector.c:332-373 | every status with its exact condition; the table as a map gains the slot on success and is unchanged otherwise; maximum and prototype sets stay exact |
| Selector.Selector.Release | src/selector.c:398-404 | the map loses exactly that descriptor, maximum and prototype sets stay exact, and in zeroed memory unused slots still ask for nothing |
| Selector.Selector.SetInterest | src/selector.c:411-428 | succeeds exactly for a registered descriptor and changes only its interest, in the table and in both prototype sets |
| Selector.SelectorNew | src/selector.c:288-305 | null exactly when too much is asked for or memory is missing; with 1024 elements every valid descriptor is in bounds for good |
| Selector.RunOps | src/selector.c:332-428 | any sequence of operations on the table does what it does to a map from descriptors to slots, without ever reallocating |
| StateEngine.StateMachine.Init | src/stm.c:10-24 | accepts exactly the tables whose entry i describes state i and whose initial state lies below the last, and leaves no current state |
| StateEngine.StateMachine.HandleFirst | src/stm.c:26-34 | enters the initial state once, with its arrival, and does nothing later |
| StateEngine.StateMachine.Begin | src/stm.c:53-87 | the engine aborts before a callback exactly when the current state has none for that operation |
| StateEngine.StateMachine.Jump | src/stm.c:36-51 | aborts exactly above the last state; a return of the current state runs no callback, any other one departs and then arrives where the table has the callbacks |
| StateEngine.StateMachine.State | src/stm.c:96-103 | the last state entered, or the initial one before any |
| StateEngine.LifeAt | src/stm.c:36-51 | the life of a walk is the arrival at each of its states, each departure standing between the arrival before and the arrival after it |
| StateEngine.HooksArePresent | src/stm.c:26-51 | for every table, a walk runs exactly those moments of its life for which the table has a callback, in order |
| StateEngine.HooksAreFiltered | src/stm.c:26-51 | for every table the arrivals are the states entered that have the callback, and the departures the states left that have it |
| StateEngine.StateMachine.Run | src/stm.c:26-87 | in any run the walk only grows, never repeats a state in succession, and stops early only at a missing callback or a state out of range |
| Lifecycle.SetInterest | src/selector.c:411-428 | in the world of connections: succeeds exactly for registered descriptors and never disturbs reference counts |
| Lifecycle.SlotRemoved | src/selector.c:391-404 | running the close handler before clearing the slot leaves every count equal to its number of slots again |
| Lifecycle.Unregister | src/selector.c:375-409 | removes one slot, succeeds exactly if it was used, and keeps counts, liveness and pool consistent |
| Lifecycle.NewSockShape | src/socks_nio.c:28-71 | what becomes a new connection was not live and is no longer pooled, the table is untouched, and nothing changes without memory |
| Lifecycle.Accept | src/socks_nio.c:120-160 | every outcome of accept, memory and registration leaves counts and pool consistent, also the destroy after a failed registration |
| Lifecycle.AttachOrigin | src/dns_resolution_events.c:72-79 | registering the origin and adding one reference go together: counts stay equal to slots |
| Lifecycle.CallHandler | src/socks_nio.c:181-227 | no handler changes the current state, the pool, the set of connections or the agreement of counts and slots |
| Lifecycle.EmptyTableHasNoConns | src/selector.c:307-316 | when no descriptor is registered no connection is left |
| HandlerOutcomes.TableHandles | src/socks_nio.c:181-227 | which states have a callback for which operation, both ways |
| HandlerOutcomes.ClientHooks | src/socks_nio.c:181-227 | in any walk of a connection the init functions run exactly on entering GREETINGS_ST to COPYING_ST, and nothing runs on leaving a state |
| HandlerOutcomes.CallsOwner | src/selector.c:447-481 | a ready listening socket accepts, any other ready descriptor of a connection runs that connection |
| HandlerOutcomes.AcceptOutcome | src/socks_nio.c:120-160 | a client gets a connection, from the pool first, exactly if accept, non-blocking mode, memory and registration all succeed; otherwise nothing but the pool changes |
| HandlerOutcomes.ResolutionStarts | src/dns_resolution_events.c:105-124 | fails with nothing changed exactly without memory or thread; otherwise one job is due to the client's descriptor, which wants nothing meanwhile |
| HandlerOutcomes.ResolutionEnds | src/dns_resolution_events.c:49-145 | CONNECTING_ST exactly if an address was found, the connection is under way and the origin could be registered, which adds a reference; aborts exactly if connect() succeeds at once |
| HandlerOutcomes.ConnectingOutcome | src/connecting_events.c:13-44 | fails exactly if the connection did; origin_fd is set either way; the origin is written next |
| HandlerOutcomes.GreetingsReadOutcome | src/greetings_events.c:44-88 | which failure ends it, and that a full buffer or the end of the line gives the client its turn |
| HandlerOutcomes.GreetingsWriteOutcome | src/greetings_events.c:90-126 | which failure ends it, that an empty buffer asks the origin for more, and that a sent line leads to CAPA_ST |
| HandlerOutcomes.CapaSendOutcome | src/capa_events.c:90-103 | fails exactly if nothing was sent; the origin answers next |
| HandlerOutcomes.CapaReadOutcome | src/capa_events.c:50-85 | aborts exactly on a byte for a full buffer, fails exactly without a byte, and gives the client its turn exactly at the end of the reply |
| HandlerOutcomes.RequestReadOutcome | src/request_events.c:69-109 | fails exactly if nothing was read; a finished batch goes to the origin, an unfinished one waits for the client |
| HandlerOutcomes.RequestSendOutcome | src/request_events.c:112-145 | fails exactly on an empty queue or a refused send, and even the empty queue has handed the turn to the origin |
| HandlerOutcomes.ResponseReadOutcome | src/response_events.c:67-108 | aborts exactly on an overrun, fails exactly without bytes, and gives the client its turn exactly with a full buffer or a counted response |
| HandlerOutcomes.ResponseSendOutcome | src/response_events.c:110-142 | fails exactly on an empty buffer or a refused send; a finished response gives the client its turn in REQUEST_ST, an unfinished one the origin in RESPONSE_ST |
| HandlerOutcomes.CopyOutcome | src/copy_events.c:12-29 | aborts exactly if one descriptor is not registered; otherwise both interests are as computed |
| HandlerOutcomes.AdminReadOutcome | src/admin.c:13-28 | exits exactly if nothing was received; otherwise the reply is due |
| HandlerOutcomes.AdminWriteOutcome | src/admin.c:120-122 | the next message is due |
| LifecycleSafety.FirstHandler | src/dns_resolution_events.c:105-124 | the first event either fails with nothing changed or starts exactly one resolution due to the client's descriptor |
| LifecycleSafety.ResolvedHandler | src/dns_resolution_events.c:49-145 | the delivery of a resolution aborts exactly when connect() succeeds at once; otherwise the connection is legal in CONNECTING_ST or can be torn down |
| LifecycleSafety.ConnectedHandler | src/socks_nio.c:181-227 | the pair of state and ready operation always has a handler; unless the payload overruns the buffer, exactly in which case it aborts, it leads to a legal pair or to a teardown |
| LifecycleSafety.TeardownReleasesConnection | src/socks_handler.c:49-63 | socks_done never aborts; exactly the connection's slots and the connection disappear, and it is pooled unless the pool is full |
| LifecycleSafety.SlotKeepsOwner | src/selector.c:447-481 | a read callback never leaves its own descriptor with another owner or handler, so the key stays right for the write callback after it |
| LifecycleSafety.LastSlotReleases | src/socks_nio.c:90-109 | unregistering releases a connection exactly when it removes its last slot, and then pools it while there is room |
| LifecycleSafety.BlockEnabled | src/selector.c:483-504 | a due resolution always finds its descriptor in use |
| LifecycleSafety.DeliverSafe | src/selector.c:490-497 | delivering a resolution consumes it and keeps the joint invariant |
| LifecycleSafety.AcceptSafe | src/socks_nio.c:120-160 | accepting keeps the joint invariant |
| LifecycleSafety.AdminSafe | src/admin.c:13-123 | the administrator's change of interest keeps it |
| LifecycleSafety.InitialInv | main.c:384-411 | the state in which main.c enters its loop satisfies the joint invariant |
| LifecycleSafety.StepSafe | src/socks_handler.c:14-63 | every callback keeps the joint invariant; it aborts if and only if connect() succeeds at once or capa_read or response_read overruns the buffer, and calls exit() if and only if recvfrom returns nothing |
| LifecycleSafety.RunSafe | src/selector.c:534-577 | every world of every run satisfies the invariant, and an event enabled after the run aborts if and only if it is one of those three |
| LifecycleSafety.ExactlyOneToken | src/socks_nio.c:181-227 | the wanted operations on both descriptors and the due resolutions of a live connection add up to one |
| LifecycleSafety.ExecutionKeepsJobs | src/selector.c:447-481 | reads and writes neither deliver nor lose a pending resolution |
| LifecycleSafety.IterationCalls | src/selector.c:447-481 | the calls of one iteration go to ready descriptors below the old maximum, in table order |
| Reachability.EveryStopOccurs | src/dns_resolution_events.c:84-86 | some run from the initial state comes to each of the three aborts, and one to the call of exit() |
| Proxy.Proxy.constructor | main.c:384-411 | the heap as main.c leaves it stands for an initial world |
| Proxy.Proxy.Destroy | src/socks_nio.c:90-109 | the pool on the heap stays a null-terminated chain without repetition whose length is pool_size |
| Proxy.Proxy.UnregisterFd | src/selector.c:375-409 | table, references and pool on the heap follow the abstract unregister, close handler first |
| Proxy.Proxy.SocksNew | src/socks_nio.c:28-71 | takes the head of the pool or new memory and fills it the same way: one reference, no origin, an engine without a current state |
| Proxy.Proxy.PassiveAccept | src/socks_nio.c:120-160 | every path of the accept callback does on the heap what Lifecycle.Accept does to the world |
| Proxy.Proxy.DnsResolution | src/dns_resolution_events.c:105-124 | the heap follows the abstract first step |
| Proxy.Proxy.RequestConnect | src/dns_resolution_events.c:49-99 | the heap follows it through every failure of socket, connect and registration |
| Proxy.Proxy.Connecting | src/connecting_events.c:13-44 | the heap follows the abstract step, which sets origin_fd only here |
| Proxy.Proxy.CopyStep | src/copy_events.c:71-141 | a failure to set either interest aborts |
| Proxy.Proxy.SocksDone | src/socks_handler.c:49-63 | both descriptors, read before the structure is recycled, are unregistered |
| Proxy.Proxy.Dispatch | src/socks_handler.c:14-42 | the engine on the heap, the handler, the jump and the teardown together do the abstract dispatch, and report an abort exactly when it does, failed buffer assertions included |
| Proxy.Proxy.NotifyBlock | src/selector.c:506-532 | puts the job at the head of the list, or leaves it as it was without memory |
| Proxy.Proxy.HandleIteration | src/selector.c:447-481 | the calls made form a run of the abstract system, and for each descriptor up to the old maximum a call happens exactly if it is ready, registered and interested at that moment; where the process stops, the event that stops it is the next due one |
| Proxy.Proxy.DeliverJob | src/selector.c:490-497 | delivers exactly this job, and aborts exactly when connect() succeeds at once |
| Proxy.Proxy.HandleBlockNotifications | src/selector.c:483-504 | delivers every listed job in list order, drops none, and stops early only at that abort |
| Proxy.Proxy.SelectorSelect | src/selector.c:534-577 | with ready descriptors the turn is the calls due to each of them, up to the old maximum, and then the delivery of every listed job in order; an interruption delivers alone; an error changes nothing; where the process stops, the turn up to there and the event are known |
| Proxy.Proxy.SelectorDestroy | src/selector.c:307-316 | afterwards no descriptor is registered and no connection is live |
| Notification.StepKeepsInv | src/selector.c:483-577 | every step of every participant, an interruption by another signal included, keeps mutual exclusion, no lost wake-up, and conservation of jobs |
| Notification.EveryScheduleIsSafe | src/selector.c:483-577 | so does every interleaving from the start |
| Notification.SleeperIsWoken | src/selector.c:506-558 | a loop asleep over a non-empty list is woken by at most one unlock and one kill, with no help from descriptors or timeout |
| Notification.DrainLeavesNothing | src/selector.c:483-504 | when the list is unlocked every pushed job has been handed over |
| Notification.TurnOfTheLoop | src/selector.c:534-577 | an undisturbed turn woken by descriptors runs the iteration, takes the mutex, hands over the listed jobs one by one and leaves an empty list and a free mutex |
| Notification.JobIsAnnounced | src/selector.c:506-532 | an undisturbed worker pushes its job first in the list under the mutex and signals only after releasing it |
| System.DueJobIsDue | src/selector.c:490-497 | the next job of a drain is one that some connection still waits for, on a used descriptor |
| System.ActionAborts | src/socks_handler.c:14-63 | in the composed system an action aborts if and only if it delivers an address to which connect() succeeds at once or is a read callback whose payload overruns the buffer |
| System.EveryBehaviorIsSafe | src/selector.c:483-577 | every interleaving of callbacks, workers and main loop keeps both invariants and their link; no job is ever dropped |
| System.WaitingConnectionHasItsWorker | src/dns_resolution_events.c:18-124 | a connection that waits for its address has one worker: its job is listed if and only if the worker has pushed it, and otherwise the worker is on its way or ran out of memory |
| ByteBuffer.Buffer.constructor | src/buffer.c:17-22 | an empty buffer over n bytes |
| ByteBuffer.Buffer.Reset | src/buffer.c:11-15 | empty and rewound |
| ByteBuffer.Buffer.CanWrite | src/buffer.c:25-28 | exactly if there is room behind the content; a buffer with capacity that cannot be written holds something to read |
| ByteBuffer.Buffer.CanRead | src/buffer.c:37-40 | exactly if something is held; a buffer that cannot be read is rewound |
| ByteBuffer.Buffer.WriteAdv | src/buffer.c:49-55 | appends the bytes already stored; ignores negative counts |
| ByteBuffer.Buffer.ReadAdv | src/buffer.c:57-68 | removes the oldest bytes, keeps the empty buffer rewound, and ignores negative counts |
| ByteBuffer.Buffer.CompactRaw | src/buffer.c:90-103 | the overlapping move changes no content and starts it at the base |
| ByteBuffer.Buffer.Read | src/buffer.c:70-80 | takes the oldest byte, or gives 0 and changes nothing |
| ByteBuffer.Buffer.Write | src/buffer.c:82-88 | appends one byte if there is room, else changes nothing |
| ByteBuffer.Perform | src/buffer.c:11-103 | each operation moves exactly as much as fits or is there, and room comes back exactly when the buffer is emptied or compacted |
| ByteBuffer.FirstInFirstOut | src/buffer.c:11-103 | over any sequence of operations taken ++ held == held before ++ written |
| ByteBuffer.Session | src/buffer.c:11-103 | the array with its two positions does over any sequence of operations what that queue of bytes does |
| GreetingRelay.Greetings.constructor | src/greetings_events.c:33-38 | the state at entry, with greet_finished false from the zeroed structure |
| GreetingRelay.Greetings.ReadReady | src/greetings_events.c:44-88 | takes exactly one byte, or none from a full buffer or on failure, and turns to the client exactly at the end of the line or when full |
| GreetingRelay.Greetings.WriteReady | src/greetings_events.c:90-126 | what send accepts leaves the buffer; goes on to CAPA_ST exactly when the line is complete and send accepts something, with the first CRLF the last thing received, and everything delivered exactly if the send was complete |
| GreetingRelay.Run | src/greetings_events.c:6-126 | over any run sent ++ buffered == received, and nothing is read past the first CRLF |
| GreetingRelay.Deliver | src/request_events.c:51-60 | up to REQUEST_ST the client has the whole first line if and only if the final send left nothing; what it left is discarded |
| GreetingRelay.ReadAgrees | src/greetings_events.c:44-88 | the interests in the descriptor table move as the relay says |
| GreetingRelay.WriteAgrees | src/greetings_events.c:90-126 | and so they do when writing |
| CopyRelay.NegationsAsMasks | src/copy_events.c:86-89 | masking with -OP_READ changes nothing; masking with -OP_WRITE ends reading and keeps writing |
| CopyRelay.Copier.constructor | src/copy_events.c:50-66 | two sides, both duplex, sharing two buffers crosswise |
| CopyRelay.Copier.ComputeInterests | src/copy_events.c:12-29 | READ exactly with room and an open way, WRITE exactly with data and an open way; the other side keeps its interest |
| CopyRelay.Copier.ReadReady | src/copy_events.c:71-103 | both streams stay conserved, the received bytes join exactly one, a failure takes reading from the other side only, and the state is never left |
| CopyRelay.Copier.WriteReady | src/copy_events.c:108-141 | both streams stay conserved, what send accepts leaves exactly one, and a failure takes reading from the side itself |
| CopyRelay.Copier.StreamMoves | src/copy_events.c:12-29 | while a side may read, it waits to read or the other waits to write: a stream is never stuck |
| CopyRelay.Run | src/copy_events.c:50-141 | in every run what each side was sent is a prefix of what the other received |
| BlockingCopy.SockBlockingWrite | src/netutils.c:57-76 | sent ++ remaining == original content; everything goes out exactly when no send is refused, and a send of nothing is |
| BlockingCopy.SendBlock | src/netutils.c:85-95 | a prefix of the block goes out, all of it exactly when no send is refused |
| BlockingCopy.SockBlockingCopy | src/netutils.c:78-101 | the destination gets a prefix of what was read, all of it exactly when no send is refused; without a failing recv that is the whole stream |
| CommandQueue.Queue.Enqueue | src/cmd_queue.c:40-61 | appends at the end, or changes nothing without memory |
| CommandQueue.Queue.Dequeue | src/cmd_queue.c:63-83 | removes and returns the first element; first, last and size stay those of one chain through emptying |
| CommandQueue.Queue.Next | src/cmd_queue.c:99-105 | yields the element the iterator stands before and moves on, changing nothing else |
| CommandQueue.FirstInFirstOut | src/cmd_queue.c:40-83 | over any operations taken ++ queued == queued before ++ appended |
| CommandQueue.Session | src/cmd_queue.c:40-83 | the linked nodes do over any operations what that sequence does |
| CommandQueue.Walk | src/cmd_queue.c:90-105 | to_begin, has_next and next enumerate exactly the contents in order |
| RequestSend.SendCommand | src/request_events.c:122-136 | the origin gets a prefix of the command and then a prefix of the line ending, also behind a command cut short; the ending is whole exactly when no send is refused |
| RequestSend.EncodedAt | src/request_events.c:121-135 | where each command stands in the batch and what follows it: CR LF, except LF alone before another command of a pipelined batch |
| RequestSend.EndsWithCrLf | src/request_events.c:126-135 | every batch ends with CR LF, pipelined or not |
| RequestSend.LostIsMissing | src/request_events.c:120-137 | the bytes delivered, the bytes cut off and the bytes still to come are the encoded batch in number |
| RequestSend.WholeIff | src/request_events.c:120-137 | a batch of which every command was sent arrives as encoded if and only if no byte was cut off |
| RequestSend.ShortSendLosesBytes | src/request_events.c:122-135 | a short send after which the origin reads a command that nobody gave |
| RequestSend.RequestSend | src/request_events.c:111-145 | RESPONSE_ST exactly when there is a command and no send is refused; what the origin has in every case; and it is the encoded batch if and only if no send was cut short; the queue keeps its contents |
| ResponseEnd.MultilineDetector.CheckChar | src/capa_events.c:9-32 | the flags on the heap follow the transition function that the language results are about |
| ResponseEnd.FlagsTrackSubsequence | src/capa_events.c:9-32 | the four flags say how much of CR, LF, DOT, CR occurs in order in the unbroken run of control bytes at the end of the input |
| ResponseEnd.FiresExactlyOnEnds | src/response_events.c:7-30 | the byte that first finishes is the last byte of the first prefix in the accepted language |
| ResponseEnd.FinishedDecided | src/response_events.c:16-22 | after that only an LF behind a CRLF of its run decides anew, the way the first was decided |
| ResponseEnd.FirstEndIsDotLine | src/response_events.c:7-30 | on CRLF-separated lines, where the detector first fires a line of one or more dots has just ended |
| ResponseEnd.StopsAtTerminatorIff | src/response_events.c:7-30 | on CRLF-separated lines it stops at the first CRLF.CRLF if and only if no earlier line consists of two or more dots |
| ResponseEnd.StuffedDotStopsEarly | src/response_events.c:22-24 | a response on which it stops too early |
| ResponseEnd.LineFiresExactlyOnCrLf | src/response_events.c:32-45 | the single-line machine first fires exactly at the first CRLF although LF does not clear its flag |
| ResponseEnd.LineFlagsTrack | src/greetings_events.c:6-19 | at any time the CR flag says whether a CR came last but for LFs, and the finished flag what the last LF found |
| ResponseEnd.LineExtends | src/greetings_events.c:6-19 | byte by byte, no earlier prefix ended the line when the machine fires |
| CapaReply.Capabilities.constructor | src/capa_events.c:34-45 | the state at entry: an empty buffer and no flag set |
| CapaReply.Capabilities.ReadReady | src/capa_events.c:50-85 | REQUEST_ST exactly with the byte that ends the reply, an abort exactly on a byte for a full buffer, and the buffer holds the whole reply until then |
| CapaReply.ReadUntilFinished | src/capa_events.c:50-85 | over a whole stream: finishes at the first end of a reply that fits the buffer; aborts if and only if more bytes come than fit and no prefix that fits is an end |
| CapaReply.EndlessReplyOverruns | src/capa_events.c:57-65 | a stream, for every capacity, that meets the condition of the abort |
| CapaReply.ReadAgrees | src/capa_events.c:50-85 | the step of a connection follows what the payload decides |
| ResponseCounts.AfterAsIs | src/response_events.c:7-53 | from fresh flags the shared machine is the multi-line or the single-line one |
| ResponseCounts.SingleLineLeavesFlags | src/response_events.c:32-45 | bytes read for a single-line command leave the other flags of the multi-line machine as they were |
| ResponseCounts.NextByteFires | src/response_events.c:89-104 | after a whole reply any next byte, read for any kind of command, leaves the reply finished |
| ResponseCounts.FirstAdvance | src/response_events.c:89-97 | the first count is the length of the first reply |
| ResponseCounts.SecondAdvance | src/response_events.c:89-104 | with another command waiting, one byte behind the first reply counts that reply and the byte |
| ResponseCounts.OneCommandFits | src/response_events.c:89-104 | with at most one command waiting the assertion cannot fail |
| ResponseCounts.CountsIff | src/response_events.c:67-108 | one read counts something, and so hands anything on, if and only if it holds the whole first reply |
| ResponseCounts.CountedIff | src/response_events.c:67-108 | over any successive reads for commands of one kind, something is counted if and only if as many reads as commands wait hold a reply together; and the whole reply is counted if and only if the first read holds it |
| ResponseCounts.OneCommandCountedIff | src/response_events.c:67-108 | with one command waiting something is ever counted if and only if the first read holds the whole reply |
| ResponseCounts.SplitReplyIsLost | src/response_events.c:89-90 | a one-line reply in two pieces of which nothing is ever counted |
| ResponseCounts.AllAdvances | src/response_events.c:88-104 | every byte behind the first reply counts for one more command, as long as commands and bytes last and no LF undoes it |
| ResponseCounts.ExceedsIff | src/response_events.c:88-104 | for any number of commands the counts pass a limit if and only if a reply ends within the bytes and m(2n + m - 1) > 2 limit, n its length and m the smaller of the commands and the bytes from its last one on; with the room of the buffer this is the abort, with the bytes read it is sending bytes that never arrived |
| ResponseCounts.ShortRepliesRepeat | src/response_events.c:96-103 | two short replies that fit, of which eleven bytes are sent although ten were read |
| ResponseCounts.TwoRepliesOverrun | src/response_events.c:88-104 | two multi-line replies of which it fails on a buffer of 4096 bytes |
| ResponseCounts.ForwardedOnceIff | src/response_events.c:96-103 | when a first reply ends within the bytes, the write position moves by exactly what was read up to the last counted reply if and only if one command waits or nothing was read behind the reply |
| ResponseRelay.Responses.ReadReady | src/response_events.c:67-108 | aborts if and only if the counts add up to more than the room; otherwise what the buffer, the flags, the queue and the interests become |
| ResponseRelay.Responses.SendReady | src/response_events.c:110-142 | fails exactly with nothing to send or a refused send; what send does not take stays in the buffer; the turn goes to the client exactly behind a finished response |
| ResponseRelay.FirstRead | src/response_events.c:67-108 | the first read of the response to one command hands on exactly the reply if it holds it, and otherwise nothing, and uses up the command either way |
| ResponseRelay.ReadReply | src/response_events.c:67-108 | over any reads of that response the client gets exactly the reply if and only if the first read holds all of it; otherwise whatever else is read leaves the buffer as it was |
| ResponseRelay.ReadAgrees | src/response_events.c:67-108 | the step of a connection follows what the payload decides |
| ResponseRelay.SendAgrees | src/response_events.c:110-142 | the connection's step gives state and turn as the payload decides |
| Parser.Parser.constructor | src/parser.c:31-42 | starts in the definition's start state with no event |
| Parser.Parser.Reset | src/parser.c:44-47 | back to the start state |
| Parser.Parser.Feed | src/parser.c:49-82 | only the first matching transition acts; without one the state and the previous event stand; the second event never outlives its byte |
| Parser.FirstMatch | src/parser.c:52-70 | the index of the first transition that matches, none before it |
| Parser.MatchesIff | src/parser.c:59-69 | a byte matches itself alone, the wildcard matches everything, a class what shares a bit with it |
| Parser.FirstMatchActs | src/parser.c:58-79 | the first transition that matches byte and class decides state and event; without one both stay |
| StringCompare.AlikeIff | src/parser_utils.c:103-106 | two characters are alike exactly if they are the same or one letter in both cases |
| StringCompare.StrcmpiTable | src/parser_utils.c:74-137 | the flat arrays filled by the loop make up the comparer's table, with every target in range |
| StringCompare.FillRow | src/parser_utils.c:100-114 | one turn of the loop fills one state and leaves the earlier ones alone |
| StringCompare.ComparerStep | src/parser_utils.c:100-126 | in the table a byte advances exactly if it equals the expected character but for case |
| StringCompare.ComparerDecides | src/parser_utils.c:74-137 | after any non-empty input the last event is EQ exactly for the string itself, MAYEQ exactly for a proper prefix, NEQ otherwise |
| StringCompare.MismatchIsFinal | src/parser_utils.c:121-126 | after NEQ every continuation is NEQ |
| StringCompare.Compare | src/parser.c:49-82 | compiling and feeding together decide case-insensitive equality and proper prefixes |
| Admin.ValidatePassword | src/admin.c:130-140 | accepts exactly the messages that start with the password and a space |
| Admin.ParseOptions | src/admin.c:142-149 | copies exactly the first word of the string and its terminator, and runs past the array exactly when they do not fit |
| Admin.ParseArguments | src/admin.c:177-187 | of a string with a space, copies exactly what follows the last one up to a newline, refuses when it is the first character alone, or runs past the array exactly when the copy does not fit |
| Admin.ArgumentIsClean | src/admin.c:177-187 | no argument ever contains a space, a newline or a NUL |
| Admin.HandleKeepsPassword | src/admin.c:30-127 | a password of six characters without NUL, space or newline stays one, only an authorized SET_AUTH changes it, and a copy runs past its array exactly on an authorized message with a word of thirty characters |
| Admin.NamedReplies | src/admin.c:41-87 | the password, a space and HELP, GET_BUFF_SIZE or GET_STATS get the reply of that name, whatever follows |
| Admin.UnknownReply | src/admin.c:111-118 | any other word of fewer than thirty characters is unknown |
| Admin.UnauthorizedReply | src/admin.c:36-40 | unauthorized is exactly what does not start with the password and a space, and it changes nothing |
| Admin.BadArgumentReply | src/admin.c:91-96 | an argument of SET_AUTH that has not six characters is refused |
| Admin.SetAuthParsesBack | src/admin.c:88-187 | a formatted SET_AUTH message is authorized and recognised, and its argument is the new password exactly unless a space follows before the next NUL, when the remains decide |
| Admin.CleanRoundTrip | src/admin.c:88-127 | on clean memory a formatted message sets exactly the password in it |
| Admin.StaleTailReplacesPassword | src/admin.c:177-187 | on memory where a space and six characters follow the message, those become the password |
| Admin.RemainsReplacePassword | src/admin.c:13-187 | two messages on zeroed memory, the first not even authorized, after which the password is not the one asked for |
| Admin.LongestMessageSetsItsPassword | src/admin.c:13-187 | after any messages no longer than it, none of which can run past an array, a formatted SET_AUTH message sets exactly its password |
| Admin.GoodPasswordsStayGood | src/admin.c:30-187 | over any sequence of messages, as long as no copy runs past its array, the password stays six characters without NUL, space or newline |
| Admin.Admin.UdpRead | src/admin.c:13-28 | the message overwrites the start of the buffer and leaves the rest |
| Admin.Admin.UdpWrite | src/admin.c:30-123 | gives the reply and leaves the password that the lemmas about Handle determine, and resets the buffer without clearing it; promises nothing of the state after a copy past an array |
| Admin.Serve | src/admin.c:13-123 | the loop over any messages leaves the memory and password that the abstract history gives, and stops exactly where that history does |

## Left out

- Sockets, `getaddrinfo`, `accept`, `shutdown`, `errno` and signal set-up: their results are oracle values, nondeterministic counts or protocol steps; `close` of descriptors and their reuse by the kernel are covered only in that `accept` and `socket` may return any number.
- Real threads: a worker is a sequence of protocol steps; memory order below the mutex is not modelled, nor is a shutdown while a worker still runs.
- Signals other than the job signal and those that end the loop: `SIGPIPE` in particular is not ignored, and a `send` to a reset peer without `MSG_NOSIGNAL` ends the process.
- Memory accesses outside the buffer, the descriptor table and the two arrays of the administrator: above all the copy of a command line into the 47 characters of a queued command in `request_read`.
- Payload of `request_read` (command parsing, chunk handling): only its effect on state and interests; sizes there are not reset between commands, so no stream claim would hold.
- HandlerOutcomes.CapaReadOutcome: takes the full buffer and the end of the reply from the oracle; `CapaReply.ReadAgrees` ties them to the bytes.  The search for the PIPELINING keyword is an arbitrary boolean in `RequestSend`, because the response flags share memory with it.
- HandlerOutcomes.ResponseReadOutcome: takes overrun and end from the oracle; `ResponseRelay.ReadAgrees` ties them to bytes and commands.
- ResponseCounts.ExceedsIff: supposes that an LF among the bytes that the third and later commands read, one each, follows a CR with both read for single-line commands; where another LF takes the finished flag back, the exact condition is the sum of the counts in `ResponseRelay.Responses.ReadReady`.  For one or two commands nothing is supposed.
- ResponseCounts.CountedIff: for commands of one kind; with both kinds waiting the flags of one machine are carried into the other, and what is counted is given by `ResponseRelay.Responses.ReadReady` read by read.
- CopyRelay.Run: does not claim half-close or an end of the copy, because the masks never produce one; COPYING_ST is not entered from any other state, so `Proxy.CopyStep` proves the abort condition and the invariant excludes the state.
- BlockingCopy.SockBlockingWrite: with no refused send the result is 0; the converse fails in the code, which returns whatever `errno` holds when `send` returns 0.
- Selector.NextCapacity: for arguments below 2^63, where the shift is defined; every caller stays at or below 1024.
- Parser.Parser.constructor: takes 256 class words; `parser_no_classes` provides 255, one fewer than its header asks for.
- Parser actions are the event types they write, not function pointers; the failing allocation of `parser_utils_strcmpi`, which returns an empty definition, is left out.
- Admin.Admin.UdpRead: for messages of at least one byte; the `exit(1)` on none is an event of `Lifecycle`.  The replies are named, not spelled out, and statistics are not counted.
- Proxy.Proxy.SelectorSelect: `select`'s descriptor sets are finite sets of numbers and the job list is a sequence; the copy of the sets and the scan for bad descriptors, which only logs, are not modelled.
- `peer` and `job` of a connection, the histories of the engine and the socket counters exist in the model only.
- Order and completeness of memory release in `selector_destroy`, `socks_pool_destroy`, `free_queue` and the leak of each batch's queue.
- Command-line arguments, the logger, statistics, address printing, the administration client and the rest of main.c.
