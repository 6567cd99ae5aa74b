# Verification of join

A Dafny model of the parts of `join`, a network runtime for Linux, whose correctness is hardest to
see from the code, and proofs about them. `dafny verify dfyconfig.toml` checks all of it.

Code that changes state step by step is modelled as classes and methods with the same loops and
branches, each proved against a specification function; what the code is for is then proved about
the specification. Code run by several threads at once is a state machine of its atomic steps, and
results about it hold for every interleaving.

| file | what it models |
|---|---|
| `FreeList.dfy`, `Arena.dfy` | the lock-free chunk pool, and the arena of pools above it |
| `Futex.dfy` | the three-state lock over futex WAIT and WAKE |
| `CommandQueue.dfy` | the commands between callers and event loop, with coalesced wake-ups |
| `Reactor.dfy` | registration, deferred deletion and dispatch |
| `ReactorProtocol.dfy` | both together: threads that add and remove handlers while the loop calls them back |
| `OperationLog.dfy`, `UringProactor.dfy`, `EpollProactor.dfy` | the life of an operation in the two proactors |
| `NetlinkAttributes.dfy` | nested netlink attributes, built in a flat buffer and walked |
| `PathNormalization.dfy` | `normalize` against section 5.2.4 of RFC 3986 |
| `LineReader.dfy`, `HttpRequestHead.dfy` | the head of an HTTP request, written and read |
| `ChunkedCoding.dfy` | chunked coding, section 7.1 of RFC 9112 |
| `DhcpOptions.dfy` | DHCP options, section 2 of RFC 2132 |
| `MessageAttributes.dfy`, `KernelCache.dfy`, `InterfaceCache.dfy` | what kernel messages say, and the caches of routes, neighbours, links and addresses |
| `Traceroute.dfy`, `PingStatistics.dfy` | `trace` and `pathMtu`, and Welford statistics |
| `MacAddress.dfy` | addition on 48-bit addresses |
| `Wrappers.dfy` | a value that may be missing |

## What the code does not do

Some properties one would expect of the code do not hold as they stand. Each is shown by a concrete
run or input, and the exact condition under which the code does have the property is proved.

- `trace` can return a hop it never reported: a reply followed by a probe of the same hop that is
  too big ends the trace there (`Traceroute.ReachedUnreported`, `Traceroute.ReachedIsReportedExactly`).
- A relative path of three dots or more is cleared, where the RFC keeps it
  (`PathNormalization.LoneDotsDiffer`, `PathNormalization.AgreesWithRfcExactly`).
- Adding a negative value to an address can forget a borrow (`MacAddress.MinusOneFails`,
  `MacAddress.AddIsExact`).
- The deletion of an unknown link is announced, and the addresses of a deleted link are not
  (`InterfaceCache.UnknownLinkDeleted`, `InterfaceCache.LinkNoticesExactly`,
  `InterfaceCache.DeletedLinkForgotten`, `InterfaceCache.AddressListenerExactly`).
- Stopping the epoll proactor leaves in flight what a handler submits to a descriptor already swept,
  the one being swept included (`EpollSpec.ResubmissionSurvivesStop`,
  `EpollSpec.StopLeavesExactly`, `EpollSpec.StopIsClean`).
- Readiness harvested for a descriptor reaches a handler registered for it later in the same batch,
  even one that did not ask for that direction (`PlainReactor.StaleReadiness`,
  `PlainReactor.ReadinessIsWantedAlways`).
- A synchronous call whose command the loop had not yet got at its last look at the queue never
  returns, even if the call was announced before the loop exited; a command pushed after Stop was
  processed but before that look is still served (`CommandQueue.AnnouncedCallHangs`,
  `CommandQueue.HangsExactly`, `CommandQueue.LastLookExactly`).
- 2^32 changes of the pool's head between one thread's look and its exchange can break the pool
  (`FreeList.TimelyIsNeeded`, `FreeList.StaleExchangeExactly`, `FreeList.PopIsSoundExactly`).

## Model

| member | source | states |
|---|---|---|
| FreeList.PoolRefinesStack | core/include/join/allocator.hpp:133-250 | over every interleaving of any number of constructors, pops and pushes the successful exchanges are the pops and pushes of a stack that starts full; one builder at most, nobody past the constructor before the pool is built, and no thread about to read or write a link outside the segment; from then on following the links from the head enumerates that stack, no chunk twice and exactly the chunks nobody holds |
| FreeList.PopReturnsExactly | core/include/join/allocator.hpp:206-227 | over every interleaving: a `pop` returns either having taken one chunk by its last step, which its caller then holds, or null, and then the list was empty when the thread last looked at the head; a lost exchange is no reason to return, and before its return it changes nothing |
| FreeList.PushReturnsExactly | core/include/join/allocator.hpp:233-250 | a `push` returns exactly when it has given its chunk back, and does nothing else to the list |
| FreeList.PopLeavesExactly | core/include/join/allocator.hpp:206-227 | which steps end a `pop`, and which keep it going with a renewed look at the head |
| FreeList.PushLeavesExactly | core/include/join/allocator.hpp:233-250 | which step ends a `push` |
| FreeList.LostExchangeHasWinner | core/include/join/allocator.hpp:206-250 | progress, over every interleaving: an exchange is lost, unless it fails for no reason, only because another call has succeeded since the thread's last look |
| FreeList.StepRefines | core/include/join/allocator.hpp:206-250 | each atomic step is a legal step of the stack, or invisible to it, and keeps the chain from the head equal to the stack |
| FreeList.StaleExchangeExactly | core/include/join/allocator.hpp:218-248 | the exchange of a thread whose look at the head is out of date succeeds exactly when the same chunk is at the head again after a multiple of 2^32 head changes |
| FreeList.StaleExchangeFails | core/include/join/allocator.hpp:218-225 | so under the timing hypothesis a thread whose look is out of date, and what it read in a chunk may be user data, cannot exchange the head |
| FreeList.BoundIsTimely | core/include/join/allocator.hpp:218-225 | fewer than 2^32 head changes between look and exchange meet that hypothesis |
| FreeList.HeldWriteKeepsChain | core/include/join/allocator.hpp:206-250 | what callers write into the chunks they hold never reaches the free list |
| FreeList.PopStep | core/include/join/allocator.hpp:221-225 | a successful exchange in `pop` takes exactly the top of the stack |
| FreeList.PushStep | core/include/join/allocator.hpp:241-248 | a successful exchange in `push` puts back a chunk that was not free, on top |
| FreeList.ConstructorSteps | core/include/join/allocator.hpp:133-161 | the constructors keep one builder, and the others wait for it |
| FreeList.PoppedOnce | core/include/join/allocator.hpp:206-250 | no chunk has two holders: between two pops of a chunk lies a push of it |
| FreeList.PopIsSoundExactly | core/include/join/allocator.hpp:218-225 | a successful exchange of `pop` leaves a free list exactly when the link it read is still that of the chunk it takes |
| FreeList.TimelyIsNeeded | core/include/join/allocator.hpp:218-222 | a run from a fresh pool of three chunks, timely up to its last step, after which an exchange 2^32 head changes late succeeds, puts a chunk somebody holds at the head, and leaves no free list |
| Arena.BasicPool.constructor | core/include/join/allocator.hpp:133-161 | a new pool's chain is all its chunks in order |
| Arena.BasicPool.Pop | core/include/join/allocator.hpp:206-227 | takes the top of the chain of free chunks, or reports exactly that there is none |
| Arena.BasicPool.Push | core/include/join/allocator.hpp:233-250 | puts a chunk that was not free on top of the chain |
| Arena.MakeOffsets | core/include/join/allocator.hpp:466-481 | every pool begins where the bytes of the pools before it end |
| Arena.BlockInPool | core/include/join/allocator.hpp:257-263 | every chunk of a pool lies inside the pool's bytes and inside the computed total |
| Arena.BlocksDisjoint | core/include/join/allocator.hpp:292-311 | two different chunks of the arena share no byte, in one pool or in two |
| Arena.OwnedByOnePool | core/include/join/allocator.hpp:544-553 | an address of a chunk is owned by its own pool and by no other |
| Arena.BasicArena.constructor | core/include/join/allocator.hpp:361-367 | every pool starts full, at its offset |
| Arena.BasicArena.Allocate | core/include/join/allocator.hpp:412-415 | what a request gets is the first free chunk of the first pool that is large enough and not empty, and nothing exactly when there is none; the other pools do not change |
| Arena.BasicArena.TryAllocate | core/include/join/allocator.hpp:422-425 | the same for the first pool that is large enough, without promotion |
| Arena.BasicArena.Deallocate | core/include/join/allocator.hpp:431-439 | a block goes back to the top of the pool it was taken from, promoted or not; null changes nothing |
| Arena.AllocationIsSound | core/include/join/allocator.hpp:494-514 | a block is of the smallest class that could serve the request, inside the region, overlaps no live block, and is the only one whose state changes |
| Arena.FirstAvailable | core/include/join/allocator.hpp:494-514 | null means exactly that every large enough pool is empty |
| Arena.DeallocationIsSound | core/include/join/allocator.hpp:544-553 | giving a live block back frees that block and no other, in its own pool, and taking again undoes it |
| Arena.AllocateThenDeallocate | core/include/join/allocator.hpp:412-439 | giving back what was just taken restores every free list |
| Arena.ChunksConserved | core/include/join/allocator.hpp:412-439 | free and live chunks of a pool always add up to its count |
| Futex.LockIsSafe | core/include/join/futex.hpp:89-130 | over every interleaving: at most one thread in the critical section, the word is 0 exactly when nobody is, and no sleeper is left without the word at 2, a wake owed, or an awake contender |
| Futex.StepKeepsExclusion | core/include/join/futex.hpp:89-118 | each step keeps mutual exclusion and the meaning of the word |
| Futex.StepKeepsAttended | core/include/join/futex.hpp:98-111 | each step keeps somebody responsible for the sleepers |
| Futex.StuckMeansDone | core/include/join/futex.hpp:89-130 | when nothing but new calls can happen, nobody holds, wants or waits for the lock |
| Futex.InternalStepWorks | core/include/join/futex.hpp:89-130 | every step that is not a new call or a wake-up for no reason leaves less work to do |
| Futex.EverybodyGetsThrough | core/include/join/futex.hpp:89-130 | liveness: once calls stop arriving only boundedly many steps can happen, and when no more can, every caller has been through its critical section |
| Futex.AttemptsExactly | core/include/join/futex.hpp:89-118 | over every run: an attempt on the word, `tryLock` included, takes the lock exactly when nobody holds it; a failed `tryLock` changes nothing |
| Futex.ReleasesExactly | core/include/join/futex.hpp:120-130 | only the holder's `unlock` gives the lock back, which leaves it free |
| CommandQueue.NoCommandStranded | core/src/reactor.cpp:356-433 | for any number of callers and every interleaving, over a ring in which an unpublished place hides what stands behind it: commands are processed once each in the order pushed, results are written only into cells of calls in progress, a synchronous caller returns only after its own command and with its error, and a loop parked on a zero eventfd with nobody about to publish or notify has an empty queue |
| CommandQueue.StepKeepsAttended | core/src/reactor.cpp:356-378 | a raised flag or a queued command always has somebody who will drain the queue |
| CommandQueue.StepKeepsOrder | core/include/join/queue.hpp:694-821 | reserving, publishing and taking keep the queue what was pushed and not yet taken, in order |
| CommandQueue.TakenIsPublished | core/include/join/queue.hpp:694-821 | over every run: no command is taken before its caller has published it |
| CommandQueue.StepKeepsInv | core/src/reactor.cpp:384-433 | each step of callers and loop keeps order, cells and pointers to them right |
| CommandQueue.EveryCallerReturns | core/src/reactor.cpp:119-148 | liveness: after the last call only boundedly many steps can happen, and when no more can, every command is processed and every synchronous caller has returned exactly when the queue is empty, which it is unless the loop has exited |
| CommandQueue.StuckExactly | core/src/reactor.cpp:119-192 | where nothing can move, the calls still waiting are exactly the synchronous ones whose command was not processed |
| CommandQueue.HangsExactly | core/src/reactor.cpp:162-191 | once the loop has exited nothing more is processed: the queue is what it had not taken and everything pushed since, and a synchronous call waits for ever exactly when its command is one of these |
| CommandQueue.LastLookExactly | core/src/reactor.cpp:411-433 | which commands these are is decided at the loop's last look at the queue: those not pushed by then, and those at or behind a place reserved and not yet published |
| CommandQueue.AnnouncedCallHangs | core/src/reactor.cpp:162-191 | a synchronous call that pushed and wrote the eventfd before the loop exited, but after its last look, waits for ever: a concrete run |
| ReactorProtocol.NoCallbackAfterReturn | core/src/reactor.cpp:155-192 | for any number of threads and every interleaving of their calls with the loop's commands and callbacks: once `delHandler` has returned 0 to a synchronous caller, a callback for that descriptor starts only after it was registered again since that removal, and goes to the handler registered then |
| ReactorProtocol.ReturnedMeansDone | core/src/reactor.cpp:119-192 | a synchronous `addHandler` or `delHandler` that returns 0 has had its effect when its command was processed |
| ReactorProtocol.ExecuteExactly | core/src/reactor.cpp:384-411 | a command's error is 0 exactly when the entry that records it is the one thing it adds to the log; a stop adds nothing and ends the loop |
| ReactorProtocol.RunsUntilStopped | core/src/reactor.cpp:384-510 | over every run: the loop runs exactly until a request to stop was carried out or a callback stopped it, and exits only then |
| ReactorProtocol.StepKeepsInv | core/src/reactor.cpp:384-510 | every step of callers, loop and callbacks keeps the queue's protocol, the handlers in force, and the effect of each command that came out with error 0 |
| ReactorProtocol.CalledAfterRemoval | core/src/reactor.cpp:439-469 | in a log whose callbacks are current, a callback after a removal has a registration of its handler in between |
| PlainReactor.NoCallbackAfterRemoval | core/src/reactor.cpp:439-510 | over every run of the loop: a callback goes to the handler registered last, and after a removal no callback for that descriptor starts before it is registered again |
| PlainReactor.CallsExactly | core/src/reactor.cpp:274-350 | what a registration or a removal records and answers, by the call and what the kernel watches: done, refused, or forgotten although refused |
| PlainReactor.DispatchExactly | core/src/reactor.cpp:439-469 | by the bits of an event: an error calls `onError`, else a hang-up `onClose`, else readability `onReadable`, else writability `onWriteable`, on the handler in force and once; without one nothing happens |
| PlainReactor.ReadinessIsWantedAlways | core/src/reactor.cpp:439-510 | over every run: readiness reaches only a handler that was registered for that direction, or was registered after the batch was harvested |
| PlainReactor.StaleReadiness | core/src/reactor.cpp:475-510 | the exception is real: in one batch a command registers a new handler for writing alone, and it is called as readable |
| PlainReactor.AppendKeepsWatch | core/src/reactor.cpp:274-350 | the kernel watches a descriptor for what its registration in force asked for |
| PlainReactor.ReplayIsInForce | core/src/reactor.cpp:274-350 | the map of handlers is what its registrations and removals make it |
| PlainReactor.AppendKeepsCalls | core/src/reactor.cpp:439-469 | each entry of the log keeps every callback's handler the current one |
| PlainReactor.RunKeepsInv | core/src/reactor.cpp:475-510 | every batch keeps that, whatever commands and callbacks do |
| ReactorModel.Reactor.RegisterHandler | core/src/reactor.cpp:274-323 | `handlers` without `deleted` behaves as a plain map under registration, error cases included |
| ReactorModel.Reactor.UnregisterHandler | core/src/reactor.cpp:329-350 | and under removal, whether or not the kernel still knew the descriptor |
| ReactorModel.Reactor.DispatchEvent | core/src/reactor.cpp:439-469 | an event runs the callback its bits ask for, of the current handler, or none if it was removed in the same batch |
| ReactorModel.Reactor.Purge | core/src/reactor.cpp:502-508 | purging at the end of a batch changes nothing of the plain map |
| ReactorModel.Reactor.Round | core/src/reactor.cpp:475-510 | a batch, commands first, then callbacks that register and remove, is a round of the plain map, and nothing stays marked deleted |
| OperationLog.AcceptedThenEnded | core/include/join/proactor.hpp:673-696 | in a log where acceptances and endings alternate, an operation that is not open has been ended since it was last accepted |
| OperationLog.LogGrows | core/include/join/proactor.hpp:673-696 | appending an acceptance of a closed operation, or an ending of an open one, keeps the alternation |
| UringSpec.EveryOperationEndsOnce | core/include/join/proactor_uring_impl.hpp:725-830 | over every run, with any submissions and cancellations from handlers: acceptances and endings alternate for each operation, only negative results are reported as cancellations, and with nothing in flight every accepted operation was ended exactly once |
| UringSpec.CancellationsAreReported | core/include/join/proactor_uring_impl.hpp:482-587 | over every run: an ending is reported as a cancellation exactly when its result is an error and that error is the kernel's own word for it, or a cancellation, a stop's included, was accepted while the operation was in flight; between two turns, where descriptor and ring allow it, a submission is accepted exactly for what is not in flight, a cancellation exactly for what is and was not cancelled since, and a stop asks for all of these; what is not accepted changes nothing |
| UringSpec.CompletionEndsFirst | core/include/join/proactor_uring_impl.hpp:725-754 | a completion ends the operation it names, with its result, before the handler makes a call |
| UringSpec.AskKeepsReports | core/include/join/proactor_uring_impl.hpp:529-587 | cancellations accepted now mark what is in flight and change no earlier report |
| UringSpec.BusyIsUntouchable | core/include/join/proactor.hpp:673-696 | while its handler runs an operation can be neither submitted nor cancelled |
| UringSpec.CompleteKeepsInv | core/include/join/proactor_uring_impl.hpp:594-610 | ending an operation, its handler's calls included, keeps the table of operations in flight right |
| UringSpec.TurnKeepsInv | core/include/join/proactor_uring_impl.hpp:430-475 | and so does every command and completion |
| UringModel.Proactor.SubmitOperation | core/include/join/proactor_uring_impl.hpp:482-522 | the vector and its back-pointers do exactly what the set of operations in flight does, with the same error results |
| UringModel.Proactor.CancelOperation | core/include/join/proactor_uring_impl.hpp:529-574 | the same for a cancellation |
| UringModel.Proactor.CancelAllOperations | core/include/join/proactor_uring_impl.hpp:581-587 | every operation in flight for which the ring has room is being cancelled |
| UringModel.Proactor.SwapRemove | core/include/join/proactor_uring_impl.hpp:594-610 | removal from the middle keeps `pendingOps[i].index == i` and drops exactly the one operation |
| UringModel.Proactor.EndOperation | core/include/join/proactor_uring_impl.hpp:594-610 | an ended operation is out of the vector before its handler runs and idle only after |
| UringModel.Proactor.DispatchCqe | core/include/join/proactor_uring_impl.hpp:725-754 | a completion ends the operation it names, if that is not idle, as cancelled or completed by its result and what was asked |
| UringModel.Proactor.Drain | core/include/join/proactor_uring_impl.hpp:822-828 | the completions at hand, and the commands one of them stands for, are all taken before the loop condition is looked at again |
| UringModel.Proactor.EventLoop | core/include/join/proactor_uring_impl.hpp:794-830 | the loop goes on batch by batch exactly until it was stopped and nothing is in flight |
| EpollSpec.EveryOperationEndsOnce | core/include/join/proactor_epoll_impl.hpp:251-432 | over every run, handlers submitting and cancelling to any depth: an occupied slot holds a submitted operation of its descriptor and direction, every other operation is idle, the reactor watches exactly the occupied directions, and each acceptance is ended once or still in its slot |
| EpollSpec.ReadinessEndsExactly | core/include/join/proactor_epoll_impl.hpp:553-571 | readiness ends the operation in flight that waits for that direction of the descriptor (accept and the reads for reading, connect and the writes for writing), with its result and before its handler does anything; if none waits nothing changes |
| EpollSpec.LossEndsExactly | core/include/join/proactor_epoll_impl.hpp:577-603 | a hang-up ends both operations of a descriptor with 0 and an error with a connection reset, the reader first, neither as a cancellation |
| EpollSpec.CallsTakenExactly | core/include/join/proactor_epoll_impl.hpp:251-374 | a submission is taken exactly when the operation is not in flight, its descriptor is valid, nothing in flight waits there for the same direction and connecting did not fail; a cancellation exactly when the operation is in flight, which ends it as cancelled; nothing else changes anything |
| EpollSpec.StopEndsAllInFlight | core/include/join/proactor_epoll_impl.hpp:380-395 | `cancelAllOperations` ends every operation in flight when it was called, whatever its handlers do |
| EpollSpec.StopCancelsAllInFlight | core/include/join/proactor_epoll_impl.hpp:380-395 | and each of these is told it was cancelled |
| EpollSpec.CallsOnlyCancel | core/include/join/proactor_epoll_impl.hpp:315-395 | whatever a program calls, to any depth, ends operations only as cancelled |
| EpollSpec.StopLeavesExactly | core/include/join/proactor_epoll_impl.hpp:380-395 | an operation is in flight after the stop exactly when a handler, run while the sweep was at some descriptor, submitted it to that descriptor or one before, and nothing ended it since |
| EpollSpec.StopIsCleanExactly | core/include/join/proactor_epoll_impl.hpp:380-395 | so nothing is in flight after the stop exactly when no operation was left behind in that way |
| EpollSpec.StopIsClean | core/include/join/proactor_epoll_impl.hpp:380-395 | which is so whenever each handler submits only to descriptors further on, or nothing at all, at any depth of nested calls |
| EpollSpec.ResubmissionSurvivesStop | core/include/join/proactor_epoll_impl.hpp:380-395 | an operation that a handler submits to a descriptor already swept is still in flight after the stop: a concrete run |
| EpollSpec.RunCallKeepsInv | core/include/join/proactor_epoll_impl.hpp:251-432 | every call, nested or not, keeps slots, states and interest in step |
| EpollSpec.DeliverBothKeepsInv | core/include/join/proactor_epoll_impl.hpp:577-603 | closing or failing a descriptor ends both its operations although the first handler may change the slots |
| EpollModel.Proactor.SubmitOperation | core/include/join/proactor_epoll_impl.hpp:251-309 | the two vectors do what the slots do, with the same error results |
| EpollModel.Proactor.CancelOperation | core/include/join/proactor_epoll_impl.hpp:315-374 | a cancellation takes the operation from its slot, narrows the interest and calls back once |
| EpollModel.Proactor.CancelAllOperations | core/include/join/proactor_epoll_impl.hpp:380-395 | the sweep over the vectors is the sweep over the slots |
| EpollModel.Proactor.EndOperation | core/include/join/proactor_epoll_impl.hpp:399-432 | a completion empties the slot before the handler runs |
| EpollModel.Proactor.OnReady | core/include/join/proactor_epoll_impl.hpp:553-571 | readiness completes the operation of that direction |
| EpollModel.Proactor.EventLoop | core/include/join/proactor_epoll_impl.hpp:553-603 | a run of the proactor is a run of the slots, whichever descriptors its vectors have grown to hold by then |
| NetlinkAttributes.BuildThenDecode | fabric/src/netlink_manager.cpp:263-294 | every tree of attributes that fits the buffer is read back as the same tree |
| NetlinkAttributes.BytesOnTheWire | fabric/src/netlink_manager.cpp:263-294 | the bytes of one attribute inside another: length, type, payload, padding |
| NetlinkAttributes.Message.AddAttributes | fabric/src/netlink_manager.cpp:263-272 | an attribute is appended whole and aligned, and what lies before it is untouched |
| NetlinkAttributes.Message.StartNestedAttributes | fabric/src/netlink_manager.cpp:278-284 | opens an empty attribute and returns where it is |
| NetlinkAttributes.Message.StopNestedAttributes | fabric/src/netlink_manager.cpp:290-294 | changes the two bytes of the opened attribute's length and nothing else |
| NetlinkAttributes.Message.Build | fabric/src/netlink_manager.cpp:263-294 | start, children, stop encodes a tree of any depth in the flat buffer |
| NetlinkAttributes.PatchedEncodes | fabric/src/netlink_manager.cpp:290-294 | the patched length covers exactly the encoded children |
| NetlinkAttributes.EncodesFrame | fabric/src/netlink_manager.cpp:263-294 | what a stretch of bytes encodes depends on no other byte |
| NetlinkAttributes.DecodeInverts | fabric/src/interface_manager.cpp:847-881 | any bytes that encode a tree, whatever is in the padding, are walked back to that tree |
| NetlinkAttributes.WalkLoop | fabric/src/interface_manager.cpp:891-911 | the receive loop visits exactly the attributes there are, on any bytes, and ends |
| NetlinkAttributes.DecodeIsWalk | fabric/src/interface_manager.cpp:847-911 | at each level what is decoded is what the loop visits, inside the bytes given |
| PathNormalization.AgreesWithRfcExactly | services/src/http_message.cpp:794-848 | `normalize` equals remove_dot_segments of section 5.2.4 of RFC 3986 on the path with runs of slashes collapsed, for every path except those that come down to a lone segment of three dots or more |
| PathNormalization.AbsoluteAgreesWithRfc | services/src/http_message.cpp:794-848 | so always on an absolute path |
| PathNormalization.LoneDotsDiffer | services/src/http_message.cpp:834-837 | the path `...` is such an exception: the code clears it and the RFC keeps it |
| PathNormalization.Normalize | services/src/http_message.cpp:794-848 | the loops over the two buffers end and compute that |
| PathNormalization.RemoveLastSegment | services/src/http_message.cpp:775-788 | drops the last segment and the slash before it |
| PathNormalization.CollapseSlashes | services/src/http_message.cpp:799-802 | makes every run of slashes one |
| PathNormalization.RemoveDotsBySegments | services/src/http_message.cpp:805-843 | for every path the two buffers compute what its segments leave on a stack that `..` pops and `.` leaves alone |
| PathNormalization.NormalizedIsClean | services/src/http_message.cpp:794-848 | the result has no `//` and no `.` or `..` segment, and an absolute path stays absolute |
| PathNormalization.FixedExactlyWhenClean | services/src/http_message.cpp:794-848 | the paths left as they are are exactly those, lone dots apart |
| PathNormalization.NormalizeTwice | services/src/http_message.cpp:794-848 | normalising twice is normalising once |
| LineReader.Source.Getline | core/include/join/utils.hpp:307-335 | reads a line as its specification does, on any stream |
| LineReader.ReadsBack | core/include/join/utils.hpp:307-335 | a line without breaks that fits is read back, and nothing more is taken |
| LineReader.ReadsExactly | core/include/join/utils.hpp:307-335 | on any stream: a line is read exactly when a line feed is among the first characters allowed, and is what comes before it without carriage returns |
| HttpRequestHead.HeadReadsBack | services/src/http_message.cpp:304-338 | `readHeaders` of what `writeHeaders` wrote gives back method, parameters, version, headers and the normalised path, whatever follows; so the whole request exactly when its path was normalised |
| HttpRequestHead.RequestOnTheWire | services/src/http_message.cpp:666-671 | a request as it is written, character by character |
| HttpRequestHead.EscapesAreUndone | services/src/http_message.cpp:742-769 | percent-encoding, whichever characters it escapes and in either case, is undone |
| HttpRequestHead.EscapeSpells | services/src/http_message.cpp:742-769 | and every text of bytes can be so encoded |
| HttpRequestHead.FirstLineRefusedExactly | services/src/http_message.cpp:677-719 | a request line is refused exactly when it has fewer than two blanks, or its first word is no method, and with which error |
| HttpRequestHead.HeaderRefusedExactly | services/src/http_message.cpp:344-356 | a header line is refused exactly when it has no colon followed by a blank |
| HttpRequestHead.SeparatorExactly | services/src/http_message.cpp:344-356 | and else the first one parts it |
| HttpRequestHead.NamesAgreeExactly | services/src/http_message.cpp:344-356 | two names are one header exactly when they differ in the case of ASCII letters only |
| HttpRequestHead.HeaderGivenAgain | services/src/http_message.cpp:344-356 | a header given again keeps its spelling and takes the new value, and no other header changes |
| HttpRequestHead.WriteThenRead | services/src/http_message.cpp:666-736 | the same through two request objects and a stream |
| HttpRequestHead.RequestLineReads | services/src/http_message.cpp:677-736 | the request line is split where it was joined |
| HttpRequestHead.StoreReadsDump | services/src/http_message.cpp:854-887 | the query written from a map of parameters, in any order, is read into that map |
| HttpRequestHead.LinesRead | services/src/http_message.cpp:344-356 | the header lines written from a map, in any order, are read into that map |
| HttpRequestHead.TerminatedIsDump | services/src/http_message.cpp:564-579 | dropping the last `&` leaves the parameters joined by `&` |
| HttpRequestHead.HttpRequest.WriteHeaders | services/src/http_message.cpp:666-671 | writes the request line, the headers and the empty line |
| HttpRequestHead.HttpRequest.ReadHeaders | services/src/http_message.cpp:304-338 | reads a head into the request; after a line that is too long, missing or refused the request holds what was read before it, and the source goes on behind it |
| HttpRequestHead.HttpRequest.ParseFirst | services/src/http_message.cpp:677-736 | takes the request line apart, or leaves the request as it was |
| HttpRequestHead.HttpRequest.StoreLoop | services/src/http_message.cpp:854-887 | stores the pairs of a query one by one |
| HttpRequestHead.DecodeUrlLoop | services/src/http_message.cpp:742-769 | replaces each escape by its character, whatever the variable for a digit held when a blank stands in the digit's place |
| DhcpOptions.RoundTrip | fabric/src/dhcp_message.cpp:58-322 | with the repository's table, a map of options that the table holds is serialized exactly when every payload fits 255 bytes, and then deserialized to the same map, to the last byte written |
| DhcpOptions.OptionsComeBack | fabric/src/dhcp_message.cpp:201-322 | options on the wire in any order, Pad bytes among them, come back as the same map, and what follows End is left |
| DhcpOptions.WrittenIsRead | fabric/src/dhcp_message.cpp:58-195 | what `serialize` writes is read back |
| DhcpOptions.ReadIsTakeAll | fabric/src/dhcp_message.cpp:201-322 | on any bytes: only whole options are used, and the result is a failure exactly when the stream ends inside one |
| DhcpOptions.CarriedIsTaken | fabric/src/dhcp_message.cpp:245-320 | reading options one by one, the first of each code counting, rebuilds the map they came from |
| DhcpOptions.ParseInverts | fabric/src/dhcp_message.cpp:67-320 | for each of the ten types a value the table holds is parsed back from its payload |
| DhcpOptions.ParsesExactly | fabric/src/dhcp_message.cpp:245-320 | a value is read from exactly the bytes that mean it, and those are written for it: numbers are the big-endian value of their bytes, signed ones modulo 2^32, lists piece by piece |
| DhcpOptions.PayloadMeans | fabric/src/dhcp_message.cpp:67-195 | what is written for a value means that value, most significant byte first |
| DhcpOptions.MessageSizeOnTheWire | fabric/src/dhcp_message.cpp:81-101 | the bytes of a maximum message size, and the lease time of four given bytes |
| DhcpOptions.InOrderAscends | fabric/src/dhcp_message.cpp:58-195 | options are written in ascending order of their codes, each once |
| DhcpOptions.BitIsOfMask | fabric/include/join/dhcp_option.hpp:445-450 | an entry with a mask accepts the values whose bit it has |
| DhcpOptions.NodeTypes | fabric/src/dhcp_option.cpp:87-87 | so the four NetBIOS node types and nothing else |
| DhcpOptions.KnownBounds | fabric/include/join/dhcp_option.hpp:445-458 | and one with bounds the values between them, both included |
| DhcpOptions.Serialize | fabric/src/dhcp_message.cpp:58-195 | writes the described options in the order of their codes and End, and fails exactly when a payload is too long |
| DhcpOptions.Deserialize | fabric/src/dhcp_message.cpp:201-322 | reads options until End, the end of the stream, or a cut option |
| DhcpOptions.Describe | fabric/src/dhcp_option.cpp:116-120 | the lower bound finds the entry of a code exactly when there is one |
| DhcpOptions.TableIsFit | fabric/src/dhcp_option.cpp:43-114 | the table's codes ascend and leave out Pad and End |
| DhcpOptions.DhcpOption.InsertValue | fabric/include/join/dhcp_option.hpp:347-364 | a value goes in exactly when the table could hold it alone and its code is still free; no other code is touched, and a map the table can hold stays one |
| DhcpOptions.FirstCounts | fabric/include/join/dhcp_option.hpp:347-364 | of several options with one code the first that the table can hold counts, and the others are passed over |
| DhcpOptions.ReadThenWritten | fabric/src/dhcp_message.cpp:58-322 | for any bytes, well-formed or not: the options read are ones the table can hold, they can be written, and reading what was written gives them again |
| DhcpOptions.PayloadInverts | fabric/src/dhcp_message.cpp:245-320 | a payload that parses is the payload of its value: no two payloads of a type mean the same |
| DhcpOptions.ParseWords | fabric/src/dhcp_message.cpp:298-305 | pairs of bytes are words, most significant byte first |
| DhcpOptions.ParseIps | fabric/src/dhcp_message.cpp:308-317 | groups of four bytes are addresses |
| ChunkedCoding.EncodedDecodes | services/src/chunk_stream.cpp:95-217 | what is encoded under one chunk size decodes to the same bytes and then end-of-file under every chunk size from that on, whatever follows |
| ChunkedCoding.RoundTrip | services/src/chunk_stream.cpp:95-217 | the same through two stream buffers |
| ChunkedCoding.FramesDecode | services/src/chunk_stream.cpp:95-159 | any well-formed chunks, with extensions and any spelling of the size, decode to their data |
| ChunkedCoding.HexRoundTrip | services/src/chunk_stream.cpp:116-124 | a size printed in hexadecimal is a size read, up to the signed 64-bit limit, and fits its line |
| ChunkedCoding.SizeIsRead | services/src/chunk_stream.cpp:111-124 | a size in digits of either case, with any extension after a semicolon, is read as its number |
| ChunkedCoding.NumberIsRead | services/src/chunk_stream.cpp:117-124 | so is one after blanks, a sign and a prefix, up to what is no digit, exactly when it fits 64 signed bits |
| ChunkedCoding.SizeIsPrinted | services/src/chunk_stream.cpp:172-178 | a size is printed in lower-case digits without leading zeros |
| ChunkedCoding.AlphabetOnTheWire | services/src/chunk_stream.cpp:165-204 | a chunk of twenty-six characters and the last chunk, character by character |
| ChunkedCoding.FramesAreWellFormed | services/src/chunk_stream.cpp:172-189 | the encoder's chunks are never empty, never too long, and hold the data in order |
| ChunkedCoding.Chunkstreambuf.Write | services/src/chunk_stream.cpp:165-204 | characters reach the sink in full chunks, the rest stays pending, and unread input is untouched |
| ChunkedCoding.Chunkstreambuf.Overflow | services/src/chunk_stream.cpp:165-204 | what is pending goes out as one chunk when the area is full or at the end |
| ChunkedCoding.Chunkstreambuf.Sync | services/src/chunk_stream.cpp:210-217 | the pending characters as a chunk, and the last chunk |
| ChunkedCoding.Chunkstreambuf.Refill | services/src/chunk_stream.cpp:102-155 | a refill takes the next chunk, or fails exactly when there is none; then it leaves the get area empty, or holding a chunk that is not ended as it should be |
| ChunkedCoding.Chunkstreambuf.Underflow | services/src/chunk_stream.cpp:95-159 | gives the next character to read, pending output untouched, and end-of-file exactly when the area is empty and no chunk follows; what the area and the source are then is stated too |
| ChunkedCoding.Chunkstreambuf.Drain | services/src/chunk_stream.cpp:95-159 | reading to the end gives everything the stream decodes to |
| KeyedCache.CacheIsHistory | fabric/src/route_manager.cpp:417-510 | after any messages a key is in the cache exactly when the last message about it put it there, and with that message's data |
| KeyedCache.ListenerIsRight | fabric/src/route_manager.cpp:516-552 | a listener that takes every notice at its word reconstructs the cache; nothing is added that is present, nor modified or deleted that is absent |
| MessageAttributes.GivenIsOne | fabric/src/route_manager.cpp:440-463 | the last attribute of a kind, or the value before, determines what a message gives |
| MessageAttributes.OneMoreGiven | fabric/src/route_manager.cpp:440-463 | each attribute replaces what those before it gave |
| RouteCache.RoutesFollowMessages | fabric/src/route_manager.cpp:417-510 | after any messages a route is in the cache exactly when the last accepted message about its interface, destination and prefix was not a deletion, and it holds the gateway, metric, type, scope and protocol of that message |
| RouteCache.UnderstandExactly | fabric/src/route_manager.cpp:417-470 | a message is accepted exactly for the main table, IPv4 or IPv6 and an output interface; what it is about and what it says is given by its last destination, gateway, metric and interface attributes |
| RouteCache.FlagsExactly | fabric/src/route_manager.cpp:498-507 | a change is flagged exactly when the message says something other than the route held |
| NeighborCache.NeighborsFollowMessages | fabric/src/neighbor_manager.cpp:366-448 | the same for neighbours: the last accepted message about interface and address |
| NeighborCache.UnderstandExactly | fabric/src/neighbor_manager.cpp:366-412 | a message is accepted exactly for a real interface, IPv4 or IPv6 and an address that is not the wildcard, an IPv6 address being scoped by the interface |
| NeighborCache.FlagsExactly | fabric/src/neighbor_manager.cpp:437-447 | a change of link-layer address or state is flagged exactly when there is one |
| RouteCache.RouteManager.OnRouteMessage | fabric/src/route_manager.cpp:417-510 | the route objects, updated in place, and the notices follow the accepted messages: main table, IPv4 or IPv6, with an output interface |
| RouteCache.RouteManager.OnMessages | fabric/src/route_manager.cpp:399-510 | over any messages the cache is their fold and the notices are the fold's |
| RouteCache.RouteManager.Store | fabric/src/route_manager.cpp:495-509 | a route is added or updated in place, and each changed field flagged |
| RouteCache.RouteManager.Remove | fabric/src/route_manager.cpp:467-492 | a deletion is told only of a route that was there |
| RouteCache.RouteManager.Acquire | fabric/src/route_manager.cpp:531-552 | finds the route or adds a fresh one |
| NeighborCache.NeighborManager.OnNeighborMessage | fabric/src/neighbor_manager.cpp:366-448 | the same for neighbours: a real interface, a known family, no wildcard address |
| NeighborCache.NeighborManager.OnMessages | fabric/src/neighbor_manager.cpp:348-448 | over any messages the cache is their fold and the notices are the fold's |
| NeighborCache.NeighborManager.Store | fabric/src/neighbor_manager.cpp:437-447 | a neighbour is added or updated in place, and each changed field flagged |
| InterfaceCache.AddressesAreDistinct | fabric/src/interface_manager.cpp:951-988 | no address list ever holds an IP twice |
| InterfaceCache.AddressesAreHistory | fabric/src/interface_manager.cpp:917-996 | an address is listed exactly when the last message about its IP, with the link there and not deleted since, said so |
| InterfaceCache.LinksFollowMessages | fabric/src/interface_manager.cpp:801-829 | a link is in the cache exactly when it was announced and not deleted since |
| InterfaceCache.LinkDataFollows | fabric/src/interface_manager.cpp:831-881 | what a link holds changes by its own announcements only, and then to the flags and, of each kind, the last attribute given |
| InterfaceCache.UpdateSays | fabric/src/interface_manager.cpp:831-911 | which flags a link message raises: a field's exactly when an attribute changes it, the state's exactly when its bit differs |
| InterfaceCache.AddressExactly | fabric/src/interface_manager.cpp:917-946 | the address of a message: its last local one, else the first peer that is no wildcard, with its prefix, its last broadcast and, for IPv6, the interface as scope |
| InterfaceCache.AddressesFollowMessages | fabric/src/interface_manager.cpp:917-996 | an address is listed exactly when a message put it there, its link being known, and no later message was about its IP or took the link away |
| InterfaceCache.LinkListenerIsRight | fabric/src/interface_manager.cpp:801-885 | a link listener reconstructs the set of links |
| InterfaceCache.LinkNoticesExactly | fabric/src/interface_manager.cpp:814-829 | a link is added only when absent; a deleted one was present exactly when the notice carries it |
| InterfaceCache.UnknownLinkDeleted | fabric/src/interface_manager.cpp:814-829 | the deletion of an unknown link is told all the same: a concrete message |
| InterfaceCache.AddressListenerExactly | fabric/src/interface_manager.cpp:951-996 | an address listener is right after every message of a run exactly when no link was deleted with addresses still on it |
| InterfaceCache.DeletedLinkForgotten | fabric/src/interface_manager.cpp:814-829 | a link, an address on it and the deletion of the link leave the listener with an address that is gone: three concrete messages |
| InterfaceCache.ChangesAreFlagged | fabric/src/interface_manager.cpp:831-881 | every field a link message changes has its flag raised |
| InterfaceCache.InterfaceManager.UpdateInterface | fabric/src/interface_manager.cpp:831-881 | an interface is found or added and brought up to date in place, and the flags are those of what changed |
| InterfaceCache.InterfaceManager.OnLinkMessage | fabric/src/interface_manager.cpp:801-885 | the interface objects, updated in place, follow the link messages |
| InterfaceCache.InterfaceManager.OnAddressMessage | fabric/src/interface_manager.cpp:917-996 | and their address lists the address messages, of known links only |
| InterfaceCache.InterfaceManager.OnMessages | fabric/src/interface_manager.cpp:778-795 | over any messages cache and notices are those of the run |
| InterfaceCache.Interface.PlaceAddress | fabric/src/interface_manager.cpp:953-971 | an address takes the place of its IP, or the end of the list |
| InterfaceCache.Interface.RemoveAddress | fabric/src/interface_manager.cpp:975-981 | every entry of the IP goes, the others keep their order |
| Traceroute.Trace | fabric/src/ping.cpp:321-394 | the nested loops end for every behaviour of the network and do the one run its answers determine |
| Traceroute.RunIsUnique | fabric/src/ping.cpp:321-394 | the answers determine the run |
| Traceroute.ReportsInOrder | fabric/src/ping.cpp:341-387 | hops are reported 1, 2, 3 and so on, once each despite retries, and no further than the limit |
| Traceroute.EchoesExactly | fabric/src/ping.cpp:341-378 | each echo probes the hop after those reported, with the size the last narrowing left, which is the reported MTU less the headers, and the one given before any |
| Traceroute.RoundsAreFull | fabric/src/ping.cpp:341-387 | each hop reported was probed as often as asked in one round, or until a fatal error |
| Traceroute.AbortEnds | fabric/src/ping.cpp:374-393 | an error nothing was sent for and retrying cannot mend is followed by the report of its hop and nothing else |
| Traceroute.EndsExactly | fabric/src/ping.cpp:335-387 | a trace ends exactly when a round is over and a reply came, an error was fatal, or the hops ran out |
| Traceroute.RetriesAreSmaller | fabric/src/ping.cpp:362-378 | after a narrowing the same hop is probed again with fewer bytes |
| Traceroute.NarrowingsAreBounded | fabric/src/ping.cpp:362-378 | a payload is narrowed no more often than it has bytes |
| Traceroute.ReachedReplied | fabric/src/ping.cpp:352-356 | the result is -1 exactly without a reply, and else a hop a reply came for |
| Traceroute.ReachedIsReportedExactly | fabric/src/ping.cpp:341-387 | the hop returned is the last one reported exactly when the trace did not end on a narrowing; else it is the one after |
| Traceroute.ReachedUnreported | fabric/src/ping.cpp:341-387 | a concrete network for which hop 1 is returned and never reported |
| Traceroute.UnreachedReason | fabric/src/ping.cpp:341-387 | a trace without a reply reports every hop, unless an error that retrying cannot mend aborted it |
| Traceroute.PathMtu | fabric/src/ping.cpp:241-315 | the sizes tried fall strictly, each given by an error's report; the result is -1 unless the last echo was answered, and then the last size, or the route's own MTU when nothing narrowed it; it gives up after thirty sizes, after three echoes in vain for one size, or at the first fatal error, and not before |
| PingStatistics.WelfordStep | fabric/src/ping.cpp:90-93 | one update takes the mean and the sum of squared deviations of some samples to those of one sample more |
| PingStatistics.Statistics.Sample | fabric/src/ping.cpp:75-94 | over any samples: the mean times the count is their sum, `m2` is the sum of squared deviations from the mean, and `min` and `max` are the least and the greatest sample |
| PingStatistics.Statistics.Reset | fabric/src/ping.cpp:114-128 | starts over without samples |
| PingStatistics.MeanWithinBounds | fabric/src/ping.cpp:75-94 | the mean lies between the least and the greatest sample |
| PingStatistics.DeviationsNotNegative | fabric/src/ping.cpp:93-93 | `m2` is never negative, and zero exactly when all samples are the mean |
| PingStatistics.MeanIsBest | fabric/src/ping.cpp:91-93 | no other centre has smaller squared deviations than the mean |
| PingStatistics.AnyOrder | fabric/src/ping.cpp:75-94 | the order of the samples does not matter |
| MacAddress.AddIsExact | core/src/mac_address.cpp:432-442 | `operator+=` is addition modulo 2^48 on the big-endian value exactly when no byte but the first is borrowed from by anything but a multiple of 256; so for every value from 0 up, despite the early exit |
| MacAddress.AdditionsCompose | core/src/mac_address.cpp:512-526 | successive additions are one addition of their sum |
| MacAddress.SumValue | core/src/mac_address.cpp:432-442 | what the loop computes for any value: the sum, plus every borrow truncation forgets, up to a multiple of 2^48 |
| MacAddress.MinusOneFails | core/src/mac_address.cpp:432-442 | adding -1 to the zero address gives 00:00:00:00:00:ff |
| MacAddress.ValueInjective | core/src/mac_address.cpp:432-442 | an address is determined by its value |
| MacAddress.Address.Add | core/src/mac_address.cpp:432-442 | the loop over the bytes, last to first, with its early exit, computes that sum in place |
| MacAddress.Address.Increment | core/src/mac_address.cpp:448-451 | adds one modulo 2^48 |
| MacAddress.Address.Plus | core/src/mac_address.cpp:512-526 | adds into a copy and leaves the operand as it is |

## Left out

- Memory orderings: every atomic access is one step that all threads see in the same order.
- System calls: epoll, io_uring, futex, eventfd, netlink and sockets are what is stated of them below; mapping and locking memory is not modelled.
- CommandQueue: the ring of `queue.hpp` is its places in the order they were reserved; pushes find room, writes to the eventfd succeed, and `Reactor::run` is not called again once it has returned.
- FreeList.PoolRefinesStack: assumes that no `pop` exchanges the head a non-zero multiple of 2^32 head changes after its look with its chunk at the head again; `FreeList.TimelyIsNeeded` shows why.
- Arena: the arena is modelled for calls one after the other; that interleaved calls of its pools behave so is what `FreeList` proves. Addresses are offsets from the region's start, on the 64-bit ABI.
- Futex: the kernel's WAIT compares and goes to sleep in one step and WAKE releases a sleeper if there is one. `SharedFutex` is the same algorithm.
- UringSpec.EveryOperationEndsOnce: the kernel posts one completion for each operation in flight, and `stop` arrives as a command, not from inside a handler.
- UringModel.Proactor.EventLoop: does not model how the loop waits, which is where its blocking, polling and kernel-thread variants differ; a batch is what it then finds.
- EpollSpec.EveryOperationEndsOnce: calls to the reactor succeed, and readiness is reported only for a direction in the interest list, so a readiness gathered before the slot was emptied is not covered.
- ChunkedCoding.Chunkstreambuf.Overflow: the inner stream accepts everything written to it.
- HttpRequestHead.DecodeUrlLoop: an escape cut off by the end of the string reads NUL, where C++ leaves the second character undefined.
- HttpRequestHead: responses, `host`, `auth` and `credentials`, which only take apart one header.
- ReactorProtocol: a callback and the calls it makes are one step of the loop, as is what a command does; the answers of epoll are those of the kernel's interest list and of the call.
- DhcpOptions: the fixed fields of a message, the magic cookie and option overloading; conversion from text; integers that do not fit their type.
- NetlinkAttributes: the meaning of each attribute; sizes that do not fit the buffer, which the code does not check.
- KernelCache, InterfaceCache: locks, listener registration, `refresh` and dumps; messages come with their attributes already split.
- Traceroute.Trace: failure to open the socket, waiting between probes, and how an echo is sent and matched; an echo is what came of it.
- PingStatistics.Statistics.Sample: doubles are reals; `mdev`, a square root, is left out.
- Liveness of `ThreadPool` shutdown; OpenSSL and zlib wrappers; JSON, MessagePack, DNS and timers, whose headers are not part of this model; IP address text, endpoints, SMTP and the command-line samples.
