# OneServer, modelled and verified

OneServer is an HTTP server over epoll and a pool of worker threads. These modules model its five cores
and prove what they keep:

- **The task protocol.** `Scheduler` takes EnqueEvents, Attach, the worker loop and Detach apart into
  interleaved steps; `SchedulerEvents` follows every posted event bit over a run; `EventThread` adds the
  event thread's disarm-then-post, RequestEvent and re-arming; `BirthAngel` is the pair of queues that
  share one wake-up pipe.
- **The timer heap.** `HeapOrder` is what its two sift loops do to the sequence of slots, `Heap` the
  growing array of element pointers, `TimerThread` and `TaskThread` its two users.
- **Requests.** `StringParser`, `Framing` and `Receiving` frame requests; `HttpProtocol`,
  `RequestSyntax` and `HttpRequest` parse them; `RequestRoundTrip` prints and reads them back.
- **The URL codec.** `UrlSpec` says what decoding means without buffers; `StringTranslator` has the
  one-pass decoder, the encoder and their round trip.
- **Buffers and the session.** `Deque` is the circular list, `FileBuffer` the piece cache, `Sending` the
  response buffer over `Stages`, its state as a value; `Delivery` says when a file gets out. `Session` puts
  the halves of an HTTP session together into its Run and proves that it computes `SessionTurns`;
  `SessionRuns` follows requests over one or more runs, `SessionHistory` the bytes received and produced
  over all of them, and `Server` puts sessions onto the workers and the event thread.

`dafny verify dfyconfig.toml` checks everything.

## How to read the model

Protocols between threads are state machines whose theorems range over all runs from the initial state. A
region under a mutex is one step; everything else that another thread can observe is a step of its own.
Objects that the program updates in place are classes whose methods are specified by functions on
sequences, and the theorems are about those functions.

A byte is a character below 256. Results of `recv`, `send`, `malloc`, the clock, epoll and the file system
are parameters or steps. Where the code reads memory beyond its data, that memory is a parameter too: the
bytes after the 130-entry case table, and the byte after a frame that an empty URI makes ParseURI read.
The length of a not yet set `fContentLen` is the constructor's parameter `garbage`.

Two step kinds are repaired variants that the program does not have: `LockedAttach`, an Attach whose test,
store and append are one step, and `CheckedDetach`, a Detach that puts the task back into its queue when
events arrived meanwhile. Runs of the program as it is do not use them; the rows below say "repaired
variant" where a theorem is about them.

## Where the code differs from its intent

- Attach tests and stores without a lock. With one posting thread that is safe; with two, a task can run on
  two workers. `Scheduler.SinglePlacementIff` has the exact condition.
- A post between DequeEvents and Detach is stranded (`SchedulerEvents.StrandedIff`). Because the event
  thread disarms the watch before it posts, such a session can be lost for good, even when its run did ask
  for events (`EventThreads.AskedRunGoesDeaf`, `EventThreads.DeafForever`). `EventThreads.NeverDeafIff` says
  exactly when no run loses a session.
- A session run can end well without asking for any event; nothing then arms its watch again
  (`SessionTurns.SilentIff`, `Server.LostCause`).
- A send that fails closes the socket. If that happens in DoRead and the run also writes after everything
  was read, Run returns 0 all the same (`SessionTurns.ClosesAndReturnsIff`), and the session can stay alive
  on a closed socket for good (`Server.ClosedAndLost`, `EventThreads.ClosedDeafForever`).
- SendDone means "read", not "sent". A file gets out only if the send right after the one read takes all of
  it (`Delivery.DeliveredIff`); if not, later writes send nothing (`Delivery.DoneStays`), ask for nothing,
  and the session can be lost with the rest of the response in its buffer (`Server.TruncatedAndLost`,
  `Server.TruncatedForever`).
- A failed read is forgotten when the same run also writes (`SessionTurns.ReadErrorSurvivesIff`,
  `SessionRuns.ReadErrorForgotten`).
- An error page leaves the file of an unfinished earlier response open, so its body can follow the page
  (`SessionRuns.PageBodyIff`, `SessionRuns.FileFollowsPage`), unless the page is for a file that cannot be
  opened (`SessionRuns.NoBodyAfterFailedOpen`).
- DoRead answers one request per read: a second one in the buffer waits for further input
  (`SessionRuns.RequestWaitsIff`).
- Extract only sifts down, so Remove can leave a heap unordered; the minimum stays right
  (`HeapOrder.ExtractOrderedIff`, `Timers.RunOrderedIff`).
- DecodeURL cuts a final "." or ".." off the end of everything it wrote, so with a query after such a
  component it is the query that loses bytes. Unlike section 5.2.4 of RFC 3986, ".." does not remove the
  component before it.
- `%X` prints one digit for tab, CR and LF, so EncodeURL's output for them is rejected by DecodeURL.
- FileBuffer::Read treats its end position as inclusive and copies one byte more than asked unless the
  file ends first.
- CFile::Read never moves its offset and reads one byte more than asked, so a file over 256 KiB overwrites
  the byte behind the response buffer (`FileBuffers.FileBuffer.ReadFromStart`, `Sending.ByteBehindBuffer`).
- `fRangeStop` keeps the value of the first file of a session that is not empty, so a later file of another
  length is announced with the first one's (`SessionRuns.LengthAnnouncedIff`) and read again and again until
  that many bytes were read, if ever (`Delivery.ReadsExact`, `SessionRuns.SecondFileTwice`).
- The timer's wait goes through u_int32_t and int32_t, where 0 means to wait for ever.
- A frame that ends the buffer in a bare CR grows by an LF that arrives later (section 3.5 of RFC 7230 has
  lone LF as a line end; the code also takes a lone CR). So a request that arrives split between its last
  CR and LF is answered early, and the LF spoils the next request (`SessionHistory.PartFramedIff`,
  `SessionHistory.AnsweredWithoutLf`, `SessionHistory.StrayLfSpoilsNext`).
- White space before the version may cross line ends, so a first line without a version takes the next
  line for it (`RequestRoundTrip.HeaderTakenForVersion`). With nothing behind it the request fails to
  parse, and is answered all the same (`SessionRuns.VersionlessGetAnswered`).
- `BirthAngel` never initialises `m_ChildDeque`; it is modelled as empty at the start.
- Clear leaves path, keep-alive and header values of the last request, and DoRequest ignores what Parse
  returns.

## Model

| member | source | states |
|---|---|---|
| Scheduler.SinglePlacementIff | BaseServer/task.cpp:27-51 | In every run of the interleaved protocol, each task is in at most one place (being attached, in one queue, running on one worker, in one timer heap) and its thread pointer names that worker in every state, if and only if no attach test passes while another Attach of the same task is past its test |
| Scheduler.PlacementTheorem | BaseServer/TaskThread.cpp:91-116 | With one posting thread, or with an atomic Attach and any number, in every reachable state: a live task is idle or in exactly one place, its thread pointer is NULL exactly while it is idle or tested but not yet stored, and no two workers run it |
| Scheduler.KeepsInv | BaseServer/task.cpp:27-51 | Each single step other than a clash keeps single placement and keeps a worker's own posts confined to the task it is about to run |
| Scheduler.ClashBreaks | BaseServer/task.cpp:31-35 | A clash always puts its task in two places |
| Scheduler.OnePosterNoClash | BaseServer/task.cpp:46-51 | One posting thread beside the workers' own EVENT_CONTINUE never clashes, although Attach takes no lock |
| Scheduler.LockedNoClash | BaseServer/task.cpp:27-38 | Repaired variant: with test, store and append under one lock any number of posters never clash |
| Scheduler.ParkIsSafe | BaseServer/TaskThread.cpp:110-114 | When Entry inserts the timer element of a finished run without checking, that element is in no heap, no queue and no other worker has the task |
| Scheduler.TwoPostersDoubleRun | BaseServer/task.cpp:31-35 | The code as it is with two posters: a concrete run after which two workers run the same task |
| Scheduler.PostCanStrand | BaseServer/task.cpp:40-51 | One poster: a concrete run that leaves an event bit on an idle task with no post in progress |
| SchedulerEvents.EventsExact | BaseServer/task.cpp:49-66 | m_events holds exactly the bits posted since the last DequeEvents of the task |
| SchedulerEvents.EventConservation | BaseServer/task.cpp:46-68 | Every posted bit is still in m_events or was returned by a later DequeEvents |
| SchedulerEvents.StrandedIff | BaseServer/TaskThread.cpp:101-109 | On an idle live task nobody is posting to, a bit is left if and only if some post did its OR after the last DequeEvents and its attach test before the Detach of that same run |
| SchedulerEvents.FateAt | BaseServer/task.cpp:40-68 | What has become of any pending bit at any time: its test is still to come, the task is where a worker will dequeue it, its run is past DequeEvents and not over, or it is stranded |
| SchedulerEvents.RanSince | BaseServer/HttpSession.cpp:1032-1033 | A worker whose run is past DequeEvents did that DequeEvents itself, and nobody dequeued the task since |
| SchedulerEvents.CheckedNeverStrands | BaseServer/task.cpp:40-44 | Repaired variant: with a Detach that puts the task back into the queue when events were posted meanwhile, an idle task nobody is posting to has no events, for any number of posters with an atomic Attach |
| EventThreads.DeafCause | BaseServer/EventThread.cpp:41-57 | If a live session is idle, not being posted to, disarmed, with no event reported and no re-arm on its way, then a post was stranded on it in the protocol run inside this one, or its last run ended without asking for events, or a run of it closed its socket |
| EventThreads.DeafUnlessClosed | BaseServer/EventThread.cpp:41-57 | With its socket open only the first two are possible |
| EventThreads.ClosedBy | BaseServer/HttpSession.cpp:487-491 | A socket is closed only by a step of a run of its session |
| EventThreads.DeafForever | BaseServer/EventThread.cpp:54-56 | Such a session never runs again and never sees the bits posted to it, whatever happens, unless epoll reports a hang-up |
| EventThreads.ClosedDeafForever | BaseServer/EventThread.cpp:54-56 | With its socket closed it never runs again, whatever happens: not even a hang-up is reported |
| EventThreads.AskedRunGoesDeaf | BaseServer/EventThread.cpp:54-56 | The code as it is with the event thread as the only poster: a concrete run whose only session run does ask for events and which loses the session with EVENT_READ pending |
| EventThreads.CheckedDeafIsSilent | BaseServer/task.cpp:40-44 | Repaired variant: with the checking Detach a session is lost only by a run that did not ask for events or one that closed its socket |
| EventThreads.NeverDeafIff | BaseServer/EventThread.cpp:23-63 | No state of a run has a lost session if and only if no Detach (or repaired Detach) in it ends a session's run while its watch is disarmed, no event of it is reported, no re-arm of an open socket is on its way and no post to it is between its OR and its test |
| EventThreads.DeafenedByLosing | BaseServer/TaskThread.cpp:106-109 | A step of any kind that loses a session is such a Detach |
| EventThreads.LosingDeafens | BaseServer/TaskThread.cpp:106-109 | Every such Detach loses its session |
| EventThreads.DetachDeafensIff | BaseServer/TaskThread.cpp:106-109 | A Detach loses a session if and only if at that moment its watch is disarmed, no event of it is reported, no re-arm of an open socket is on its way and no post to it is between its OR and its test |
| EventThreads.ReportsNeedArming | BaseServer/EventThread.cpp:54-56 | Once the event thread has come to an event of a session, epoll does not return another, but for hang-ups, before the birth angel armed its watch |
| EventThreads.ReachableAt | BaseServer/task.cpp:83-89 | In every reachable state a live session has its socket closed, is watched, reported, about to be armed or posted, has events, is in a run that has still to ask, or was left by a run that did not ask |
| EventThreads.KeepsMask | BaseServer/BirthAngel.cpp:94-99 | An armed watch with no request on its way is for the events the session asked for last |
| EventThreads.ServerListens | BaseServer/EventThread.cpp:45-49 | From the step on with which a server starts to listen, and never before, its watch is armed for EVENT_READ in every state of every run |
| BirthAngel.PipeAccounting | BaseServer/BirthAngel.cpp:27-103 | In every reachable state bytes in the pipe plus writes still to be done equal entries queued plus entries removed with their byte unread; entries are handed over once each in FIFO order per queue; a reader blocked on an empty pipe has a writer past its append |
| BirthAngel.NeverStuck | BaseServer/BirthAngel.cpp:106-111 | No deadlock and no lost wake-up: unless everything was handed over, a thread past its append or the event thread can take a step |
| BirthAngel.StepsSettle | BaseServer/BirthAngel.cpp:49-111 | Without new entries every run ends with everything handed over: each step lowers a rank |
| BirthAngel.RunKeepsInv | BaseServer/BirthAngel.cpp:27-111 | The invariants below hold in every state of every run |
| BirthAngel.KeepsAccounted | BaseServer/BirthAngel.cpp:34-67 | Each step keeps the pipe's books balanced |
| BirthAngel.KeepsFifo | BaseServer/BirthAngel.cpp:59-71 | Each step keeps: enqueued equals handed over, then in hand, then queued |
| BirthAngel.KeepsWakeOwed | BaseServer/BirthAngel.cpp:106-111 | Each step keeps: a queue that the current pass will not drain has a wake-up or a write still to come |
| HeapOrder.ExtractOrderedIff | BaseServer/heap.cpp:61-109 | On an ordered heap, taking out slot i leaves an ordered heap if and only if i is the root or the last slot, or the last leaf is not smaller than the hole's parent; the first slot is least in either case |
| HeapOrder.ExtractMultiset | BaseServer/heap.cpp:66-73 | Extract removes exactly the victim from the multiset |
| HeapOrder.RemoveCanBreakOrder | BaseServer/heap.cpp:72-97 | A concrete six-element heap that Remove leaves unordered |
| HeapOrder.InsertCorrect | BaseServer/heap.cpp:30-57 | Insert adds exactly the new element and keeps the order |
| HeapOrder.SiftUpOrdered | BaseServer/heap.cpp:36-55 | The bubble-up loop restores order from one edge that may be wrong |
| HeapOrder.SiftDownOrdered | BaseServer/heap.cpp:79-106 | The sift-down loop restores all order below its start; the whole is ordered if and only if the edge above the start is |
| HeapOrder.OrderedRootLeast | BaseServer/heap.h:27 | The element PeekMin returns is least |
| HeapOrder.DrainSorts | BaseServer/heap.h:34 | Repeated ExtractMin lists the heap's elements in nondecreasing order, each as often as it was there |
| HeapOrder.RunKeepsHeap | BaseServer/heap.h:33-34 | Over every run of Insert and ExtractMin the heap is ordered, and what was inserted is what is left plus what was handed out |
| HeapOrder.HeapSort | BaseServer/heap.h:33-34 | Draining after any such run gives, sorted, what was inserted and not yet handed out |
| Heap.OSHeap.constructor | BaseServer/heap.cpp:6-15 | An empty heap over an array of at least two slots |
| Heap.OSHeap.CurrentHeapSize | BaseServer/heap.h:26 | The number of slots in use |
| Heap.OSHeap.PeekMin | BaseServer/heap.h:27 | The first slot's element, NULL on an empty heap; least on an ordered heap by OrderedRootLeast |
| Heap.OSHeapElem.SetValue | BaseServer/heap.h:63 | Sets the value, whatever heap the element is in |
| Heap.OSHeap.OthersKeep | BaseServer/heap.h:63 | Changing the value of an element that is in no slot leaves the heap as it is |
| Heap.OSHeap.Grow | BaseServer/heap.cpp:19-28 | Doubling keeps every slot and makes room |
| Heap.OSHeap.Bubble | BaseServer/heap.cpp:36-55 | The loop on the array computes SiftUp |
| Heap.OSHeap.Insert | BaseServer/heap.cpp:17-58 | The array afterwards holds HeapOrder.Insert of what it held, through doubling, and the element is marked a member |
| Heap.OSHeap.Sink | BaseServer/heap.cpp:79-106 | The loop on the array computes SiftDown |
| Heap.OSHeap.Extract | BaseServer/heap.cpp:61-109 | NULL and no change past the end; otherwise the victim, unmarked, and HeapOrder.Extract of the slots |
| Heap.OSHeap.ExtractMin | BaseServer/heap.h:34 | The first slot's element, unmarked, and HeapOrder.Extract at the root; NULL on an empty heap |
| HeapOrder.FirstSlot | BaseServer/heap.cpp:116-124 | The index found is that of the first slot with the element, or one past the end if none has it |
| Heap.OSHeap.Remove | BaseServer/heap.cpp:111-127 | Takes out the first slot that holds the element; no change and NULL if none does |
| Timers.PassExact | BaseServer/TimerThread.cpp:66-70 | On an ordered heap a pass pops exactly the timers that are due, in nondecreasing order, and leaves an ordered heap of the others |
| Timers.WaitExact | BaseServer/TimerThread.cpp:74-81 | After a pass the time to the next timer is positive, and the wait given to the condition variable equals it if and only if it is below 2^31 milliseconds |
| Timers.WaitWraps | BaseServer/OSCond.cpp:59-61 | The wait that the condition variable is given is the gap modulo 2^32, so it is 0, which means for ever, exactly for multiples of 2^32 |
| Timers.RunOrderedIff | BaseServer/TimerThread.cpp:17-82 | Over every run of SetTimeout, passes and CancelTimeout from an empty heap, the heap is ordered throughout if and only if every cancel takes out nothing, the root, the last slot, or a slot whose parent is not larger than the last leaf |
| Timers.RunPassExact | BaseServer/TimerThread.cpp:55-82 | In such a run every pass fires exactly what is due, earliest first, and leaves the rest |
| Timers.StepOrderedIff | BaseServer/TimerThread.cpp:17-70 | One operation on an ordered heap leaves it ordered unless it is a cancel that does not fit |
| Timers.TimerThread.Pass | BaseServer/TimerThread.cpp:64-81 | One turn of Entry fires exactly PassExact's timers, leaves the rest and computes that wait, keeping membership exact |
| Timers.TimerThread.PopDue | BaseServer/TimerThread.cpp:66-69 | Pops the first slot if and only if it is due |
| Timers.TimerThread.NextWait | BaseServer/TimerThread.cpp:74-81 | The wait is the gap to the first timer after its two conversions to 32 bits; none on an empty heap |
| Timers.TimerThread.SetTimeout | BaseServer/TimerThread.cpp:17-36 | -1 and no change for an element that has a timeout; otherwise inserted with its due time; an element says it is in a heap exactly when the idle heap holds it, and holds it once |
| Timers.TimerThread.Arm | BaseServer/TimerThread.cpp:27-32 | The value is changed only while the element is in no slot, then it is inserted with it |
| Timers.TimerThread.CancelTimeout | BaseServer/TimerThread.cpp:39-47 | Afterwards the element is in no heap; exactly its slot was taken out; membership stays exact |
| Timers.TimerThread.ExactAfterInsert | BaseServer/TimerThread.cpp:23-32 | Membership flags are exact after an insertion |
| Timers.TimerThread.ExactAfterExtract | BaseServer/heap.cpp:67-68 | Membership flags are exact, and elements unique, after an extraction |
| Timers.OnceInsert | BaseServer/TimerThread.cpp:23-32 | Inserting an element the heap does not hold keeps every element in at most one slot |
| Timers.OnceExtract | BaseServer/heap.cpp:61-109 | So does extracting any slot |
| Timers.HasExtract | BaseServer/heap.cpp:61-109 | After extraction the heap holds exactly the other elements |
| TaskThreads.TaskThread.WaitForTask | BaseServer/TaskThread.cpp:36-85 | A parked task is returned if and only if some parked task is due, it is an earliest one and it was due; otherwise the head of the queue, nothing is taken from the heap, and on an empty queue the wait is 10 ms with an empty heap or a first task due in less than that, else exactly the gap to the first task if and only if that is below 2^31 ms, and never 0, which would be for ever, for such a gap |
| TaskThreads.TaskThread.TakeDue | BaseServer/TaskThread.cpp:42-53 | The first half: the earliest parked task exactly when it is due; the heap stays ordered |
| TaskThreads.TaskThread.TakeQueued | BaseServer/TaskThread.cpp:73-81 | The second half: the queue's head, after a wait only if the queue was empty |
| TaskThreads.TaskThread.Park | BaseServer/TaskThread.cpp:110-114 | Inserts the task with due time now plus the run's result; the heap stays ordered and gains only that |
| TaskThreads.TaskThread.EnqueTask | BaseServer/TaskThread.cpp:20-34 | Appends at the back, or -1 and no change when allocation fails |
| Deques.Deque.Append | BaseServer/dequeH.cpp:16-48 | The list is the old one with the element at the back, or unchanged with -1 when allocation fails; the links still form one cycle, next and prev inverse |
| Deques.Deque.RemoveHead | BaseServer/dequeH.cpp:81-120 | Takes the front element; NULL on an empty list; the cycle stays intact |
| Deques.Deque.Release | BaseServer/dequeH.cpp:50-78 | The callback is called once per element in list order, the loop ends, and the list is empty |
| Deques.Deque.LinksInverse | BaseServer/dequeH.cpp:32-45 | On a valid list next and prev of every node undo each other |
| FileBuffers.FileBuffer.Read | BaseServer/FileBuffer.cpp:121-165 | From any offset within the file, any size and any reachable cache: exactly file[offset..offset+r) is written with r = min(size + 1, length - offset), which is the intended min(size, length - offset) if and only if the file ends by offset + size; pieces stay distinct and right, and a read whose pieces are cached adds none |
| FileBuffers.FileBuffer.ServePiece | BaseServer/FileBuffer.cpp:138-161 | One turn of the loop writes what the piece has of the wanted positions |
| FileBuffers.FileBuffer.FindPiece | BaseServer/FileBuffer.cpp:55-74 | The piece with the index, or NULL exactly when no piece has it |
| FileBuffers.FileBuffer.ReadFromStart | BaseServer/FileBuffer.cpp:184-188 | CFile::Read into the first size bytes of memory writes the start of the file; it stays inside them if and only if the file is no longer than that, and else overwrites exactly the one byte behind them with file[size] |
| FileBuffers.FileBuffer.ReadPiece | BaseServer/FileBuffer.cpp:76-119 | The new piece holds its slice of the file, cut at the end, and goes to the back of the cache |
| FileBuffers.FileBuffer.GetPiece | BaseServer/FileBuffer.cpp:138-148 | Afterwards the piece is cached; it was read only if it was not cached before |
| FileBuffers.PartInside | BaseServer/FileBuffer.cpp:149-159 | The positions computed for a piece lie inside it and inside the file, and consecutive pieces meet without gap or overlap |
| Sending.Sender.SendData | BaseServer/HttpSession.cpp:446-496 | The method over the buffer computes AfterSend, memmove and closing included |
| Sending.Sender.Put | BaseServer/HttpSession.cpp:571-584 | Appended bytes follow what is in the buffer |
| Sending.Sender.ResponseFile | BaseServer/HttpSession.cpp:619-698 | Computes AfterFile: header appended, file open from its start, content length from the range stop that the first file set |
| Sending.Sender.ResponseError | BaseServer/HttpSession.cpp:569-588 | Computes AfterPage: the page appended, its body length the content length, an open file left open |
| Sending.Sender.ResponseNoFile | BaseServer/HttpSession.cpp:623-629 | Computes AfterFailedOpen: a file that cannot be opened takes the place of any open one before the page is appended |
| Sending.Sender.Refill | BaseServer/FileBuffer.cpp:184-188 | Appends the whole file from offset 0: the offset never moves |
| Sending.ByteBehindBuffer | BaseServer/HttpSession.cpp:906-914 | A file of 262145 bytes, read into the empty response buffer, overwrites the byte behind it |
| Sending.Sender.DoContinue | BaseServer/HttpSession.cpp:895-958 | Computes AfterContinue; from the state before and the results of its two sends alone: what is left in the buffer, whether an event is asked for and whether the socket breaks |
| Sending.Sender.DoWrite | BaseServer/HttpSession.cpp:874-892 | Computes AfterWrite, a turn of Delivery; the same three facts, and nothing at all once everything was read |
| Sending.Sender.Flush | BaseServer/HttpSession.cpp:845-866 | Computes AfterFlush; the same three facts for the end of DoRead |
| Stages.SendExact | BaseServer/HttpSession.cpp:446-496 | Sent followed by remaining bytes stay the same whatever part the socket takes; an event is asked for exactly when bytes are left on a working socket; -1, and the socket closed for all later sends, exactly when they are left on a broken or closed one; 0 exactly when none are left |
| Stages.AppendedBehind | BaseServer/HttpSession.cpp:571-584 | Whatever is still unsent, a file's header and both kinds of page go behind it, and nothing is sent yet |
| Stages.ContinueExact | BaseServer/HttpSession.cpp:895-958 | A continuation reads the file exactly when the first send empties the buffer, produces exactly what it reads, leaves LeftAfter, asks if and only if that is not 0 and the last send's socket works, closes the socket and returns -1 if and only if it does not, returns 0 if and only if nothing is left and everything was read, and else SEND_INTERVAL |
| Stages.FlushExact | BaseServer/HttpSession.cpp:845-866 | The same for the end of DoRead |
| Stages.FlushIsWrite | BaseServer/HttpSession.cpp:845-889 | Unless everything was read, the end of DoRead leaves what one DoWrite leaves |
| Delivery.DeliveryExact | BaseServer/HttpSession.cpp:874-958 | Over every sequence of write-only turns on a file that is not empty and is announced with its own length, on an open socket: either none of it was read, or it was read in the first turn whose first send empties the buffer, and what the send right after it did not take is in the buffer for good |
| Delivery.DeliveredIff | BaseServer/HttpSession.cpp:874-958 | The response is sent completely if and only if, in the first turn whose first send empties the buffer, the send right after the read takes the whole file |
| Delivery.NeverDelivered | BaseServer/HttpSession.cpp:593-616 | If it does not, no later turn sends anything |
| Delivery.ReadsExact | BaseServer/HttpSession.cpp:874-958 | Over every sequence of write-only turns, whatever content length was announced and whatever was read before: the file is produced k times over, m_ReadCount grows by k times its length and what is left is told, where k counts the turns that empty the buffer before the content length is met or the socket breaks |
| Delivery.NeverDone | BaseServer/HttpSession.cpp:593-616 | If no number of readings meets the announced length, the file is never done and never closed |
| Delivery.ClosedStays | BaseServer/HttpSession.cpp:487-491 | A closed socket gets no more bytes over any turns |
| Delivery.DoneStays | BaseServer/HttpSession.cpp:593-616 | Once everything was read, turns send nothing, ask for nothing and do not fail, whatever is in the buffer |
| Delivery.ContinueServes | BaseServer/HttpSession.cpp:904-957 | On the first file of a session the bytes produced are header ++ file[0..m_ReadCount), and 0 means the whole file was produced |
| Sending.Sender.SendDone | BaseServer/HttpSession.cpp:593-616 | True exactly when as much was read as the content length says, and then closes the file |
| SessionTurns.RunAsksIff | BaseServer/HttpSession.cpp:1026-1073 | For every set of events a run asks for its next events if and only if EPOLLERR is not among them and it read the socket until that had no more, or its write or its continuation leaves bytes on a working socket; all told by the state before and the results of recv and send |
| SessionTurns.RunFailsIff | BaseServer/HttpSession.cpp:1035-1069 | For every set of events Run returns -1 if and only if EPOLLERR is among them or the last of DoContinue, DoWrite and DoRead that they ask for fails, each told by the state and the results of recv and send; and else 0 |
| SessionTurns.ClosedReadSurvivesIff | BaseServer/HttpSession.cpp:1040-1047 | If DoRead closes the socket, the session survives if and only if the run also writes, does not continue, and everything was read by then |
| SessionTurns.ClosesAndReturnsIff | BaseServer/HttpSession.cpp:487-491 | For every set of events the exact condition under which a run closes its socket and yet returns 0 |
| SessionTurns.ReadExact | BaseServer/HttpSession.cpp:827-872 | DoRead fails exactly if the read is cut short, or it leaves bytes on a broken socket, which it then closes; it asks for EVENT_READ exactly if the socket was read until it had no more |
| SessionTurns.ClosedNeverReads | BaseServer/HttpSession.cpp:415-434 | On a closed socket a read fails |
| SessionTurns.SilentIff | BaseServer/HttpSession.cpp:1026-1073 | For every set of events the exact condition, told the same way, under which a run keeps the session alive without asking for any event |
| SessionTurns.ReadErrorSurvivesIff | BaseServer/HttpSession.cpp:1040-1069 | For every set of events, a session survives a failed read if and only if the same run goes on to continue, or else to write, and that does not meet a broken socket with bytes left |
| SessionTurns.RunReturns | BaseServer/HttpSession.cpp:1058-1069 | Run returns 0 or -1, so a session is never parked |
| SessionTurns.AsksGrow | BaseServer/HttpSession.cpp:1026-1073 | Neither count of requests for events ever falls |
| SessionRuns.FirstGetAnswered | BaseServer/HttpSession.cpp:803-872 | End to end: a new session that received a printed GET for a URI, in any spelling of white space, ends of line and headers, whatever follows, answers with the text for that URI and the whole file behind it unless the header could not be sent at once, keeps the rest, and has the last value of every header sent |
| SessionRuns.ReadOfRequest | BaseServer/HttpSession.cpp:827-872 | From any session state and for any method: the fields are the printed ones, keep-alive and header values that are not given are those of the request before, everything else of it is gone; exactly GET is answered, for the printed path; the rest stays in the buffer |
| SessionRuns.FieldsOf | BaseServer/HttpRequest.cpp:251-274 | Parsing a printed request after any other, a bad or absolute one too: not bad, no scheme or host, the verb is GET exactly if the word is, and the rest as printed |
| SessionRuns.VersionlessGetAnswered | BaseServer/HttpSession.cpp:803-824 | A GET with nothing but white space behind its target does not parse, is marked bad, and is answered all the same |
| SessionRuns.VersionlessFields | BaseServer/HttpRequest.cpp:190-225 | It counts as HTTP/1.0 with the headers of the request before |
| SessionRuns.FirstResponseDeliveredIff | BaseServer/HttpSession.cpp:827-892 | End to end: a new session asked for a file that is not empty, and then run to write any number of times, has sent all of it if and only if DeliveredIff's condition holds of its sends |
| SessionRuns.RequestWaitsIff | BaseServer/HttpSession.cpp:837-868 | After DoRead a complete request is left waiting if and only if the bytes behind the one that was answered have a frame, or the read failed with one in the buffer |
| SessionRuns.SecondRequestWaits | BaseServer/HttpSession.cpp:837-868 | Of two printed requests that arrive together the second is left whole, and a run without EVENT_READ does not take it up |
| SessionRuns.PageBodyIff | BaseServer/HttpSession.cpp:569-588 | After an error page bytes follow if and only if a file that is not empty is open, the bytes read of it are not as many as the page's body, and the first send takes everything up to the page's end; they are that file |
| SessionRuns.FileFollowsPage | BaseServer/HttpSession.cpp:509-698 | Two requests of a new session, the first for a file whose header goes out in part, the second for a path without one: the file follows the error page |
| SessionRuns.FileThenPageWorlds | BaseServer/HttpSession.cpp:509-698 | Such requests exist |
| SessionRuns.NoBodyAfterFailedOpen | BaseServer/HttpSession.cpp:623-629 | After the page for a file that cannot be opened nothing follows |
| SessionRuns.StopIsFirst | BaseServer/HttpSession.cpp:633-664 | Over every sequence of runs of a session with any events, fRangeStop + 1 is the length of the first file served that was not empty |
| SessionRuns.LengthAnnouncedIff | BaseServer/HttpSession.cpp:633-664 | Whatever a session served before, a file is announced with its own length if and only if no file that was not empty came before it or the first such had the same length |
| SessionRuns.SecondFileTwice | BaseServer/HttpSession.cpp:633-664 | Two requests of a new session for files of different length, the second file sent in part at first: one more write produces the second file again |
| SessionRuns.OtherLengthWorlds | BaseServer/HttpSession.cpp:633-664 | Such requests exist: a file of three bytes and then one of two |
| SessionRuns.TruncatedByFirstRun | BaseServer/HttpSession.cpp:845-866 | A first run that sends the header at once and the file in part leaves bytes behind with everything read |
| SessionRuns.TruncatingWorld | BaseServer/HttpSession.cpp:845-866 | Such a run exists |
| SessionRuns.TruncatedRunIsSilent | BaseServer/HttpSession.cpp:874-892 | From there any write-only run sends nothing, asks for nothing and keeps the session alive |
| SessionRuns.ReadErrorForgotten | BaseServer/HttpSession.cpp:1040-1047 | From there a run with EVENT_READ and EVENT_WRITE survives that the peer has closed, and asks for nothing |
| SessionRuns.ClosedAndKept | BaseServer/HttpSession.cpp:1040-1047 | From there a run with EVENT_READ and EVENT_WRITE in which a request other than GET arrives and the send fails closes the socket, asks to read, and returns 0 |
| SessionRuns.ClosingWorld | BaseServer/HttpSession.cpp:1040-1047 | Such a run exists |
| SessionHistory.BytesConserved | BaseServer/HttpSession.cpp:401-506 | Over every sequence of runs of a session with any events, the requests framed, joined in order, followed by what is in the buffer, are what was in the buffer at first followed by all bytes taken over |
| SessionHistory.FramesWhole | BaseServer/HttpSession.cpp:383-399 | Each request framed over any runs is one whole frame |
| SessionHistory.RunConserves | BaseServer/HttpSession.cpp:827-872 | One run keeps that balance, within the buffer's size; its request's fields are those of the frame, or as before without one |
| SessionHistory.PartFramedIff | BaseServer/HttpSession.cpp:383-399 | A proper part of a printed request is taken for a whole one if and only if nothing but the LF of its final CRLF is missing |
| SessionHistory.PiecesWait | BaseServer/HttpSession.cpp:837-868 | As long as any other part of a printed request has arrived, over any number of runs that read, the session keeps it whole and changes nothing but its requests to read |
| SessionHistory.PiecesAnswered | BaseServer/HttpSession.cpp:837-868 | The run that brings the last byte leaves the session, and returns, exactly what one run would have in which the request came whole |
| SessionHistory.TwoPieces | BaseServer/HttpSession.cpp:401-443 | Any two pieces, cut anywhere but before a final LF, are such pieces |
| SessionHistory.AnsweredWithoutLf | BaseServer/HttpSession.cpp:383-399 | If all but the LF of the final CRLF has arrived the request is answered, and nothing is left in the buffer |
| SessionHistory.StrayLfSpoilsNext | BaseServer/HttpProtocol.cpp:39-65 | With that LF before it the next printed request is framed together with it, its method is not recognised, and it is not answered, whatever it is |
| SessionHistory.OutputConserved | BaseServer/HttpSession.cpp:446-496 | Over every sequence of runs with any events, what was sent and waits to be sent grows by the texts and bodies of the responses in order, and what was sent stays sent |
| SessionHistory.RunProduces | BaseServer/HttpSession.cpp:1026-1073 | One run adds the text of its answer and then what it read of the open file, behind everything that was produced before |
| SessionHistory.AnswerAppends | BaseServer/HttpSession.cpp:569-698 | An answer of any kind to any session goes behind what is unsent |
| SessionHistory.OpenIsLast | BaseServer/HttpSession.cpp:661-698 | Over every sequence of runs, the file that bodies are read from is that of the last answer with a file |
| Server.LostCause | BaseServer/EventThread.cpp:41-57 | Over every run of sessions on workers and event thread: a lost session had a post stranded on it, or the work of its last run returned 0 and asked for no event (SilentIff has the condition), or a run of it returned 0 although its work had closed the socket (ClosesAndReturnsIff has the condition) |
| Server.SilentCause | BaseServer/task.cpp:83-89 | A session is marked silent only by a last run whose work asked for nothing |
| Server.ClosedCause | BaseServer/HttpSession.cpp:487-491 | A live session whose socket is closed had it closed by a run that returned 0, or is still in a run that will end in its deletion |
| Server.ClosedAndLost | BaseServer/HttpSession.cpp:827-892 | The program as it is, from the start: a session whose first response went out in part, asked for something it does not answer, closes its socket and returns 0; it is lost although it asked for events and no post was stranded |
| Server.DutyAt | BaseServer/HttpSession.cpp:401-496 | In every reachable state a running session has called RequestEvent so far exactly as far as its work asks and no request is still owed |
| Server.TruncatedForever | BaseServer/HttpSession.cpp:874-892 | Once bytes of a response are left behind and the session is lost, or is in a write-only run with nothing on its way to it, it stays so and those bytes are never sent, in every run short of a hang-up |
| Server.DoomedStays | BaseServer/HttpSession.cpp:874-892 | One step of anybody keeps that |
| Server.TruncatedAndLost | BaseServer/HttpSession.cpp:827-892 | The program as it is, from the start: a new session whose first response goes out in part is run once more, sends nothing, asks for nothing and is lost, with TruncatedForever's condition met |
| Session.HttpSession.Run | BaseServer/HttpSession.cpp:1026-1073 | The method on the session's buffers and fields computes AfterRun, asks exactly under RunAsksIff's condition, and adds exactly the bytes that recv delivered and the buffer had room for to all bytes received |
| Session.HttpSession.DoRead | BaseServer/HttpSession.cpp:827-872 | Computes AfterRead: state, bytes left and result, also after a full request; all bytes received are the former ones and those taken over |
| Session.HttpSession.Receive | BaseServer/HttpSession.cpp:401-443 | Reads until the socket has no more, at once failing on a closed one; all bytes received are the former ones and those taken over |
| Session.HttpSession.Serve | BaseServer/HttpSession.cpp:837-868 | Computes Served: nothing changes without a full request, else the request parsed from exactly its frame, moved out and answered; all bytes received stay accounted for |
| Session.HttpSession.Respond | BaseServer/HttpSession.cpp:811-866 | Computes the answer for the parsed path and then AfterFlush |
| Session.HttpSession.Answer | BaseServer/HttpSession.cpp:811-824 | Only GET is answered |
| Session.HttpSession.DoGet | BaseServer/HttpSession.cpp:784-801 | Computes AfterAnswer: an error page replaces the content length but not the open file; a file that cannot be opened drops it; a file is opened from its start |
| Session.HttpSession.Write | BaseServer/HttpSession.cpp:1044-1052 | Computes AfterWrites: DoWrite and DoContinue as the events say, the result of the read surviving only if neither runs |
| Session.NextRequest | BaseServer/HttpSession.cpp:803-843 | The frame is what the parser gets, the rest stays in the buffer, the fields are those of Parse after Clear, and nothing is changed when no request is complete |
| Framing.FrameIff | BaseServer/HttpSession.cpp:383-399 | The framer finds n if and only if n ends the first end of line that is immediately followed by another |
| Framing.FrameIsFirstDouble | BaseServer/HttpSession.cpp:389-396 | The same with the negative case: no frame means no end of line followed by another |
| Framing.FrameStable | BaseServer/HttpSession.cpp:383-399 | If p frames at n then p ++ q frames at n, or at n + 1 exactly when n is the end of p, p ends in CR and q starts with LF |
| Framing.FramePrefix | BaseServer/HttpSession.cpp:393 | What was framed is itself one whole frame |
| Framing.FrameSuffix | BaseServer/StringParser.cpp:178-203 | A whole frame cut inside one of its lines is a whole frame |
| Framing.FrameSkip | BaseServer/StringParser.cpp:199-203 | Skipping to the first end of line does not change what is framed |
| Framing.FrameEndsInEol | BaseServer/HttpSession.cpp:391-394 | A frame is not empty and ends in an end of line |
| Framing.RequestsConserve | BaseServer/HttpSession.cpp:498-506 | Framing again and again: the requests and the rest concatenate to all bytes |
| Framing.RequestsOfFrames | BaseServer/HttpSession.cpp:383-399 | Back-to-back requests that end in LF come out one by one, and an unfinished tail stays |
| Receiving.Receiver.Take | BaseServer/HttpSession.cpp:407-438 | Appends what fits of what arrives, to the buffer and to all bytes received |
| Receiving.Receiver.RecvData | BaseServer/HttpSession.cpp:401-443 | Appends everything delivered up to the buffer size; 0 exactly when the socket ran dry with room left, and then it asked for EVENT_READ |
| Receiving.ReadsAllIff | BaseServer/HttpSession.cpp:401-443 | Whatever parts arrive before the socket runs dry or fails, they are delivered in order, and the socket was read out if and only if it ran dry and less than 16384 bytes are in the buffer |
| Receiving.Receiver.IsFullRequest | BaseServer/HttpSession.cpp:383-399 | True exactly when the buffer has a frame, whose length is stored; 0 otherwise |
| Receiving.Receiver.MoveOnRequest | BaseServer/HttpSession.cpp:498-506 | The request is moved out and the bytes after it come to the front; requests moved out followed by the buffer equal all bytes received |
| Receiving.ScanRequest | BaseServer/HttpSession.cpp:388-397 | The scan over the parser's methods finds Frame and leaves the parser at its end |
| Receiving.FrameLoop | BaseServer/HttpSession.cpp:389-396 | One turn of the scan: where the frame is in terms of what is left |
| Receiving.ReceiveConserves | BaseServer/HttpSession.cpp:438 | Receiving keeps: framed requests followed by the buffer equal all bytes received, each request being one whole frame |
| Receiving.FrameConserves | BaseServer/HttpSession.cpp:385-393 | Framing keeps it |
| Receiving.MoveConserves | BaseServer/HttpSession.cpp:500-505 | Moving out keeps it |
| StringParsers.StringParser.PeekFast | BaseServer/StringParser.h:31 | The byte at the position, which must lie inside the stream: the code does not check |
| StringParsers.StringParser.ConsumeUntil | BaseServer/StringParser.cpp:136-176 | Takes exactly the bytes before the first one the mask stops on |
| StringParsers.Until | BaseServer/StringParser.cpp:166-169 | None of the bytes counted is stopped on; the next one, if there is one, is |
| StringParsers.UntilIs | BaseServer/StringParser.cpp:166-169 | Only one count has that property |
| StringParsers.StringParser.ExpectEOL | BaseServer/StringParser.cpp:178-197 | Takes one CR, LF or CRLF, the longest that is there, or nothing |
| StringParsers.StringParser.Expect | BaseServer/StringParser.cpp:247-261 | Takes the one byte if it is there |
| StringParsers.StringParser.GetThru | BaseServer/StringParser.cpp:264-268 | Takes the bytes before a stop character and the character, or everything and fails |
| StringParsers.StringParser.GetThruEOL | BaseServer/StringParser.cpp:199-203 | Takes a line with its end of line, or everything and fails |
| StringParsers.StringParser.ConsumeWord | BaseServer/StringParser.cpp:211-214 | Takes letters, '-' and '_' |
| StringParsers.StringParser.ConsumeWhitespace | BaseServer/StringParser.cpp:216-219 | Takes tab, LF, VT, FF, CR and space |
| StringParsers.StringParser.ConsumeLength | BaseServer/StringParser.cpp:222-244 | Takes at most that many bytes |
| HttpProtocol.FastHeaderIsFirst | BaseServer/HttpProtocol.cpp:127-159 | For every name of bytes below 130, the first-letter shortcut and the scan from index 8 find the least index of the whole table that matches ignoring case, or httpIllegalHeader if none does |
| HttpProtocol.FastHeaderOfName | BaseServer/HttpProtocol.cpp:67-125 | Every header of the table is found under its own name |
| HttpProtocol.HeaderFoundIff | BaseServer/HttpProtocol.cpp:127-159 | A name of bytes below 130 is found as a header if and only if it differs from that header's name in the case of letters at most, said with the two alphabets and not with the case table |
| HttpProtocol.HeaderUnknownIff | BaseServer/HttpProtocol.cpp:127-159 | It is not found if and only if it differs in more than that from every name of the table |
| HttpProtocol.EqualIff | BaseServer/StrPtrLen.cpp:5-20 | The comparison through the case table holds exactly of strings that differ in the case of letters at most |
| HttpProtocol.GetHeader | BaseServer/HttpProtocol.cpp:127-159 | The method computes FastHeader |
| HttpProtocol.VipFirstLetter | BaseServer/HttpProtocol.cpp:135-147 | A match among the first eight is the one its first letter suggests, and an 'X' name matches none of them |
| HttpProtocol.KeysDistinct | BaseServer/HttpProtocol.cpp:67-125 | No two headers of the table agree in length, first and last letter, hence none match the same name |
| HttpProtocol.GetMethodIff | BaseServer/HttpProtocol.cpp:39-65 | A method is found if and only if the string is exactly its name |
| HttpProtocol.GetIff | BaseServer/HttpProtocol.cpp:39-65 | The method that is answered is found exactly for the word GET |
| HttpProtocol.GetVersion | BaseServer/HttpProtocol.cpp:300-312 | The first version of the table that matches ignoring case; the length test changes nothing |
| HttpProtocol.VersionFoundIff | BaseServer/HttpProtocol.cpp:300-312 | A version is found if and only if the text is its name in some case |
| HttpProtocol.FirstVersionOfName | BaseServer/HttpProtocol.cpp:293-312 | Every version of the table is found under its own name |
| HttpProtocol.CompareIgnoreCase | BaseServer/StrPtrLen.cpp:78-88 | Equal lengths and equal bytes under the case table |
| RequestSyntax.FramerAndParserAgree | BaseServer/HttpRequest.cpp:227-249 | On every frame whose first line parses, header parsing never reads outside the frame, never meets a header without end of line, and either misses a colon or ends exactly at the end of the frame |
| RequestSyntax.HeadersStayInside | BaseServer/HttpRequest.cpp:72-113 | The same for the loop from any line of the frame on |
| RequestSyntax.OneHeaderStaysInside | BaseServer/HttpRequest.cpp:76-98 | The same for one header, which leaves a line of the frame ahead |
| RequestSyntax.FirstLineInside | BaseServer/HttpRequest.cpp:190-225 | After a first line that parses a line of the frame is ahead, although white space skipping may cross line ends |
| HttpRequests.HttpRequest.ParseHeaders | BaseServer/HttpRequest.cpp:66-116 | The loop with its fast reads computes ParsedHeaders, whose preconditions the frame discharges |
| HttpRequests.HttpRequest.ParseHeader | BaseServer/HttpRequest.cpp:76-109 | One turn of the loop computes OneHeader, error cases included |
| HttpRequests.HttpRequest.ParseValue | BaseServer/HttpRequest.cpp:83-98 | One space skipped, then the rest of the line |
| HttpRequests.HttpRequest.StoreHeader | BaseServer/HttpRequest.cpp:100-109 | Known headers are stored, Connection also sets keep-alive, unknown ones are dropped |
| HttpRequests.HttpRequest.SetKeepAlive | BaseServer/HttpRequest.cpp:53-63 | Keep-alive exactly unless the value is "close" ignoring case |
| HttpRequests.HttpRequest.ParseURI | BaseServer/HttpRequest.cpp:118-188 | Scheme, host, relative URI, request path, path and parameters as split at the positions the code stops at |
| HttpRequests.HttpRequest.TakeOrigin | BaseServer/HttpRequest.cpp:127-135 | A URI that does not start with '/' gives up to seven bytes as scheme, then the host up to '/' |
| HttpRequests.HttpRequest.SetRelative | BaseServer/HttpRequest.cpp:134-185 | The request path ends at a NUL; path and parameters meet at its first '?' |
| HttpRequests.HttpRequest.ParseVersion | BaseServer/HttpRequest.cpp:210-224 | The version if there is one, then the end of line or httpBadRequest |
| HttpRequests.HttpRequest.ParseFirstLine | BaseServer/HttpRequest.cpp:190-225 | Method, URI and version as FirstLine splits them, and the parser behind the end of line |
| HttpRequests.HttpRequest.Parse | BaseServer/HttpRequest.cpp:227-249 | On a frame the method runs without leaving it, computes Parsed and returns its result |
| HttpRequests.HttpRequest.Clear | BaseServer/HttpRequest.cpp:251-274 | Resets the request but for path, keep-alive and header values |
| RequestRoundTrip.RoundTrip | BaseServer/HttpRequest.cpp:66-249 | A printed request (any word, white space, path, version, list of headers with any names, with and without a space behind the colon, each line ending in CR, LF or CRLF), whatever follows it, is framed whole; Parse returns 0, ends at its end, and recovers method, URI, version in any case, path ++ parameters, keep-alive, and for every header the last value given, absent ones unchanged |
| RequestRoundTrip.RenderFrames | BaseServer/HttpSession.cpp:383-399 | A printed request is one whole frame |
| RequestRoundTrip.RenderIsStable | BaseServer/HttpSession.cpp:383-399 | and stays one whatever follows it, unless it ends in a bare CR and an LF follows |
| RequestRoundTrip.RenderParses | BaseServer/HttpRequest.cpp:227-249 | Parsing it returns 0 with all its header fields stored in order |
| RequestRoundTrip.HeadersParse | BaseServer/HttpRequest.cpp:66-116 | Printed headers of any names and ends of line parse to their values, in order, with nothing left |
| RequestRoundTrip.FirstLineParses | BaseServer/HttpRequest.cpp:190-225 | A printed first line splits back into its pieces, whatever white space is between them |
| RequestRoundTrip.FieldsHoldLast | BaseServer/HttpRequest.cpp:106-109 | Storing headers in order leaves in each field the last value whose name is found as that header, the former value if there is none, and changes nothing else but keep-alive, which the last Connection header decides |
| RequestRoundTrip.LastValueIff | BaseServer/HttpRequest.cpp:100-109 | The value stored for a header is that of the last line whose name differs from the header's in the case of letters at most |
| RequestRoundTrip.UnknownHeaderIgnored | BaseServer/HttpRequest.cpp:106-109 | A header whose name is none of the table's in any case changes no field and not keep-alive |
| RequestRoundTrip.ConnectionCloses | BaseServer/HttpRequest.cpp:53-63 | A Connection header in any case is stored and clears keep-alive if and only if its value is "close" in any case |
| RequestRoundTrip.ColonMissing | BaseServer/HttpRequest.cpp:76-81 | Headers and then text without a colon: the headers are stored and the request is marked bad |
| RequestRoundTrip.HeaderTakenForVersion | BaseServer/HttpRequest.cpp:205-214 | Without a version the line that follows is taken for it |
| RequestRoundTrip.NoVersionAtAll | BaseServer/HttpRequest.cpp:190-225 | With only white space behind the target parsing fails, the request is marked bad and no header of it is read |
| RequestRoundTrip.OneHeaderParses | BaseServer/HttpRequest.cpp:76-109 | One header line is stored under its name, one space behind the colon skipped if there is one |
| RequestRoundTrip.WordCharIff | BaseServer/StringParser.cpp:211-214 | A word goes on over exactly the letters of both alphabets, '-' and '_' |
| RequestRoundTrip.EmptyUri | BaseServer/HttpRequest.cpp:118-139 | An empty target clears every part of the URI; whether scheme and host go depends on the byte behind it in memory |
| RequestRoundTrip.UriWithoutPath | BaseServer/HttpRequest.cpp:127-139 | A full URI without a path gives up to seven bytes of scheme and the rest as host |
| RequestRoundTrip.NulCuts | BaseServer/HttpRequest.cpp:157-185 | The path that is served ends at a NUL, the relative URI does not |
| RequestRoundTrip.UriParses | BaseServer/HttpRequest.cpp:118-188 | The URI is kept whole and cut at its first '?' |
| RequestRoundTrip.AbsoluteRoundTrip | BaseServer/HttpRequest.cpp:118-249 | The round trip for a full URI: a seven-byte scheme, a host without '/' and a path come back as scheme, host, relative URI and request path |
| RequestRoundTrip.AbsoluteUriParses | BaseServer/HttpRequest.cpp:127-139 | A full URI is split into scheme and host and what a URI of its own would give |
| RequestRoundTrip.TargetRoundTrip | BaseServer/HttpRequest.cpp:66-249 | The round trip for every target without white space at which it would end or NUL: the URI fields are ParsedUri of it |
| StringTranslator.DecodeMeetsSpec | BaseServer/StringTranslator.cpp:41-146 | For every source that starts with '/' and every destination size, the one-pass decoder gives the specified output if and only if the source is well formed and fits, and fails otherwise |
| StringTranslator.DecodeRefines | BaseServer/StringTranslator.cpp:57-145 | The same from any point of the path on: what was written is the path so far without its finished dot components |
| StringTranslator.PutKeeps | BaseServer/StringTranslator.cpp:96-138 | One decoded path byte keeps that state, the back-up included |
| StringTranslator.Put | BaseServer/StringTranslator.cpp:108-113 | The back-up by numDotChars + 1 never goes below the start |
| StringTranslator.DecodeURL | BaseServer/StringTranslator.cpp:41-146 | The method over the buffer succeeds exactly on well-formed sources that fit, writes Output within the destination, and else returns -1 |
| StringTranslator.PutChar | BaseServer/StringTranslator.cpp:96-138 | The second half of the loop on the buffer computes Put |
| StringTranslator.LargeEnoughFits | BaseServer/StringTranslator.cpp:59-60 | A destination as long as the decoded text is large enough |
| UrlSpec.OutputIntendedIff | BaseServer/StringTranslator.cpp:141-145 | The output is the intended one (dot components dropped from the path, query kept) if and only if there is no query or the component before it is neither "." nor ".." |
| UrlSpec.QueryCanLoseBytes | BaseServer/StringTranslator.cpp:141-145 | "/.?a" is a source whose query loses a byte |
| UrlSpec.StripDotsSplit | BaseServer/StringTranslator.cpp:105-113 | The stripped path has no "." or ".." component and no component the path did not have, but for an empty last one |
| UrlSpec.StripDotsIdentity | BaseServer/StringTranslator.cpp:105-113 | A path is left alone if and only if no component of it is "." or ".." |
| UrlSpec.DotDropped | BaseServer/StringTranslator.cpp:105-113 | A "." or ".." that is not the last component is dropped and nothing else is touched, not even the component before it |
| UrlSpec.LastDotEmptied | BaseServer/StringTranslator.cpp:141-145 | As the last component it is emptied |
| UrlSpec.EscapeDecodes | BaseServer/StringTranslator.cpp:66-92 | An escape with digits in either case stands for the byte that they spell |
| UrlSpec.WellFormedIff | BaseServer/StringTranslator.cpp:66-94 | Text is well formed if and only if it has no NUL and two hex digits in either case behind every '%' |
| UrlSpec.StripDotsIdempotent | BaseServer/StringTranslator.cpp:105-113 | Stripping twice is stripping once |
| UrlSpec.SplitJoin | BaseServer/StringTranslator.cpp:105-113 | Splitting at '/' loses nothing and leaves no '/' in a component |
| UrlSpec.JoinSplit | BaseServer/StringTranslator.cpp:105-113 | Splitting undoes joining |
| UrlSpec.PathThenQuery | BaseServer/StringTranslator.cpp:62-63 | Path and query concatenate to the decoded text, and a query starts with '?' |
| UrlSpec.KeptNoLonger | BaseServer/StringTranslator.cpp:108-113 | Dropping components never makes a path longer |
| StringTranslator.EncodeURL | BaseServer/StringTranslator.cpp:148-225 | Writes the encoding and returns its length exactly when that fits, else -1; one byte after inDestLen must be there for the last terminator |
| StringTranslator.PrintEscape | BaseServer/StringTranslator.cpp:165 | What sprintf leaves: two hex digits, or for codes below 16 one digit and a NUL |
| StringTranslator.MustEncodeIff | BaseServer/StringTranslator.cpp:158-200 | A byte is escaped if and only if it is above 127 or one of the 24 listed ones |
| StringTranslator.EncodedIsPlain | BaseServer/StringTranslator.cpp:158-217 | No encoding holds a listed byte or one above 127, but for the '%' that an escape starts with |
| StringTranslator.EncodedAlone | BaseServer/StringTranslator.cpp:158-217 | and any other byte is left as it is |
| StringTranslator.EncodedDecodes | BaseServer/StringTranslator.cpp:148-225 | An encoding is well formed if and only if the path has no NUL, tab, CR or LF, and then decodes to the path with no query |
| StringTranslator.RoundTrip | BaseServer/StringTranslator.cpp:41-225 | Decoding the encoding of any path that starts with '/' gives the path without its dot components if it has no NUL, tab, CR or LF, and fails if it has one |

## Left out

- epoll, sockets, `accept`, `fcntl`, `gettimeofday` and the pthread wrappers: their results are steps or parameters; the pipe's capacity is unbounded.
- Deleting a task on EPOLLERR in the event thread, and a deleted task still listed in a queue: no step is taken on a deleted task.
- EventThreads.DeafForever: a hang-up, which epoll reports even on a disarmed watch, is excluded by its precondition because it does wake the session.
- EventThreads: RequestEvent's store and enqueue are one step, the birth angel's queues and pipe appear as the entries still to be handed over, and a descriptor number that another socket reuses between its reading and the call is not modelled.
- Listening servers' Run and DoRead: only their watch, which is never disarmed, is modelled.
- `TcpSession`, `TcpServer` and `GrimReaper` run loops, and code behind early returns: never reached.
- `TaskThreadPool::SelectThread`'s round robin: an attach may choose any worker.
- `Task` has no class of its own: its methods are interleaved step by step in `Scheduler`.
- Allocation failures other than in the list's append and EnqueTask.
- Heap.OSHeap.Insert: does not model 32-bit wrap-around of the slot index, which needs 2^31 elements.
- FileBuffers.FileBuffer.ReadPiece: takes disk reads as complete; the 32-bit piece offset limits files to 2 GiB, stated in `Valid`.
- FileBuffers.FileBuffer.Read: takes offsets within the file, as its only caller gives.
- Sending.Sender.Refill: takes files up to the response buffer's 256 KiB; beyond that the code overwrites the byte behind it, and what then happens is not modelled.
- Sending.Sender.ResponseFile: takes the rendered header as opaque bytes that fit, and no range, which nothing ever sets.
- Server: a session's work between DequeEvents and its return is one step, its requests for events follow it one by one, and the repaired steps are left out.
- Session.HttpSession.DoGet: takes a newly opened file with an empty cache; the sharing of caches between sessions by `FilesMaster` is not modelled.
- Content types, status codes and texts, the error page, `StringFormatter` and logging: formatting.
- StringTranslator.DecodeURL: negative lengths, and `isxdigit` on characters outside 0..127, are not modelled.
- StringParsers.StringParser.PeekFast: the NULL stream, which no caller passes, is not modelled.
- StringParsers.StringParser.ConsumeLength: its byte-by-byte loop is one step, and its length is not negative, as its only caller gives.
- HttpRequests.HttpRequest.Parse: takes one whole frame, which is what DoRequest passes; header values are the bytes themselves, not pointers into a buffer that later moves.
- Timers.TimerThread.SetTimeout: calls for one element are serialised; its membership test is outside the lock.
- `main`, `FilesMaster` and the build: wiring.
