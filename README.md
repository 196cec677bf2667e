# Bounded request queue servers and timespec helpers, in Dafny

The system is a family of small C servers. Each one reads fixed-size
requests (`req_id`, a requested timestamp and a requested service length)
from a TCP connection. It admits them into a bounded FIFO ring-buffer queue,
and one or more worker threads take them out in order, busy-wait for the
requested length and send a response back. Three variants share the queue:

- `hw2_src/src/server_q.c` has a fixed capacity of 500 slots. The full check
  is inside `add_to_queue`, which returns -1 when the queue is full. The
  handler ignores that result, so a request that arrives at a full queue is
  dropped without a reply. The worker replies with the bare request id.
- `hw3_src/src/server_lim.c` (one worker) and `hw4_src/server_multi.c`
  (several workers) have a configurable `maxSize`. The full check sits in
  the handler. A request that arrives at a full queue is answered at once
  with a response that echoes its id and carries status 1 (rejected).
  Otherwise it is enqueued. The queue code of these two files is the same
  apart from `sync_printf` in hw4's `dump_queue_status`, so one class
  models both.

The model has these parts:

- `LimitedQueue.Queue` and `FixedQueue.Queue` are classes over an `array`
  with the `front`, `rear`, `size` (and `maxSize`) fields of `struct queue`.
  A ghost `Contents` sequence holds the abstract FIFO contents. Every
  operation is proved against a pure specification function:
  - `Decide` is the reject-or-enqueue branch, and `AdmitAll` repeats it
    over a whole connection.
  - `Offer` and `OfferAll` do the same for the fixed queue.
  - `QueueLine` is the snapshot `dump_queue_status` prints.
- `Connection` models the do-while receive loop that all three handlers
  share. That includes the fact that `in_bytes` is a `size_t`.
- `Schedule` runs the handler and the workers as one sequential trace of
  `Arrive(read)` and `Take` events instead of threads.
  - The `queue_notify` semaphore is kept as a counter.
  - FIFO dispatch and admission control are proved over every trace.
  - So are the capacity-2 scenario of ids 1, 2, 3 and the fixed server's
    wake-up on an empty queue.
- `TimeLib` models `timespec_add` (an in-place method on a `Timespec`
  object) and `timespec_cmp` from `hw1_src/src/timelib.c`. `NANO_IN_SEC` is
  taken to be 1000000000.

Clock readings (`clock_gettime`) are not modelled. Each receive event
carries its receipt timestamp as a parameter (`Read.at`), and the
receive loop's `recv` return values are the input sequence `recvs`.

In the configurable servers the response status is 0 for an accepted
request: the handler's accept branch sets `resp.status = 0`
(hw3_src/src/server_lim.c:270, hw4_src/server_multi.c:291). Status 1 is
assigned nowhere but the reject branch (`1 for rejected`,
hw3_src/src/server_lim.c:260, hw4_src/server_multi.c:281). The file header
of the multi-worker server says that a request arriving at a full queue is
rejected with a negative ack (hw4_src/server_multi.c:30-31). The worker that serves an accepted
request, however, never assigns the status field of its response
(hw3_src/src/server_lim.c:182-183, hw4_src/server_multi.c:200-201).
`LimitedQueue.WorkerReplyAsWritten` models that code as written, and the
difference is listed under Findings. The rest of the model uses the
corrected reply, with status 0, and `Schedule.RunEcho` proves over every
trace that the status-0 replies answer exactly the requests the workers
received.

## Model

| member | source | states |
|---|---|---|
| LimitedQueue.Queue.constructor | hw4_src/server_multi.c:106-111 | queue_init gives an empty queue: front = rear = size = 0, maxSize equals the requested capacity, storage of that many slots, empty contents (same text at hw3_src/src/server_lim.c:85-90) |
| LimitedQueue.Queue.Add | hw4_src/server_multi.c:114-129 | given a free slot, the request is stored at the old rear, rear advances modulo maxSize, size grows by one, every other slot is unchanged, contents become old contents ++ [item], the ring invariant is kept and 0 is returned (same text at hw3_src/src/server_lim.c:93-108) |
| LimitedQueue.Queue.Get | hw4_src/server_multi.c:132-151 | on a non-empty queue it returns the head of the contents, front advances modulo maxSize, size shrinks by one and the contents become the tail; on an empty queue front, rear, size and contents are unchanged and there is no request (same text at hw3_src/src/server_lim.c:111-130) |
| LimitedQueue.Queue.DumpStatus | hw4_src/server_multi.c:153-173 | reads the queue without changing it and returns QueueLine of the queued ids from front, in FIFO order (the same loop at hw3_src/src/server_lim.c:134-154; hw4 prints through sync_printf) |
| LimitedQueue.DecideEchoesAndBounds | hw4_src/server_multi.c:274-293 | the admission decision echoes the request id; it rejects exactly when the queue is full and exactly then has status 1; a rejection leaves the queue unchanged; an acceptance has status 0 and appends the request; the capacity bound holds |
| LimitedQueue.Queue.Admit | hw4_src/server_multi.c:274-293 | the handler's branch changes the contents and produces the response exactly as Decide says, and a rejection touches no field or slot |
| LimitedQueue.Queue.HandleConnection | hw4_src/server_multi.c:265-296 | the receive loop, stopping at the first read with no data, leaves the contents and the sequence of rejection responses equal to AdmitAll over the received requests, in arrival order |
| LimitedQueue.AdmitAllFills | hw3_src/src/server_lim.c:258-272 | with no dequeuing, the next maxSize - size requests are enqueued in order and every later one gets a status-1 response echoing its id, in arrival order |
| LimitedQueue.WorkerReplyCanClaimRejection | hw3_src/src/server_lim.c:173-183 | as written, the worker's status byte is whatever was left in memory, so a served request can be answered with status 1 where the corrected reply has 0 |
| LimitedQueue.Queue.Serve | hw3_src/src/server_lim.c:175-183 | one worker step removes the head of the queue and answers it with WorkerReply; an empty queue yields no reply and no change |
| FixedQueue.Queue.constructor | hw2_src/src/server_q.c:186-187 | the queue starts with front = rear = size = 0, an array of QUEUE_SIZE = 500 slots and empty contents |
| FixedQueue.OfferKeepsBound | hw2_src/src/server_q.c:87-95 | add_to_queue returns -1 exactly when 500 requests are queued, and then leaves the contents unchanged; otherwise it returns 0 and appends the request; at most 500 are held |
| FixedQueue.Queue.Add | hw2_src/src/server_q.c:79-103 | on a full queue returns -1 and leaves front, rear, size and all slots unchanged; otherwise stores at the old rear, advances rear modulo 500, increments size, leaves the other slots alone and returns 0; contents follow Offer |
| FixedQueue.Queue.Get | hw2_src/src/server_q.c:106-126 | on a non-empty queue returns the head and advances front modulo 500 with size - 1; on an empty queue nothing changes and there is no request |
| FixedQueue.Queue.DumpStatus | hw2_src/src/server_q.c:130-150 | read-only; returns QueueLine of the queued ids from front, in FIFO order |
| FixedQueue.Queue.HandleConnection | hw2_src/src/server_q.c:202-214 | every received request is passed to add_to_queue in order and the result is ignored: the contents become OfferAll of the received requests |
| FixedQueue.OfferAllFills | hw2_src/src/server_q.c:202-214 | with no dequeuing, the requests that fit in 500 slots are kept in arrival order and every later one is dropped with no trace in the queue |
| FixedQueue.Queue.Serve | hw2_src/src/server_q.c:160-166 | one worker step removes the head and sends back its id; an empty queue yields no reply and no change |
| StatusLine.Decimal | hw4_src/server_multi.c:164 | the %lu rendering of an id is a non-empty string of decimal digits with no leading zero |
| StatusLine.DecimalRoundTrip | hw4_src/server_multi.c:164 | reading the printed decimal digits back gives the id |
| StatusLine.EntriesAppend | hw4_src/server_multi.c:163-168 | each further id adds a comma (except before the first entry) followed by R and its digits |
| StatusLine.EntriesCommas | hw4_src/server_multi.c:163-168 | k queued ids produce k - 1 separating commas and no trailing comma; an empty queue produces none |
| StatusLine.EmptyQueueLine | hw4_src/server_multi.c:162-169 | an empty queue prints as Q:[] followed by a newline |
| Connection.InBytes | hw4_src/server_multi.c:228 | storing recv's result in the size_t in_bytes keeps every count from 0 to 2^64 - 1 and wraps everything else into that range |
| Connection.ReceivedIsPositivePrefix | hw4_src/server_multi.c:265-296 | with the loop stopping at the first read that is not positive, the handler processes exactly the reads before it, each with its own record and receipt time |
| Connection.ErrorReadRepeatsRequest | hw4_src/server_multi.c:296 | as written, recv's -1 is positive as a size_t, so a request read, then a failed read, then end of stream admit the same request twice; with the signed test it is admitted once |
| Schedule.RunConsistent | hw4_src/server_multi.c:114-151 | over every arrive/take trace: size stays within capacity, what was dispatched followed by what is queued is exactly what was admitted, and the notify count equals the queue size (at least the size, for the fixed server as written) |
| Schedule.FifoDispatch | hw4_src/server_multi.c:132-151 | over every trace and any number of workers, the requests workers receive are a prefix of the admitted requests in admission order, the rest are still queued in that order, and with a correct notify count no worker wakes to an empty queue |
| Schedule.StepEcho | hw3_src/src/server_lim.c:173-183 | for the configurable queue, every arrival or take from a consistent world keeps Echoed: the status-0 replies are, in order, the worker's replies to the requests it received |
| Schedule.RunEcho | hw3_src/src/server_lim.c:173-183 | that correspondence between status-0 replies and the requests workers received holds after every sequence of arrivals and takes |
| Schedule.LimitedRepliesEchoServed | hw3_src/src/server_lim.c:171-186 | from the start of a connection, over any interleaving of the handler and the single worker, there are as many status-0 replies as requests the worker received, and the k-th echoes the id of the k-th request received, with status 0 |
| Schedule.ArrivalEffect | hw3_src/src/server_lim.c:253-273 | one successful read on an open connection enqueues when there is room; otherwise the request gets a status-1 reply (configurable queue) or is dropped (fixed queue) |
| Schedule.ArrivalsFill | hw3_src/src/server_lim.c:244-275 | with no takes, the requests the receive loop passes on fill the remaining room in arrival order and every later one is rejected (with a reply echoing its id) or dropped; notify grows with each enqueue |
| Schedule.TakesDrain | hw3_src/src/server_lim.c:171-186 | n takes, with n notify posts pending and n queued requests, hand the worker the first n requests in queue order, and its replies follow in that order |
| Schedule.LimitedZeroDrain | hw3_src/src/server_lim.c:244-275 | with no takes and every read delivering data, the receive loop passes on one request per read; the first maxSize are queued and every later one is rejected with a status-1 reply, in arrival order |
| Schedule.CapacityTwoScenario | hw3_src/src/server_lim.c:244-275 | capacity 2 and ids 1, 2, 3 back to back: 1 and 2 are queued, 3 is rejected with status 1, and the snapshot is Q:[R1,R2]; two takes by the single worker then answer 1 and 2 with status 0, in that order, after the rejection of 3, and empty the queue |
| Schedule.DroppedRequestWakesWorkerOnEmptyQueue | hw2_src/src/server_q.c:98-101 | as written, 501 arrivals before any dequeue post notify 501 times for 500 queued requests, so the 501st take finds an empty queue; the client receives the 500 ids in order and then a stray 501st reply carrying whatever id the worker's uninitialized struct held |
| Schedule.CorrectedFixedQueueNeverWakesEmpty | hw2_src/src/server_q.c:79-103 | posting notify only for an added request, the same trace hands the worker exactly the 500 queued requests in arrival order, the client receives exactly their 500 ids, and the 501st take blocks |
| TimeLib.TimespecAdd | hw1_src/src/timelib.c:72-83 | adds b into a in place; a ends as Sum of the old values, and b is unchanged unless it is the same struct as a |
| TimeLib.SumKeepsTotal | hw1_src/src/timelib.c:72-83 | the total nanoseconds of the result are the sum of the totals |
| TimeLib.SumNsecBound | hw1_src/src/timelib.c:77-81 | with canonical inputs the result's nanoseconds lie in [0, 10^9] and the seconds grow by b's seconds or one more |
| TimeLib.SumNoCarry | hw1_src/src/timelib.c:76-82 | when the nanosecond sum is at most one second, no carry happens and the seconds grow by exactly b's seconds |
| TimeLib.SumLeavesFullSecond | hw1_src/src/timelib.c:78 | half a second plus half a second gives 0 s and 10^9 ns: the strict comparison leaves the result unnormalised |
| TimeLib.NormalizedSumIsCanonical | hw1_src/src/timelib.c:72-83 | with the carry taken from one second on, canonical inputs give a canonical result with the same total |
| TimeLib.Cmp | hw1_src/src/timelib.c:88-98 | 0 exactly when both fields are equal, 1 exactly when a is lexicographically later on (sec, nsec), -1 exactly when b is |
| TimeLib.CmpAntisymmetric | hw1_src/src/timelib.c:88-98 | swapping the arguments negates the result, and a time compares equal to itself |
| TimeLib.CmpTransitive | hw1_src/src/timelib.c:85-98 | later-than is transitive |
| TimeLib.CmpMatchesNanos | hw1_src/src/timelib.c:85-98 | on canonical timespecs the result is the sign of the difference of the total nanoseconds |

## Left out

- Threads and semaphores (`clone`, `queue_mutex`, `printf_mutex`/`sync_printf`, `waitpid`) are concurrency. They are replaced by the sequential arrive/take trace. Only `queue_notify` is kept, as a counter, because the fixed server's bug lives in it.
- The worker termination protocol (`worker_done`, its by-value copy in the multi-worker server, the commented-out shutdown loop) is concurrency, and the multi-worker version cannot be reached.
- Socket set-up, `recv`/`send` as I/O and command-line parsing are I/O. A read is an input value (byte count, record, receipt time), and a sent response is an element of a reply sequence.
- `clock_gettime` timestamps are clocks. A receipt time is a parameter of each read, and start, completion and rejection times are not modelled.
- `get_elapsed_busywait`, `get_elapsed_sleep` and the empty `busywait_timespec` depend on hardware clocks.
- The `R…`/`X…`/`T…` log lines print floating-point `%.6f` values and are left out. The `Q:[…]` snapshot is modelled.
- hw1_src/src/clock.c and the Python analysis scripts are not part of this model. They are CLI and floating-point statistics.
- `malloc`/`free` and memory lifetime are left out, apart from the queue's own array.
- Partial reads are not modelled. A positive `recv` count is taken to deliver a whole request.
- LimitedQueue.Queue.constructor: a negative `-q` argument in the single-worker server (its `main` has no positive-size check) is excluded by `queueSize >= 0`. A size of 0 is allowed and rejects every request.
- LimitedQueue.Queue.Get: on an empty queue the C function returns an uninitialized struct. The model returns None and states nothing about that value.
- FixedQueue.Queue.Get: on an empty queue the C function returns an uninitialized struct. The model returns None.
- LimitedQueue.Queue.Serve and FixedQueue.Queue.Serve: an empty queue gives None, where the C worker would send a reply built from uninitialized memory.
- LimitedQueue.Queue.HandleConnection and FixedQueue.Queue.HandleConnection: the loop stops at the first read that is not positive (the corrected condition). The as-written `size_t` condition is modelled separately by `Connection.InBytesPositive` and `Connection.ErrorReadRepeatsRequest`.
- TimeLib.TimespecAdd: `time_t` and `long` are unbounded integers here, so overflow of the seconds field is not modelled.
- Schedule.LimitedRepliesEchoServed, Schedule.TakesDrain and Schedule.CapacityTwoScenario: a take replies in the step that dequeues, so replies leave in dispatch order, which is the single-worker server's order. For the multi-worker server (hw4_src/server_multi.c:193-201) only the number of replies and each reply's echo of its request's id carry over, not their order, since each worker sends after its own busy-wait.
- Schedule.Step: an `Arrive` event uses the corrected signed loop test (`Connection.ReadOk`), so every trace lemma assumes it; the as-written `size_t` test is modelled only by `Connection.InBytesPositive` and `Connection.ErrorReadRepeatsRequest`. The trace does not model which worker serves a request, or the order in which workers finish and send. A take on an empty queue is modelled with the reply the worker sends from its uninitialized struct, whose contents are a parameter of the event.

## Findings

| source | as written | input that shows it | evidently intended | confidence | as-written member | corrected member |
|---|---|---|---|---|---|---|
| hw1_src/src/timelib.c:78 | the carry is taken only when `a->tv_nsec > NANO_IN_SEC` | a = b = 0 s 500000000 ns gives 0 s 1000000000 ns | carry when the sum is `>= NANO_IN_SEC`, giving 1 s 0 ns | high; not executed | TimeLib.SumLeavesFullSecond | TimeLib.NormalizedSumIsCanonical |
| hw4_src/server_multi.c:228 | `in_bytes` is `size_t`, so recv's -1 becomes 2^64 - 1 and passes `in_bytes > 0` (same at hw3_src/src/server_lim.c:210 and hw2_src/src/server_q.c:180) | a read of a request r, then a failed read (-1), then end of stream: r is admitted twice, the second time from the stale buffer | a signed count, so the loop stops on -1 as its own comment asks | high; not executed | Connection.ErrorReadRepeatsRequest | Connection.ReceivedIsPositivePrefix |
| hw3_src/src/server_lim.c:182 | the worker's `resp.status` is never assigned before `send` (same at hw4_src/server_multi.c:200) | any served request whose stack slot holds 1 is reported as rejected | status 0 (accepted) on every served request | medium (value depends on stack contents); not executed | LimitedQueue.WorkerReplyCanClaimRejection | Schedule.RunEcho |
| hw2_src/src/server_q.c:100 | `queue_notify` is posted even when `add_to_queue` found the queue full and added nothing | 501 requests arrive before the worker's first dequeue, then the worker takes 501 times: the last take finds an empty queue, processes an uninitialized request and sends the client a stray reply | post `queue_notify` only when a request was added | medium (needs the worker to fall 501 requests behind); not executed | Schedule.DroppedRequestWakesWorkerOnEmptyQueue | Schedule.CorrectedFixedQueueNeverWakesEmpty |
