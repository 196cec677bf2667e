/** The connection handler and the workers, run as one sequential trace of
    events instead of threads. `Arrive(read)` is one pass of the handler's
    receive loop; `Take` is one worker getting past the queue_notify
    semaphore and calling get_from_queue, then sending a reply for what
    it got. The semaphore is kept as a counter
    (`notify`): add_to_queue posts it, a worker waits on it, so a Take with
    `notify == 0` is a worker still blocked and changes nothing. Any number
    of workers may share the queue: a Take does not say which one runs.
    A Take sends its reply in the same step as it dequeues, so replies
    leave in dispatch order. That is the order of the single-worker
    server; with several workers, replies leave in the order the busy-waits
    end, and only which replies are sent carries over. */
module Schedule {
  import opened TimeLib
  import opened Wire
  import opened StatusLine
  import opened Connection
  import LimitedQueue
  import FixedQueue

  /** Which server the trace runs: a configurable queue that rejects with a
      response when full, the fixed queue of 500 that drops silently, and
      that same fixed queue as written, where add_to_queue posts
      queue_notify even when it did not add. */
  datatype Variant = Limited(maxSize: int) | Fixed | FixedAsWritten

  predicate WellFormed(v: Variant) {
    v.Limited? ==> v.maxSize >= 0
  }

  function Capacity(v: Variant): int {
    if v.Limited? then v.maxSize else FixedQueue.QueueSize
  }

  /** A worker's `Take` carries what get_from_queue's own uninitialized
      local `retval` holds: on an empty queue the function returns it
      unfilled, and the worker replies from it all the same. */
  datatype Event = Arrive(read: Read) | Take(stale: TimeRequest)

  /** The state the trace observes: the queue contents, the queue_notify
      count, whether the connection is still being read, every request
      admitted so far, every get_from_queue result a worker acted on (None
      for a wake-up on an empty queue), and the replies sent so far. */
  datatype World = World(queue: seq<TimeRequest>, notify: int, open: bool,
                         accepted: seq<TimeRequest>, dispatched: seq<Option<TimeRequest>>,
                         replies: seq<Reply>)

  function Start(): World {
    World([], 0, true, [], [], [])
  }

  /** One received request through the variant's admission path. */
  function Arrival(v: Variant, w: World, item: TimeRequest): World {
    match v
    case Limited(m) =>
      var d := LimitedQueue.Decide(w.queue, m, item);
      if d.sent then w.(replies := w.replies + [Ack(d.response)])
      else w.(queue := d.queue, notify := w.notify + 1, accepted := w.accepted + [item])
    case Fixed =>
      var o := FixedQueue.Offer(w.queue, item);
      if o.retval == 0 then w.(queue := o.queue, notify := w.notify + 1, accepted := w.accepted + [item])
      else w
    case FixedAsWritten =>
      var o := FixedQueue.Offer(w.queue, item);
      if o.retval == 0 then w.(queue := o.queue, notify := w.notify + 1, accepted := w.accepted + [item])
      else w.(notify := w.notify + 1)
  }

  /** What a worker sends for the request it served. */
  function Output(v: Variant, item: TimeRequest): Reply {
    if v.Limited? then Ack(LimitedQueue.WorkerReply(item)) else IdEcho(item.request.reqId)
  }

  function Step(v: Variant, w: World, e: Event): World {
    match e
    case Arrive(r) =>
      if !w.open then w
      else if !ReadOk(r.n) then w.(open := false)
      else Arrival(v, w, TimeRequest(r.record, r.at))
    case Take(stale) =>
      if w.notify <= 0 then w
      else if w.queue == [] then
        w.(notify := w.notify - 1, dispatched := w.dispatched + [None],
           replies := w.replies + [Output(v, stale)])
      else w.(notify := w.notify - 1, queue := w.queue[1..],
              dispatched := w.dispatched + [Some(w.queue[0])],
              replies := w.replies + [Output(v, w.queue[0])])
  }

  function Run(v: Variant, w: World, events: seq<Event>): World
    decreases |events|
  {
    if events == [] then w else Run(v, Step(v, w, events[0]), events[1..])
  }

  lemma {:induction false} RunAppend(v: Variant, w: World, a: seq<Event>, b: seq<Event>)
    ensures Run(v, w, a + b) == Run(v, Run(v, w, a), b)
    decreases |a|
  {
    if a != [] {
      assert (a + b)[1..] == a[1..] + b;
      RunAppend(v, Step(v, w, a[0]), a[1..], b);
    } else {
      assert a + b == b;
    }
  }

  /** The requests workers actually received, in dispatch order. */
  function Delivered(ds: seq<Option<TimeRequest>>): seq<TimeRequest>
    decreases |ds|
  {
    if ds == [] then []
    else Delivered(ds[..|ds| - 1]) + (if ds[|ds| - 1].Some? then [ds[|ds| - 1].value] else [])
  }

  /** What every reachable world satisfies. The queue never exceeds its
      capacity; what was dispatched followed by what is still queued is
      exactly what was admitted, in order (FIFO); and the semaphore counts
      the queued requests, so no worker wakes to an empty queue. As
      written, the fixed variant only keeps notify >= size. */
  ghost predicate Consistent(v: Variant, w: World) {
    && |w.queue| <= Capacity(v)
    && Delivered(w.dispatched) + w.queue == w.accepted
    && (v.FixedAsWritten? ==> w.notify >= |w.queue|)
    && (!v.FixedAsWritten? ==> w.notify == |w.queue| && forall k :: 0 <= k < |w.dispatched| ==> w.dispatched[k].Some?)
  }

  lemma DeliveredAppend(ds: seq<Option<TimeRequest>>, x: Option<TimeRequest>)
    ensures Delivered(ds + [x]) == Delivered(ds) + (if x.Some? then [x.value] else [])
  {
    assert (ds + [x])[..|ds|] == ds;
  }

  lemma ArrivalConsistent(v: Variant, w: World, item: TimeRequest)
    requires WellFormed(v) && Consistent(v, w)
    ensures Consistent(v, Arrival(v, w, item))
  {
  }

  /** A take that finds a request: the head moves from the queue to the
      dispatched requests. */
  lemma TakeHeadConsistent(v: Variant, w: World, stale: TimeRequest)
    requires WellFormed(v) && Consistent(v, w) && w.notify > 0 && w.queue != []
    ensures Consistent(v, Step(v, w, Take(stale)))
  {
    var w' := Step(v, w, Take(stale));
    DeliveredAppend(w.dispatched, Some(w.queue[0]));
    assert [w.queue[0]] + w.queue[1..] == w.queue;
    Concat(Delivered(w.dispatched), [w.queue[0]], w.queue[1..]);
    assert Delivered(w'.dispatched) + w'.queue == w.accepted;
    assert forall k :: 0 <= k < |w.dispatched| ==> w'.dispatched[k] == w.dispatched[k];
  }

  /** A take on an empty queue, possible only for the fixed queue as
      written: nothing is delivered and the semaphore still covers the
      (empty) queue. */
  lemma TakeEmptyConsistent(w: World, stale: TimeRequest)
    requires Consistent(FixedAsWritten, w) && w.notify > 0 && w.queue == []
    ensures Consistent(FixedAsWritten, Step(FixedAsWritten, w, Take(stale)))
  {
    DeliveredAppend(w.dispatched, None);
  }

  lemma TakeConsistent(v: Variant, w: World, stale: TimeRequest)
    requires WellFormed(v) && Consistent(v, w)
    ensures Consistent(v, Step(v, w, Take(stale)))
  {
    if w.notify > 0 && w.queue != [] {
      TakeHeadConsistent(v, w, stale);
    } else if w.notify > 0 {
      assert v.FixedAsWritten?;
      TakeEmptyConsistent(w, stale);
    }
  }

  lemma StepConsistent(v: Variant, w: World, e: Event)
    requires WellFormed(v) && Consistent(v, w)
    ensures Consistent(v, Step(v, w, e))
  {
    match e
    case Arrive(r) =>
      if w.open && ReadOk(r.n) {
        ArrivalConsistent(v, w, TimeRequest(r.record, r.at));
      }
    case Take(stale) =>
      TakeConsistent(v, w, stale);
  }

  lemma {:induction false} RunConsistent(v: Variant, w: World, events: seq<Event>)
    requires WellFormed(v) && Consistent(v, w)
    ensures Consistent(v, Run(v, w, events))
    decreases |events|
  {
    if events != [] {
      StepConsistent(v, w, events[0]);
      RunConsistent(v, Step(v, w, events[0]), events[1..]);
    }
  }

  /** FIFO dispatch, for any interleaving of arrivals and takes and any
      number of workers: the requests workers receive are a prefix of the
      admitted requests in admission order, the rest are still queued in
      that order, and the queue never holds more than its capacity. With
      the notify count kept right, every worker that wakes gets a request. */
  lemma FifoDispatch(v: Variant, events: seq<Event>)
    requires WellFormed(v)
    ensures var w := Run(v, Start(), events);
      && |w.queue| <= Capacity(v)
      && |Delivered(w.dispatched)| <= |w.accepted|
      && Delivered(w.dispatched) == w.accepted[..|Delivered(w.dispatched)|]
      && w.queue == w.accepted[|Delivered(w.dispatched)|..]
      && (!v.FixedAsWritten? ==> forall k :: 0 <= k < |w.dispatched| ==> w.dispatched[k].Some?)
  {
    RunConsistent(v, Start(), events);
    var w := Run(v, Start(), events);
    var n := |Delivered(w.dispatched)|;
    assert w.accepted[..n] == Delivered(w.dispatched);
    assert w.accepted[n..] == w.queue;
  }

  /** A reply reporting status 0. */
  predicate Accepting(r: Reply) {
    r.Ack? && r.response.status == StatusAccepted
  }

  /** The status-0 replies among `rs`, in the order they were sent. */
  function Served(rs: seq<Reply>): seq<Reply>
    decreases |rs|
  {
    if rs == [] then []
    else Served(rs[..|rs| - 1]) + (if Accepting(rs[|rs| - 1]) then [rs[|rs| - 1]] else [])
  }

  lemma ServedAppend(rs: seq<Reply>, x: Reply)
    ensures Served(rs + [x]) == Served(rs) + (if Accepting(x) then [x] else [])
  {
    assert (rs + [x])[..|rs|] == rs;
  }

  /** The replies workers send for `items`, served in that order. */
  function Outputs(v: Variant, items: seq<TimeRequest>): seq<Reply>
  {
    seq(|items|, i requires 0 <= i < |items| => Output(v, items[i]))
  }

  lemma OutputsAppend(v: Variant, items: seq<TimeRequest>, x: TimeRequest)
    ensures Outputs(v, items + [x]) == Outputs(v, items) + [Output(v, x)]
  {
  }

  /** The configurable queue's replies tell the truth about the workers:
      the status-0 replies sent so far are, in order, one per request a
      worker received, each echoing that request's id. */
  ghost predicate Echoed(v: Variant, w: World) {
    Served(w.replies) == Outputs(v, Delivered(w.dispatched))
  }

  lemma StepEcho(m: int, w: World, e: Event)
    requires m >= 0 && Consistent(Limited(m), w) && Echoed(Limited(m), w)
    ensures Echoed(Limited(m), Step(Limited(m), w, e))
  {
    var v := Limited(m);
    match e
    case Arrive(r) =>
      if w.open && ReadOk(r.n) {
        var item := TimeRequest(r.record, r.at);
        var d := LimitedQueue.Decide(w.queue, m, item);
        if d.sent {
          ServedAppend(w.replies, Ack(d.response));
        }
      }
    case Take(stale) =>
      if w.notify > 0 {
        var h := w.queue[0];
        ServedAppend(w.replies, Output(v, h));
        DeliveredAppend(w.dispatched, Some(h));
        OutputsAppend(v, Delivered(w.dispatched), h);
      }
  }

  lemma {:induction false} RunEcho(m: int, w: World, events: seq<Event>)
    requires m >= 0 && Consistent(Limited(m), w) && Echoed(Limited(m), w)
    ensures Echoed(Limited(m), Run(Limited(m), w, events))
    decreases |events|
  {
    if events != [] {
      StepEcho(m, w, events[0]);
      StepConsistent(Limited(m), w, events[0]);
      RunEcho(m, Step(Limited(m), w, events[0]), events[1..]);
    }
  }

  /** Whatever the interleaving of arrivals and takes, the configurable
      queue's server sends one status-0 reply per request a worker
      received, echoing its id, and no other: no reply claims acceptance of
      a request that was rejected or never served. With one worker the k-th
      such reply answers the k-th request dequeued. */
  lemma LimitedRepliesEchoServed(m: int, events: seq<Event>)
    requires m >= 0
    ensures var w := Run(Limited(m), Start(), events);
      var served := Served(w.replies);
      var got := Delivered(w.dispatched);
      && |served| == |got|
      && forall k :: 0 <= k < |got| ==> served[k] == Ack(Response(got[k].request.reqId, StatusAccepted))
  {
    assert Served([]) == [] && Delivered([]) == [];
    RunEcho(m, Start(), events);
  }

  /** The events for a run of reads. */
  function Arrivals(recvs: seq<Read>): seq<Event>
  {
    seq(|recvs|, i requires 0 <= i < |recvs| => Arrive(recvs[i]))
  }

  /** When every read delivers data, the handler loop passes admission
      one request per read, each with its own record and receipt time. */
  lemma AllReceived(buf: Request, recvs: seq<Read>)
    requires forall i :: 0 <= i < |recvs| ==> recvs[i].n > 0
    ensures var items := Received(ReadOk, buf, recvs);
      && |items| == |recvs|
      && forall i :: 0 <= i < |recvs| ==> items[i] == TimeRequest(recvs[i].record, recvs[i].at)
  {
    ReceivedIsPositivePrefix(buf, recvs);
  }

  /** Responses as the replies that carry them on the socket. */
  function Acks(rs: seq<Response>): seq<Reply>
  {
    seq(|rs|, i requires 0 <= i < |rs| => Ack(rs[i]))
  }

  function Min(a: int, b: int): int {
    if a <= b then a else b
  }

  /** One successful read on an open connection: the request joins the
      queue when there is room; otherwise it is rejected with a reply
      (configurable queue) or dropped (fixed queue), and as written the
      fixed queue still posts queue_notify. */
  lemma ArrivalEffect(v: Variant, w: World, r: Read)
    requires WellFormed(v) && w.open && |w.queue| <= Capacity(v) && r.n > 0
    ensures var item := TimeRequest(r.record, r.at);
      var w' := Step(v, w, Arrive(r));
      && w'.open && w'.dispatched == w.dispatched
      && (|w.queue| < Capacity(v) ==>
            && w'.queue == w.queue + [item] && w'.accepted == w.accepted + [item]
            && w'.notify == w.notify + 1 && w'.replies == w.replies)
      && (|w.queue| == Capacity(v) ==>
            && w'.queue == w.queue && w'.accepted == w.accepted
            && w'.notify == w.notify + (if v.FixedAsWritten? then 1 else 0)
            && w'.replies == w.replies + (if v.Limited? then [Ack(Response(item.request.reqId, StatusRejected))] else []))
  {
  }

  /** What a run of admissions does to the world, `items` having been
      admitted in turn from `w`. */
  ghost predicate Filled(v: Variant, w: World, items: seq<TimeRequest>, w': World)
    requires |w.queue| <= Capacity(v)
  {
    var c := Min(|items|, Capacity(v) - |w.queue|);
    && w'.open
    && w'.queue == w.queue + items[..c]
    && w'.accepted == w.accepted + items[..c]
    && w'.dispatched == w.dispatched
    && w'.notify == w.notify + (if v.FixedAsWritten? then |items| else c)
    && w'.replies == w.replies + (if v.Limited? then Acks(LimitedQueue.Rejections(items[c..])) else [])
  }

  /** One admission into a queue with room, followed by a run of them. */
  lemma FilledConsRoom(v: Variant, w: World, w1: World, w': World, item: TimeRequest, rest: seq<TimeRequest>)
    requires |w.queue| < Capacity(v) && w1.dispatched == w.dispatched
    requires w1.queue == w.queue + [item] && w1.accepted == w.accepted + [item]
    requires w1.notify == w.notify + 1 && w1.replies == w.replies
    requires Filled(v, w1, rest, w')
    ensures Filled(v, w, [item] + rest, w')
  {
    var items := [item] + rest;
    var c := Min(|items|, Capacity(v) - |w.queue|);
    assert c - 1 == Min(|rest|, Capacity(v) - |w1.queue|);
    assert items[..c] == [item] + rest[..c - 1];
    assert items[c..] == rest[c - 1..];
  }

  /** One request turned away by a full queue, followed by a run of them. */
  lemma FilledConsFull(v: Variant, w: World, w1: World, w': World, item: TimeRequest, rest: seq<TimeRequest>)
    requires |w.queue| == Capacity(v) && w1.dispatched == w.dispatched
    requires w1.queue == w.queue && w1.accepted == w.accepted
    requires w1.notify == w.notify + (if v.FixedAsWritten? then 1 else 0)
    requires w1.replies == w.replies + (if v.Limited? then [Ack(Response(item.request.reqId, StatusRejected))] else [])
    requires Filled(v, w1, rest, w')
    ensures Filled(v, w, [item] + rest, w')
  {
    var items := [item] + rest;
    assert Min(|items|, Capacity(v) - |w.queue|) == 0;
    assert Min(|rest|, Capacity(v) - |w1.queue|) == 0;
    assert items[..0] == rest[..0];
    assert rest[0..] == rest && items[0..] == items;
    assert [Ack(Response(item.request.reqId, StatusRejected))] + Acks(LimitedQueue.Rejections(rest))
        == Acks(LimitedQueue.Rejections(items));
  }

  /** Admission control with no worker dequeuing: while the connection is
      open, successful reads fill the remaining room in arrival order and
      every later request is turned away, with a status-1 reply echoing its
      id for the configurable queue and with nothing for the fixed one. The
      notify count grows with every enqueue, and as written also with every
      drop. */
  lemma {:induction false} ArrivalsFill(v: Variant, w: World, buf: Request, recvs: seq<Read>)
    requires WellFormed(v) && w.open && |w.queue| <= Capacity(v)
    requires forall i :: 0 <= i < |recvs| ==> recvs[i].n > 0
    ensures Filled(v, w, Received(ReadOk, buf, recvs), Run(v, w, Arrivals(recvs)))
    decreases |recvs|
  {
    var items := Received(ReadOk, buf, recvs);
    if recvs != [] {
      var w1 := Step(v, w, Arrive(recvs[0]));
      var rest := Received(ReadOk, recvs[0].record, recvs[1..]);
      ArrivalEffect(v, w, recvs[0]);
      assert Arrivals(recvs)[1..] == Arrivals(recvs[1..]);
      assert Run(v, w, Arrivals(recvs)) == Run(v, w1, Arrivals(recvs[1..]));
      ArrivalsFill(v, w1, recvs[0].record, recvs[1..]);
      assert items == [TimeRequest(recvs[0].record, recvs[0].at)] + rest;
      if |w.queue| < Capacity(v) {
        FilledConsRoom(v, w, w1, Run(v, w1, Arrivals(recvs[1..])), items[0], rest);
      } else {
        FilledConsFull(v, w, w1, Run(v, w1, Arrivals(recvs[1..])), items[0], rest);
      }
    } else {
      assert items[..0] == [] && items[0..] == [];
    }
  }

  /** n takes in a row, each by a worker whose get_from_queue would
      return `stale` on an empty queue. */
  function Takes(n: nat, stale: TimeRequest): seq<Event>
  {
    seq(n, i => Take(stale))
  }

  /** One take with a request queued and a notify post pending hands the
      head to the worker, which replies to it. */
  lemma TakeEffect(v: Variant, w: World, stale: TimeRequest)
    requires w.queue != [] && w.notify > 0
    ensures var w' := Step(v, w, Take(stale));
      && w'.queue == w.queue[1..] && w'.notify == w.notify - 1
      && w'.open == w.open && w'.accepted == w.accepted
      && w'.dispatched == w.dispatched + [Some(w.queue[0])]
      && w'.replies == w.replies + [Output(v, w.queue[0])]
  {
  }

  /** get_from_queue's results for `items`, taken in that order. */
  function Handed(items: seq<TimeRequest>): seq<Option<TimeRequest>>
  {
    seq(|items|, i requires 0 <= i < |items| => Some(items[i]))
  }

  /** What n takes from `w` leave in `w'`: the first n queued requests
      handed out and replied to, in queue order. */
  ghost predicate Drained(v: Variant, w: World, n: nat, w': World)
    requires n <= |w.queue|
  {
    && w'.queue == w.queue[n..]
    && w'.notify == w.notify - n
    && w'.open == w.open && w'.accepted == w.accepted
    && w'.dispatched == w.dispatched + Handed(w.queue[..n])
    && w'.replies == w.replies + Outputs(v, w.queue[..n])
  }

  /** One take followed by n - 1 more is n takes. */
  lemma DrainedCons(v: Variant, w: World, w1: World, w': World, n: nat)
    requires 0 < n <= |w.queue|
    requires w1.queue == w.queue[1..] && w1.notify == w.notify - 1
    requires w1.open == w.open && w1.accepted == w.accepted
    requires w1.dispatched == w.dispatched + [Some(w.queue[0])]
    requires w1.replies == w.replies + [Output(v, w.queue[0])]
    requires Drained(v, w1, n - 1, w')
    ensures Drained(v, w, n, w')
  {
    assert w1.queue[n - 1..] == w.queue[n..];
    assert w1.queue[..n - 1] == w.queue[1..n];
    OutputsCons(v, w.queue, n);
    HandedCons(w.queue, n);
    Concat(w.replies, [Output(v, w.queue[0])], Outputs(v, w.queue[1..n]));
    Concat(w.dispatched, [Some(w.queue[0])], Handed(w.queue[1..n]));
  }

  lemma OutputsCons(v: Variant, q: seq<TimeRequest>, n: nat)
    requires 0 < n <= |q|
    ensures [Output(v, q[0])] + Outputs(v, q[1..n]) == Outputs(v, q[..n])
  {
  }

  lemma HandedCons(q: seq<TimeRequest>, n: nat)
    requires 0 < n <= |q|
    ensures [Some(q[0])] + Handed(q[1..n]) == Handed(q[..n])
  {
  }

  /** Takes draining n queued requests, with n notify posts pending, hand
      out exactly the first n in queue order; with one worker its replies
      follow in that order. */
  lemma {:induction false} TakesDrain(v: Variant, w: World, n: nat, stale: TimeRequest)
    requires n <= |w.queue| && n <= w.notify
    ensures Drained(v, w, n, Run(v, w, Takes(n, stale)))
    decreases n
  {
    if n > 0 {
      var w1 := Step(v, w, Take(stale));
      TakeEffect(v, w, stale);
      assert Takes(n, stale)[1..] == Takes(n - 1, stale);
      assert Run(v, w, Takes(n, stale)) == Run(v, w1, Takes(n - 1, stale));
      TakesDrain(v, w1, n - 1, stale);
      DrainedCons(v, w, w1, Run(v, w1, Takes(n - 1, stale)), n);
    } else {
      assert w.queue[..0] == [] && w.queue[0..] == w.queue;
      assert w.dispatched[..|w.dispatched|] == w.dispatched;
    }
  }

  /** The fixed-capacity server as written: with 501 requests arriving
      before any dequeue, 500 are queued and the last is dropped, yet
      queue_notify has been posted 501 times. After the worker has served the
      500, it passes the semaphore once more and get_from_queue finds the
      queue empty: the worker gets no request, yet sends back the id its
      uninitialized struct holds. */
  lemma DroppedRequestWakesWorkerOnEmptyQueue(buf: Request, recvs: seq<Read>, stale: TimeRequest)
    requires |recvs| == FixedQueue.QueueSize + 1
    requires forall i :: 0 <= i < |recvs| ==> recvs[i].n > 0
    ensures var items := Received(ReadOk, buf, recvs);
      var w := Run(FixedAsWritten, Start(), Arrivals(recvs) + Takes(FixedQueue.QueueSize + 1, stale));
      && |items| == FixedQueue.QueueSize + 1
      && |w.dispatched| == FixedQueue.QueueSize + 1
      && w.dispatched[FixedQueue.QueueSize] == None
      && w.replies == Outputs(FixedAsWritten, items[..FixedQueue.QueueSize]) + [IdEcho(stale.request.reqId)]
  {
    var v := FixedAsWritten;
    var n := FixedQueue.QueueSize;
    var items := Received(ReadOk, buf, recvs);
    AllReceived(buf, recvs);
    ArrivalsFill(v, Start(), buf, recvs);
    var w1 := Run(v, Start(), Arrivals(recvs));
    assert |w1.queue| == n && w1.notify == n + 1 && w1.replies == [];
    assert Takes(n + 1, stale) == Takes(n, stale) + [Take(stale)];
    RunAppend(v, Start(), Arrivals(recvs), Takes(n, stale) + [Take(stale)]);
    RunAppend(v, w1, Takes(n, stale), [Take(stale)]);
    TakesDrain(v, w1, n, stale);
    var w2 := Run(v, w1, Takes(n, stale));
    assert w1.queue[..n] == items[..n];
    assert w2.queue == [] && w2.notify == 1;
    assert Run(v, w2, [Take(stale)]) == Step(v, w2, Take(stale));
  }

  /** The same 501 arrivals and 501 takes with notify posted only for a
      request actually added: the 501st take finds the semaphore at zero
      and blocks, so the worker receives exactly the 500 queued requests,
      in arrival order, and sends exactly their 500 replies. */
  lemma CorrectedFixedQueueNeverWakesEmpty(buf: Request, recvs: seq<Read>, stale: TimeRequest)
    requires |recvs| == FixedQueue.QueueSize + 1
    requires forall i :: 0 <= i < |recvs| ==> recvs[i].n > 0
    ensures var items := Received(ReadOk, buf, recvs);
      var w := Run(Fixed, Start(), Arrivals(recvs) + Takes(FixedQueue.QueueSize + 1, stale));
      && |items| == FixedQueue.QueueSize + 1
      && |w.dispatched| == FixedQueue.QueueSize
      && (forall k :: 0 <= k < FixedQueue.QueueSize ==> w.dispatched[k] == Some(items[k]))
      && w.replies == Outputs(Fixed, items[..FixedQueue.QueueSize])
  {
    var v := Fixed;
    var n := FixedQueue.QueueSize;
    var items := Received(ReadOk, buf, recvs);
    AllReceived(buf, recvs);
    ArrivalsFill(v, Start(), buf, recvs);
    var w1 := Run(v, Start(), Arrivals(recvs));
    assert |w1.queue| == n && w1.notify == n && w1.replies == [];
    assert Takes(n + 1, stale) == Takes(n, stale) + [Take(stale)];
    RunAppend(v, Start(), Arrivals(recvs), Takes(n, stale) + [Take(stale)]);
    RunAppend(v, w1, Takes(n, stale), [Take(stale)]);
    TakesDrain(v, w1, n, stale);
    var w2 := Run(v, w1, Takes(n, stale));
    assert w2.notify == 0;
    assert Run(v, w2, [Take(stale)]) == w2;
    assert w1.queue == items[..n];
    assert w1.queue[..n] == w1.queue;
    assert w2.dispatched == Handed(w1.queue);
    forall k | 0 <= k < n
      ensures w2.dispatched[k] == Some(items[k])
    {
      assert w2.dispatched[k] == Some(w1.queue[k]);
    }
  }

  /** Admission control for the configurable queue: with no take events,
      the first maxSize requests are queued and every later one is rejected
      with a status-1 reply echoing its id, in arrival order. */
  lemma LimitedZeroDrain(m: int, buf: Request, recvs: seq<Read>)
    requires m >= 0
    requires forall i :: 0 <= i < |recvs| ==> recvs[i].n > 0
    ensures var items := Received(ReadOk, buf, recvs);
      var w := Run(Limited(m), Start(), Arrivals(recvs));
      var c := Min(|items|, m);
      && |items| == |recvs|
      && w.queue == items[..c]
      && w.accepted == items[..c]
      && w.replies == Acks(LimitedQueue.Rejections(items[c..]))
  {
    AllReceived(buf, recvs);
    ArrivalsFill(Limited(m), Start(), buf, recvs);
  }

  /** The three arrivals of the capacity-2 scenario, request by request. */
  lemma CapacityTwoArrivals(buf: Request, recvs: seq<Read>)
    requires |recvs| == 3 && forall i :: 0 <= i < 3 ==> recvs[i].n > 0
    ensures var before := Run(Limited(2), Start(), Arrivals(recvs));
      && before.queue == [TimeRequest(recvs[0].record, recvs[0].at), TimeRequest(recvs[1].record, recvs[1].at)]
      && before.notify == 2
      && before.replies == [Ack(Response(recvs[2].record.reqId, StatusRejected))]
  {
    AllReceived(buf, recvs);
    ArrivalsFill(Limited(2), Start(), buf, recvs);
    var items := Received(ReadOk, buf, recvs);
    assert items[..2] == [items[0], items[1]];
    assert items[2..] == [items[2]];
  }

  /** Capacity 2, ids 1, 2 and 3 sent back to back with nothing dequeued:
      1 and 2 are queued, 3 is rejected with status 1, and the snapshot is
      Q:[R1,R2]. Two takes by the single worker then serve 1 and 2 in that
      order, each answered with status 0, and leave the queue empty. */
  lemma CapacityTwoScenario(t: Time, zero: Time, t1: Time, t2: Time, t3: Time, stale: TimeRequest)
    ensures var recvs := [Read(40, Request(1, t, zero), t1), Read(40, Request(2, t, zero), t2), Read(40, Request(3, t, zero), t3)];
      var before := Run(Limited(2), Start(), Arrivals(recvs));
      var after := Run(Limited(2), Start(), Arrivals(recvs) + Takes(2, stale));
      && Ids(before.queue) == [1, 2]
      && before.replies == [Ack(Response(3, StatusRejected))]
      && QueueLine(Ids(before.queue)) == "Q:[R1,R2]\n"
      && after.queue == []
      && after.replies == [Ack(Response(3, StatusRejected)), Ack(Response(1, StatusAccepted)), Ack(Response(2, StatusAccepted))]
  {
    var v := Limited(2);
    var recvs := [Read(40, Request(1, t, zero), t1), Read(40, Request(2, t, zero), t2), Read(40, Request(3, t, zero), t3)];
    CapacityTwoArrivals(Request(0, t, zero), recvs);
    var before := Run(v, Start(), Arrivals(recvs));
    var r1 := TimeRequest(Request(1, t, zero), t1);
    var r2 := TimeRequest(Request(2, t, zero), t2);
    assert before.queue == [r1, r2];
    var ids: seq<U64> := [1, 2];
    assert Ids(before.queue) == ids;
    assert ids[1..] == [2];
    assert Decimal(1) == "1" && Decimal(2) == "2";
    assert Entries(ids) == "R1,R2";
    RunAppend(v, Start(), Arrivals(recvs), Takes(2, stale));
    TakesDrain(v, before, 2, stale);
    assert before.queue[..2] == before.queue;
    assert Outputs(v, before.queue) == [Ack(Response(1, StatusAccepted)), Ack(Response(2, StatusAccepted))];
  }
}
