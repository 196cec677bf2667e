/** The bounded request queue of the servers with a configurable queue size
    (the single-worker server_lim.c and the multi-worker server_multi.c,
    whose queue code is the same): a ring buffer over an array of maxSize
    slots with front, rear and size, and the admission decision that the
    connection handler takes before every enqueue. */
module LimitedQueue {
  import opened TimeLib
  import opened Wire
  import opened StatusLine
  import opened Connection
  import opened Ring

  /** The admission branch for one received request: the queue after it, the
      response the handler fills in (id echoed, status 1 when full, 0
      otherwise) and whether the handler sends that response. Only a
      rejection is sent by the handler; an accepted request is answered by
      the worker that serves it. */
  datatype Decision = Decision(queue: seq<TimeRequest>, response: Response, sent: bool)

  function Decide(q: seq<TimeRequest>, maxSize: int, item: TimeRequest): Decision {
    var id := item.request.reqId;
    if |q| >= maxSize then Decision(q, Response(id, StatusRejected), true)
    else Decision(q + [item], Response(id, StatusAccepted), false)
  }

  /** What the admission decision promises: the id is echoed, a request is
      rejected exactly when the queue is full, a rejected request leaves the
      queue as it was, an accepted one joins its end, and the bound holds. */
  lemma DecideEchoesAndBounds(q: seq<TimeRequest>, maxSize: int, item: TimeRequest)
    requires |q| <= maxSize
    ensures var d := Decide(q, maxSize, item);
      && d.response.reqId == item.request.reqId
      && (d.sent <==> |q| == maxSize)
      && (d.sent <==> d.response.status == StatusRejected)
      && (d.sent ==> d.queue == q)
      && (!d.sent ==> d.queue == q + [item] && d.response.status == StatusAccepted)
      && |d.queue| <= maxSize
  {
  }

  /** The queue and the responses sent after the handler has taken the
      admission decision for each of `items` in turn, with no worker
      dequeuing in between. */
  datatype Admitted = Admitted(queue: seq<TimeRequest>, sent: seq<Response>)

  function AdmitAll(q: seq<TimeRequest>, maxSize: int, items: seq<TimeRequest>): Admitted
    decreases |items|
  {
    if items == [] then Admitted(q, [])
    else
      var prev := AdmitAll(q, maxSize, items[..|items| - 1]);
      var d := Decide(prev.queue, maxSize, items[|items| - 1]);
      Admitted(d.queue, prev.sent + (if d.sent then [d.response] else []))
  }

  /** The rejection responses for a run of requests. */
  function Rejections(items: seq<TimeRequest>): (rs: seq<Response>)
    ensures |rs| == |items|
    ensures forall i :: 0 <= i < |items| ==> rs[i] == Response(items[i].request.reqId, StatusRejected)
  {
    if items == [] then [] else Rejections(items[..|items| - 1]) + [Response(items[|items| - 1].request.reqId, StatusRejected)]
  }

  /** Admission control with no dequeuing: starting from a queue holding
      |q| <= maxSize requests, the next maxSize - |q| requests are enqueued
      in order and every later one is rejected, with a status-1 response
      echoing its id, in arrival order. */
  lemma {:induction false} AdmitAllFills(q: seq<TimeRequest>, maxSize: int, items: seq<TimeRequest>)
    requires |q| <= maxSize
    ensures var room := maxSize - |q|;
      var a := AdmitAll(q, maxSize, items);
      && a.queue == q + items[..if |items| <= room then |items| else room]
      && a.sent == Rejections(items[if |items| <= room then |items| else room..])
    decreases |items|
  {
    if items != [] {
      var room := maxSize - |q|;
      var init := items[..|items| - 1];
      AdmitAllFills(q, maxSize, init);
      var last := items[|items| - 1];
      if |items| <= room {
        assert items[..|items|] == init + [last];
        assert init[..|init|] == init;
      } else {
        assert init[..room] == items[..room];
        assert items[room..] == items[room..|items| - 1] + [last];
        if |init| <= room {
          assert items[room..|items| - 1] == [];
          assert init[..|init|] == init;
          assert init[|init|..] == [];
        } else {
          assert init[room..] == items[room..|items| - 1];
        }
        assert items[room..][..|items[room..]| - 1] == items[room..|items| - 1];
      }
    }
  }

  /** The reply a worker sends for the request it served: the id echoed and
      status 0 (accepted). */
  function WorkerReply(item: TimeRequest): Response {
    Response(item.request.reqId, StatusAccepted)
  }

  /** The worker's reply as written: `resp.req_id` is assigned and
      `resp.status` never is, so the status byte sent is whatever the stack
      held (`leftover`). */
  function WorkerReplyAsWritten(item: TimeRequest, leftover: U8): Response {
    Response(item.request.reqId, leftover)
  }

  /** A served request can be reported as rejected: with a 1 left on the
      stack, the worker's reply carries status 1 where the corrected reply
      carries 0. */
  lemma WorkerReplyCanClaimRejection(item: TimeRequest)
    ensures WorkerReplyAsWritten(item, 1).status == StatusRejected
    ensures WorkerReply(item).status == StatusAccepted
    ensures WorkerReplyAsWritten(item, 1).reqId == WorkerReply(item).reqId
  {
  }

  /** struct queue with its requestQueue array. */
  class Queue {
    var requestQueue: array<TimeRequest>
    var front: int
    var rear: int
    var size: int
    var maxSize: int

    /** The queued requests from front to rear, oldest first. */
    ghost var Contents: seq<TimeRequest>

    ghost predicate Valid()
      reads this, requestQueue
    {
      && requestQueue.Length == maxSize
      && 0 <= size <= maxSize
      && |Contents| == size
      && (maxSize == 0 ==> front == 0 && rear == 0)
      && (maxSize > 0 ==> 0 <= front < maxSize && rear == Wrap(front + size, maxSize))
      && forall i :: 0 <= i < size ==> Contents[i] == requestQueue[Wrap(front + i, maxSize)]
    }

    /** queue_init: storage for queueSize requests, empty, front = rear =
        size = 0. */
    constructor (queueSize: int)
      requires queueSize >= 0
      ensures Valid() && fresh(requestQueue)
      ensures maxSize == queueSize && front == 0 && rear == 0 && size == 0
      ensures Contents == []
    {
      requestQueue := new TimeRequest[queueSize];
      front, rear, size := 0, 0, 0;
      maxSize := queueSize;
      Contents := [];
    }

    /** add_to_queue: stores the request at rear, advances rear modulo
        maxSize and counts it. It does no capacity check of its own: the
        caller guarantees a free slot. Always returns 0. */
    method Add(toAdd: TimeRequest) returns (retval: int)
      requires Valid() && size < maxSize
      modifies this, requestQueue
      ensures Valid() && requestQueue == old(requestQueue) && maxSize == old(maxSize)
      ensures Contents == old(Contents) + [toAdd]
      ensures retval == 0
      ensures requestQueue[old(rear)] == toAdd
      ensures forall j :: 0 <= j < maxSize && j != old(rear) ==> requestQueue[j] == old(requestQueue[j])
      ensures front == old(front) && rear == (old(rear) + 1) % maxSize && size == old(size) + 1
    {
      retval := 0;
      requestQueue[rear] := toAdd;
      ModIsWrap(rear + 1, maxSize);
      rear := (rear + 1) % maxSize;
      size := size + 1;
      Contents := Contents + [toAdd];
    }

    /** get_from_queue: on a non-empty queue returns the request at front,
        advances front modulo maxSize and uncounts it; on an empty queue it
        changes nothing and has no request to return. */
    method Get() returns (item: Option<TimeRequest>)
      requires Valid()
      modifies this
      ensures Valid() && requestQueue == old(requestQueue) && maxSize == old(maxSize)
      ensures old(size) == 0 ==> item == None && front == old(front) && rear == old(rear) && size == 0 && Contents == old(Contents)
      ensures old(size) > 0 ==> item == Some(old(Contents)[0]) && Contents == old(Contents)[1..]
      ensures old(size) > 0 ==> front == (old(front) + 1) % maxSize && rear == old(rear) && size == old(size) - 1
    {
      item := None;
      if size > 0 {
        item := Some(requestQueue[front]);
        ModIsWrap(front + 1, maxSize);
        front := (front + 1) % maxSize;
        size := size - 1;
        Contents := Contents[1..];
      }
    }

    /** dump_queue_status: the line listing the queued ids from front, in
        FIFO order. It reads the queue and changes nothing. */
    method DumpStatus() returns (line: string)
      requires Valid()
      ensures line == QueueLine(Ids(Contents))
    {
      ghost var ids := Ids(Contents);
      ghost var done: string := "";
      line := "Q:[";
      var i := 0;
      while i < size
        invariant 0 <= i <= size
        invariant done == Entries(ids[..i])
        invariant line == "Q:[" + done + (if 0 < i < size then "," else "")
      {
        var id := requestQueue[(front + i) % maxSize].request.reqId;
        assert id == ids[i] by {
          ModIsWrap(front + i, maxSize);
        }
        ghost var sep := if i == 0 then "" else ",";
        var entry := "R" + Decimal(id);
        EntriesStep(ids, i, done);
        assert line == "Q:[" + done + sep;
        Concat("Q:[", done, sep);
        Concat("Q:[", done + sep, entry);
        line := line + entry;
        done := done + sep + entry;
        if i < size - 1 {
          line := line + ",";
        }
        i := i + 1;
      }
      assert ids[..size] == ids;
      line := line + "]\n";
    }

    /** The admission branch of handle_connection for one received request:
        reject with status 1 when size >= maxSize, leaving the queue as it
        was; otherwise status 0 and the request is enqueued. */
    method Admit(item: TimeRequest) returns (response: Response, sent: bool)
      requires Valid()
      modifies this, requestQueue
      ensures Valid() && requestQueue == old(requestQueue) && maxSize == old(maxSize)
      ensures var d := Decide(old(Contents), maxSize, item);
        Contents == d.queue && response == d.response && sent == d.sent
      ensures sent ==> front == old(front) && rear == old(rear) && size == old(size)
      ensures sent ==> requestQueue[..] == old(requestQueue[..])
    {
      response := Response(item.request.reqId, StatusAccepted);
      if size >= maxSize {
        response := response.(status := StatusRejected);
        sent := true;
      } else {
        sent := false;
        var _ := Add(item);
      }
    }

    /** The receive loop of handle_connection, with the loop condition
        corrected to stop at the first read that delivered no bytes: every
        received request goes through the admission branch, in order, and
        the rejection responses are sent in the same order. */
    method HandleConnection(recvs: seq<Read>, initial: Request) returns (sent: seq<Response>)
      requires Valid()
      modifies this, requestQueue
      ensures Valid() && requestQueue == old(requestQueue) && maxSize == old(maxSize)
      ensures var a := AdmitAll(old(Contents), maxSize, Received(ReadOk, initial, recvs));
        Contents == a.queue && sent == a.sent
    {
      ghost var items := Received(ReadOk, initial, recvs);
      ReceivedIsPositivePrefix(initial, recvs);
      ghost var p := PositivePrefix(recvs);
      var req := initial;
      sent := [];
      var k := 0;
      var more := true;
      while more && k < |recvs|
        invariant Valid() && requestQueue == old(requestQueue) && maxSize == old(maxSize)
        invariant 0 <= k <= |recvs|
        invariant more ==> k <= p
        invariant !more ==> 1 <= k && k - 1 == p
        invariant var a := AdmitAll(old(Contents), maxSize, items[..if more then k else k - 1]);
          Contents == a.queue && sent == a.sent
      {
        var r := recvs[k];
        if r.n > 0 {
          req := r.record;
        }
        var receipt := r.at;
        if r.n > 0 {
          ghost var before := items[..k];
          assert items[k] == TimeRequest(req, receipt);
          assert items[..k + 1][..k] == before;
          var response, wasSent := Admit(TimeRequest(req, receipt));
          if wasSent {
            sent := sent + [response];
          }
        }
        more := r.n > 0;
        k := k + 1;
      }
      assert items[..p] == items;
    }

    /** One pass of a worker's loop body: take the request at front and
        build the reply echoing its id. On an empty queue there is no
        request and no defined reply. */
    method Serve() returns (reply: Option<Response>)
      requires Valid()
      modifies this
      ensures Valid() && requestQueue == old(requestQueue) && maxSize == old(maxSize)
      ensures old(Contents) == [] ==> reply == None && Contents == old(Contents)
      ensures old(Contents) != [] ==> reply == Some(WorkerReply(old(Contents)[0])) && Contents == old(Contents)[1..]
    {
      var item := Get();
      match item
      case None => reply := None;
      case Some(req) => reply := Some(WorkerReply(req));
    }
  }
}
