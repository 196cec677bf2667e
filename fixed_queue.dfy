/** The request queue of the single-worker server with a fixed capacity
    (server_q.c): a ring buffer of QUEUE_SIZE = 500 slots inside struct
    queue, whose add_to_queue checks for room itself and reports a full
    queue with -1. The connection handler ignores that result, so a request
    arriving at a full queue is dropped without any reply. */
module FixedQueue {
  import opened TimeLib
  import opened Wire
  import opened StatusLine
  import opened Connection
  import opened Ring

  /** QUEUE_SIZE, the number of requests the queue can hold. */
  const QueueSize: int := 500

  /** What add_to_queue does to the queue contents, and what it returns. */
  datatype Offered = Offered(queue: seq<TimeRequest>, retval: int)

  function Offer(q: seq<TimeRequest>, item: TimeRequest): Offered {
    if |q| >= QueueSize then Offered(q, -1) else Offered(q + [item], 0)
  }

  /** add_to_queue's promise: -1 exactly when the queue is full, and then the
      contents are untouched; otherwise 0 and the request joins the end. The
      bound of 500 is kept. */
  lemma OfferKeepsBound(q: seq<TimeRequest>, item: TimeRequest)
    requires |q| <= QueueSize
    ensures var o := Offer(q, item);
      && (o.retval == -1 <==> |q| == QueueSize)
      && (o.retval == -1 ==> o.queue == q)
      && (o.retval != -1 ==> o.retval == 0 && o.queue == q + [item])
      && |o.queue| <= QueueSize
  {
  }

  /** The queue after the handler has passed each of `items` to
      add_to_queue in turn, ignoring the results, with no worker dequeuing
      in between. */
  function OfferAll(q: seq<TimeRequest>, items: seq<TimeRequest>): seq<TimeRequest>
    decreases |items|
  {
    if items == [] then q
    else Offer(OfferAll(q, items[..|items| - 1]), items[|items| - 1]).queue
  }

  /** With no dequeuing, the requests that fit are kept in arrival order and
      every later one is dropped. */
  lemma {:induction false} OfferAllFills(q: seq<TimeRequest>, items: seq<TimeRequest>)
    requires |q| <= QueueSize
    ensures var room := QueueSize - |q|;
      OfferAll(q, items) == q + items[..if |items| <= room then |items| else room]
    decreases |items|
  {
    if items != [] {
      var room := QueueSize - |q|;
      var init := items[..|items| - 1];
      OfferAllFills(q, init);
      if |items| <= room {
        assert items[..|items|] == init + [items[|items| - 1]];
        assert init[..|init|] == init;
      } else if |init| <= room {
        assert init[..|init|] == init;
        assert init == items[..room];
      } else {
        assert init[..room] == items[..room];
      }
    }
  }

  /** struct queue with its embedded array of QUEUE_SIZE slots. */
  class Queue {
    var queue: array<TimeRequest>
    var front: int
    var rear: int
    var size: int

    /** The queued requests from front to rear, oldest first. */
    ghost var Contents: seq<TimeRequest>

    ghost predicate Valid()
      reads this, queue
    {
      && queue.Length == QueueSize
      && 0 <= size <= QueueSize
      && |Contents| == size
      && 0 <= front < QueueSize
      && rear == Wrap(front + size, QueueSize)
      && forall i :: 0 <= i < size ==> Contents[i] == queue[Wrap(front + i, QueueSize)]
    }

    /** The queue set up at the start of handle_connection: storage for 500
        requests and front = rear = size = 0. */
    constructor ()
      ensures Valid() && fresh(queue)
      ensures front == 0 && rear == 0 && size == 0
      ensures Contents == []
    {
      queue := new TimeRequest[QueueSize];
      front, rear, size := 0, 0, 0;
      Contents := [];
    }

    /** add_to_queue: on a full queue returns -1 and changes nothing;
        otherwise stores the request at rear, advances rear modulo 500,
        counts it and returns 0. */
    method Add(toAdd: TimeRequest) returns (retval: int)
      requires Valid()
      modifies this, queue
      ensures Valid() && queue == old(queue)
      ensures var o := Offer(old(Contents), toAdd); Contents == o.queue && retval == o.retval
      ensures old(size) >= QueueSize ==> front == old(front) && rear == old(rear) && size == old(size)
      ensures old(size) >= QueueSize ==> queue[..] == old(queue[..])
      ensures old(size) < QueueSize ==> queue[old(rear)] == toAdd
      ensures old(size) < QueueSize ==> forall j :: 0 <= j < QueueSize && j != old(rear) ==> queue[j] == old(queue[j])
      ensures old(size) < QueueSize ==> front == old(front) && rear == (old(rear) + 1) % QueueSize && size == old(size) + 1
    {
      retval := 0;
      if size >= QueueSize {
        retval := -1;
      } else {
        queue[rear] := toAdd;
        ModIsWrap(rear + 1, QueueSize);
        rear := (rear + 1) % QueueSize;
        size := size + 1;
        Contents := Contents + [toAdd];
      }
    }

    /** get_from_queue: on a non-empty queue returns the request at front,
        advances front modulo 500 and uncounts it; on an empty queue it
        changes nothing and has no request to return. */
    method Get() returns (item: Option<TimeRequest>)
      requires Valid()
      modifies this
      ensures Valid() && queue == old(queue)
      ensures old(size) == 0 ==> item == None && front == old(front) && rear == old(rear) && size == 0 && Contents == old(Contents)
      ensures old(size) > 0 ==> item == Some(old(Contents)[0]) && Contents == old(Contents)[1..]
      ensures old(size) > 0 ==> front == (old(front) + 1) % QueueSize && rear == old(rear) && size == old(size) - 1
    {
      item := None;
      if size > 0 {
        item := Some(queue[front]);
        ModIsWrap(front + 1, QueueSize);
        front := (front + 1) % QueueSize;
        size := size - 1;
        Contents := Contents[1..];
      }
    }

    /** dump_queue_status: the line listing the queued ids from front, in
        FIFO order. It reads the queue and changes nothing. */
    method DumpStatus() returns (line: string)
      requires Valid()
      ensures line == QueueLine(Ids(Contents))
    {
      ghost var ids := Ids(Contents);
      ghost var done: string := "";
      line := "Q:[";
      var i := 0;
      while i < size
        invariant 0 <= i <= size
        invariant done == Entries(ids[..i])
        invariant line == "Q:[" + done + (if 0 < i < size then "," else "")
      {
        var id := queue[(front + i) % QueueSize].request.reqId;
        assert id == ids[i] by {
          ModIsWrap(front + i, QueueSize);
        }
        ghost var sep := if i == 0 then "" else ",";
        var entry := "R" + Decimal(id);
        EntriesStep(ids, i, done);
        assert line == "Q:[" + done + sep;
        Concat("Q:[", done, sep);
        Concat("Q:[", done + sep, entry);
        line := line + entry;
        done := done + sep + entry;
        if i < size - 1 {
          line := line + ",";
        }
        i := i + 1;
      }
      assert ids[..size] == ids;
      line := line + "]\n";
    }

    /** The receive loop of handle_connection, with the loop condition
        corrected to stop at the first read that delivered no bytes: every
        received request is passed to add_to_queue, in order, and its result
        is ignored. No reply is sent from here. */
    method HandleConnection(recvs: seq<Read>, initial: Request)
      requires Valid()
      modifies this, queue
      ensures Valid() && queue == old(queue)
      ensures Contents == OfferAll(old(Contents), Received(ReadOk, initial, recvs))
    {
      ghost var items := Received(ReadOk, initial, recvs);
      ReceivedIsPositivePrefix(initial, recvs);
      ghost var p := PositivePrefix(recvs);
      var req := initial;
      var k := 0;
      var more := true;
      while more && k < |recvs|
        invariant Valid() && queue == old(queue)
        invariant 0 <= k <= |recvs|
        invariant more ==> k <= p
        invariant !more ==> 1 <= k && k - 1 == p
        invariant Contents == OfferAll(old(Contents), items[..if more then k else k - 1])
      {
        var r := recvs[k];
        if r.n > 0 {
          req := r.record;
        }
        var queueRequest := TimeRequest(req, r.at);
        if r.n > 0 {
          assert items[k] == queueRequest;
          assert items[..k + 1][..k] == items[..k];
          var _ := Add(queueRequest);
        }
        more := r.n > 0;
        k := k + 1;
      }
      assert items[..p] == items;
    }

    /** One pass of the worker's loop body: take the request at front and
        send back its id. On an empty queue there is no request and no
        defined reply. */
    method Serve() returns (reply: Option<Reply>)
      requires Valid()
      modifies this
      ensures Valid() && queue == old(queue)
      ensures old(Contents) == [] ==> reply == None && Contents == old(Contents)
      ensures old(Contents) != [] ==> reply == Some(IdEcho(old(Contents)[0].request.reqId)) && Contents == old(Contents)[1..]
    {
      var item := Get();
      match item
      case None => reply := None;
      case Some(req) => reply := Some(IdEcho(req.request.reqId));
    }
  }
}
