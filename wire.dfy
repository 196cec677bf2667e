/** The records that cross the connection and the queued envelope around a
    request. The header that declares them is not part of this model; their
    fields are those the servers read and write. */
module Wire {
  import opened TimeLib

  const U64Limit: int := 0x1_0000_0000_0000_0000

  /** uint64_t, the type of a request id. */
  type U64 = x: int | 0 <= x < U64Limit

  /** uint8_t, the type of a response status. */
  type U8 = x: int | 0 <= x < 256

  /** struct request: the client's id, its send timestamp and the length of
      the simulated work. */
  datatype Request = Request(reqId: U64, timestamp: Time, length: Time)

  /** struct timeRequest as far as the queue is concerned: the request and
      the receipt timestamp the connection handler stamped on it. The start
      and completion timestamps a worker fills in are not modelled. */
  datatype TimeRequest = TimeRequest(request: Request, receipt: Time)

  /** struct response: the echoed id and the status byte. */
  datatype Response = Response(reqId: U64, status: U8)

  const StatusAccepted: U8 := 0
  const StatusRejected: U8 := 1

  /** What the client receives from the server. The variants with a
      configurable queue send a struct response; the fixed-capacity variant's
      worker sends the bare request id. */
  datatype Reply = Ack(response: Response) | IdEcho(reqId: U64)

  /** One recv call of the connection handler: its return value `n` (bytes
      read, 0 at end of stream, -1 on error), the record it filled in when
      `n > 0`, and the clock reading taken right after it (the receipt
      timestamp). */
  datatype Read = Read(n: int, record: Request, at: Time)

  datatype Option<T> = None | Some(value: T)

  /** The ids of queued requests, in queue order. */
  function Ids(q: seq<TimeRequest>): (ids: seq<U64>)
    ensures |ids| == |q|
    ensures forall i :: 0 <= i < |q| ==> ids[i] == q[i].request.reqId
  {
    if q == [] then [] else [q[0].request.reqId] + Ids(q[1..])
  }
}
