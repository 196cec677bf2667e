/** The receive loop all three connection handlers share:

      do {
        in_bytes = recv(...);  stamp receipt;
        if (in_bytes > 0) { ...admit the request in the buffer... }
      } while (in_bytes > 0);

    `in_bytes` is declared size_t while recv returns a signed count, -1 on
    error. This module says which records such a loop hands to admission. */
module Connection {
  import opened TimeLib
  import opened Wire

  /** recv's return value once stored in a size_t: C's conversion to an
      unsigned 64-bit type is reduction modulo 2^64. */
  function InBytes(n: int): (r: int)
    ensures 0 <= r < U64Limit
    ensures n >= 0 && n < U64Limit ==> r == n
  {
    n % U64Limit
  }

  /** The loop condition as written: `in_bytes > 0` on the size_t. */
  predicate InBytesPositive(n: int) {
    InBytes(n) > 0
  }

  /** The loop condition the handler's own comment asks for: stop on 0 and
      on -1 alike, so that only a read that delivered bytes is processed. */
  predicate ReadOk(n: int) {
    n > 0
  }

  /** The records a handler loop deciding with `proceed` passes to
      admission, in order. recv fills the buffer only when it returns a
      positive count; otherwise the buffer keeps the previous request. The
      receipt timestamp is taken after every recv. The loop ends at the
      first read `proceed` refuses (or when the reads run out). */
  function Received(proceed: int -> bool, buf: Request, recvs: seq<Read>): seq<TimeRequest>
    decreases |recvs|
  {
    if recvs == [] then []
    else
      var r := recvs[0];
      var filled := if r.n > 0 then r.record else buf;
      if proceed(r.n) then [TimeRequest(filled, r.at)] + Received(proceed, filled, recvs[1..])
      else []
  }

  /** How many leading reads delivered data. */
  function PositivePrefix(recvs: seq<Read>): (k: nat)
    ensures k <= |recvs|
    ensures forall i :: 0 <= i < k ==> recvs[i].n > 0
    ensures k < |recvs| ==> recvs[k].n <= 0
  {
    if recvs == [] || recvs[0].n <= 0 then 0 else 1 + PositivePrefix(recvs[1..])
  }

  /** With the intended condition the handler processes exactly the reads
      before the first non-positive one, each with its own record and
      receipt timestamp, whatever the buffer held before. */
  lemma {:induction false} ReceivedIsPositivePrefix(buf: Request, recvs: seq<Read>)
    ensures var got := Received(ReadOk, buf, recvs);
      && |got| == PositivePrefix(recvs)
      && forall i :: 0 <= i < |got| ==> got[i] == TimeRequest(recvs[i].record, recvs[i].at)
    decreases |recvs|
  {
    if recvs != [] && recvs[0].n > 0 {
      ReceivedIsPositivePrefix(recvs[0].record, recvs[1..]);
    }
  }

  /** As written, recv's -1 becomes 2^64 - 1 in `in_bytes`, which is
      positive: the loop neither stops nor skips, and admits the stale
      buffer a second time. A request read, then a failed read, then end of
      stream hands the same request to admission twice. */
  lemma ErrorReadRepeatsRequest(buf: Request, r: Request, t0: Time, t1: Time, t2: Time, junk: Request)
    ensures InBytesPositive(-1) && !ReadOk(-1)
    ensures Received(InBytesPositive, buf, [Read(64, r, t0), Read(-1, junk, t1), Read(0, junk, t2)])
            == [TimeRequest(r, t0), TimeRequest(r, t1)]
    ensures Received(ReadOk, buf, [Read(64, r, t0), Read(-1, junk, t1), Read(0, junk, t2)])
            == [TimeRequest(r, t0)]
  {
    var recvs := [Read(64, r, t0), Read(-1, junk, t1), Read(0, junk, t2)];
    assert recvs[1..] == [Read(-1, junk, t1), Read(0, junk, t2)];
    assert recvs[1..][1..] == [Read(0, junk, t2)];
    assert recvs[1..][1..][1..] == [];
    assert InBytes(-1) == U64Limit - 1 && InBytes(0) == 0 && InBytes(64) == 64;
    assert Received(InBytesPositive, r, recvs[1..][1..]) == [];
    assert Received(InBytesPositive, r, recvs[1..]) == [TimeRequest(r, t1)];
  }
}
