/** The integer helpers of the timing library: timespec_add, which adds one
    timespec into another in place, and timespec_cmp, a three-way comparison.
    tv_sec and tv_nsec are signed 64-bit in C; here they are unbounded. */
module TimeLib {

  /** Nanoseconds in one second (NANO_IN_SEC). */
  const NanoInSec: int := 1_000_000_000

  /** The value held by a struct timespec. */
  datatype Time = Time(sec: int, nsec: int)

  /** The instant a timespec stands for, counted in nanoseconds. */
  function Nanos(t: Time): int {
    t.sec * NanoInSec + t.nsec
  }

  /** The canonical form: the nanosecond field is below one second. */
  predicate Normalized(t: Time) {
    0 <= t.nsec < NanoInSec
  }

  /** A struct timespec that timespec_add updates through its pointer. */
  class Timespec {
    var tvSec: int
    var tvNsec: int

    constructor (sec: int, nsec: int)
      ensures tvSec == sec && tvNsec == nsec
    {
      tvSec := sec;
      tvNsec := nsec;
    }

    function Value(): Time
      reads this
    {
      Time(tvSec, tvNsec)
    }
  }

  /** The value *a holds after timespec_add(a, b). The carry is taken only
      when the nanosecond sum strictly exceeds one second. The division and
      remainder only ever see a positive sum, where C's truncating operators
      and Dafny's Euclidean ones agree. */
  function Sum(a: Time, b: Time): Time {
    var n := a.nsec + b.nsec;
    if n > NanoInSec then Time(a.sec + b.sec + n / NanoInSec, n % NanoInSec)
    else Time(a.sec + b.sec, n)
  }

  /** timespec_add: adds b into a, in place. b is read before a is written,
      so the call is also right when a and b are the same struct. */
  method TimespecAdd(a: Timespec, b: Timespec)
    modifies a
    ensures a.Value() == Sum(old(a.Value()), old(b.Value()))
    ensures a != b ==> b.Value() == old(b.Value())
  {
    var addlSeconds := b.tvSec;
    a.tvNsec := a.tvNsec + b.tvNsec;
    if a.tvNsec > NanoInSec {
      addlSeconds := addlSeconds + a.tvNsec / NanoInSec;
      a.tvNsec := a.tvNsec % NanoInSec;
    }
    a.tvSec := a.tvSec + addlSeconds;
  }

  /** Adding never loses or gains time: the total is the sum of the totals. */
  lemma SumKeepsTotal(a: Time, b: Time)
    ensures Nanos(Sum(a, b)) == Nanos(a) + Nanos(b)
  {
    var n := a.nsec + b.nsec;
    if n > NanoInSec {
      assert n == (n / NanoInSec) * NanoInSec + n % NanoInSec;
    }
  }

  /** With canonical inputs the nanosecond field of the sum stays within
      [0, one second]; the upper end is reached, so the result is not always
      canonical (see SumLeavesFullSecond). */
  lemma SumNsecBound(a: Time, b: Time)
    requires Normalized(a) && Normalized(b)
    ensures 0 <= Sum(a, b).nsec <= NanoInSec
    ensures Sum(a, b).sec == a.sec + b.sec || Sum(a, b).sec == a.sec + b.sec + 1
  {
    var n := a.nsec + b.nsec;
    if n > NanoInSec {
      assert n / NanoInSec == 1;
    }
  }

  /** Without a carry the seconds grow by exactly b's seconds. */
  lemma SumNoCarry(a: Time, b: Time)
    requires a.nsec + b.nsec <= NanoInSec
    ensures Sum(a, b).sec == a.sec + b.sec && Sum(a, b).nsec == a.nsec + b.nsec
  {
  }

  const HalfSecond: Time := Time(0, 500_000_000)

  /** The strict comparison lets a nanosecond sum of exactly one second
      through uncarried: half a second plus half a second gives 0 s and
      1000000000 ns. */
  lemma SumLeavesFullSecond()
    ensures Normalized(HalfSecond)
    ensures Sum(HalfSecond, HalfSecond) == Time(0, NanoInSec)
  {
    SumNoCarry(HalfSecond, HalfSecond);
  }

  /** timespec_add with the carry taken from one second on (>=), the
      evidently intended normalisation. */
  function NormalizedSum(a: Time, b: Time): Time {
    var n := a.nsec + b.nsec;
    if n >= NanoInSec then Time(a.sec + b.sec + n / NanoInSec, n % NanoInSec)
    else Time(a.sec + b.sec, n)
  }

  /** The corrected sum keeps the total and maps canonical inputs to a
      canonical result. */
  lemma NormalizedSumIsCanonical(a: Time, b: Time)
    requires Normalized(a) && Normalized(b)
    ensures Normalized(NormalizedSum(a, b))
    ensures Nanos(NormalizedSum(a, b)) == Nanos(a) + Nanos(b)
  {
    var n := a.nsec + b.nsec;
    if n >= NanoInSec {
      assert n / NanoInSec == 1 && n % NanoInSec == n - NanoInSec;
    }
  }

  /** timespec_cmp: 1 when a is in the future of b, -1 when b is in the
      future of a, 0 when both fields agree; the order is lexicographic on
      (seconds, nanoseconds). */
  function Cmp(a: Time, b: Time): (r: int)
    ensures r == 0 <==> a == b
    ensures r == 1 <==> a.sec > b.sec || (a.sec == b.sec && a.nsec > b.nsec)
    ensures r == -1 <==> b.sec > a.sec || (b.sec == a.sec && b.nsec > a.nsec)
  {
    if a.sec == b.sec && a.nsec == b.nsec then 0
    else if a.sec > b.sec || (a.sec == b.sec && a.nsec > b.nsec) then 1
    else -1
  }

  /** Swapping the arguments negates the answer; a time equals itself. */
  lemma CmpAntisymmetric(a: Time, b: Time)
    ensures Cmp(a, b) == -Cmp(b, a)
    ensures Cmp(a, a) == 0
  {
  }

  /** Later-than is transitive. */
  lemma CmpTransitive(a: Time, b: Time, c: Time)
    requires Cmp(a, b) == 1 && Cmp(b, c) == 1
    ensures Cmp(a, c) == 1
  {
  }

  /** The sign of a difference. */
  function Sign(x: int): int {
    if x > 0 then 1 else if x < 0 then -1 else 0
  }

  /** On canonical timespecs the field-wise comparison agrees with comparing
      the instants in nanoseconds. */
  lemma CmpMatchesNanos(a: Time, b: Time)
    requires Normalized(a) && Normalized(b)
    ensures Cmp(a, b) == Sign(Nanos(a) - Nanos(b))
  {
    if a.sec > b.sec {
      assert Nanos(a) - Nanos(b) == (a.sec - b.sec) * NanoInSec + a.nsec - b.nsec;
      assert (a.sec - b.sec) * NanoInSec >= NanoInSec;
    } else if a.sec < b.sec {
      assert Nanos(b) - Nanos(a) == (b.sec - a.sec) * NanoInSec + b.nsec - a.nsec;
      assert (b.sec - a.sec) * NanoInSec >= NanoInSec;
    }
  }
}
