/** The queue snapshot line that dump_queue_status prints:
    "Q:[" then "R<id>" for each queued request in FIFO order, separated by
    commas with none after the last, then "]" and a newline. */
module StatusLine {
  import opened Wire

  const Digits: string := "0123456789"

  /** The decimal rendering of an unsigned number, as printf's %lu gives it:
      most significant digit first, no leading zeros. */
  function Decimal(n: nat): (s: string)
    ensures |s| >= 1
    ensures forall i :: 0 <= i < |s| ==> s[i] in Digits
    ensures |s| > 1 ==> s[0] != '0'
    decreases n
  {
    if n < 10 then [Digits[n]] else Decimal(n / 10) + [Digits[n % 10]]
  }

  /** The value of one decimal digit character. */
  function DigitValue(c: char): (d: nat)
    requires c in Digits
    ensures d < 10 && Digits[d] == c
  {
    if c == '0' then 0 else if c == '1' then 1 else if c == '2' then 2
    else if c == '3' then 3 else if c == '4' then 4 else if c == '5' then 5
    else if c == '6' then 6 else if c == '7' then 7 else if c == '8' then 8
    else 9
  }

  /** Reads a string of decimal digits back into its value. */
  function ParseDecimal(s: string): nat
    requires forall i :: 0 <= i < |s| ==> s[i] in Digits
  {
    if s == [] then 0 else ParseDecimal(s[..|s| - 1]) * 10 + DigitValue(s[|s| - 1])
  }

  /** The decimal rendering loses nothing: reading it back gives the id. */
  lemma {:induction false} DecimalRoundTrip(n: nat)
    ensures ParseDecimal(Decimal(n)) == n
    decreases n
  {
    var s := Decimal(n);
    if n >= 10 {
      DecimalRoundTrip(n / 10);
      assert s[..|s| - 1] == Decimal(n / 10);
      assert DigitValue(s[|s| - 1]) == n % 10;
    } else {
      assert s[..|s| - 1] == [];
      assert DigitValue(s[0]) == n;
    }
  }

  /** The comma-separated entries "R<id>,R<id>,..." of a snapshot. */
  function Entries(ids: seq<U64>): string {
    if ids == [] then ""
    else if |ids| == 1 then "R" + Decimal(ids[0])
    else "R" + Decimal(ids[0]) + "," + Entries(ids[1..])
  }

  /** The whole line dump_queue_status prints for a queue holding `ids`. */
  function QueueLine(ids: seq<U64>): string {
    "Q:[" + Entries(ids) + "]\n"
  }

  /** The entries grow at the end the way dump_queue_status's loop writes
      them: a comma before every entry but the first. */
  lemma {:induction false} EntriesAppend(ids: seq<U64>, x: U64)
    ensures Entries(ids + [x]) == Entries(ids) + (if ids == [] then "" else ",") + "R" + Decimal(x)
    decreases |ids|
  {
    if |ids| == 1 {
      assert ids + [x] == [ids[0], x];
      assert (ids + [x])[1..] == [x];
    } else if |ids| > 1 {
      assert (ids + [x])[1..] == ids[1..] + [x];
      EntriesAppend(ids[1..], x);
    }
  }

  /** The number of times `c` occurs in `s`. */
  function Occurrences(s: string, c: char): nat {
    if s == [] then 0 else (if s[0] == c then 1 else 0) + Occurrences(s[1..], c)
  }

  lemma {:induction false} OccurrencesAppend(s: string, t: string, c: char)
    ensures Occurrences(s + t, c) == Occurrences(s, c) + Occurrences(t, c)
    decreases |s|
  {
    if s != [] {
      assert (s + t)[1..] == s[1..] + t;
      OccurrencesAppend(s[1..], t, c);
    } else {
      assert s + t == t;
    }
  }

  lemma {:induction false} NoCommaInDecimal(n: nat)
    ensures Occurrences(Decimal(n), ',') == 0
  {
    var s := Decimal(n);
    NoCommaIn(s);
  }

  lemma {:induction false} NoCommaIn(s: string)
    requires forall i :: 0 <= i < |s| ==> s[i] in Digits
    ensures Occurrences(s, ',') == 0
    decreases |s|
  {
    if s != [] {
      assert s[0] in Digits;
      NoCommaIn(s[1..]);
    }
  }

  /** One separator between neighbouring entries and no trailing comma:
      k queued requests give k - 1 commas, an empty queue none. */
  lemma {:induction false} EntriesCommas(ids: seq<U64>)
    ensures Occurrences(Entries(ids), ',') == if ids == [] then 0 else |ids| - 1
    decreases |ids|
  {
    if ids != [] {
      var head := "R" + Decimal(ids[0]);
      NoCommaInDecimal(ids[0]);
      OccurrencesAppend("R", Decimal(ids[0]), ',');
      if |ids| > 1 {
        EntriesCommas(ids[1..]);
        OccurrencesAppend(head, ",", ',');
        OccurrencesAppend(head + ",", Entries(ids[1..]), ',');
      }
    }
  }

  /** One more entry of a snapshot, as dump_queue_status's loop writes it. */
  lemma EntriesStep(ids: seq<U64>, i: nat, done: string)
    requires i < |ids| && done == Entries(ids[..i])
    ensures done + (if i == 0 then "" else ",") + ("R" + Decimal(ids[i])) == Entries(ids[..i + 1])
  {
    EntriesAppend(ids[..i], ids[i]);
    assert ids[..i] + [ids[i]] == ids[..i + 1];
  }

  /** Concatenation regroups freely. */
  lemma Concat<T>(a: seq<T>, b: seq<T>, c: seq<T>)
    ensures a + b + c == a + (b + c)
  {
  }

  /** An empty queue prints as "Q:[]". */
  lemma EmptyQueueLine()
    ensures QueueLine([]) == "Q:[]\n"
  {
  }
}
