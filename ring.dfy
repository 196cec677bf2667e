/** Index arithmetic of the ring buffers: both queues advance an index with
    `(i + 1) % capacity` and read slot `(front + i) % capacity`. */
module Ring {
  /** The slot `j` steps past slot 0 lands on in a ring of `m` slots, for
      j < 2m: the value of j % m there, written without the remainder. */
  function Wrap(j: int, m: int): int {
    if j < m then j else j - m
  }

  lemma ModIsWrap(j: int, m: int)
    requires 0 <= j < 2 * m
    ensures j % m == Wrap(j, m)
  {
    if j < m {
      assert j == 0 * m + j;
    } else {
      assert j == 1 * m + (j - m);
    }
  }
}
