/** Clock readings are integer microseconds, the resolution of Python's
    `datetime` and finer than any interval the program works with. */
module Clock {

  /** `n` seconds on the clock. */
  function Seconds(n: int): int {
    n * 1_000_000
  }
}
