/**
 * The index arithmetic of the cycler: nextText and previousText move
 * `currentIndex` through a list of `n` texts with wrap-around.
 */
module IndexCycle {

  /**
   * Swift's `%` on Int: the remainder truncates toward zero, so it takes
   * the sign of the dividend (Dafny's `%` is Euclidean). Swift traps when
   * the divisor is zero; callers must rule that out.
   */
  function SwiftRem(a: int, b: int): (r: int)
    requires b != 0
    ensures a >= 0 ==> 0 <= r < if b > 0 then b else -b
    ensures a < 0 ==> -(if b > 0 then b else -b) < r <= 0
  {
    if a >= 0 then a % b else -((-a) % b)
  }

  /** For a non-negative dividend and positive divisor Swift and Dafny agree. */
  lemma SwiftRemNonNegative(a: int, b: int)
    requires a >= 0 && b > 0
    ensures SwiftRem(a, b) == a % b
  {
  }

  /**
   * Why previousText adds the count before taking the remainder: for every
   * list of two or more texts, stepping back from index 0 without it gives
   * -1, which is not an index.
   */
  lemma PreviousNeedsCount(n: int)
    requires n >= 2
    ensures SwiftRem(0 - 1, n) == -1 && !InRange(SwiftRem(0 - 1, n), n)
  {
  }

  predicate InRange(i: int, n: int) {
    0 <= i < n
  }

  /** nextText: `(currentIndex + 1) % texts.count`. */
  function NextIndex(i: int, n: int): int
    requires InRange(i, n)
  {
    SwiftRem(i + 1, n)
  }

  /** previousText: `(currentIndex - 1 + texts.count) % texts.count`. */
  function PreviousIndex(i: int, n: int): int
    requires InRange(i, n)
  {
    SwiftRem(i - 1 + n, n)
  }

  /** Next steps forward by one and wraps the last index to the first. */
  lemma NextIndexStep(i: int, n: int)
    requires InRange(i, n)
    ensures InRange(NextIndex(i, n), n)
    ensures NextIndex(i, n) == if i + 1 < n then i + 1 else 0
  {
    if i + 1 < n {
      assert (i + 1) % n == i + 1;
    } else {
      assert (i + 1) % n == 0;
    }
  }

  /** Previous steps back by one and wraps the first index to the last. */
  lemma PreviousIndexStep(i: int, n: int)
    requires InRange(i, n)
    ensures InRange(PreviousIndex(i, n), n)
    ensures PreviousIndex(i, n) == if i > 0 then i - 1 else n - 1
  {
    assert PreviousIndex(i, n) == (i - 1 + n) % n;
    if i > 0 {
      RemAfterOneWrap(i - 1 + n, n);
    } else {
      assert (i - 1 + n) % n == n - 1;
    }
  }

  /** A dividend between the divisor and twice the divisor wraps exactly once. */
  lemma RemAfterOneWrap(x: int, n: int)
    requires 0 < n <= x < 2 * n
    ensures x % n == x - n
  {
    assert x == 1 * n + (x - n);
  }

  /** Previous undoes Next. */
  lemma PreviousAfterNext(i: int, n: int)
    requires InRange(i, n)
    ensures InRange(NextIndex(i, n), n)
    ensures PreviousIndex(NextIndex(i, n), n) == i
  {
    NextIndexStep(i, n);
    PreviousIndexStep(NextIndex(i, n), n);
  }

  /** Next undoes Previous. */
  lemma NextAfterPrevious(i: int, n: int)
    requires InRange(i, n)
    ensures InRange(PreviousIndex(i, n), n)
    ensures NextIndex(PreviousIndex(i, n), n) == i
  {
    PreviousIndexStep(i, n);
    NextIndexStep(PreviousIndex(i, n), n);
  }

  /** The index after `k` presses of Next. */
  function NextTimes(i: int, n: int, k: nat): (r: int)
    requires InRange(i, n)
    ensures InRange(r, n)
  {
    if k == 0 then i
    else
      NextIndexStep(NextTimes(i, n, k - 1), n);
      NextIndex(NextTimes(i, n, k - 1), n)
  }

  /** After `k <= n` presses of Next the index has moved `k` places, wrapping once at most. */
  lemma {:induction false} NextTimesOffset(i: int, n: int, k: nat)
    requires InRange(i, n) && k <= n
    ensures NextTimes(i, n, k) == if i + k < n then i + k else i + k - n
  {
    if k > 0 {
      NextTimesOffset(i, n, k - 1);
      NextIndexStep(NextTimes(i, n, k - 1), n);
    }
  }

  /** Pressing Next once per text brings the index back to where it started. */
  lemma NextTimesCount(i: int, n: int)
    requires InRange(i, n)
    ensures NextTimes(i, n, n) == i
  {
    NextTimesOffset(i, n, n);
  }
}
