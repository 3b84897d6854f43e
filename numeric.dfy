/** Exact-real versions of the numeric primitives the signal code relies on:
    NumPy's round (ties to even), Python's int() on a float (truncation toward
    zero), and the ceiling that fixes the length of np.arange. */
module Numeric {

  /** The largest integer not above x, as Python's math.floor would give it. */
  function Floor(x: real): (r: int)
    ensures r as real <= x < r as real + 1.0
  {
    x.Floor
  }

  /** The smallest integer not below x. */
  function Ceil(x: real): (r: int)
    ensures r as real - 1.0 < x <= r as real
  {
    -Floor(-x)
  }

  /** An integer is even when 2 divides it (Dafny's % agrees with Python's here). */
  predicate IsEven(n: int) {
    n % 2 == 0
  }

  /** np.round: the nearest integer, a tie going to the even neighbour. */
  function RoundHalfEven(x: real): (r: int)
    ensures x - 0.5 <= r as real <= x + 0.5
    ensures (r as real == x - 0.5 || r as real == x + 0.5) ==> IsEven(r)
  {
    var f := Floor(x);
    var d := x - f as real;
    if d < 0.5 then f
    else if d > 0.5 then f + 1
    else if IsEven(f) then f
    else f + 1
  }

  /** The two clauses of RoundHalfEven's contract pin its result down:
      any integer that meets them is the rounded value. */
  lemma RoundHalfEvenUnique(x: real, n: int)
    requires x - 0.5 <= n as real <= x + 0.5
    requires (n as real == x - 0.5 || n as real == x + 0.5) ==> IsEven(n)
    ensures n == RoundHalfEven(x)
  {
    // two integers within 1/2 of x are at most 1 apart; if they differ, both
    // sit on a tie and both would be even
  }

  /** An integer is its own rounding. */
  lemma RoundHalfEvenOfInt(n: int)
    ensures RoundHalfEven(n as real) == n
  {
    RoundHalfEvenUnique(n as real, n);
  }

  /** Rounding never reverses the order of its arguments. */
  lemma RoundHalfEvenMonotone(x: real, y: real)
    requires x <= y
    ensures RoundHalfEven(x) <= RoundHalfEven(y)
  {
    // a reversal would need rx - ry == 1 with x == y, which RoundHalfEvenUnique rules out
  }

  /** Python's int() applied to a float: the integer part, truncated toward zero. */
  function TruncateToInt(x: real): (r: int)
    ensures 0.0 <= x ==> 0 <= r && r as real <= x < r as real + 1.0
    ensures x < 0.0 ==> r <= 0 && r as real - 1.0 < x <= r as real
  {
    if x >= 0.0 then Floor(x) else -Floor(-x)
  }
}
