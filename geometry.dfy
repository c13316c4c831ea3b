/** Geometry utilities used by the transform engine: absolute value and the
    deterministic rounding function (half away from zero). */
module Geometry {

  /** Absolute value of a real. */
  function Abs(x: real): (r: real)
    ensures r >= 0.0
  {
    if x < 0.0 then -x else x
  }

  /** The integer nearest to x; a tie (fraction exactly .5) goes away from zero.
      The two half-open intervals below pin the result down uniquely. */
  function Round(x: real): (r: int)
    ensures x >= 0.0 ==> 0 <= r && r as real - 0.5 <= x < r as real + 0.5
    ensures x < 0.0 ==> r <= 0 && r as real - 0.5 < x <= r as real + 0.5
  {
    if x >= 0.0 then (x + 0.5).Floor else -((-x + 0.5).Floor)
  }

  /** Round is never more than one half away from its argument. */
  lemma RoundIsNearest(x: real)
    ensures Abs(x - Round(x) as real) <= 0.5
  {
  }

  /** Round is odd: mirroring the input mirrors the output. */
  lemma RoundIsOdd(x: real)
    ensures Round(-x) == -Round(x)
  {
  }

  /** Ties round away from zero: k + .5 goes up to k + 1 and -(k + .5) goes
      down to -(k + 1), for every natural k. */
  lemma RoundTiesAwayFromZero(k: nat)
    ensures Round(k as real + 0.5) == k + 1
    ensures Round(-(k as real + 0.5)) == -(k + 1)
  {
  }

  /** A real that already is an integer rounds to that integer. */
  lemma RoundOfInteger(n: int)
    ensures Round(n as real) == n
  {
  }

  /** Any integer within the rounding interval of x is Round(x): the contract
      of Round determines it. */
  lemma RoundUnique(x: real, n: int)
    requires x >= 0.0 ==> n as real - 0.5 <= x < n as real + 0.5
    requires x < 0.0 ==> n as real - 0.5 < x <= n as real + 0.5
    ensures Round(x) == n
  {
  }

  /** The rounding table of the unit tests. */
  lemma RoundTable()
    ensures Round(0.0) == 0 && Round(0.1) == 0 && Round(0.49) == 0
    ensures Round(0.5) == 1 && Round(0.51) == 1 && Round(0.9) == 1
    ensures Round(100.9) == 101
    ensures Round(-0.1) == 0 && Round(-0.49) == 0
    ensures Round(-0.5) == -1 && Round(-0.51) == -1 && Round(-0.9) == -1
    ensures Round(-100.9) == -101
  {
  }
}
