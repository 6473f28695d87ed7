/** Vectors and dot products, and facts about products that several proofs pass to the solver one at a time. */
module Reals {
  type Vec = seq<real>

  /** The first `n` terms of the dot product. */
  function DotTo(x: Vec, y: Vec, n: nat): real
    requires n <= |x| && n <= |y|
  {
    if n == 0 then 0.0 else DotTo(x, y, n - 1) + x[n - 1] * y[n - 1]
  }

  function Dot(x: Vec, y: Vec): real
    requires |x| == |y|
  {
    DotTo(x, y, |x|)
  }

  lemma ScaleEqual(x: real, y: real, c: real)
    requires x == y
    ensures c * x == c * y && x * c == y * c
  {
  }

  lemma ProductNonNegative(x: real, y: real)
    requires x >= 0.0 && y >= 0.0
    ensures x * y >= 0.0
  {
  }
}
