/** Small facts about Euclidean division on non-negative operands. */
module Arith {

  /** Multiplication by a positive factor reflects strict order. */
  lemma MulCancelLt(x: int, y: int, t: int)
    requires t > 0
    requires x * t < y * t
    ensures x < y
  {
    assert (y - x) * t == y * t - x * t;
  }

  /** The quotient is the unique q with q * t <= a < (q + 1) * t. */
  lemma DivUnique(a: int, t: int, q: int)
    requires t > 0
    requires q * t <= a < q * t + t
    ensures a / t == q
  {
    var d := a / t;
    assert d * t <= a < d * t + t;
    assert (q + 1) * t == q * t + t;
    assert (d + 1) * t == d * t + t;
    MulCancelLt(d, q + 1, t);
    MulCancelLt(q, d + 1, t);
  }

  lemma DivMono(a: int, b: int, t: int)
    requires t > 0
    requires 0 <= a <= b
    ensures a / t <= b / t
  {
    var p, q := a / t, b / t;
    assert p * t <= a && b < q * t + t;
    assert (q + 1) * t == q * t + t;
    MulCancelLt(p, q + 1, t);
  }

  lemma MulMono(a: int, b: int, c: int)
    requires 0 <= a <= b
    requires c >= 0
    ensures a * c <= b * c
  {
  }
}
