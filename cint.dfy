/** Integer semantics of C++ `int` arithmetic that the model needs.
    Dafny's `/` and `%` are Euclidean; C++'s `/` rounds toward zero. */
module CInt {

  /** C++ `a / b` for a positive divisor: the quotient rounded toward zero. */
  function Div(a: int, b: int): (q: int)
    requires b > 0
    ensures a >= 0 ==> 0 <= a - q * b < b
    ensures a < 0 ==> -b < a - q * b <= 0
  {
    if a >= 0 then a / b else -((-a) / b)
  }

  /** On non-negative operands C++ and Dafny division agree. */
  lemma DivOfNonNegative(a: int, b: int)
    requires a >= 0 && b > 0
    ensures Div(a, b) == a / b
  {
  }

  /** Euclidean quotient and remainder are the unique `q`, `r` with `a == q * b + r` and `0 <= r < b`. */
  lemma EuclidUnique(a: int, b: int, q: int, r: int)
    requires b > 0 && 0 <= r < b && a == q * b + r
    ensures a / b == q && a % b == r
  {
    var q', r' := a / b, a % b;
    assert a == q' * b + r';
    if q' < q {
      MulAtLeast(q - q', b);
      assert false;
    } else if q < q' {
      MulAtLeast(q' - q, b);
      assert false;
    }
  }

  /** A positive multiple of `b` is at least `b`. */
  lemma MulAtLeast(k: int, b: int)
    requires k >= 1 && b > 0
    ensures k * b >= b
  {
    assert k * b == (k - 1) * b + b;
    assert (k - 1) * b >= 0;
  }

  /** Multiplying both sides by a non-negative factor keeps the order. */
  lemma MulLeft(a: int, b: int, c: int)
    requires a <= b && c >= 0
    ensures a * c <= b * c
  {
    assert b * c - a * c == (b - a) * c;
  }

  /** `0 <= a < k * p` puts the quotient `a / p` in `[0, k)`. */
  lemma QuotientBelow(a: int, p: int, k: int)
    requires p > 0 && 0 <= a < k * p
    ensures 0 <= a / p < k
  {
    var q := a / p;
    if q >= k {
      MulLeft(k, q, p);
      assert false;
    }
    if q < 0 {
      MulLeft(q, -1, p);
      assert false;
    }
  }
}
