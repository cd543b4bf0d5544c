/** Python's integer `//` and `%`. Python rounds the quotient toward negative
    infinity, so the remainder takes the sign of the divisor; Dafny's `/` and `%`
    are Euclidean (the remainder is never negative). The two agree for a
    positive divisor and differ for a negative one with a non-zero remainder. */
module PyMath {

  /** Python's `a // b`. */
  function FloorDiv(a: int, b: int): int
    requires b != 0
  {
    if b > 0 || a % b == 0 then a / b else a / b - 1
  }

  /** Python's `a % b`: zero or of the sign of `b`, smaller than `b` in magnitude,
      and the remainder of `FloorDiv`. */
  function FloorMod(a: int, b: int): (r: int)
    requires b != 0
    ensures b > 0 ==> 0 <= r < b
    ensures b < 0 ==> b < r <= 0
    ensures a == FloorDiv(a, b) * b + r
  {
    if b > 0 || a % b == 0 then a % b else a % b + b
  }

  /** The two conditions of `FloorMod`'s contract fix quotient and remainder
      uniquely: any pair that satisfies them is Python's. */
  lemma FloorDivModUnique(a: int, b: int, q: int, r: int)
    requires b != 0
    requires a == q * b + r
    requires b > 0 ==> 0 <= r < b
    requires b < 0 ==> b < r <= 0
    ensures q == FloorDiv(a, b) && r == FloorMod(a, b)
  {
    var q0, r0 := FloorDiv(a, b), FloorMod(a, b);
    assert (q - q0) * b == r0 - r by {
      calc {
        (q - q0) * b;
        q * b - q0 * b;
        (a - r) - (a - r0);
      }
    }
    if q != q0 {
      if q > q0 {
        QuotientGap(q - q0, b);
      } else {
        assert (q0 - q) * b == r - r0;
        QuotientGap(q0 - q, b);
      }
      assert false;
    }
  }

  /** A non-zero multiple of `b` is at least `b` in magnitude. */
  lemma QuotientGap(d: int, b: int)
    requires d >= 1 && b != 0
    ensures b > 0 ==> d * b >= b
    ensures b < 0 ==> d * b <= b
  {
  }
}
