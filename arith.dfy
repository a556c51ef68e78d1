/**
  Facts about integer multiplication and floor division that the proofs of the
  division-by-constant sequences need. Dafny's `/` and `%` on `int` are
  Euclidean; with a positive divisor `/` is floor division, which is what an
  arithmetic right shift and the high half of a product compute.
 */
module Arith {

  lemma MulLe(a: int, b: int, c: int)
    requires a <= b && 0 <= c
    ensures a * c <= b * c
  {
    assert (b - a) * c >= 0;
  }

  lemma MulLt(a: int, b: int, c: int)
    requires a < b && 0 < c
    ensures a * c < b * c
  {
    assert (b - a) * c > 0;
  }

  /** Cancelling a positive factor from a non-strict inequality. */
  lemma MulCancelLe(a: int, b: int, c: int)
    requires 0 < c && a * c <= b * c
    ensures a <= b
  {
    if b < a {
      MulLt(b, a, c);
    }
  }

  /** Cancelling a positive factor from a strict inequality. */
  lemma MulCancelLt(a: int, b: int, c: int)
    requires 0 < c && a * c < b * c
    ensures a < b
  {
    if b <= a {
      MulLe(b, a, c);
    }
  }

  /** Quotient and remainder are determined by `x == b * q + r` with `0 <= r < b`. */
  lemma DivModUnique(x: int, b: int, q: int, r: int)
    requires 0 < b && x == b * q + r && 0 <= r < b
    ensures x / b == q && x % b == r
  {
    var q', r' := x / b, x % b;
    assert x == b * q' + r';
    if q' < q {
      MulLe(q' + 1, q, b);
      assert false;
    } else if q < q' {
      MulLe(q + 1, q', b);
      assert false;
    }
  }

  /** Floor division characterised by bounds. */
  lemma DivBetween(a: int, b: int, q: int)
    requires 0 < b && q * b <= a < (q + 1) * b
    ensures a / b == q
  {
    DivModUnique(a, b, q, a - q * b);
  }

  /** The quotient times the divisor never exceeds the dividend by a whole divisor. */
  lemma DivBounds(a: int, b: int)
    requires 0 < b
    ensures (a / b) * b <= a < (a / b + 1) * b
  {
  }

  /** Two floor divisions in a row are one floor division by the product. */
  lemma DivDiv(a: int, b: int, c: int)
    requires 0 < b && 0 < c
    ensures 0 < b * c
    ensures (a / b) / c == a / (b * c)
  {
    MulLt(0, b, c);
    var q, r := a / b, a % b;
    var q2, r2 := q / c, q % c;
    assert a == b * (c * q2 + r2) + r;
    assert a == (b * c) * q2 + (b * r2 + r);
    MulLe(r2, c - 1, b);
    assert b * r2 + r < b * c;
    MulLe(0, r2, b);
    DivModUnique(a, b * c, q2, b * r2 + r);
  }

  /** Adding a multiple of the divisor shifts the floor quotient by that multiple. */
  lemma DivAddMultiple(a: int, k: int, b: int)
    requires 0 < b
    ensures (a + k * b) / b == a / b + k
  {
    DivModUnique(a + k * b, b, a / b + k, a % b);
  }

  /** Floor division by a positive number is monotonic. */
  lemma DivMonotone(a: int, a': int, b: int)
    requires 0 < b && a <= a'
    ensures a / b <= a' / b
  {
    if a' / b < a / b {
      MulLe(a' / b + 1, a / b, b);
      assert false;
    }
  }

  /** A non-multiple keeps its quotient when decremented. */
  lemma DivPredecessor(x: int, d: int)
    requires 0 < d && x % d != 0
    ensures (x - 1) / d == x / d
  {
    DivModUnique(x - 1, d, x / d, x % d - 1);
  }

  /** Dividing a natural by a positive number does not increase it. */
  lemma DivLe(x: int, p: int)
    requires 0 <= x && 1 <= p
    ensures 0 <= x / p <= x
  {
    DivMonotone(0, x, p);
    if x / p > x {
      MulLe(x + 1, x / p, p);
      MulLe(1, p, x + 1);
      assert false;
    }
  }

  /** The high half of the product of two words below p is below p. */
  lemma MulHighBound(x: int, y: int, p: int)
    requires 0 <= x < p && 0 <= y < p
    ensures 0 <= (x * y) / p < p
  {
    MulLe(x, p - 1, y);
    MulLe(y, p, p - 1);
    MulLe(0, x, y);
    DivMonotone(0, x * y, p);
    DivMonotone(x * y, p * (p - 1), p);
    DivModUnique(p * (p - 1), p, p - 1, 0);
  }
}
