/** Facts about multiplication and floor division on naturals used by the
    index and row computations. */
module Arith {

  /** Multiplying both sides by a natural keeps a non-strict order. */
  lemma {:induction false} MulLe(x: int, y: int, d: nat)
    requires x <= y
    ensures x * d <= y * d
  {
    if d > 0 {
      MulLe(x, y, d - 1);
      assert x * d == x * (d - 1) + x;
      assert y * d == y * (d - 1) + y;
    }
  }

  /** A positive factor can be cancelled from a non-strict order. */
  lemma MulLeCancel(x: int, y: int, d: nat)
    requires 0 < d && x * d <= y * d
    ensures x <= y
  {
    if x > y {
      assert (y + 1) * d == y * d + d;
      MulLe(y + 1, x, d);
    }
  }

  /** Floor division compared with a bound. */
  lemma FloorAtLeast(a: nat, d: nat, k: nat)
    requires 0 < d
    ensures a / d >= k <==> a >= k * d
  {
    var q := a / d;
    assert q * d <= a < q * d + d;
    if q >= k {
      MulLe(k, q, d);
    } else {
      MulLe(q + 1, k, d);
      assert (q + 1) * d == q * d + d;
    }
  }

  /** Floor division by a positive number is monotone. */
  lemma DivMonotone(a: nat, b: nat, d: nat)
    requires a <= b && 0 < d
    ensures a / d <= b / d
  {
    FloorAtLeast(b, d, b / d + 1);
    FloorAtLeast(a, d, b / d + 1);
  }

  /** Multiplying and then dividing by the same positive number cancels. */
  lemma DivMulCancel(k: nat, d: nat)
    requires 0 < d
    ensures k * d / d == k
  {
    FloorAtLeast(k * d, d, k);
    FloorAtLeast(k * d, d, k + 1);
    assert (k + 1) * d == k * d + d;
  }
}
