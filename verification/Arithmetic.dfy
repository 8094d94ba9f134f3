/** Facts about products of variables. */
module Arithmetic {
  lemma MulMono(t: nat, d: nat, x: nat)
    requires t <= d
    ensures t * x <= d * x
  {
    assert d * x == t * x + (d - t) * x;
  }

  lemma MulAtMost(d: nat, x: int, y: int)
    requires x <= y
    ensures d * x <= d * y
  {
    assert d * y == d * x + d * (y - x);
  }

  lemma NotPositive(d: int, e: int)
    requires d > 0
    ensures d * e < d ==> e <= 0
  {
    if e >= 1 {
      assert d * e >= d;
    }
  }
}
