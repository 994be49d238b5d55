/** Small facts about products and quotients that the solver needs to be told. */
module Arithmetic {

  lemma MulNonNegative(k: nat, z: int)
    ensures z >= 0 ==> k * z >= 0
  {
  }

  /** Multiplication by k > 0 keeps the order, in both directions. */
  lemma MulOrder(k: nat, x: int, y: int)
    requires k > 0
    ensures k * x < k * y <==> x < y
    ensures k * (x + 1) == k * x + k
  {
    MulNonNegative(k, y - x - 1);
    MulNonNegative(k, x - y);
    assert k * (y - x - 1) == k * y - k * x - k;
    assert k * (x - y) == k * x - k * y;
  }

  /** Quotient and remainder are the only q and r with x == k * q + r and r < k. */
  lemma Euclid(x: nat, k: nat, q: int, r: nat)
    requires k > 0 && x == k * q + r && r < k
    ensures x / k == q && x % k == r
  {
    var d: int := x / k;
    assert x == k * d + x % k;
    MulOrder(k, q, d + 1);
    MulOrder(k, d, q + 1);
    MulOrder(k, d, d);
    MulOrder(k, q, q);
  }
}
