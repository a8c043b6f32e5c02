/** Small facts about reals that the pricing and policy modules share. */
module Reals {

  function Abs(x: real): real {
    if x < 0.0 then -x else x
  }

  function Max(a: real, b: real): real {
    if a < b then b else a
  }

  /** What a number of shares is worth, bought or sold. */
  function Notional(shares: real, price: real): real {
    Abs(shares) * price
  }

  /** A product by name, where its factors should stay out of sight. */
  function Times(a: real, b: real): (r: real)
    ensures 0.0 < a && 0.0 < b ==> 0.0 < r
  {
    a * b
  }

  lemma MulNonNegative(a: real, b: real)
    requires 0.0 <= a && 0.0 <= b
    ensures 0.0 <= a * b
  {
  }

  /** Bounds on a quotient from bounds on the product. */
  lemma Quotient(a: real, u: real, x: real)
    requires 0.0 < u
    ensures a * u <= x ==> a <= x / u
    ensures x <= a * u ==> x / u <= a
  {
    var q := x / u;
    assert q * u == x;
    if a > q {
      assert (a - q) * u > 0.0;
    } else if a < q {
      assert (q - a) * u > 0.0;
    }
  }
}
