/** Small arithmetic shared by the other modules. */
module Arith {

  function Min(a: nat, b: nat): (m: nat) {
    if a < b then a else b
  }

  function Pow2(k: nat): (p: nat)
    ensures p >= 1
  {
    if k == 0 then 1 else 2 * Pow2(k - 1)
  }

  lemma MultipleBounds(x: int, p: int)
    requires p >= 0
    ensures x >= 1 ==> x * p >= p
    ensures x <= -1 ==> x * p <= -p
  {
    if x >= 1 {
      assert x * p == p + (x - 1) * p;
    } else if x <= -1 {
      assert x * p == -p + (x + 1) * p;
    }
  }

  lemma DivIs(a: nat, p: nat, q: nat, r: nat)
    requires a == q * p + r && r < p
    ensures a / p == q
  {
    assert (a / p - q) * p == r - a % p;
    MultipleBounds(a / p - q, p);
  }
}
