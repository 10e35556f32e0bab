/** Facts about Euclidean remainders used by the cyclic frame counter and
    the cyclic slot probes, and sign rules for real products. */
module Arith {
  /** Euclidean remainders are unique. */
  lemma ModUnique(x: int, q: int, r: int, m: int)
    requires m > 0 && 0 <= r < m && x == q * m + r
    ensures x % m == r
  {
    var q0, r0 := x / m, x % m;
    assert (q - q0) * m == r0 - r;
    if q > q0 {
      MulAtLeast(q - q0, m);
    } else if q < q0 {
      MulAtLeast(q0 - q, m);
    }
  }

  lemma MulAtLeast(a: int, m: int)
    requires a >= 1 && m > 0
    ensures a * m >= m
  {
  }

  /** ((x mod m) + y) mod m == (x + y) mod m. */
  lemma ModOfSum(x: nat, y: nat, m: nat)
    requires m > 0
    ensures (x % m + y) % m == (x + y) % m
  {
    var s := x % m + y;
    ModUnique(x + y, x / m + s / m, s % m, m);
  }

  /** Sign rules for real products, used by the integration-step lemmas. */
  lemma MulSign(a: real, b: real)
    ensures a < 0.0 && b > 0.0 ==> a * b < 0.0
    ensures a <= 0.0 && b >= 0.0 ==> a * b <= 0.0
    ensures a * b == 0.0 ==> a == 0.0 || b == 0.0
  {
  }
}
