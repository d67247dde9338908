/** Facts about multiplication and Euclidean division that the solver does
    not find by itself. */
module Arith {

  lemma MulLe(x: int, y: int, m: int)
    requires x <= y && m >= 0
    ensures x * m <= y * m
  {
    assert y * m - x * m == (y - x) * m;
  }

  lemma MulSucc(j: int, m: int)
    ensures (j + 1) * m == j * m + m
  {
  }

  /** Integer division pinned down by its bounds. */
  lemma DivUnique(a: int, m: int, q: int)
    requires m > 0 && q * m <= a < q * m + m
    ensures a / m == q
  {
    var d := a / m;
    var r := a % m;
    assert a == d * m + r && 0 <= r < m;
    if d < q {
      MulLe(d + 1, q, m);
    } else if d > q {
      MulLe(q + 1, d, m);
    }
  }

  /** Adding the divisor does not change the remainder. */
  lemma ModShift(a: nat, m: nat)
    requires m > 0
    ensures (a + m) % m == a % m
  {
    var d := a / m;
    MulSucc(d, m);
    DivUnique(a + m, m, d + 1);
  }
}
