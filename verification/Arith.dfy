/** Facts about products and quotients of variables that the solver needs spelled out. */
module Arith {

  lemma MulNonneg(x: nat, y: nat)
    ensures x * y >= 0
  {
  }

  lemma MulAtLeast(k: nat, d: nat)
    requires k > 0
    ensures k * d >= d
  {
    MulNonneg(k - 1, d);
    assert (k - 1) * d == k * d - d;
  }

  lemma MulMonotone(x: nat, y: nat, d: nat)
    requires x <= y
    ensures x * d <= y * d
  {
    MulNonneg(y - x, d);
    assert (y - x) * d == y * d - x * d;
  }

  /** MulMonotone as an implication, for arguments by contradiction. */
  lemma MulLe(x: nat, y: nat, d: nat)
    ensures x <= y ==> x * d <= y * d
  {
    if x <= y {
      MulMonotone(x, y, d);
    }
  }

  lemma DivNonneg(x: nat, d: nat)
    requires d > 0
    ensures x / d >= 0
  {
  }

  lemma DivUnique(x: nat, d: nat, q: nat, r: nat)
    requires d > 0 && x == q * d + r && r < d
    ensures x / d == q && x % d == r
  {
    var q', r' := x / d, x % d;
    assert x == q' * d + r';
    if q > q' {
      assert (q - q') * d == q * d - q' * d;
      MulAtLeast(q - q', d);
    } else if q < q' {
      assert (q' - q) * d == q' * d - q * d;
      MulAtLeast(q' - q, d);
    }
  }

  lemma DivAddMultiple(a: nat, b: nat, d: nat)
    requires d > 0
    ensures (a * d + b) / d == a + b / d
  {
    var q, r := b / d, b % d;
    assert a * d + b == (a + q) * d + r;
    DivUnique(a * d + b, d, a + q, r);
  }

  lemma DivMonotone(x: nat, y: nat, d: nat)
    requires d > 0 && x <= y
    ensures x / d <= y / d
  {
    assert x == x / d * d + x % d && y == y / d * d + y % d;
    if x / d > y / d {
      assert (x / d - y / d) * d == x / d * d - y / d * d;
      MulAtLeast(x / d - y / d, d);
    }
  }
}
