/** Facts about division with a divisor that is not a literal. */
module Arith {

  lemma MulMonotone(x: nat, y: nat, d: nat)
    requires x <= y
    ensures x * d <= y * d
  {
    assert y * d == x * d + (y - x) * d;
  }

  lemma QuotientAtMost(d: nat, q: nat, r: nat, k: nat, m: nat)
    requires r < d && m < d
    requires q * d + r <= k * d + m
    ensures q <= k
  {
    assert (k + 1) * d == k * d + d;
    if k < q {
      MulMonotone(k + 1, q, d);
    }
  }

  lemma DivMod(a: nat, d: nat)
    requires d > 0
    ensures a == (a / d) * d + a % d && a % d < d
  {
  }

  lemma DivUnique(a: nat, d: nat, q: nat, r: nat)
    requires d > 0 && r < d && a == q * d + r
    ensures a / d == q && a % d == r
  {
    var k, m := a / d, a % d;
    assert a == k * d + m;
    QuotientAtMost(d, q, r, k, m);
    QuotientAtMost(d, k, m, q, r);
  }

  lemma DivMonotone(a: nat, b: nat, d: nat)
    requires a <= b && d > 0
    ensures a / d <= b / d
  {
    assert a == (a / d) * d + a % d;
    assert b == (b / d) * d + b % d;
    QuotientAtMost(d, a / d, a % d, b / d, b % d);
  }

  /** One more: the remainder steps up, or wraps and carries into the quotient. */
  lemma DivStep(a: nat, d: nat)
    requires d > 0
    ensures a % d == d - 1 ==> (a + 1) / d == a / d + 1 && (a + 1) % d == 0
    ensures a % d != d - 1 ==> (a + 1) / d == a / d && (a + 1) % d == a % d + 1
  {
    var k, m := a / d, a % d;
    assert a == k * d + m;
    if m == d - 1 {
      assert (k + 1) * d == k * d + d;
      DivUnique(a + 1, d, k + 1, 0);
    } else {
      DivUnique(a + 1, d, k, m + 1);
    }
  }

  function Quotient(a: nat, d: nat): nat
    requires d > 0
  {
    a / d
  }

  function Remainder(a: nat, d: nat): nat
    requires d > 0
  {
    a % d
  }

  /** The next index around a ring. */
  function Wrap(i: nat, n: nat): (next: nat)
    requires i < n
    ensures next == if i + 1 == n then 0 else i + 1
  {
    DivUnique(i + 1, n, if i + 1 == n then 1 else 0, if i + 1 == n then 0 else i + 1);
    (i + 1) % n
  }
}
