/** Quotients and remainders by a variable. */
module Arithmetic {

  lemma ProductMonotone(x: int, y: int, b: nat)
    ensures x <= y ==> x * b <= y * b
  {
  }

  lemma QuotientIs(a: nat, b: nat, q: nat)
    requires b > 0 && q * b <= a < q * b + b
    ensures a / b == q && a % b == a - q * b
  {
    var r := a / b;
    assert r * b <= a < r * b + b;
    ProductMonotone(r + 1, q, b);
    ProductMonotone(q + 1, r, b);
  }

  /** The remainders of consecutive numbers are consecutive, and wrap around. */
  lemma NextRemainder(i: nat, m: nat)
    requires m > 0
    ensures (i + 1) % m == if i % m + 1 == m then 0 else i % m + 1
  {
    var q := i / m;
    assert i == q * m + i % m;
    if i % m + 1 == m {
      assert (q + 1) * m == q * m + m;
      QuotientIs(i + 1, m, q + 1);
    } else {
      QuotientIs(i + 1, m, q);
    }
  }

  lemma QuotientSteps(a: nat, b: nat)
    requires b > 0
    ensures (a + b) / b == a / b + 1
  {
    var q := a / b;
    assert a == q * b + a % b;
    assert (q + 1) * b == q * b + b;
    QuotientIs(a + b, b, q + 1);
  }

  lemma SmallQuotient(a: nat, b: nat)
    requires b <= a < b + b
    ensures a / b == 1
  {
    QuotientIs(a, b, 1);
  }

  lemma SmallRemainder(i: nat, m: nat)
    requires i < m
    ensures i % m == i
  {
  }
}
