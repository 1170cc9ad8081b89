/** Multiplication and division facts that the solver is better told. */
module Arith {

  lemma MulLe(a: int, b: int, n: nat)
    requires a <= b
    ensures a * n <= b * n
  {
  }

  lemma DivMono(a: nat, b: nat, n: nat)
    requires a <= b && n > 0
    ensures a / n <= b / n
  {
    var q, r := a / n, b / n;
    assert a == q * n + a % n && b == r * n + b % n;
    if q > r {
      MulLe(r + 1, q, n);
    }
  }

  lemma Divides(x: nat, n: nat)
    requires n > 0
    ensures x / n * n <= x < (x / n + 1) * n
  {
  }

  lemma QuotientIs(x: nat, q: nat, n: nat)
    requires n > 0 && q * n <= x < q * n + n
    ensures x / n == q && x % n == x - q * n
  {
    var e := x / n;
    assert x == e * n + x % n;
    if e > q {
      MulLe(q + 1, e, n);
    } else if e < q {
      MulLe(e + 1, q, n);
    }
  }

  lemma ExactQuotient(q: nat, n: nat)
    requires n > 0
    ensures q * n / n == q
  {
    QuotientIs(q * n, q, n);
  }
}
