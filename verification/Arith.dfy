/** Multiplication and division facts the solver does not find by itself. */
module Arith {

  lemma MulMonotone(a: int, b: int, d: int)
    requires a <= b && 0 <= d
    ensures a * d <= b * d
  {
    assert 0 <= (b - a) * d;
  }

  lemma MulAssociates(a: int, b: int, c: int)
    ensures a * (b * c) == a * b * c
  {
  }

  lemma MulDistributes(a: int, b: int, c: int)
    ensures (a + b) * c == a * c + b * c
  {
  }

  lemma MulSucc(a: int, b: int)
    ensures (a + 1) * b == a * b + b
  {
  }

  lemma ProductPositive(n: nat, b: nat)
    ensures n * b > 0 ==> n > 0 && b > 0
  {
    if n == 0 { assert 0 * b == 0; }
    if b == 0 { assert n * 0 == 0; }
  }

  lemma DivModUnique(k: nat, n: nat, q: nat, m: nat)
    requires m < n && k == q * n + m
    ensures k / n == q && k % n == m
  {
    var q', m' := k / n, k % n;
    assert k == q' * n + m';
    if q' < q { MulMonotone(q' + 1, q, n); }
    if q' > q { MulMonotone(q + 1, q', n); }
  }

  lemma DivModStep(k: nat, n: nat)
    requires n > 0
    ensures if k % n == n - 1 then (k + 1) / n == k / n + 1 && (k + 1) % n == 0
            else (k + 1) / n == k / n && (k + 1) % n == k % n + 1
  {
    var q, m := k / n, k % n;
    assert k == q * n + m;
    if m == n - 1 {
      assert k + 1 == (q + 1) * n;
      DivModUnique(k + 1, n, q + 1, 0);
    } else {
      DivModUnique(k + 1, n, q, m + 1);
    }
  }

  lemma QuotientBelow(k: nat, n: nat, b: nat)
    requires 0 < b
    ensures k / b < n <==> k < n * b
  {
    assert k == k / b * b + k % b;
    if k / b < n { MulMonotone(k / b + 1, n, b); } else { MulMonotone(n, k / b, b); }
  }

  lemma QuotientRange(p: nat, d: nat)
    requires 0 < d
    ensures p / d * d <= p < (p / d + 1) * d
  {
    assert p == p / d * d + p % d;
    MulSucc(p / d, d);
  }

  lemma QuotientBound(p: nat, n: nat, d: nat)
    requires 0 < d
    ensures p < n * d ==> p / d < n
    ensures p == n * d ==> p / d == n
  {
    QuotientBelow(p, n, d);
    if p == n * d { DivModUnique(p, d, n, 0); }
  }

  /** Scaling by a fraction `r / d` reaches the whole only when the fraction is one. */
  lemma ScaledBelow(n: nat, r: nat, d: nat)
    requires 0 < n && r <= d && 0 < d
    ensures 0 <= n * r / d <= n
    ensures n * r / d < n <==> r < d
  {
    var p, whole := n * r, n * d;
    assert p < whole <==> r < d by { ScaledLess(n, r, d); }
    assert r == d ==> p == whole;
    QuotientBound(p, n, d);
  }

  lemma ScaledLess(n: nat, r: nat, d: nat)
    requires 0 < n && r <= d
    ensures n * r < n * d <==> r < d
  {
    if r < d {
      MulMonotone(r + 1, d, n);
      MulSucc(r, n);
    }
  }
}
