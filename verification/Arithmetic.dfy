/** Facts about multiples, quotients and remainders of natural numbers. */
module Arithmetic {

  ghost predicate Divides(d: nat, n: nat)
  {
    d > 0 && n % d == 0
  }

  lemma MultipleDivides(k: nat, d: nat)
    requires d > 0
    ensures Divides(d, k * d) && k * d / d == k
  {
    assert k * d == d * k + 0;
    DivModUnique(k * d, d, k, 0);
  }

  lemma DivModUnique(n: nat, d: nat, q: nat, r: nat)
    requires d > 0 && n == q * d + r && r < d
    ensures n / d == q && n % d == r
  {
    var p := n / d;
    AtLeastOnce(q - p, d);
    AtLeastOnce(p - q, d);
    assert (q - p) * d == q * d - p * d && (p - q) * d == p * d - q * d;
  }

  lemma AtLeastOnce(k: int, d: nat)
    ensures k >= 1 ==> k * d >= d
  {
    assert k >= 1 ==> k * d == (k - 1) * d + d;
  }

  lemma Quotient(d: nat, n: nat)
    requires Divides(d, n)
    ensures n == n / d * d
  {
  }

  lemma DividesTransitive(a: nat, b: nat, c: nat)
    requires Divides(a, b) && Divides(b, c)
    ensures Divides(a, c)
  {
    Quotient(a, b);
    Quotient(b, c);
    assert c == (c / b) * ((b / a) * a) == ((c / b) * (b / a)) * a;
    MultipleDivides((c / b) * (b / a), a);
  }

  lemma ScaledDivides(d: nat, n: nat, line: nat)
    requires Divides(d, n) && line > 0
    ensures d * line > 0 && Divides(d * line, n * line)
  {
    Quotient(d, n);
    assert n * line == (n / d) * (d * line);
    assert d * line > 0;
    MultipleDivides(n / d, d * line);
  }

  lemma ScaledDividesBack(d: nat, n: nat, line: nat)
    requires line > 0 && Divides(d * line, n * line)
    ensures Divides(d, n)
  {
    var q := n * line / (d * line);
    Quotient(d * line, n * line);
    assert n * line == (q * d) * line;
    Cancel(n, q * d, line);
    Cancel(q * d, n, line);
    AtLeastOnce(d, line);
    MultipleDivides(q, d);
  }

  lemma SameQuotient(n: nat, i: nat, d: nat)
    requires d > 0 && n / d * d <= i <= n
    ensures i / d == n / d
  {
    DivModUnique(i, d, n / d, i - n / d * d);
  }

  lemma AtLeastQuotient(n: nat, d: nat)
    requires 0 < d <= n
    ensures 0 < n / d && n / d * d <= n
  {
  }

  lemma OneLess(k: nat, d: nat)
    ensures (k - 1) * d == k * d - d
  {
  }

  lemma QuotientAtLeast(m: nat, d: nat, n: nat)
    requires d > 0 && m * d <= n
    ensures m <= n / d
  {
    AtLeastOnce(m - n / d, d);
    assert (m - n / d) * d == m * d - n / d * d;
  }

  lemma QuotientBelow(n: nat, d: nat, m: nat)
    requires d > 0 && n < m * d
    ensures n / d < m
  {
    AtLeastOnce(n / d - m + 1, d);
    assert (n / d - m + 1) * d == n / d * d - m * d + d;
  }

  lemma AtMost(d: nat, n: nat)
    requires Divides(d, n) && n > 0
    ensures d <= n
  {
    if n < d {
      DivModUnique(n, d, 0, n);
    }
  }

  lemma Cancel(a: nat, b: nat, d: nat)
    requires d > 0 && a * d <= b * d
    ensures a <= b
  {
    AtLeastOnce(a - b, d);
    assert (a - b) * d == a * d - b * d;
  }

  lemma MoreThanOnce(c: nat, d: nat)
    requires c * d > d
    ensures c >= 2
  {
  }

  lemma NextModulo(k: nat, n: nat)
    requires n > 0
    ensures (k % n + 1) % n == (k + 1) % n
  {
    var q, r := k / n, k % n;
    if r + 1 < n {
      DivModUnique(k + 1, n, q, r + 1);
      DivModUnique(r + 1, n, 0, r + 1);
    } else {
      assert (q + 1) * n == q * n + n;
      DivModUnique(k + 1, n, q + 1, 0);
      DivModUnique(n, n, 1, 0);
    }
  }

  lemma MulDiv(a: nat, b: nat)
    requires b > 0
    ensures a * b / b == a
  {
    MultipleDivides(a, b);
  }

  /** Numbers less than n apart have different remainders. */
  lemma DistinctModulo(i: nat, j: nat, n: nat)
    requires i < j < i + n
    ensures i % n != j % n
  {
    var a, b := i / n, j / n;
    AtLeastOnce(b - a, n);
    AtLeastOnce(a - b, n);
    assert (b - a) * n == b * n - a * n && (a - b) * n == a * n - b * n;
  }
}
