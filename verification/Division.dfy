/** Quotients and remainders by divisors that are not constants. */
module Division {
  lemma DivMod(a: int, n: int, q: int, r: int)
    requires n > 0 && 0 <= r < n && a == n * q + r
    ensures a / n == q && a % n == r
  {
    var d := a / n - q;
    assert n * d == r - a % n by {
      assert n * (a / n) + a % n == a;
      assert n * d == n * (a / n) - n * q;
    }
    assert d == 0 by {
      assert n * d < n && n * d > -n;
      assert d < 1 by { if d >= 1 { MulMono(n, 1, d); } }
      assert d > -1 by { if d <= -1 { MulMono(n, d, -1); } }
    }
  }

  lemma MulMono(n: int, x: int, y: int)
    requires n >= 0 && x <= y
    ensures n * x <= n * y
  {
  }

  lemma DividesExactly(x: int, n: int, q: int)
    requires n > 0 && x == n * q
    ensures x % n == 0
  {
    DivMod(x, n, q, 0);
  }

  /** Multiples of the divisor do not change the remainder. */
  lemma SameRemainder(x: int, n: int, i: int)
    requires n > 0
    ensures (x + i * n) % n == x % n
  {
    var q, r := x / n, x % n;
    assert x + i * n == n * (q + i) + r by {
      assert x == n * q + r;
    }
    DivMod(x + i * n, n, q + i, r);
  }
}
