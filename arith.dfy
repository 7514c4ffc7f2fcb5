/** Small facts about Euclidean division that the solver does not find on
    its own (it reasons poorly about products of two unknowns). */
module Arith {

  lemma MulBounds(d: int, a: int)
    requires d > 0
    ensures a >= 1 ==> d * a >= d
    ensures a <= -1 ==> d * a <= -d
  {
  }

  lemma MulNonNegative(a: int, b: int)
    requires a >= 0 && b >= 0
    ensures a * b >= 0
  {
  }

  /** One more copy of a added to (c - 1) copies. */
  lemma MulSucc(c: int, a: int)
    ensures (c - 1) * a + a == c * a
  {
  }

  /** Quotient and remainder are determined by m == n * q + r, 0 <= r < n. */
  lemma DivModUnique(m: int, n: int, q: int, r: int)
    requires n > 0 && 0 <= r < n && m == n * q + r
    ensures m / n == q && m % n == r
  {
    var q', r' := m / n, m % n;
    assert n * (q - q') == r' - r by {
      assert n * (q - q') == n * q - n * q';
    }
    MulBounds(n, q - q');
  }

  /** A multiple of d leaves no remainder. */
  lemma MulMod(d: int, k: int)
    requires d > 0
    ensures (d * k) % d == 0 && (d * k) / d == k
  {
    DivModUnique(d * k, d, k, 0);
  }

  /** A combination of two multiples of d is a multiple of d. */
  lemma CombinationMod(d: int, x: int, y: int, p: int, s: int)
    requires d > 0 && x % d == 0 && y % d == 0
    ensures (x * p + y * s) % d == 0
  {
    var i, j := x / d, y / d;
    assert x * p + y * s == d * (i * p + j * s) by {
      assert x == d * i;
      assert y == d * j;
    }
    MulMod(d, i * p + j * s);
  }

  /** d is a positive divisor of n. */
  ghost predicate Divides(d: int, n: int) {
    d > 0 && n % d == 0
  }

  /** Divisibility is transitive. */
  lemma DividesTransitive(d: int, e: int, n: int)
    requires Divides(d, e) && Divides(e, n)
    ensures Divides(d, n)
  {
    CombinationMod(d, e, 0, n / e, 0);
    assert n == e * (n / e);
  }

  /** For d > 0, multiplying by d preserves and reflects the order. */
  lemma MulMonotone(d: int, a: int, b: int)
    requires d > 0
    ensures d * a >= d * b <==> a >= b
  {
    assert d * a - d * b == d * (a - b);
    MulBounds(d, a - b);
  }

  /** Stepping a residue by one is stepping the number by one. */
  lemma ModSucc(x: int, n: int)
    requires n > 0
    ensures (x % n + 1) % n == (x + 1) % n
  {
    var q, r := x / n, x % n;
    if r + 1 < n {
      DivModUnique(r + 1, n, 0, r + 1);
      DivModUnique(x + 1, n, q, r + 1);
    } else {
      DivModUnique(r + 1, n, 1, 0);
      DivModUnique(x + 1, n, q + 1, 0);
    }
  }
}
