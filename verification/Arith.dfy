/** Division by a positive number, with every product named once. */
module Arith {

  lemma DivMod(n: int, d: int)
    requires d > 0
    ensures n == n / d * d + n % d && 0 <= n % d < d
  {
  }

  lemma NatTimes(n: nat, d: nat)
    ensures n * d >= 0
  {
  }

  lemma MulNext(n: int, d: int)
    ensures (n + 1) * d == n * d + d
  {
  }

  lemma MulStrict(a: int, b: int, d: int)
    requires d > 0
    ensures a < b ==> a * d + d <= b * d
    ensures a <= b ==> a * d <= b * d
  {
    if a < b {
      NatTimes(b - a - 1, d);
      assert (b - a - 1) * d == b * d - a * d - d;
    } else if a == b {
      assert a * d == b * d;
    }
  }

  lemma ModUnique(i: int, w: int, d: int)
    requires 0 <= w < d
    ensures (i * d + w) % d == w && (i * d + w) / d == i
  {
    var n := i * d + w;
    DivMod(n, d);
    MulStrict(n / d, i, d);
    MulStrict(i, n / d, d);
  }

  /** The quotient is the one number whose multiple lies at most d - 1 below. */
  lemma DivUnique(n: int, d: int, q: int)
    requires d > 0 && q * d <= n < q * d + d
    ensures n / d == q
  {
    DivMod(n, d);
    MulStrict(n / d, q, d);
    MulStrict(q, n / d, d);
  }

  lemma DivShift(a: int, b: int, d: int)
    requires d > 0
    ensures (a * d + b) / d == a + b / d
  {
    DivMod(b, d);
    assert (a + b / d) * d == a * d + b / d * d;
    DivUnique(a * d + b, d, a + b / d);
  }

  lemma DivMono(m: int, n: int, d: int)
    requires d > 0 && m <= n
    ensures m / d <= n / d
  {
    DivMod(m, d);
    DivMod(n, d);
    MulStrict(n / d, m / d, d);
  }

  /** n / d < q exactly when n < q * d. */
  lemma DivBelow(n: int, d: int, q: int)
    requires d > 0
    ensures n / d < q <==> n < q * d
  {
    DivMod(n, d);
    MulStrict(n / d, q, d);
    MulStrict(q, n / d, d);
  }
}
