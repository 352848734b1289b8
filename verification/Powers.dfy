/** Powers of two and Euclidean division facts shared by the arithmetic modules. */
module Powers {

  function Pow2(k: nat): (p: nat)
    ensures p > 0
  {
    if k == 0 then 1 else 2 * Pow2(k - 1)
  }

  lemma {:induction false} Pow2Add(a: nat, b: nat)
    ensures Pow2(a + b) == Pow2(a) * Pow2(b)
  {
    if a == 0 {
      assert Pow2(a) == 1;
    } else {
      Pow2Add(a - 1, b);
      assert a + b - 1 == a - 1 + b;
      assert Pow2(a + b) == 2 * (Pow2(a - 1) * Pow2(b));
      assert 2 * (Pow2(a - 1) * Pow2(b)) == (2 * Pow2(a - 1)) * Pow2(b);
    }
  }

  lemma {:induction false} Pow2Monotone(a: nat, b: nat)
    requires a <= b
    ensures Pow2(a) <= Pow2(b)
  {
    if a < b {
      Pow2Monotone(a, b - 1);
    }
  }

  lemma MulMonotone(a: int, b: int, c: int)
    requires a <= b && 0 <= c
    ensures a * c <= b * c
  {
  }

  lemma MulStrict(a: int, b: int, c: int)
    requires c > 0
    ensures a < b ==> c * (a + 1) <= c * b
  {
    if a < b {
      MulMonotone(a + 1, b, c);
    }
  }

  /** The quotient is the number q with d*q <= n < d*(q+1). */
  lemma DivUnique(n: int, d: int, q: int)
    requires d > 0 && d * q <= n < d * (q + 1)
    ensures n / d == q
  {
    DivBounds(n, d);
    MulStrict(n / d, q, d);
    MulStrict(q, n / d, d);
  }

  lemma DivBounds(n: int, d: int)
    requires d > 0
    ensures d * (n / d) <= n < d * (n / d + 1)
  {
    assert n == d * (n / d) + n % d;
    assert d * (n / d + 1) == d * (n / d) + d;
  }

  /** Dividing twice is dividing by the product. */
  lemma DivDiv(n: nat, a: nat, b: nat)
    requires a > 0 && b > 0
    ensures a * b > 0 && n / a / b == n / (a * b)
  {
    var q, r := n / a / b, n / a % b;
    var p := n % a;
    assert n == a * (n / a) + p;
    assert n / a == b * q + r;
    assert a * (b * q + r) == a * b * q + a * r;
    MulMonotone(r + 1, b, a);
    assert a * r + p < a * b;
    assert a * b > 0;
    assert a * b * (q + 1) == a * b * q + a * b;
    DivUnique(n, a * b, q);
  }

  lemma DivLess(n: int, d: int, k: int)
    requires d > 0 && n < d * k
    ensures n / d < k
  {
    DivBounds(n, d);
    MulStrict(k - 1, n / d, d);
  }

  lemma DivAtLeast(n: int, d: int, k: int)
    requires d > 0 && d * k <= n
    ensures k <= n / d
  {
    DivBounds(n, d);
    MulStrict(n / d, k, d);
  }

  lemma MulDivCancel(n: int, d: int)
    requires d > 0
    ensures d * n / d == n
  {
    DivUnique(d * n, d, n);
  }
}
