/** Powers of two, and division with an unknown divisor. */
module Arithmetic {

  function Pow2(n: nat): (p: nat)
    ensures p >= 1
  {
    if n == 0 then 1 else 2 * Pow2(n - 1)
  }

  lemma {:induction false} Pow2Grows(n: nat, m: nat)
    requires n <= m
    ensures Pow2(n) <= Pow2(m)
    decreases m - n
  {
    if n < m {
      Pow2Grows(n, m - 1);
    }
  }

  /** There is only one power of two from `Pow2(j)` on and below its double. */
  lemma Pow2Between(k: nat, j: nat)
    requires Pow2(j) <= Pow2(k) < 2 * Pow2(j)
    ensures Pow2(k) == Pow2(j)
  {
    if k > j {
      Pow2Grows(j + 1, k);
    } else {
      Pow2Grows(k, j);
    }
  }

  lemma {:induction false} Pow2Add(a: nat, b: nat)
    ensures Pow2(a + b) == Pow2(a) * Pow2(b)
  {
    if b > 0 {
      Pow2Add(a, b - 1);
    }
  }

  lemma MulOrder(a: int, b: int, w: int)
    requires a <= b && w >= 0
    ensures a * w <= b * w
  {
  }

  lemma QuotientUnique(n: int, w: int, k: int)
    requires w > 0 && k * w <= n < (k + 1) * w
    ensures n / w == k
  {
    var q := n / w;
    assert q * w <= n < (q + 1) * w by { assert n == q * w + n % w; assert (q + 1) * w == q * w + w; }
    if q < k {
      MulOrder(q + 1, k, w);
    } else if k < q {
      MulOrder(k + 1, q, w);
    }
  }

  /** Dividing twice is dividing by the product. */
  lemma DivideTwice(x: nat, a: nat, b: nat)
    requires a > 0 && b > 0 && a * b > 0
    ensures x / a / b == x / (a * b)
  {
    var q := x / a;
    var u := q / b;
    assert x == a * q + x % a && q == b * u + q % b;
    MulOrder(u * b, q, a);
    MulOrder(q + 1, (u + 1) * b, a);
    assert u * b * a == u * (a * b) && (u + 1) * b * a == (u + 1) * (a * b);
    QuotientUnique(x, a * b, u);
  }

  lemma OneMore(n: nat, w: nat)
    requires w > 0
    ensures (n + w) / w == n / w + 1
  {
    assert n == n / w * w + n % w;
    assert (n / w + 1) * w == n / w * w + w;
    QuotientUnique(n + w, w, n / w + 1);
  }

  lemma MultipleHasNoRemainder(n: nat, w: nat, k: nat)
    requires w > 0 && n == k * w
    ensures n % w == 0
  {
    assert (k + 1) * w == k * w + w;
    QuotientUnique(n, w, k);
    assert n == n / w * w + n % w;
  }

  /** A counter of `b` slots of width `a` wraps exactly at the multiples of its span. */
  lemma WrapsTogether(n: nat, a: nat, b: nat)
    requires a > 0 && b > 0 && a * b > 0 && n % a == 0
    ensures n / a % b == 0 <==> n % (a * b) == 0
  {
    var q := n / a;
    assert n == q * a;
    if q % b == 0 {
      assert q == q / b * b;
      assert q / b * b * a == q / b * (a * b);
      MultipleHasNoRemainder(n, a * b, q / b);
    }
    if n % (a * b) == 0 {
      var w := n / (a * b);
      assert n == w * (a * b);
      assert w * (a * b) == w * b * a;
      assert (w * b + 1) * a == w * b * a + a;
      QuotientUnique(n, a, w * b);
      MultipleHasNoRemainder(q, b, w);
    }
  }

  lemma MultiplesNest(n: nat, a: nat, b: nat)
    requires a > 0 && b > 0 && a * b > 0 && n % (a * b) == 0
    ensures n % a == 0
  {
    var w := n / (a * b);
    assert n == w * (a * b);
    assert w * (a * b) == w * b * a;
    MultipleHasNoRemainder(n, a, w * b);
  }
}
