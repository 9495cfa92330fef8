/** Facts about powers of two and division that several models share. */
module Arithmetic {

  function Pow2(n: nat): (p: nat)
    ensures p > 0
  {
    if n == 0 then 1 else 2 * Pow2(n - 1)
  }

  function Pow10(k: nat): (p: nat)
    ensures p > 0
  {
    if k == 0 then 1 else 10 * Pow10(k - 1)
  }

  lemma {:induction false} Pow2Sum(a: nat, b: nat)
    ensures Pow2(a + b) == Pow2(a) * Pow2(b)
  {
    if b > 0 {
      Pow2Sum(a, b - 1);
      assert Pow2(a + b) == 2 * Pow2(a + b - 1);
    }
  }

  lemma Pow2Byte()
    ensures Pow2(8) == 256
  {
    assert Pow2(4) == 16 && Pow2(6) == 4 * Pow2(4) && Pow2(8) == 4 * Pow2(6);
  }

  lemma Pow2Word()
    ensures Pow2(32) == 0x1_0000_0000
  {
    assert Pow2(4) == 16 && Pow2(6) == 4 * Pow2(4) && Pow2(8) == 4 * Pow2(6);
    Pow2Sum(8, 8);
    Pow2Sum(16, 16);
  }

  lemma {:induction false} Multiple(d: nat, c: nat)
    requires d >= 1
    ensures d * c >= c
    decreases d
  {
    if d > 1 {
      Multiple(d - 1, c);
      Distribute(d - 1, 1, c);
    }
  }

  lemma Distribute(a: int, b: int, c: int)
    ensures (a + b) * c == a * c + b * c
  {
  }

  /** Quotient and remainder are what they are. */
  lemma Quotient(n: nat, q: nat, c: nat, r: nat)
    requires n == q * c + r && r < c
    ensures n % c == r && n / c == q
  {
    var p, m := n / c, n % c;
    Divided(n, c);
    if p < q {
      Multiple(q - p, c);
      Distribute(q - p, p, c);
    } else if q < p {
      Multiple(p - q, c);
      Distribute(p - q, q, c);
    }
  }

  lemma Divided(n: nat, c: nat)
    requires c > 0
    ensures n == n / c * c + n % c && n % c < c
  {
  }

  /** A remainder by a multiple of c leaves the remainder by c. */
  lemma Coarser(n: nat, c: nat, k: nat)
    requires c > 0 && k > 0
    ensures c * k > 0 && n % (c * k) % c == n % c
  {
    Multiple(k, c);
    assert c * k == k * c;
    var d := k * c;
    var q, r := n / d, n % d;
    Divided(n, d);
    Divided(r, c);
    Coarse(n, q, k, c, r, r / c, r % c);
  }

  lemma Coarse(n: nat, q: nat, k: nat, c: nat, r: nat, a: nat, b: nat)
    requires n == q * (k * c) + r && r == a * c + b && b < c
    ensures n % c == b
  {
    assert q * (k * c) == (q * k) * c;
    Distribute(q * k, a, c);
    Quotient(n, q * k + a, c, b);
  }

  /** An odd factor takes no power of two away. */
  lemma {:induction false} OddFactor(c: int, v: int, k: nat, q: int)
    requires c % 2 == 1 && c * v == Pow2(k) * q
    ensures exists r :: v == Pow2(k) * r
    decreases k
  {
    if k == 0 {
      assert v == Pow2(0) * v;
    } else {
      var p, h := Pow2(k - 1), v / 2;
      TwiceProduct(p, q);
      OddTimes(c, v, p * q);
      HalfProduct(c, v, p * q);
      OddFactor(c, h, k - 1, q);
      var r :| h == p * r;
      TwiceProduct(p, r);
    }
  }

  lemma TwiceProduct(p: int, q: int)
    ensures 2 * p * q == 2 * (p * q)
  {
  }

  lemma OddTimes(c: int, v: int, q: int)
    requires c % 2 == 1 && c * v == 2 * q
    ensures v % 2 == 0
  {
    var m := c / 2;
    assert c == 2 * m + 1;
    assert c * v == 2 * (m * v) + v;
  }

  lemma HalfProduct(c: int, v: int, q: int)
    requires v % 2 == 0 && c * v == 2 * q
    ensures c * (v / 2) == q
  {
    var h := v / 2;
    assert v == 2 * h;
    assert c * v == 2 * (c * h);
  }
}
