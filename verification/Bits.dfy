/** Bitwise operations on numbers, one bit at a time from the lowest. */
module Bits {
  import opened Arithmetic

  function Or(a: nat, b: nat): nat {
    if a == 0 then b
    else if b == 0 then a
    else (if a % 2 == 1 || b % 2 == 1 then 1 else 0) + 2 * Or(a / 2, b / 2)
  }

  function And(a: nat, b: nat): nat {
    if a == 0 || b == 0 then 0
    else (if a % 2 == 1 && b % 2 == 1 then 1 else 0) + 2 * And(a / 2, b / 2)
  }

  /** Numbers without a common bit: or is plus. */
  lemma {:induction false} OrDisjoint(a: nat, b: nat, k: nat)
    requires a < Pow2(k)
    ensures Or(a, Pow2(k) * b) == a + Pow2(k) * b
    decreases k
  {
    if k > 0 {
      var p, h := Pow2(k - 1), a / 2;
      TwiceProduct(p, b);
      Half(p * b);
      OrDisjoint(h, b, k - 1);
    }
  }

  lemma Half(n: nat)
    ensures 2 * n / 2 == n && 2 * n % 2 == 0
  {
  }

  lemma OrStep(a: nat, b: nat)
    ensures Or(a, 0) == Or(0, a) == a
    ensures a > 0 && b > 0 ==>
      Or(a, b) == (if a % 2 == 1 || b % 2 == 1 then 1 else 0) + 2 * Or(a / 2, b / 2)
  {
  }

  lemma AndStep(a: nat, b: nat)
    ensures And(a, 0) == And(0, a) == 0
    ensures a > 0 && b > 0 ==>
      And(a, b) == (if a % 2 == 1 && b % 2 == 1 then 1 else 0) + 2 * And(a / 2, b / 2)
  {
  }

  lemma Halved(bit: nat, n: nat)
    requires bit < 2
    ensures (bit + 2 * n) % 2 == bit && (bit + 2 * n) / 2 == n
  {
  }

  /** Or with a number whose lowest bit is clear. */
  lemma OrEven(n: nat, even: nat, high: nat)
    requires even / 2 == high && even % 2 == 0
    ensures Or(n, even) == n % 2 + 2 * Or(n / 2, high)
  {
    hide Or;
    OrStep(n, even);
    OrStep(even, n);
    OrStep(high, 0);
    OrStep(n / 2, 0);
    Divided(n, 2);
    Divided(even, 2);
  }

  lemma OrHalves(n: nat, high: nat)
    ensures Or(n, 2 * high) % 2 == n % 2 && Or(n, 2 * high) / 2 == Or(n / 2, high)
  {
    hide Or;
    Half(high);
    OrEven(n, 2 * high, high);
    Halved(n % 2, Or(n / 2, high));
  }

  lemma AndHalves(n: nat, mask: nat)
    ensures And(n, 2 * mask + 1) == n % 2 + 2 * And(n / 2, mask)
  {
    hide And;
    Halved(1, mask);
    AndStep(n, 2 * mask + 1);
    AndStep(2 * mask + 1, n);
    AndStep(mask, 0);
  }

  /** A bit that is set neither way stays, below the bits above it. */
  lemma KeepLow(n: nat, high: nat, mask: nat)
    ensures And(Or(n, 2 * high), 2 * mask + 1) == n % 2 + 2 * And(Or(n / 2, high), mask)
  {
    hide And, Or;
    OrHalves(n, high);
    AndHalves(Or(n, 2 * high), mask);
  }

  lemma LowBit(n: nat, k: nat)
    requires k > 0
    ensures n % (2 * k) == n % 2 + 2 * (n / 2 % k)
  {
    var h := n / 2;
    Divided(h, k);
    assert 2 * (h / k * k) == h / k * (2 * k);
    Quotient(n, h / k, 2 * k, n % 2 + 2 * (h % k));
  }

  /** Setting bit 7 and clearing bit 6 of a byte leaves the low six bits under
      the mark of a continuation byte. */
  lemma ContinuationBits(n: nat)
    ensures And(Or(n, 0x80), 0xBF) == 0x80 + n % 64
  {
    hide And, Or;
    var a, b, c, d, e, f := n / 2, n / 2 / 2, n / 2 / 2 / 2, n / 2 / 2 / 2 / 2, n / 2 / 2 / 2 / 2 / 2, n / 2 / 2 / 2 / 2 / 2 / 2;
    KeepLow(n, 0x40, 0x5F);
    KeepLow(a, 0x20, 0x2F);
    KeepLow(b, 0x10, 0x17);
    KeepLow(c, 0x08, 0x0B);
    KeepLow(d, 0x04, 0x05);
    KeepLow(e, 0x02, 0x02);
    TopBits(f);
    LowBit(n, 32);
    LowBit(a, 16);
    LowBit(b, 8);
    LowBit(c, 4);
    LowBit(d, 2);
    LowBit(e, 1);
  }

  lemma TopBits(f: nat)
    ensures And(Or(f, 2), 2) == 2
  {
    hide And, Or;
    var o, x := Or(f, 2), Or(f / 2, 1);
    OrHalves(f, 1);
    OrOne(f / 2);
    AndStep(o, 2);
    AndStep(x, 1);
    AndStep(x / 2, 0);
  }

  lemma OrOne(g: nat)
    ensures Or(g, 1) % 2 == 1
  {
    hide Or;
    OrStep(g, 1);
    OrStep(1, g);
    Halved(1, Or(g / 2, 0));
  }
}
