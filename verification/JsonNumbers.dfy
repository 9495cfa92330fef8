/** What the number parser makes of the numbers of section 6 of RFC 8259. */
module JsonNumbers {
  import opened Arithmetic
  import opened JsonStrings
  import opened Json
  import opened JsonRoundTrip

  // ----- numbers as the standard writes them

  datatype Exponent = NoExponent | Exponent(mark: char, sign: string, digits: string)

  /** Sign, integer part without leading zeros, fraction digits, exponent. */
  datatype Literal = Literal(negative: bool, whole: nat, frac: string, exp: Exponent)

  predicate AllDigits(s: string) {
    forall i :: 0 <= i < |s| ==> IsDigit(s[i])
  }

  predicate Valid(n: Literal) {
    && AllDigits(n.frac)
    && (n.exp.Exponent? ==>
          && (n.exp.mark == 'e' || n.exp.mark == 'E')
          && (n.exp.sign == "" || n.exp.sign == "+" || n.exp.sign == "-")
          && n.exp.digits != "" && AllDigits(n.exp.digits))
  }

  function FracText(n: Literal): string {
    if n.frac == "" then "" else "." + n.frac
  }

  function ExpText(n: Literal): string {
    match n.exp
    case NoExponent => ""
    case Exponent(mark, sign, digits) => [mark] + sign + digits
  }

  function Text(n: Literal): string {
    (if n.negative then "-" else "") + Digits(n.whole) + FracText(n) + ExpText(n)
  }

  /** Text after the number that would still be read as part of it. */
  predicate Extends(n: Literal, rest: string) {
    || IsDigit(Head(rest))
    || (n.exp.NoExponent? && (Head(rest) == 'e' || Head(rest) == 'E'))
    || (n.exp.NoExponent? && n.frac == "" && Head(rest) == '.' && IsDigit(Head(Advance(rest, 1))))
  }

  // ----- what is read

  function Sign(n: Literal): int { if n.negative then -1 else 1 }

  lemma {:induction false} SkipAllDigits(s: string, rest: string)
    requires AllDigits(s) && !IsDigit(Head(rest))
    ensures SkipDigits(s + rest) == rest
  {
    if s == "" {
      assert s + rest == rest;
    } else {
      assert (s + rest)[1..] == s[1..] + rest;
      SkipAllDigits(s[1..], rest);
    }
  }

  lemma FractionRead(n: Literal, rest: string)
    requires Valid(n) && !Extends(n, rest)
    ensures SkipFraction(FracText(n) + (ExpText(n) + rest)) == ExpText(n) + rest
    ensures !IsDigit(Head(FracText(n) + (ExpText(n) + rest)))
  {
    var after := ExpText(n) + rest;
    assert !IsDigit(Head(after));
    if n.frac == "" {
      assert FracText(n) + after == after;
    } else {
      var t := FracText(n) + after;
      assert Advance(t, 1) == n.frac + after;
      assert Head(n.frac + after) == n.frac[0];
      SkipAllDigits(n.frac, after);
    }
  }

  lemma ExponentRead(n: Literal, rest: string)
    requires Valid(n) && !Extends(n, rest)
    ensures SkipExponent(ExpText(n) + rest) == rest
  {
    match n.exp
    case NoExponent => assert ExpText(n) + rest == rest;
    case Exponent(mark, sign, digits) =>
      var t := ExpText(n) + rest;
      assert t[1..] == sign + (digits + rest);
      assert Head(digits + rest) == digits[0];
      if sign == "" {
        assert sign + (digits + rest) == digits + rest;
      } else {
        assert (sign + (digits + rest))[1..] == digits + rest;
      }
      SkipAllDigits(digits, rest);
  }

  lemma WrapNegated(k: int)
    ensures Wrap32(-Wrap32(k)) == Wrap32(-k)
  {
    var q := (k - INT_MIN) / 0x1_0000_0000;
    assert Wrap32(k) == k - q * 0x1_0000_0000;
    ModMultiple(-k - INT_MIN, q);
  }

  lemma Regroup(s: string, d: string, f: string, e: string, r: string)
    ensures s + d + f + e + r == s + (d + (f + (e + r)))
  {
  }

  /** Every number, followed by text that cannot extend it, is read to its end
      and stands for its integer part, wrapped to 32 bits. */
  lemma NumberRead(n: Literal, rest: string)
    requires Valid(n) && !Extends(n, rest)
    ensures ParseNumber(Text(n) + rest) == (Wrap32(Sign(n) * n.whole), rest)
  {
    var tail := FracText(n) + (ExpText(n) + rest);
    var t1 := Digits(n.whole) + tail;
    FractionRead(n, rest);
    ExponentRead(n, rest);
    UnsignedRoundTrip(n.whole, tail);
    WrapNegated(n.whole);
    Regroup(if n.negative then "-" else "", Digits(n.whole), FracText(n), ExpText(n), rest);
    hide FracText, ExpText, SkipFraction, SkipExponent, Wrap32, Accumulate, Digits;
    if n.negative {
      assert Text(n) + rest == "-" + t1 && ("-" + t1)[1..] == t1;
    } else {
      assert Text(n) + rest == "" + t1 && "" + t1 == t1;
      assert Head(t1) == Digits(n.whole)[0];
    }
  }

  // ----- what is meant

  function Value(s: string): nat
    requires AllDigits(s)
  {
    if s == "" then 0 else 10 * Value(s[..|s| - 1]) + (s[|s| - 1] as int - '0' as int)
  }

  function ExpValue(n: Literal): nat
    requires Valid(n)
  {
    if n.exp.NoExponent? then 0 else Value(n.exp.digits)
  }

  predicate Shrinks(n: Literal) { n.exp.Exponent? && n.exp.sign == "-" }

  /** The number's value is v: sign times whole.frac times ten to the exponent,
      both sides multiplied by the powers of ten in the denominators. */
  predicate Denotes(n: Literal, v: int)
    requires Valid(n)
  {
    var a, e := Pow10(|n.frac|), Pow10(ExpValue(n));
    var mantissa := Sign(n) * (n.whole * a + Value(n.frac));
    if Shrinks(n) then mantissa == v * a * e else mantissa * e == v * a
  }

  predicate AllZeros(s: string) {
    forall i :: 0 <= i < |s| ==> s[i] == '0'
  }

  /** The fraction says nothing, and the exponent says nothing or there is nothing to scale. */
  predicate JustAnInteger(n: Literal)
    requires Valid(n)
  {
    && AllZeros(n.frac)
    && (n.whole == 0 || n.exp.NoExponent? || AllZeros(n.exp.digits))
  }

  lemma {:induction false} ZeroValue(s: string)
    requires AllDigits(s)
    ensures Value(s) == 0 <==> AllZeros(s)
    ensures Value(s) < Pow10(|s|)
  {
    if s != "" {
      var t := s[..|s| - 1];
      ZeroValue(t);
      assert s == t + [s[|s| - 1]];
      assert AllZeros(s) <==> AllZeros(t) && s[|s| - 1] == '0';
    }
  }

  // ----- arithmetic

  lemma {:induction false} Pow10Grows(k: nat)
    ensures k == 0 ==> Pow10(k) == 1
    ensures k > 0 ==> Pow10(k) >= 10 && Pow10(k) % 2 == 0
  {
    if k > 0 {
      var p := Pow10(k - 1);
      assert Pow10(k) == 10 * p;
      hide Pow10;
      TenIsEven(p);
    }
  }

  lemma TenIsEven(p: nat)
    requires p > 0
    ensures 10 * p >= 10 && 10 * p % 2 == 0
  {
    Quotient(10 * p, 5 * p, 2, 0);
  }

  /** A remainder that is a multiple is none. */
  lemma NoRemainder(f: nat, d: int, a: nat, sign: int)
    requires f < a && sign * f == d * a && (sign == 1 || sign == -1)
    ensures f == 0 && d == 0
  {
    Distribute(d, -d, a);
    if d >= 1 { Multiple(d, a); }
    if d <= -1 { Multiple(-d, a); }
  }

  predicate InRange(v: int) { INT_MIN <= v <= INT_MAX }

  lemma Wrapped(k: int)
    ensures InRange(Wrap32(k)) && (Wrap32(k) == k <==> InRange(k))
    ensures exists q :: k - Wrap32(k) == 0x1_0000_0000 * q
  {
    var q := (k - INT_MIN) / 0x1_0000_0000;
    assert k - Wrap32(k) == 0x1_0000_0000 * q;
  }

  /** Without an exponent: the fraction must vanish and the rest must fit. */
  lemma PlainCase(sign: int, w: nat, f: nat, a: nat, v: int)
    requires (sign == 1 || sign == -1) && f < a
    ensures sign * (w * a + f) == v * a <==> f == 0 && v == sign * w
  {
    if sign * (w * a + f) == v * a {
      assert sign * f == (v - sign * w) * a;
      NoRemainder(f, v - sign * w, a, sign);
    }
  }

  /** An exponent that makes a number larger makes it larger than what is read. */
  lemma GrowCase(sign: int, w: nat, f: nat, a: nat, e: nat, v: int)
    requires (sign == 1 || sign == -1) && f < a && e >= 10 && v == Wrap32(sign * w)
    ensures sign * (w * a + f) * e == v * a <==> w == 0 && f == 0
  {
    Wrapped(sign * w);
    if w == 0 {
      assert v == 0;
      GrowZero(sign, f, e);
    } else {
      assert -10 * w < v < 10 * w;
      Apart(sign, w, f, a, e, v);
    }
  }

  lemma GrowZero(sign: int, f: nat, e: nat)
    requires (sign == 1 || sign == -1) && e >= 10
    ensures sign * f * e == 0 <==> f == 0
  {
    if f > 0 { assert f * e >= f; }
  }

  lemma Apart(sign: int, w: nat, f: nat, a: nat, e: nat, v: int)
    requires (sign == 1 || sign == -1) && w > 0 && a > 0 && e >= 10 && -10 * w < v < 10 * w
    ensures sign * (w * a + f) * e != v * a
  {
    var m := w * a + f;
    assert m * e >= m * 10 by { Larger(m, e); }
    assert m * 10 >= 10 * w * a;
    assert v * a < 10 * w * a && v * a > -10 * w * a by { Smaller(v, w, a); }
    assert sign * m * e == m * e || sign * m * e == -(m * e);
  }

  lemma Larger(m: nat, e: nat)
    requires e >= 10
    ensures m * e >= m * 10
  {
  }

  lemma Smaller(v: int, w: nat, a: nat)
    requires a > 0 && -10 * w < v < 10 * w
    ensures -10 * w * a < v * a < 10 * w * a
  {
    Multiple(10 * w - v, a);
    Multiple(v + 10 * w, a);
  }

  /** An exponent that makes it smaller would need what is read to be a multiple of 2^32. */
  lemma ShrinkCase(sign: int, w: nat, f: nat, a: nat, e: nat, v: int)
    requires (sign == 1 || sign == -1) && f < a && e >= 10 && e % 2 == 0 && v == Wrap32(sign * w)
    ensures sign * (w * a + f) == v * a * e <==> w == 0 && f == 0
  {
    Wrapped(sign * w);
    if sign * (w * a + f) == v * a * e {
      assert sign * f == (v * e - sign * w) * a;
      NoRemainder(f, v * e - sign * w, a, sign);
      assert sign * w == v * e;
      var q :| sign * w - v == 0x1_0000_0000 * q;
      assert (e - 1) * v == 0x1_0000_0000 * q;
      Pow2Word();
      OddFactor(e - 1, v, 32, q);
      var r :| v == Pow2(32) * r;
      assert r == 0;
    }
  }

  /** What is read is the number's value exactly when the integer part fits 32
      bits and fraction and exponent change nothing. */
  lemma ReadIsValue(n: Literal, rest: string)
    requires Valid(n) && !Extends(n, rest)
    ensures Denotes(n, ParseNumber(Text(n) + rest).0) <==> InRange(Sign(n) * n.whole) && JustAnInteger(n)
  {
    hide ParseNumber, Text, Value, Pow10, Wrap32;
    NumberRead(n, rest);
    var sign, w, f, a, e := Sign(n), n.whole, Value(n.frac), Pow10(|n.frac|), Pow10(ExpValue(n));
    var v := Wrap32(sign * w);
    ZeroValue(n.frac);
    if n.exp.Exponent? { ZeroValue(n.exp.digits); }
    Pow10Grows(ExpValue(n));
    Wrapped(sign * w);
    if ExpValue(n) == 0 {
      PlainCase(sign, w, f, a, v);
    } else if Shrinks(n) {
      ShrinkCase(sign, w, f, a, e, v);
    } else {
      GrowCase(sign, w, f, a, e, v);
    }
  }

  /** One hundred, written with an exponent, is read as one. */
  lemma HundredReadAsOne()
    ensures ParseNumber("1e2") == (1, "") && !Denotes(Literal(false, 1, "", Exponent('e', "", "2")), 1)
  {
    var n := Literal(false, 1, "", Exponent('e', "", "2"));
    assert Text(n) + "" == "1e2";
    NumberRead(n, "");
    ReadIsValue(n, "");
  }
}
