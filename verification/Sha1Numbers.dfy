/** The words, lengths and constants of SHA-1 as numbers. */
module Sha1Numbers {
  import opened Octets
  import opened Arithmetic
  import opened Sha1Spec

  /** Bytes as one number, the first the most significant. */
  function Number(s: seq<byte>): nat {
    if s == [] then 0 else 256 * Number(s[..|s| - 1]) + s[|s| - 1]
  }

  // ----- words

  function Shr(w: word): word { w >> 1 }

  function Bit(w: word): nat { if w & 1 == 1 then 1 else 0 }

  lemma ValueOne(w: word, k: nat)
    ensures Value(w, k + 1) == Bit(w) + 2 * Value(Shr(w), k)
  {
  }

  function Nibble(w: word): nat {
    Bit(w) + 2 * Bit(Shr(w)) + 4 * (Bit(Shr(Shr(w))) + 2 * Bit(Shr(Shr(Shr(w)))))
  }

  function Shr4(w: word): word { Shr(Shr(Shr(Shr(w)))) }

  lemma ValueFour(w: word, k: nat)
    ensures Value(w, k + 4) == Nibble(w) + 16 * Value(Shr4(w), k)
  {
    hide Shr, Bit, Value;
    ValueOne(w, k + 3);
    ValueOne(Shr(w), k + 2);
    ValueOne(Shr(Shr(w)), k + 1);
    ValueOne(Shr(Shr(Shr(w))), k);
  }

  function Shr8(w: word): word { Shr4(Shr4(w)) }

  lemma ByteNibbles(w: word)
    ensures LowByte(w) == Nibble(w) + 16 * Nibble(Shr4(w))
  {
    hide Value, Nibble, Shr4;
    ValueFour(w, 4);
    ValueFour(Shr4(w), 0);
    NoDigits(Shr4(Shr4(w)));
  }

  lemma NoDigits(w: word)
    ensures Value(w, 0) == 0
  {
  }

  /** The lowest eight binary digits are the lowest byte. */
  lemma ValueByte(w: word, k: nat)
    ensures Value(w, k + 8) == LowByte(w) + 256 * Value(Shr8(w), k)
  {
    hide Value, LowByte, Nibble, Shr4;
    ByteNibbles(w);
    ValueFour(w, k + 4);
    ValueFour(Shr4(w), k);
  }

  lemma ValueBytes(w: word)
    ensures Value(w, 32) == Number([LowByte(Shr8(Shr8(Shr8(w)))), LowByte(Shr8(Shr8(w))), LowByte(Shr8(w)), LowByte(w)])
  {
    hide *;
    var x := Shr8(w);
    var y := Shr8(x);
    var z := Shr8(y);
    FourBytes(LowByte(z), LowByte(y), LowByte(x), LowByte(w));
    ValueByte(w, 24);
    ValueByte(x, 16);
    ValueByte(y, 8);
    ValueByte(z, 0);
    NoDigits(Shr8(z));
  }

  lemma BytesAre(w: word, x: word, y: word, z: word)
    requires x == Shr8(w) && y == Shr8(x) && z == Shr8(y)
    ensures WordBytes(w) == [LowByte(z), LowByte(y), LowByte(x), LowByte(w)]
  {
    hide LowByte;
    Shifts(w, x, y, z);
  }

  lemma Shift8(w: word)
    ensures Shr8(w) == w >> 8
  {
  }

  lemma Shifts(w: word, x: word, y: word, z: word)
    requires x == Shr8(w) && y == Shr8(x) && z == Shr8(y)
    ensures w >> 8 == x && w >> 16 == y && w >> 24 == z
  {
    hide Shr8;
    Shift8(w);
    Shift8(x);
    Shift8(y);
    Eights(w, x, y, z);
  }

  lemma Eights(w: word, x: word, y: word, z: word)
    requires x == w >> 8 && y == x >> 8 && z == y >> 8
    ensures y == w >> 16 && z == w >> 24
  {
  }

  /** The four bytes of a word, read as a number, are the word's number. */
  lemma WordNumber(w: word)
    ensures Number(WordBytes(w)) == Value(w, 32)
  {
    hide *;
    ValueBytes(w);
    BytesAre(w, Shr8(w), Shr8(Shr8(w)), Shr8(Shr8(Shr8(w))));
  }

  lemma FourBytes(a: byte, b: byte, c: byte, d: byte)
    ensures Number([a, b, c, d]) == 0x100_0000 * a + 0x1_0000 * b + 0x100 * c + d
  {
    var s := [a, b, c, d];
    assert s[..3] == [a, b, c] && [a, b, c][..2] == [a, b] && [a, b][..1] == [a] && [a][..0] == [];
    assert Number([a]) == a;
    assert Number([a, b]) == 256 * a + b;
    assert Number([a, b, c]) == 256 * (256 * a + b) + c;
  }

  lemma SameNibble(w: word, v: word)
    requires w & 0xF == v & 0xF
    ensures Nibble(w) == Nibble(v)
  {
    assert w & 1 == v & 1 && (w >> 1) & 1 == (v >> 1) & 1;
    assert ((w >> 1) >> 1) & 1 == ((v >> 1) >> 1) & 1;
    assert (((w >> 1) >> 1) >> 1) & 1 == (((v >> 1) >> 1) >> 1) & 1;
  }

  lemma SameByte(w: word, v: word)
    requires w & 0xFF == v & 0xFF
    ensures LowByte(w) == LowByte(v)
  {
    assert w & 0xF == v & 0xF;
    assert Shr4(w) & 0xF == Shr4(v) & 0xF;
    hide *;
    SameNibble(w, v);
    SameNibble(Shr4(w), Shr4(v));
    ByteNibbles(w);
    ByteNibbles(v);
  }

  function Flag(b: bool): nat { if b then 1 else 0 }

  lemma LowNibble(a: bool, b: bool, c: bool, d: bool, e: bool, f: bool, g: bool, h: bool)
    ensures Nibble(FromBits(a, b, c, d, e, f, g, h)) == Flag(a) + 2 * Flag(b) + 4 * (Flag(c) + 2 * Flag(d))
  {
    var w := FromBits(a, b, c, d, e, f, g, h);
    assert w & 1 == 1 <==> a;
    assert (w >> 1) & 1 == 1 <==> b;
    assert ((w >> 1) >> 1) & 1 == 1 <==> c;
    assert (((w >> 1) >> 1) >> 1) & 1 == 1 <==> d;
    hide FromBits;
  }

  lemma HighNibble(a: bool, b: bool, c: bool, d: bool, e: bool, f: bool, g: bool, h: bool)
    ensures Nibble(Shr4(FromBits(a, b, c, d, e, f, g, h))) == Flag(e) + 2 * Flag(f) + 4 * (Flag(g) + 2 * Flag(h))
  {
    var w := FromBits(a, b, c, d, e, f, g, h);
    assert Shr4(w) == FromBits(e, f, g, h, false, false, false, false);
    hide *;
    LowNibble(e, f, g, h, false, false, false, false);
  }

  /** The digit with weight p, and what is left below it. */
  lemma Digit(n: nat, p: nat)
    requires n < 2 * p
    ensures n == Less(n, p) + p * Flag(n >= p) && Less(n, p) < p
  {
  }

  ghost predicate Chain(a: byte, b: nat, c: nat, d: nat, e: nat, f: nat, g: nat, h: nat) {
    && b == Less(a, 128) && c == Less(b, 64) && d == Less(c, 32) && e == Less(d, 16)
    && f == Less(e, 8) && g == Less(f, 4) && h == Less(g, 2)
  }

  lemma ChainIs(a: byte, b: nat, c: nat, d: nat, e: nat, f: nat, g: nat, h: nat)
    requires b == Less(a, 128) && c == Less(b, 64) && d == Less(c, 32) && e == Less(d, 16)
    requires f == Less(e, 8) && g == Less(f, 4) && h == Less(g, 2)
    ensures Chain(a, b, c, d, e, f, g, h)
  {
    hide Less;
  }

  lemma ChainWord(a: byte, b: nat, c: nat, d: nat, e: nat, f: nat, g: nat, h: nat)
    requires Chain(a, b, c, d, e, f, g, h)
    ensures ToWord(a) == ChainBits(a, b, c, d, e, f, g, h)
  {
    hide FromBits, Less;
  }

  lemma ChainHigh(a: byte, b: nat, c: nat, d: nat, e: nat, f: nat, g: nat, h: nat)
    requires Chain(a, b, c, d, e, f, g, h)
    ensures a == b + 128 * Flag(a >= 128) && b == c + 64 * Flag(b >= 64) && c == d + 32 * Flag(c >= 32)
    ensures d == e + 16 * Flag(d >= 16) && e < 16
  {
    hide Less, Flag;
    Digit(a, 128);
    Digit(b, 64);
    Digit(c, 32);
    Digit(d, 16);
  }

  lemma ChainLow(a: byte, b: nat, c: nat, d: nat, e: nat, f: nat, g: nat, h: nat)
    requires Chain(a, b, c, d, e, f, g, h) && e < 16
    ensures e == f + 8 * Flag(e >= 8) && f == g + 4 * Flag(f >= 4) && g == h + 2 * Flag(g >= 2) && h == Flag(h >= 1)
  {
    hide Less;
    Digit(e, 8);
    Digit(f, 4);
    Digit(g, 2);
  }

  function ChainBits(a: byte, b: nat, c: nat, d: nat, e: nat, f: nat, g: nat, h: nat): word {
    FromBits(h >= 1, g >= 2, f >= 4, e >= 8, d >= 16, c >= 32, b >= 64, a >= 128)
  }

  lemma ChainValue(a: byte, b: nat, c: nat, d: nat, e: nat, f: nat, g: nat, h: nat)
    requires a == b + 128 * Flag(a >= 128) && b == c + 64 * Flag(b >= 64) && c == d + 32 * Flag(c >= 32)
    requires d == e + 16 * Flag(d >= 16)
    requires e == f + 8 * Flag(e >= 8) && f == g + 4 * Flag(f >= 4) && g == h + 2 * Flag(g >= 2) && h == Flag(h >= 1)
    ensures LowByte(ChainBits(a, b, c, d, e, f, g, h)) == a
  {
    hide FromBits, LowByte, Flag;
    BackFrom(a, b, c, d, e, f, g, h, h >= 1, g >= 2, f >= 4, e >= 8, d >= 16, c >= 32, b >= 64, a >= 128);
  }

  lemma ByteBack(a: byte)
    ensures LowByte(ToWord(a)) == a
  {
    hide *;
    var b := Less(a, 128);
    var c := Less(b, 64);
    var d := Less(c, 32);
    var e := Less(d, 16);
    var f := Less(e, 8);
    var g := Less(f, 4);
    var h := Less(g, 2);
    ChainIs(a, b, c, d, e, f, g, h);
    ChainWord(a, b, c, d, e, f, g, h);
    ChainHigh(a, b, c, d, e, f, g, h);
    ChainLow(a, b, c, d, e, f, g, h);
    ChainValue(a, b, c, d, e, f, g, h);
  }

  lemma BackFrom(a: byte, b: nat, c: nat, d: nat, e: nat, f: nat, g: nat, h: nat,
                 p: bool, q: bool, r: bool, s: bool, t: bool, u: bool, v: bool, w: bool)
    requires a == b + 128 * Flag(w) && b == c + 64 * Flag(v) && c == d + 32 * Flag(u) && d == e + 16 * Flag(t)
    requires e == f + 8 * Flag(s) && f == g + 4 * Flag(r) && g == h + 2 * Flag(q) && h == Flag(p)
    ensures LowByte(FromBits(p, q, r, s, t, u, v, w)) == a
  {
    hide *;
    ByteNibbles(FromBits(p, q, r, s, t, u, v, w));
    LowNibble(p, q, r, s, t, u, v, w);
    HighNibble(p, q, r, s, t, u, v, w);
  }

  /** Reading a word undoes writing one. */
  lemma WordBack(block: seq<byte>, i: nat)
    requires 4 * i + 4 <= |block|
    ensures WordBytes(WordAt(block, i)) == block[4 * i..4 * i + 4]
  {
    hide WordBytes, Pack;
    BytesBack(block[4 * i], block[4 * i + 1], block[4 * i + 2], block[4 * i + 3]);
    assert block[4 * i..4 * i + 4] == [block[4 * i], block[4 * i + 1], block[4 * i + 2], block[4 * i + 3]];
  }

  lemma Small(b: byte)
    ensures ToWord(b) & 0xFF == ToWord(b)
  {
    hide FromBits;
    var w := ToWord(b);
    forall p, q, r, s, t, u, v, x ensures FromBits(p, q, r, s, t, u, v, x) & 0xFF == FromBits(p, q, r, s, t, u, v, x) {
      SmallBits(p, q, r, s, t, u, v, x);
    }
  }

  lemma SmallBits(a: bool, b: bool, c: bool, d: bool, e: bool, f: bool, g: bool, h: bool)
    ensures FromBits(a, b, c, d, e, f, g, h) & 0xFF == FromBits(a, b, c, d, e, f, g, h)
  {
  }

  ghost predicate Packed(w: word, a: word, b: word, c: word, d: word) {
    && a & 0xFF == a && b & 0xFF == b && c & 0xFF == c && d & 0xFF == d
    && w == (a << 24) | (b << 16) | (c << 8) | d
  }

  lemma First(w: word, v: word, a: word, b: word, c: word, d: word)
    requires Packed(w, a, b, c, d) && v == w >> 24
    ensures LowByte(v) == LowByte(a)
  {
    assert v & 0xFF == a & 0xFF;
    hide *;
    SameByte(v, a);
  }

  lemma Second(w: word, v: word, a: word, b: word, c: word, d: word)
    requires Packed(w, a, b, c, d) && v == w >> 16
    ensures LowByte(v) == LowByte(b)
  {
    assert v & 0xFF == b & 0xFF;
    hide *;
    SameByte(v, b);
  }

  lemma Third(w: word, v: word, a: word, b: word, c: word, d: word)
    requires Packed(w, a, b, c, d) && v == w >> 8
    ensures LowByte(v) == LowByte(c)
  {
    assert v & 0xFF == c & 0xFF;
    hide *;
    SameByte(v, c);
  }

  lemma Fourth(w: word, a: word, b: word, c: word, d: word)
    requires Packed(w, a, b, c, d)
    ensures LowByte(w) == LowByte(d)
  {
    assert w & 0xFF == d & 0xFF;
    hide *;
    SameByte(w, d);
  }

  lemma PackedBytes(w: word, a: word, b: word, c: word, d: word)
    requires Packed(w, a, b, c, d)
    ensures WordBytes(w) == [LowByte(a), LowByte(b), LowByte(c), LowByte(d)]
  {
    hide LowByte, Packed;
    First(w, w >> 24, a, b, c, d);
    Second(w, w >> 16, a, b, c, d);
    Third(w, w >> 8, a, b, c, d);
    Fourth(w, a, b, c, d);
  }

  lemma BytesBack(a: byte, b: byte, c: byte, d: byte)
    ensures WordBytes(Pack(a, b, c, d)) == [a, b, c, d]
  {
    Small(a);
    Small(b);
    Small(c);
    Small(d);
    hide ToWord, LowByte, WordBytes;
    PackedBytes((ToWord(a) << 24) | (ToWord(b) << 16) | (ToWord(c) << 8) | ToWord(d), ToWord(a), ToWord(b), ToWord(c), ToWord(d));
    ByteBack(a);
    ByteBack(b);
    ByteBack(c);
    ByteBack(d);
  }

  /** A word of a block is the number its four bytes stand for. */
  lemma WordAtNumber(block: seq<byte>, i: nat)
    requires 4 * i + 4 <= |block|
    ensures Value(WordAt(block, i), 32) == Number(block[4 * i..4 * i + 4])
  {
    hide Number, Value, WordAt, WordBytes;
    WordBack(block, i);
    WordNumber(WordAt(block, i));
  }

  // ----- the digest

  lemma {:induction false} NumberAppend(s: seq<byte>, t: seq<byte>)
    ensures Number(s + t) == Number(s) * Pow256(|t|) + Number(t)
    decreases |t|
  {
    if t == [] {
      assert s + t == s;
    } else {
      var f, b := t[..|t| - 1], t[|t| - 1];
      assert (s + t)[..|s + t| - 1] == s + f;
      NumberAppend(s, f);
      Carry(Number(s), Pow256(|f|), Number(f), b);
    }
  }

  function Pow256(k: nat): nat { if k == 0 then 1 else 256 * Pow256(k - 1) }

  lemma Carry(n: nat, p: nat, f: nat, b: nat)
    ensures 256 * (n * p + f) + b == n * (256 * p) + (256 * f + b)
  {
  }

  /** The twenty bytes are the five words as one number, the first the most
      significant. */
  lemma DigestNumber(s: State)
    ensures Number(StateBytes(s)) ==
      Value(s.a, 32) * Pow256(16) + Value(s.b, 32) * Pow256(12) + Value(s.c, 32) * Pow256(8)
        + Value(s.d, 32) * Pow256(4) + Value(s.e, 32)
  {
    hide Number, Value, WordBytes, Pow256;
    var a, b, c, d, e := WordBytes(s.a), WordBytes(s.b), WordBytes(s.c), WordBytes(s.d), WordBytes(s.e);
    assert StateBytes(s) == a + (b + (c + (d + e)));
    WordNumber(s.a);
    WordNumber(s.b);
    WordNumber(s.c);
    WordNumber(s.d);
    WordNumber(s.e);
    NumberAppend(a, b + (c + (d + e)));
    NumberAppend(b, c + (d + e));
    NumberAppend(c, d + e);
    NumberAppend(d, e);
  }

  // ----- lengths

  lemma BigEndian32Number(n: nat)
    ensures Number(BigEndian32(n)) == n % 0x1_0000_0000
  {
    FourBytes(n / 0x100_0000 % 256, n / 0x1_0000 % 256, n / 256 % 256, n % 256);
    hide Number;
    var a := n / 256;
    var b := a / 256;
    var c := b / 256;
    assert n / 0x1_0000 == b && n / 0x100_0000 == c;
    Divided(n, 256);
    Divided(a, 256);
    Divided(b, 256);
    Divided(c, 256);
    Quotient(n, c / 256, 0x1_0000_0000, 0x100_0000 * (c % 256) + 0x1_0000 * (b % 256) + 256 * (a % 256) + n % 256);
  }

  /** The length field is the length in bits, modulo 2^64. */
  lemma BigEndian64Number(n: nat)
    ensures Number(BigEndian64(n)) == n % 0x1_0000_0000_0000_0000
  {
    hide Number, BigEndian32;
    var h := n / 0x1_0000_0000;
    BigEndian32Number(h);
    BigEndian32Number(n);
    assert |BigEndian32(n)| == 4 by { FourLong(n); }
    NumberAppend(BigEndian32(h), BigEndian32(n));
    Pow256Four();
    Divided(n, 0x1_0000_0000);
    Divided(h, 0x1_0000_0000);
    Quotient(n, h / 0x1_0000_0000, 0x1_0000_0000_0000_0000, h % 0x1_0000_0000 * 0x1_0000_0000 + n % 0x1_0000_0000);
  }

  lemma FourLong(n: nat)
    ensures |BigEndian32(n)| == 4
  {
  }

  lemma Pow256Four()
    ensures Pow256(4) == 0x1_0000_0000
  {
    assert Pow256(4) == 256 * (256 * (256 * (256 * Pow256(0))));
  }

  // ----- constants

  /** k is the integer part of 2^30 times the square root of n. */
  predicate Root(k: nat, n: nat) {
    k * k <= n * 0x1000_0000_0000_0000 < (k + 1) * (k + 1)
  }

  /** The constants are 2^30 times the square roots of 2, 3, 5 and 10. */
  lemma Roots(t: nat)
    ensures t < 20 ==> Root(0x5A827999, 2) && K(t) == 0x5A827999
    ensures 20 <= t < 40 ==> Root(0x6ED9EBA1, 3) && K(t) == 0x6ED9EBA1
    ensures 40 <= t < 60 ==> Root(0x8F1BBCDC, 5) && K(t) == 0x8F1BBCDC
    ensures 60 <= t ==> Root(0xCA62C1D6, 10) && K(t) == 0xCA62C1D6
  {
  }
}
