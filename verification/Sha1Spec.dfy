/** SHA-1 as sections 4.1.1, 5.1.1, 6.1.2 and 6.1.3 of FIPS 180-4 define it, and
    HMAC as section 2 of RFC 2104 does. */
module Sha1Spec {
  import opened Octets
  import opened Arithmetic

  type word = bv32

  function Rotl(x: word, n: nat): word
    requires 0 < n < 32
  {
    (x << n) | (x >> (32 - n))
  }

  // ----- section 4.1.1 and 4.2.1

  function Ch(x: word, y: word, z: word): word { (x & y) ^ (!x & z) }
  function Parity(x: word, y: word, z: word): word { x ^ y ^ z }
  function Maj(x: word, y: word, z: word): word { (x & y) ^ (x & z) ^ (y & z) }

  function F(t: nat, x: word, y: word, z: word): word {
    if t < 20 then Ch(x, y, z) else if t < 40 then Parity(x, y, z) else if t < 60 then Maj(x, y, z) else Parity(x, y, z)
  }

  function K(t: nat): word {
    if t < 20 then 0x5A827999 else if t < 40 then 0x6ED9EBA1 else if t < 60 then 0x8F1BBCDC else 0xCA62C1D6
  }

  // ----- section 6.1.2

  datatype State = State(a: word, b: word, c: word, d: word, e: word)

  const IV := State(0x67452301, 0xEFCDAB89, 0x98BADCFE, 0x10325476, 0xC3D2E1F0)

  function WordAt(block: seq<byte>, i: nat): word
    requires 4 * i + 4 <= |block|
  {
    Pack(block[4 * i], block[4 * i + 1], block[4 * i + 2], block[4 * i + 3])
  }

  /** Four bytes as a word, the first the most significant. */
  function Pack(a: byte, b: byte, c: byte, d: byte): word {
    (ToWord(a) << 24) | (ToWord(b) << 16) | (ToWord(c) << 8) | ToWord(d)
  }

  /** The word with the eight binary digits of a byte, found from the highest on. */
  function ToWord(a: byte): word {
    var b := Less(a, 128);
    var c := Less(b, 64);
    var d := Less(c, 32);
    var e := Less(d, 16);
    var f := Less(e, 8);
    var g := Less(f, 4);
    var h := Less(g, 2);
    FromBits(h >= 1, g >= 2, f >= 4, e >= 8, d >= 16, c >= 32, b >= 64, a >= 128)
  }

  function Less(n: nat, p: nat): nat { if n >= p then n - p else n }

  function FromBits(a: bool, b: bool, c: bool, d: bool, e: bool, f: bool, g: bool, h: bool): word {
    (if a then 0x01 else 0) | (if b then 0x02 else 0) | (if c then 0x04 else 0) | (if d then 0x08 else 0)
    | (if e then 0x10 else 0) | (if f then 0x20 else 0) | (if g then 0x40 else 0) | (if h then 0x80 else 0)
  }

  /** The message schedule. */
  function W(block: seq<byte>, t: nat): word
    requires |block| == 64
  {
    if t < 16 then WordAt(block, t)
    else Mix(W(block, t - 3), W(block, t - 8), W(block, t - 14), W(block, t - 16))
  }

  function Mix(a: word, b: word, c: word, d: word): word {
    Rotl(a ^ b ^ c ^ d, 1)
  }

  function Sum(a: word, f: word, e: word, k: word, w: word): word {
    a + f + e + k + w
  }

  function Round(s: State, t: nat, w: word): State {
    State(Sum(Rotl(s.a, 5), F(t, s.b, s.c, s.d), s.e, K(t), w), s.a, Rotl(s.b, 30), s.c, s.d)
  }

  /** The working variables after rounds 0 to t - 1. */
  function Rounds(s: State, block: seq<byte>, t: nat): State
    requires |block| == 64
  {
    if t == 0 then s else Round(Rounds(s, block, t - 1), t - 1, W(block, t - 1))
  }

  function Add(s: State, r: State): State {
    State(s.a + r.a, s.b + r.b, s.c + r.c, s.d + r.d, s.e + r.e)
  }

  function Compress(s: State, block: seq<byte>): State
    requires |block| == 64
  {
    Add(s, Rounds(s, block, 80))
  }

  function HashBlocks(s: State, m: seq<byte>): State
    requires |m| % 64 == 0
    decreases |m|
  {
    if m == [] then s else HashBlocks(Compress(s, m[..64]), m[64..])
  }

  // ----- section 5.1.1

  function Octet(n: nat): byte {
    n % 256
  }

  function BigEndian32(n: nat): seq<byte> {
    [Octet(n / 0x100_0000), Octet(n / 0x1_0000), Octet(n / 256), Octet(n)]
  }

  function BigEndian64(n: nat): seq<byte> {
    BigEndian32(n / 0x1_0000_0000) + BigEndian32(n)
  }

  /** How many zero bytes follow the 1 bit so that eight bytes complete a block. */
  function ZeroCount(n: nat): (k: nat)
    ensures k < 64 && (n + 1 + k + 8) % 64 == 0
  {
    (119 - n % 64) % 64
  }

  /** A message padded as if it had `bits` bits. */
  function PadWith(m: seq<byte>, bits: nat): (r: seq<byte>)
    ensures |r| % 64 == 0
  {
    m + [0x80] + Zeros(ZeroCount(|m|)) + BigEndian64(bits)
  }

  const MAX_MESSAGE: nat := 0x2000_0000_0000_0000

  function Pad(m: seq<byte>): seq<byte> {
    PadWith(m, 8 * |m|)
  }

  // ----- section 6.1.3

  /** The number the lowest k binary digits of a word stand for. */
  function Value(w: word, k: nat): (n: nat)
    ensures n < Pow2(k)
  {
    if k == 0 then 0 else (if w & 1 == 1 then 1 else 0) + 2 * Value(w >> 1, k - 1)
  }

  function LowByte(w: word): byte {
    Pow2Byte();
    Value(w, 8)
  }

  function WordBytes(w: word): (r: seq<byte>)
    ensures |r| == 4
  {
    [LowByte(w >> 24), LowByte(w >> 16), LowByte(w >> 8), LowByte(w)]
  }

  function StateBytes(s: State): (r: seq<byte>)
    ensures |r| == 20
  {
    WordBytes(s.a) + WordBytes(s.b) + WordBytes(s.c) + WordBytes(s.d) + WordBytes(s.e)
  }

  function Digest(m: seq<byte>): (r: seq<byte>)
    requires |m| < MAX_MESSAGE
    ensures |r| == 20
  {
    StateBytes(HashBlocks(IV, Pad(m)))
  }

  // ----- RFC 2104

  function Xor(a: byte, b: byte): byte {
    ((a as bv8) ^ (b as bv8)) as int
  }

  function XorAll(s: seq<byte>, b: byte): (r: seq<byte>)
    ensures |r| == |s|
  {
    seq(|s|, i requires 0 <= i < |s| => Xor(s[i], b))
  }

  function PadKey(key: seq<byte>): (r: seq<byte>)
    requires |key| <= 64
    ensures |r| == 64
  {
    key + Zeros(64 - |key|)
  }

  function Mac(key: seq<byte>, text: seq<byte>): (r: seq<byte>)
    requires |key| <= 64 && |text| + 64 < MAX_MESSAGE
    ensures |r| == 20
  {
    var k := PadKey(key);
    Digest(XorAll(k, 0x5c) + Digest(XorAll(k, 0x36) + text))
  }
}
