/** What the streaming context computes in the end, and HMAC on top of it. */
module Hmac {
  import opened Sequences
  import opened Octets
  import opened Sha1Spec
  import opened Sha1Stream

  // ----- when the streamed digest is the standard one

  lemma BigEndian32Injective(a: nat, b: nat)
    requires a < U32 && b < U32 && BigEndian32(a) == BigEndian32(b)
    ensures a == b
  {
    Digits256(a);
    Digits256(b);
    var x, y := BigEndian32(a), BigEndian32(b);
    assert x[0] == y[0] && x[1] == y[1] && x[2] == y[2] && x[3] == y[3];
  }

  lemma Digits256(n: nat)
    requires n < U32
    ensures n == n / 0x100_0000 % 256 * 0x100_0000 + n / 0x1_0000 % 256 * 0x1_0000 + n / 256 % 256 * 256 + n % 256
  {
    var a, b := n / 256, n / 0x1_0000;
    assert b == a / 256 && n / 0x100_0000 == b / 256;
  }

  lemma BigEndian64Injective(a: nat, b: nat)
    requires a < U64 && b < U64 && BigEndian64(a) == BigEndian64(b)
    ensures a == b
  {
    hide BigEndian32;
    BigEndian32Low(a, a % U32, a / U32);
    BigEndian32Low(b, b % U32, b / U32);
    assert BigEndian32(a / U32) == BigEndian64(a)[..4] && BigEndian32(a) == BigEndian64(a)[4..] by { FourBytes(a / U32); }
    assert BigEndian32(b / U32) == BigEndian64(b)[..4] && BigEndian32(b) == BigEndian64(b)[4..] by { FourBytes(b / U32); }
    BigEndian32Injective(a / U32, b / U32);
    BigEndian32Injective(a % U32, b % U32);
  }

  lemma FourBytes(n: nat)
    ensures |BigEndian32(n)| == 4
  {
  }

  lemma BitsRight(n: nat, lost: nat)
    requires n < MAX_MESSAGE && lost * U32 <= n
    ensures 8 * Counted(n, lost) % U64 == 8 * n <==> lost == 0
  {
    assert Counted(n, lost) == n - lost * U32;
  }

  /** The padding for the length counted is the standard's exactly when the
      counter missed nothing. */
  lemma PaddingRight(m: seq<byte>, lost: nat)
    requires |m| < MAX_MESSAGE && lost * U32 <= |m|
    ensures PadWith(m, 8 * Counted(|m|, lost) % U64) == Pad(m) <==> lost == 0
  {
    hide BigEndian64, Counted;
    BitsRight(|m|, lost);
    var bits := 8 * Counted(|m|, lost) % U64;
    var head := m + [0x80] + Zeros(ZeroCount(|m|));
    if PadWith(m, bits) == Pad(m) {
      assert PadWith(m, bits)[|head|..] == BigEndian64(bits);
      assert Pad(m)[|head|..] == BigEndian64(8 * |m|);
      BigEndian64Injective(bits, 8 * |m|);
    }
  }

  /** What the counter misses: the whole 2^32 in the length of each update. */
  function Lost(chunks: seq<seq<byte>>): nat {
    if chunks == [] then 0 else Lost(chunks[..|chunks| - 1]) + |chunks[|chunks| - 1]| / U32
  }

  ghost predicate Short(chunks: seq<seq<byte>>) {
    forall i :: 0 <= i < |chunks| ==> |chunks[i]| < U32
  }

  lemma WholeWords(n: nat)
    ensures n / U32 * U32 <= n
    ensures n / U32 == 0 <==> n < U32
  {
  }

  lemma {:induction false} LostWhen(chunks: seq<seq<byte>>)
    ensures Lost(chunks) * U32 <= |Flatten(chunks)|
    ensures Lost(chunks) == 0 <==> Short(chunks)
  {
    if chunks != [] {
      var front, last := chunks[..|chunks| - 1], chunks[|chunks| - 1];
      LostWhen(front);
      assert chunks == front + [last];
      FlattenSnoc(front, last);
      WholeWords(|last|);
    }
  }

  /** The message as the context pads it after these updates. */
  function PadChunks(chunks: seq<seq<byte>>): (m: seq<byte>)
    ensures |m| % 64 == 0
  {
    PadWith(Flatten(chunks), 8 * Counted(|Flatten(chunks)|, Lost(chunks)) % U64)
  }

  /** It is the standard's padding exactly when every update was below 2^32 bytes. */
  lemma ChunksPadded(chunks: seq<seq<byte>>)
    requires |Flatten(chunks)| < MAX_MESSAGE
    ensures PadChunks(chunks) == Pad(Flatten(chunks)) <==> Short(chunks)
  {
    hide PadWith, Pad, Counted, Short;
    LostWhen(chunks);
    PaddingRight(Flatten(chunks), Lost(chunks));
  }

  /** For every message and every way of splitting it into updates: the hash of
      the message padded for the length counted, which is the standard digest
      when every update is below 2^32 bytes. */
  method HashChunks(chunks: seq<seq<byte>>) returns (digest: seq<byte>)
    ensures digest == StateBytes(HashBlocks(IV, PadChunks(chunks)))
    ensures |Flatten(chunks)| < MAX_MESSAGE && Short(chunks) ==> digest == Digest(Flatten(chunks))
  {
    hide PadWith, Pad, Counted, HashBlocks, StateBytes, Short, Flatten, Lost;
    var ctx := new Context();
    FeedAll(ctx, chunks);
    digest := ctx.Finish();
    if |Flatten(chunks)| < MAX_MESSAGE { ChunksPadded(chunks); }
  }

  lemma NextChunk(chunks: seq<seq<byte>>, i: nat)
    requires i < |chunks|
    ensures Flatten(chunks[..i + 1]) == Flatten(chunks[..i]) + chunks[i]
    ensures Lost(chunks[..i + 1]) == Lost(chunks[..i]) + |chunks[i]| / U32
  {
    hide Flatten;
    assert chunks[..i + 1][..i] == chunks[..i] && chunks[..i + 1] == chunks[..i] + [chunks[i]];
    FlattenSnoc(chunks[..i], chunks[i]);
  }

  lemma NoChunk()
    ensures Flatten<byte>([]) == [] && Lost([]) == 0
  {
  }

  method FeedAll(ctx: Context, chunks: seq<seq<byte>>)
    requires ctx.Valid() && ctx.msg == [] && ctx.lost == 0
    modifies ctx, ctx.buffer
    ensures ctx.Valid() && ctx.msg == Flatten(chunks) && ctx.lost == Lost(chunks)
  {
    hide *;
    NoChunk();
    var i := 0;
    assert chunks[..0] == [];
    while i < |chunks|
      invariant 0 <= i <= |chunks| && ctx.Valid()
      invariant ctx.msg == Flatten(chunks[..i]) && ctx.lost == Lost(chunks[..i])
    {
      NextChunk(chunks, i);
      ctx.Update(chunks[i]);
      i := i + 1;
    }
    assert chunks[..i] == chunks;
  }

  method FinishExact(ctx: Context) returns (digest: seq<byte>)
    requires ctx.Valid() && ctx.lost == 0 && |ctx.msg| < MAX_MESSAGE
    modifies ctx, ctx.buffer
    ensures digest == Digest(old(ctx.msg))
  {
    hide PadWith, HashBlocks, Counted, StateBytes;
    PaddingRight(ctx.msg, 0);
    digest := ctx.Finish();
  }

  /** The one-call form. */
  method Sha1Of(input: seq<byte>) returns (digest: seq<byte>)
    ensures digest == StateBytes(HashBlocks(IV, PadChunks([input])))
    ensures |input| < U32 ==> digest == Digest(input)
  {
    hide Digest, PadChunks;
    digest := HashChunks([input]);
    assert Flatten([input]) == input + [] == input;
  }

  // ----- HMAC

  method HmacBytes(msg: seq<byte>, key: seq<byte>) returns (out: seq<byte>)
    requires |key| <= 64 && |msg| < 0x8000_0000
    ensures out == Mac(key, msg)
  {
    var ipad, opad := new byte[64](_ => 0), new byte[64](_ => 0);
    forall i | 0 <= i < |key| { ipad[i] := key[i]; }
    forall i | 0 <= i < |key| { opad[i] := key[i]; }
    ghost var k := PadKey(key);
    assert ipad[..] == k && opad[..] == k;
    var i := 0;
    while i < 64
      invariant 0 <= i <= 64 && ipad.Length == opad.Length == 64 && ipad != opad
      invariant forall j :: 0 <= j < i ==> ipad[j] == Xor(k[j], 0x36) && opad[j] == Xor(k[j], 0x5c)
      invariant forall j :: i <= j < 64 ==> ipad[j] == k[j] && opad[j] == k[j]
    {
      ipad[i] := Xor(ipad[i], 0x36);
      opad[i] := Xor(opad[i], 0x5c);
      i := i + 1;
    }
    assert ipad[..] == XorAll(k, 0x36) && opad[..] == XorAll(k, 0x5c);
    out := TwoPart(ipad[..], msg);
    out := TwoPart(opad[..], out);
  }

  /** One pass of the hash over a pad and a text. */
  method TwoPart(pad: seq<byte>, text: seq<byte>) returns (digest: seq<byte>)
    requires |pad| == 64 && |text| < 0x8000_0000
    ensures digest == Digest(pad + text)
  {
    hide Digest;
    var ctx := new Context();
    ctx.Starts();
    ctx.Update(pad);
    ctx.Update(text);
    assert [] + pad == pad;
    digest := FinishExact(ctx);
  }

  // ----- the digest as text

  function HexDigit(b: byte): (c: char)
    ensures IsHex(c)
  {
    var h := b as int % 16;
    if h < 10 then (h + '0' as int) as char else (h - 10 + 'A' as int) as char
  }

  function Hex(s: seq<byte>): string {
    if s == [] then [] else [HexDigit(s[0] / 16), HexDigit(s[0])] + Hex(s[1..])
  }

  function Unhex(t: string): seq<byte> {
    if |t| < 2 || !IsHex(t[0]) || !IsHex(t[1]) then [] else [Octet(HexValue(t[0]) * 16 + HexValue(t[1]))] + Unhex(t[2..])
  }

  lemma HexByte(b: byte)
    ensures Octet(HexValue(HexDigit(b / 16)) * 16 + HexValue(HexDigit(b))) == b
  {
    var h, l := b as int / 16, b as int % 16;
    assert HexValue(HexDigit(b / 16)) == h && HexValue(HexDigit(b)) == l;
  }

  /** The printed digest determines the digest. */
  lemma {:induction false} UnhexHex(s: seq<byte>)
    ensures Unhex(Hex(s)) == s && |Hex(s)| == 2 * |s|
  {
    if s != [] {
      HexByte(s[0]);
      UnhexHex(s[1..]);
      assert Hex(s)[2..] == Hex(s[1..]);
    }
  }

  lemma HexNext(s: seq<byte>, i: nat)
    requires i < |s|
    ensures Hex(s[i..]) == [HexDigit(s[i] / 16), HexDigit(s[i])] + Hex(s[i + 1..])
  {
    assert s[i..][1..] == s[i + 1..];
  }

  method HexText(s: seq<byte>) returns (t: string)
    ensures t == Hex(s)
  {
    hide HexDigit, Hex;
    t := [];
    var i := 0;
    assert s[0..] == s;
    while i < |s|
      invariant 0 <= i <= |s|
      invariant t + Hex(s[i..]) == Hex(s)
    {
      HexNext(s, i);
      var two := [HexDigit(s[i] / 16), HexDigit(s[i])];
      Assoc(t, two, Hex(s[i + 1..]));
      t, i := t + two, i + 1;
    }
    HexOfNone(s[i..]);
    assert t + [] == t;
  }

  lemma HexOfNone(s: seq<byte>)
    ensures s == [] ==> Hex(s) == []
  {
  }

  method HmacSha1(msg: seq<byte>, key: seq<byte>) returns (digest: string)
    requires |key| <= 64 && |msg| < 0x8000_0000
    ensures digest == Hex(Mac(key, msg))
  {
    hide Hex, Mac;
    var out := HmacBytes(msg, key);
    digest := HexText(out);
  }
}
