/** The CCP byte codec: base-128 numbers, counted strings, and the padded
    block-by-block encryption around a message body. */
module CcpPacket {
  import opened Octets
  import opened EdpWire
  import opened Arithmetic
  import opened EdpCrypto

  // ----- numbers

  const NUMBER_MAX_LEN := 4
  const NUMBER_LIMIT := 0x1000_0000
  const UINT32: nat := 0x1_0000_0000

  /** Whether reading a number from s, k digits of it read already, stays in s. */
  predicate Ends(s: bytes, k: nat)
    requires k <= 4
    decreases 4 - k
  {
    k == NUMBER_MAX_LEN || (s != [] && (s[0] < 128 || Ends(s[1..], k + 1)))
  }

  datatype Read = Read(value: nat, width: nat)

  /** Four digits at most; a fifth byte is counted but not read. */
  function Number(s: bytes, k: nat): (r: Read)
    requires k <= 4 && Ends(s, k)
    ensures 1 <= r.width <= 5 - k && r.value < Capacity(k)
    decreases 4 - k
  {
    if k == NUMBER_MAX_LEN then Read(0, 1)
    else if s[0] < 128 then Read(s[0], 1)
    else
      var r := Number(s[1..], k + 1);
      Read(s[0] - 128 + 128 * r.value, r.width + 1)
  }

  lemma {:induction false} NumberRoundTripFrom(n: nat, k: nat, rest: bytes)
    requires k <= 4 && n < 128 * Capacity(k)
    ensures Ends(Remainlen(n) + rest, k)
    ensures Number(Remainlen(n) + rest, k) == Read(n % Capacity(k), |Remainlen(n)|)
    decreases 4 - k
  {
    var s := Remainlen(n) + rest;
    if k < 4 {
      assert s[0] == Remainlen(n)[0];
      if n >= 128 {
        NumberRoundTripFrom(n / 128, k + 1, rest);
        assert s[1..] == Remainlen(n / 128) + rest;
        DigitModulo(n, Capacity(k + 1));
      }
    }
  }

  lemma DigitModulo(n: nat, c: nat)
    requires c > 0
    ensures n % (128 * c) == n % 128 + 128 * (n / 128 % c)
  {
    var q, r := n / 128 / c, n / 128 % c;
    assert n == 128 * (q * c + r) + n % 128;
    assert n == q * (128 * c) + (128 * r + n % 128);
    assert 0 <= 128 * r + n % 128 < 128 * c;
    Quotient(n, q, 128 * c, 128 * r + n % 128);
  }

  /** Every 32-bit number is read back modulo 2^28, and the reader moves on by
      exactly the bytes that were written, five of them above 2^28. */
  lemma NumberRoundTrip(n: nat, rest: bytes)
    requires n < UINT32
    ensures Ends(Remainlen(n) + rest, 0)
    ensures Number(Remainlen(n) + rest, 0) == Read(n % NUMBER_LIMIT, |Remainlen(n)|)
    ensures |Remainlen(n)| <= 5
  {
    assert Capacity(0) == NUMBER_LIMIT by {
      assert Capacity(2) == 128 * Capacity(3) && Capacity(1) == 128 * Capacity(2);
    }
    NumberRoundTripFrom(n, 0, rest);
  }

  method EncodeVariableNumber(buf: array<byte>, at: nat, v: nat) returns (rc: nat)
    requires at + |Remainlen(v)| <= buf.Length
    modifies buf
    ensures rc == |Remainlen(v)|
    ensures buf[at..at + rc] == Remainlen(v)
    ensures buf[..at] == old(buf[..at]) && buf[at + rc..] == old(buf[at + rc..])
  {
    rc := 0;
    var value := v;
    var more := true;
    ghost var rest := Remainlen(v);
    while more
      invariant more ==> rest == Remainlen(value)
      invariant !more ==> rest == []
      invariant rc <= |Remainlen(v)| && rest == Remainlen(v)[rc..]
      invariant at + |Remainlen(v)| <= buf.Length
      invariant buf[at..at + rc] == Remainlen(v)[..rc]
      invariant buf[..at] == old(buf[..at]) && buf[at + rc..] == old(buf[at + rc..])
      decreases more, value
    {
      var d := value % 128;
      value := value / 128;
      more := value > 0;
      if more { d := d + 128; }
      assert rest[0] == d;
      ghost var out := buf[at..at + rc];
      buf[at + rc] := d;
      rest := rest[1..];
      rc := rc + 1;
      assert buf[at..at + rc] == out + [d];
    }
  }

  lemma NumberStep(s: bytes, k: nat)
    requires k < 4 && Ends(s, k)
    ensures s != [] && (s[0] >= 128 ==> Ends(s[1..], k + 1))
    ensures s[0] < 128 ==> Number(s, k) == Read(s[0] % 128, 1)
    ensures s[0] >= 128 ==> var r := Number(s[1..], k + 1); Number(s, k) == Read(s[0] % 128 + 128 * r.value, r.width + 1)
  {
  }

  lemma Distribute(m: nat, d: nat, v: nat)
    ensures m * (d + 128 * v) == d * m + m * 128 * v
  {
  }

  /** Len digits are summed up in value; the next one counts m times. */
  ghost predicate Decoding(s: bytes, value: nat, m: nat, len: nat) {
    && len <= 4 && len <= |s| && Ends(s, 0) && Ends(s[len..], len)
    && value + m * Number(s[len..], len).value == Number(s, 0).value
    && len + Number(s[len..], len).width == Number(s, 0).width
  }

  lemma DecodeStep(s: bytes, value: nat, m: nat, len: nat)
    requires Decoding(s, value, m, len) && len < 4
    ensures len < |s|
    ensures s[len] < 128 ==> Number(s, 0) == Read(value + s[len] % 128 * m, len + 1)
    ensures s[len] >= 128 ==> Decoding(s, value + s[len] % 128 * m, m * 128, len + 1)
  {
    hide Number, Ends;
    NumberStep(s[len..], len);
    var d := s[len];
    assert s[len..][1..] == s[len + 1..];
    if d >= 128 {
      Distribute(m, d % 128, Number(s[len + 1..], len + 1).value);
    } else {
      Distribute(m, d % 128, 0);
    }
  }

  lemma DecodeEnds(s: bytes, value: nat, m: nat)
    requires Decoding(s, value, m, 4)
    ensures Number(s, 0) == Read(value, 5)
  {
    assert Number(s[4..], 4) == Read(0, 1);
    hide Number;
  }

  method DecodeVariableNumber(s: bytes) returns (value: nat, len: nat)
    requires Ends(s, 0)
    ensures Read(value, len) == Number(s, 0)
  {
    value, len := 0, 0;
    var multiplier: nat := 1;
    var more := true;
    assert Decoding(s, 0, 1, 0) by { assert s[0..] == s; }
    hide Number, Ends, Decoding;
    while more
      invariant len <= 4
      invariant if more then Decoding(s, value, multiplier, len) else Read(value, len) == Number(s, 0)
      decreases more, 5 - len
    {
      len := len + 1;
      if len > NUMBER_MAX_LEN {
        DecodeEnds(s, value, multiplier);
        return;
      }
      DecodeStep(s, value, multiplier, len - 1);
      var uc := s[len - 1];
      value := value + uc % 128 * multiplier;
      multiplier := multiplier * 128;
      more := uc >= 128;
    }
  }

  // ----- strings

  function Counted(t: bytes): bytes
    requires |t| < 0x1_0000
  {
    [|t| / 256, |t| % 256] + t
  }

  method WriteBytes(buf: array<byte>, at: nat, s: bytes) returns (end: nat)
    requires at + |s| <= buf.Length
    modifies buf
    ensures end == at + |s| && buf[..end] == old(buf[..at]) + s
  {
    forall i | 0 <= i < |s| { buf[at + i] := s[i]; }
    end := at + |s|;
  }

  method WriteNumber(buf: array<byte>, at: nat, v: nat) returns (end: nat)
    requires at + |Remainlen(v)| <= buf.Length
    modifies buf
    ensures end == at + |Remainlen(v)| && buf[..end] == old(buf[..at]) + Remainlen(v)
  {
    hide Remainlen;
    var n := EncodeVariableNumber(buf, at, v);
    end := at + n;
    assert buf[..end] == buf[..at] + buf[at..end];
  }

  method EncodeString(buf: array<byte>, at: nat, t: bytes) returns (end: nat)
    requires |t| < 0x1_0000 && 0 !in t && at + 2 + |t| <= buf.Length
    modifies buf
    ensures end == at + |Counted(t)| && buf[..end] == old(buf[..at]) + Counted(t)
  {
    end := WriteBytes(buf, at, [|t| / 256, |t| % 256]);
    end := WriteBytes(buf, end, t);
  }

  // ----- the body under the block cipher

  /** Padding as section 6.3 of RFC 5652 defines it. */
  function Pkcs(body: bytes): (r: bytes)
    ensures |r| == |body| + PadLength(|body|) && |r| % BLOCK == 0 && body < r
  {
    body + Repeat(PadLength(|body|), PadLength(|body|))
  }

  /** One to sixteen bytes, each their number. */
  lemma PkcsBytes(body: bytes)
    ensures var r := Pkcs(body); var n := |r| - |body|;
      && 1 <= n <= 16 && |r| % 16 == 0 && r[..|body|] == body
      && forall i :: |body| <= i < |r| ==> r[i] as int == n
  {
  }

  method PadInPlace(input: array<byte>, i: nat, inLen: nat)
    requires i <= inLen < i + BLOCK <= input.Length && i % BLOCK == 0
    modifies input
    ensures input[..i + BLOCK] == Pkcs(old(input[..inLen]))
  {
    var pad := i + BLOCK - inLen;
    assert pad == PadLength(inLen) by { LastBlock(i, inLen); }
    var j := inLen;
    while j < i + BLOCK
      invariant inLen <= j <= i + BLOCK
      invariant input[..inLen] == old(input[..inLen])
      invariant forall k :: inLen <= k < j ==> input[k] == pad
    {
      input[j] := pad;
      j := j + 1;
    }
    assert input[..i + BLOCK] == input[..inLen] + input[inLen..i + BLOCK];
  }

  lemma LastBlock(i: nat, n: nat)
    requires i <= n < i + BLOCK && i % BLOCK == 0
    ensures PadLength(n) == i + BLOCK - n
  {
    assert n % BLOCK == n - i by { Quotient(n, i / BLOCK, BLOCK, n - i); }
  }

  lemma MapSnoc(f: Block -> Block, s: bytes, i: nat)
    requires i % BLOCK == 0 && i + BLOCK <= |s|
    ensures |s[..i]| % BLOCK == 0 && |s[..i + BLOCK]| % BLOCK == 0
    ensures MapBlocks(f, s[..i + BLOCK]) == MapBlocks(f, s[..i]) + f(s[i..i + BLOCK])
  {
    var b := s[i..i + BLOCK];
    assert s[..i + BLOCK] == s[..i] + b;
    MapAppend(f, s[..i], b);
    assert b[..BLOCK] == b && b[BLOCK..] == [];
    assert MapBlocks(f, b) == f(b) + [];
  }

  method EcbEncrypt(c: Cipher, input: array<byte>, output: array<byte>, inLen: nat) returns (outLen: nat)
    requires input != output && inLen + PadLength(inLen) <= input.Length && inLen + PadLength(inLen) <= output.Length
    modifies input, output
    ensures outLen == inLen + PadLength(inLen)
    ensures output[..outLen] == MapBlocks(c.enc, Pkcs(old(input[..inLen])))
  {
    hide MapBlocks, Pkcs, PadLength;
    ghost var body := input[..inLen];
    ghost var full := Pkcs(body);
    var i: nat := 0;
    assert output[..0] == MapBlocks(c.enc, full[..0]) by { NoBlocks(c.enc); assert full[..0] == []; }
    while i <= inLen
      invariant i % BLOCK == 0 && i <= |full|
      invariant i <= inLen ==> input[..inLen] == body
      invariant output[..i] == MapBlocks(c.enc, full[..i])
      invariant i > inLen ==> i == |full|
      decreases |full| - i
    {
      if i + BLOCK > inLen {
        PadInPlace(input, i, inLen);
        LastBlock(i, inLen);
        assert input[i..i + BLOCK] == full[i..i + BLOCK];
      } else {
        Within(input[..inLen], input[..], i, i + BLOCK);
        Within(body, full, i, i + BLOCK);
      }
      MapSnoc(c.enc, full, i);
      var e := c.enc(input[i..i + BLOCK]);
      i := WriteBytes(output, i, e);
    }
    assert full[..i] == full;
    outLen := i;
  }

  lemma Within(a: bytes, b: bytes, lo: nat, hi: nat)
    requires a <= b && lo <= hi <= |a|
    ensures a[lo..hi] == b[lo..hi]
  {
    assert a == b[..|a|];
  }

  lemma NoBlocks(f: Block -> Block)
    ensures MapBlocks(f, []) == []
  {
  }

  /** The length it reports is negative when the last byte claims more padding
      than there are bytes. */
  method EcbDecrypt(c: Cipher, input: bytes, output: array<byte>) returns (outLen: int)
    requires |input| % BLOCK == 0 && 0 < |input| == output.Length
    modifies output
    ensures output[..] == MapBlocks(c.dec, input)
    ensures outLen == |input| - output[|input| - 1] as int
  {
    hide MapBlocks;
    var i: nat := 0;
    assert output[..0] == MapBlocks(c.dec, input[..0]) by { NoBlocks(c.dec); assert input[..0] == []; }
    while i < |input|
      invariant i % BLOCK == 0 && i <= |input| == output.Length
      invariant output[..i] == MapBlocks(c.dec, input[..i])
    {
      ghost var out := output[..i];
      MapSnoc(c.dec, input, i);
      var d := c.dec(input[i..i + BLOCK]);
      forall k | 0 <= k < BLOCK { output[i + k] := d[k]; }
      assert output[..i + BLOCK] == out + d;
      i := i + BLOCK;
    }
    assert input[..i] == input && output[..i] == output[..];
    outLen := |input| - output[|input| - 1];
  }
}
