/** In-place encryption of a packet body.  Padding makes the body longer, so the
    length field may need one more byte and the body is shifted to make room. */
module EdpCrypto {
  import opened Sequences
  import opened Octets
  import opened EdpWire
  import opened EdpStream
  import opened EdpBuffer

  const BLOCK: nat := 16

  type Block = s: bytes | |s| == BLOCK witness [0, 0, 0, 0, 0, 0, 0, 0, 0, 0, 0, 0, 0, 0, 0, 0]

  /** The block cipher under one key. */
  datatype Cipher = Cipher(enc: Block -> Block, dec: Block -> Block)

  ghost predicate Inverse(c: Cipher) {
    forall b: Block :: c.dec(c.enc(b)) == b
  }

  function MapBlocks(f: Block -> Block, s: bytes): (r: bytes)
    requires |s| % BLOCK == 0
    ensures |r| == |s|
    decreases |s|
  {
    if s == [] then [] else f(s[..BLOCK]) + MapBlocks(f, s[BLOCK..])
  }

  lemma {:induction false} MapInverse(c: Cipher, s: bytes)
    requires Inverse(c) && |s| % BLOCK == 0
    ensures MapBlocks(c.dec, MapBlocks(c.enc, s)) == s
    decreases |s|
  {
    if s != [] {
      var e: bytes, more: bytes := c.enc(s[..BLOCK]), MapBlocks(c.enc, s[BLOCK..]);
      assert (e + more)[..BLOCK] == e && (e + more)[BLOCK..] == more;
      MapInverse(c, s[BLOCK..]);
    }
  }

  lemma {:induction false} MapAppend(f: Block -> Block, s: bytes, t: bytes)
    requires |s| % BLOCK == 0 && |t| % BLOCK == 0
    ensures MapBlocks(f, s + t) == MapBlocks(f, s) + MapBlocks(f, t)
    decreases |s|
  {
    if s == [] {
      assert s + t == t;
    } else {
      assert (s + t)[..BLOCK] == s[..BLOCK] && (s + t)[BLOCK..] == s[BLOCK..] + t;
      MapAppend(f, s[BLOCK..], t);
      Assoc(f(s[..BLOCK]), MapBlocks(f, s[BLOCK..]), MapBlocks(f, t));
    }
  }

  // ----- padding: n bytes of value '0' + n, with n from 1 to a whole block

  const ZERO: byte := 0x30

  function Repeat(b: byte, n: nat): (s: bytes)
    ensures |s| == n && forall i :: 0 <= i < n ==> s[i] == b
  {
    seq(n, _ => b)
  }

  function PadLength(n: nat): (p: nat)
    ensures 1 <= p <= BLOCK && (n + p) % BLOCK == 0
  {
    BLOCK - n % BLOCK
  }

  function Padded(body: bytes): (r: bytes)
    ensures |r| % BLOCK == 0 && body < r
  {
    body + Repeat(ZERO + PadLength(|body|), PadLength(|body|))
  }

  /** One to sixteen bytes, each the digit character of their number or beyond. */
  lemma PaddingBytes(body: bytes)
    ensures var r := Padded(body); var n := |r| - |body|;
      && 1 <= n <= 16 && |r| % 16 == 0 && r[..|body|] == body
      && forall i :: |body| <= i < |r| ==> r[i] as int == '0' as int + n
  {
  }

  /** What is left of a decrypted body, or nothing when its last byte is not a
      padding byte. */
  datatype Stripped = BadPadding | Body(body: bytes)

  function Strip(s: bytes): Stripped
    requires s != [] && |s| % BLOCK == 0
  {
    var n := s[|s| - 1] as int - ZERO as int;
    if 0 <= n <= BLOCK then Body(s[..|s| - n]) else BadPadding
  }

  lemma StripPadded(body: bytes)
    ensures Strip(Padded(body)) == Body(body)
  {
    var p, n := Padded(body), PadLength(|body|);
    assert p[|p| - 1] == ZERO + n;
    assert p[..|p| - n] == body;
  }

  // ----- the packet as a value

  /** A packet as the length reader accepts it; the length field need not be the
      shortest one. */
  ghost predicate Framed(p: bytes, kind: byte, field: bytes, body: bytes) {
    && p == [kind] + field + body
    && LengthFrom(field + body, 0) == Length(|body|, |field|)
  }

  function Whole(body: bytes): (n: nat)
    ensures n <= |body| && n % BLOCK == 0 && n + BLOCK > |body|
  {
    |body| / BLOCK * BLOCK
  }

  function Decrypted(c: Cipher, body: bytes): Stripped {
    var n := Whole(body);
    if n == 0 then BadPadding else Strip(MapBlocks(c.dec, body[..n]))
  }

  /** The body of an encrypted packet.  When the new length field is shorter than
      the old one the source leaves the body where it is, so the tail of the old
      field becomes part of the packet. */
  function Carried(c: Cipher, field: bytes, body: bytes): (r: bytes)
    ensures |r| == |Padded(body)|
  {
    var e := MapBlocks(c.enc, Padded(body));
    var head := Remainlen(|e|);
    if |head| < |field| then (field[|head|..] + e)[..|e|] else e
  }

  function Encrypted(c: Cipher, kind: byte, field: bytes, body: bytes): bytes {
    Frame(kind, |Padded(body)|, Carried(c, field, body))
  }

  lemma {:induction false} WidthMonotone(m: nat, n: nat)
    requires m <= n
    ensures |Remainlen(m)| <= |Remainlen(n)|
  {
    if m >= 128 { WidthMonotone(m / 128, n / 128); }
  }

  lemma EncryptedFramed(c: Cipher, kind: byte, field: bytes, body: bytes)
    requires |Padded(body)| < LENGTH_LIMIT
    ensures Framed(Encrypted(c, kind, field, body), kind, Remainlen(|Padded(body)|), Carried(c, field, body))
  {
    LengthRoundTrip(|Padded(body)|, Carried(c, field, body));
  }

  lemma CarriedWhole(c: Cipher, body: bytes)
    requires Inverse(c)
    ensures Decrypted(c, Carried(c, Remainlen(|body|), body)) == Body(body)
  {
    hide MapBlocks, Padded, Strip, Remainlen, Whole;
    var p := Padded(body);
    var e := MapBlocks(c.enc, p);
    WidthMonotone(|body|, |e|);
    StripPadded(body);
    WholeBlocks(e);
    MapInverse(c, p);
  }

  lemma WholeBlocks(s: bytes)
    requires |s| % BLOCK == 0
    ensures Whole(s) == |s| && s[..Whole(s)] == s
  {
  }

  /** Two readings of the same packet are the same reading. */
  lemma FrameDetermines(kind: byte, field: bytes, body: bytes, b: bytes)
    requires Framed([kind] + field + body, kind, field, body) && |b| < LENGTH_LIMIT
    requires Frame(kind, |b|, b) == [kind] + field + body
    ensures field == Remainlen(|body|)
  {
    hide LengthFrom, Remainlen;
    LengthRoundTrip(|b|, b);
    Tail(kind, field, body);
    Tail(kind, Remainlen(|b|), b);
    SamePrefix(field, body, Remainlen(|b|), b);
  }

  lemma Tail(kind: byte, field: bytes, body: bytes)
    ensures ([kind] + field + body)[1..] == field + body
  {
  }

  lemma SamePrefix(a: bytes, x: bytes, b: bytes, y: bytes)
    requires a + x == b + y && |a| == |b|
    ensures a == b
  {
    assert a == (a + x)[..|a|] && b == (b + y)[..|b|];
  }

  /** Decrypting an encrypted packet gives its bytes back, and with them its
      length, exactly when its length field was the shortest one. */
  lemma CryptRoundTrip(c: Cipher, p: bytes, kind: byte, field: bytes, body: bytes)
    requires Inverse(c) && Framed(p, kind, field, body) && |Padded(body)| < LENGTH_LIMIT
    ensures var d := Decrypted(c, Carried(c, field, body));
            d.Body? && Frame(kind, |d.body|, d.body) == p <==> field == Remainlen(|body|)
  {
    var d := Decrypted(c, Carried(c, field, body));
    if field == Remainlen(|body|) {
      CarriedWhole(c, body);
    } else if d.Body? && Frame(kind, |d.body|, d.body) == p {
      FrameDetermines(kind, field, body, d.body);
    }
  }

  // ----- the methods

  method CryptBlock(data: array<byte>, at: nat, f: Block -> Block)
    requires at + BLOCK <= data.Length
    modifies data
    ensures data[..at] == old(data[..at])
    ensures data[at..at + BLOCK] == f(old(data[at..at + BLOCK]))
    ensures data[at + BLOCK..] == old(data[at + BLOCK..])
  {
    var e := f(data[at..at + BLOCK]);
    forall k | 0 <= k < BLOCK {
      data[at + k] := e[k];
    }
  }

  lemma MapSnoc(f: Block -> Block, s: bytes, at: nat, n: nat)
    requires n % BLOCK == 0 && at + n + BLOCK <= |s|
    ensures MapBlocks(f, s[at..at + n + BLOCK]) == MapBlocks(f, s[at..at + n]) + f(s[at + n..at + n + BLOCK])
  {
    var b := s[at + n..at + n + BLOCK];
    assert s[at..at + n + BLOCK] == s[at..at + n] + b;
    MapAppend(f, s[at..at + n], b);
    assert b[..BLOCK] == b && b[BLOCK..] == [];
  }

  /** `now` is `was` with the blocks from `at` to `end` mapped. */
  ghost predicate Mapped(f: Block -> Block, was: bytes, now: bytes, at: nat, end: nat) {
    && at <= end <= |was| == |now| && (end - at) % BLOCK == 0
    && now[..at] == was[..at] && now[at..end] == MapBlocks(f, was[at..end]) && now[end..] == was[end..]
  }

  lemma MappedStep(f: Block -> Block, was: bytes, before: bytes, after: bytes, at: nat, end: nat)
    requires Mapped(f, was, before, at, end) && |after| == |was| && end + BLOCK <= |was|
    requires after[..end] == before[..end] && after[end + BLOCK..] == before[end + BLOCK..]
    requires after[end..end + BLOCK] == f(before[end..end + BLOCK])
    ensures Mapped(f, was, after, at, end + BLOCK)
  {
    hide MapBlocks;
    MapSnoc(f, was, at, end - at);
    assert before[end..end + BLOCK] == before[end..][..BLOCK] == was[end..end + BLOCK];
    assert before[end + BLOCK..] == before[end..][BLOCK..] == was[end + BLOCK..];
    assert after[..at] == after[..end][..at] && before[..at] == before[..end][..at];
    assert after[at..end] == after[..end][at..] && before[at..end] == before[..end][at..];
    assert after[at..end + BLOCK] == after[at..end] + after[end..end + BLOCK];
  }

  method CryptBlocks(data: array<byte>, at: nat, count: nat, f: Block -> Block)
    requires at + count * BLOCK <= data.Length
    modifies data
    ensures Mapped(f, old(data[..]), data[..], at, at + count * BLOCK)
  {
    ghost var was := data[..];
    assert Mapped(f, was, was, at, at) by { MapNone(f); }
    hide MapBlocks, Mapped;
    var i := 0;
    while i < count
      invariant 0 <= i <= count
      invariant Mapped(f, was, data[..], at, at + i * BLOCK)
    {
      var adder := at + i * BLOCK;
      ghost var before := data[..];
      CryptBlock(data, adder, f);
      MappedStep(f, was, before, data[..], at, adder);
      i := i + 1;
    }
  }

  lemma MapNone(f: Block -> Block)
    ensures MapBlocks(f, []) == []
  {
  }

  /** How long the header is for a body of `n` bytes: written to a scratch packet. */
  method HeaderEnd(n: nat) returns (pos: nat)
    requires n < LENGTH_LIMIT
    ensures pos == 1 + |Remainlen(n)|
  {
    LengthRoundTrip(n, []);
    var tmpBuf := new byte[5];
    var tmp := new Buffer.Over(tmpBuf, 1);
    tmp.WriteRemainlen(n);
    pos := tmp.writePos;
  }

  method ShiftRight(data: array<byte>, at: nat, len: nat, diff: nat)
    requires 0 < diff && at + len + diff <= data.Length
    modifies data
    ensures data[..at] == old(data[..at])
    ensures data[at + diff..at + diff + len] == old(data[at..at + len])
  {
    ghost var was := data[..];
    var i := len;
    while i > 0
      invariant 0 <= i <= len
      invariant forall k :: 0 <= k < at + i ==> data[k] == was[k]
      invariant forall k :: at + diff + i <= k < at + diff + len ==> data[k] == was[k - diff]
    {
      data[at + i + diff - 1] := data[at + i - 1];
      i := i - 1;
    }
  }

  method ShiftLeft(data: array<byte>, at: nat, len: nat, diff: nat)
    requires 0 < diff <= at && at + len <= data.Length
    modifies data
    ensures data[..at - diff] == old(data[..at - diff])
    ensures data[at - diff..at - diff + len] == old(data[at..at + len])
  {
    ghost var was := data[..];
    var i := 0;
    while i < len
      invariant 0 <= i <= len
      invariant forall k :: 0 <= k < at - diff ==> data[k] == was[k]
      invariant forall k :: at - diff <= k < at - diff + i ==> data[k] == was[k + diff]
      invariant forall k :: at - diff + i <= k < data.Length ==> data[k] == was[k]
    {
      data[at + i - diff] := data[at + i];
      i := i + 1;
    }
  }

  /** Writes the length field over the front of a packet whose body of `n` bytes
      already stands behind it. */
  method Reheader(pkg: Buffer, n: nat)
    requires n < LENGTH_LIMIT && 1 + |Remainlen(n)| + n <= pkg.data.Length
    modifies pkg`writePos, pkg`readPos, pkg.data
    ensures pkg.Valid() && pkg.readPos == 0
    ensures pkg.Contents() == Frame(old(pkg.data[0]), n, old(pkg.data[1 + |Remainlen(n)|..1 + |Remainlen(n)| + n]))
  {
    ghost var kind, at := pkg.data[0], 1 + |Remainlen(n)|;
    ghost var body := pkg.data[at..at + n];
    assert body == pkg.data[at..][..n];
    pkg.writePos, pkg.readPos := 1, 0;
    pkg.WriteRemainlen(n);
    assert pkg.data[..at] == [kind] + Remainlen(n);
    Paste(pkg.data, at + n, at, 0);
    assert pkg.data[at..][..n] == body;
    pkg.writePos := pkg.writePos + n;
  }

  lemma Prefix(a: bytes, b: bytes)
    ensures (a + b)[..|a|] == a
  {
  }

  lemma Multiples(m: nat, n: nat)
    requires n <= m && m % BLOCK == 0 && n % BLOCK == 0
    ensures (m - n) % BLOCK == 0
  {
  }

  lemma MapPrefix(f: Block -> Block, s: bytes, n: nat)
    requires n <= |s| && |s| % BLOCK == 0 && n % BLOCK == 0
    ensures MapBlocks(f, s)[..n] == MapBlocks(f, s[..n])
  {
    hide MapBlocks;
    var a, b := s[..n], s[n..];
    assert s == a + b;
    Multiples(|s|, n);
    MapAppend(f, a, b);
    Prefix(MapBlocks(f, a), MapBlocks(f, b));
  }

  /** Pads and encrypts in place.  The loop runs one block too far, so the buffer
      must hold two blocks beyond the last whole one. */
  method PadAndEncrypt(data: array<byte>, at: nat, inLen: nat, f: Block -> Block) returns (len: nat)
    requires at + (inLen / BLOCK + 2) * BLOCK <= data.Length
    modifies data
    ensures len == |Padded(old(data[at..at + inLen]))|
    ensures data[..at] == old(data[..at])
    ensures data[at..at + len] == MapBlocks(f, Padded(old(data[at..at + inLen])))
  {
    hide MapBlocks;
    ghost var body := data[at..at + inLen];
    var div, mod := inLen / BLOCK, inLen % BLOCK;
    var paddingLen := BLOCK - mod;
    var paddingAddr := at + div * BLOCK;
    if mod != 0 {
      paddingAddr := paddingAddr + mod;
    }
    div := div + 1;
    forall k | 0 <= k < paddingLen {
      data[paddingAddr + k] := ZERO + paddingLen;
    }
    len := div * BLOCK;
    assert data[at..at + len] == Padded(body);
    ghost var whole := data[at..at + (div + 1) * BLOCK];
    assert whole[..len] == data[at..at + len];
    MapPrefix(f, whole, len);
    CryptBlocks(data, at, div + 1, f);
    assert data[at..at + len] == data[at..at + (div + 1) * BLOCK][..len];
  }

  /** Where the body stands once the length field has been rewritten. */
  method MakeRoom(data: array<byte>, at: nat, len: nat, ghost kind: byte, ghost field: bytes)
    requires len < LENGTH_LIMIT && at + len <= data.Length && 1 + |Remainlen(len)| + len <= data.Length
    requires data[..at] == [kind] + field
    modifies data
    ensures data[0] == kind
    ensures var e, head := old(data[at..at + len]), Remainlen(len);
            data[1 + |head|..1 + |head| + len] == if |head| < |field| then (field[|head|..] + e)[..len] else e
  {
    LengthRoundTrip(len, []);
    hide Remainlen;
    var pos := HeaderEnd(len);
    assert data[..at][0] == kind && |field| == at - 1;
    if pos > at {
      ShiftRight(data, at, len, pos - at);
      assert data[..at][0] == kind;
    } else {
      StaysPut(data[..], at, len, pos, kind, field);
    }
  }

  lemma StaysPut(d: bytes, at: nat, len: nat, pos: nat, kind: byte, field: bytes)
    requires 1 <= pos <= at && at + len <= |d| && d[..at] == [kind] + field
    ensures d[pos..pos + len] == (field[pos - 1..] + d[at..at + len])[..len]
    ensures pos == at ==> d[pos..pos + len] == d[at..at + len]
  {
    assert d[pos..at] == d[..at][pos..] == field[pos - 1..];
    assert d[pos..at + len] == d[pos..at] + d[at..at + len];
    assert d[pos..pos + len] == d[pos..at + len][..len];
  }

  method AesEncrypt(pkg: Buffer, c: Cipher, remainPos: nat, ghost kind: byte, ghost field: bytes, ghost body: bytes) returns (ret: nat)
    requires pkg.Valid() && pkg.Contents() == [kind] + field + body && remainPos == 1 + |field|
    requires |Padded(body)| < LENGTH_LIMIT
    requires remainPos + (|body| / BLOCK + 2) * BLOCK <= pkg.data.Length
    modifies pkg`readPos, pkg`writePos, pkg.data
    ensures pkg.Valid() && pkg.readPos == 0
    ensures ret == |Padded(body)| && pkg.Contents() == Encrypted(c, kind, field, body)
  {
    hide MapBlocks, Padded, Remainlen;
    var data, inLen := pkg.data, pkg.writePos - remainPos;
    assert data[..remainPos] == pkg.Contents()[..remainPos] == [kind] + field;
    assert data[remainPos..remainPos + inLen] == pkg.Contents()[remainPos..] == body;
    PaddedLength(body);
    ret := PadAndEncrypt(data, remainPos, inLen, c.enc);
    LengthRoundTrip(ret, []);
    MakeRoom(data, remainPos, ret, kind, field);
    Reheader(pkg, ret);
  }

  lemma PaddedLength(body: bytes)
    ensures |Padded(body)| == (|body| / BLOCK + 1) * BLOCK
  {
  }

  lemma ReadsField(p: bytes, kind: byte, field: bytes, body: bytes)
    requires Framed(p, kind, field, body)
    ensures p[1..] == field + body && GetRemainlen(p[1..]) == Got(|body|, body)
  {
    assert (field + body)[|field|..] == body;
  }

  /** Positions the reader behind the length field. */
  method OpenPacket(pkg: Buffer, ghost kind: byte, ghost field: bytes, ghost body: bytes) returns (remainLen: nat)
    requires pkg.Valid() && Framed(pkg.Contents(), kind, field, body)
    modifies pkg`readPos
    ensures pkg.Valid() && remainLen == |body| && pkg.readPos == 1 + |field|
  {
    ReadsField(pkg.Contents(), kind, field, body);
    pkg.readPos := 1;
    assert pkg.Unread() == pkg.Contents()[1..];
    var r := pkg.ReadRemainlen();
    remainLen := r.value;
    assert |pkg.Unread()| == |body| && pkg.writePos == 1 + |field| + |body|;
  }

  method SymmEncrypt(pkg: Buffer, c: Cipher, ghost kind: byte, ghost field: bytes, ghost body: bytes) returns (ret: int)
    requires pkg.Valid() && Framed(pkg.Contents(), kind, field, body)
    requires |Padded(body)| < LENGTH_LIMIT
    requires 1 + |field| + (|body| / BLOCK + 2) * BLOCK <= pkg.data.Length
    modifies pkg`readPos, pkg`writePos, pkg.data
    ensures pkg.Valid()
    ensures body == [] ==> ret == 0 && pkg.Contents() == old(pkg.Contents()) && pkg.readPos == 1
    ensures body != [] ==> ret == |Padded(body)| && pkg.Contents() == Encrypted(c, kind, field, body) && pkg.readPos == 0
  {
    hide Padded, Encrypted, LengthFrom;
    var remainLen := OpenPacket(pkg, kind, field, body);
    if remainLen == 0 {
      pkg.readPos := 1;
      return 0;
    }
    ret := AesEncrypt(pkg, c, pkg.readPos, kind, field, body);
  }

  /** The last digit of a length is no larger than the length, and no field is
      shorter than the one the writer would write. */
  lemma {:induction false} FieldBounds(s: bytes, k: nat)
    requires k <= 4 && LengthFrom(s, k).Length?
    ensures var Length(v, w) := LengthFrom(s, k);
            s[w - 1] as int <= v && |Remainlen(v)| <= w
    decreases 4 - k
  {
    if s[0] >= 128 {
      FieldBounds(s[1..], k + 1);
      var v := LengthFrom(s[1..], k + 1).value;
      assert (s[0] as int - 128 + 128 * v) / 128 == v;
    }
  }

  lemma ShortBodyByte(p: bytes, kind: byte, field: bytes, body: bytes)
    requires Framed(p, kind, field, body) && |body| < BLOCK
    ensures p[|field|] < BLOCK
  {
    FieldBounds(field + body, 0);
    assert p[|field|] == field[|field| - 1];
  }

  lemma NarrowerField(p: bytes, kind: byte, field: bytes, body: bytes, n: nat)
    requires Framed(p, kind, field, body) && n <= |body|
    ensures |Remainlen(n)| <= |field| <= 4 && |body| < LENGTH_LIMIT
  {
    FieldBounds(field + body, 0);
    LengthBelowLimit(field + body, 0);
    WidthMonotone(n, |body|);
  }

  /** What the packet holds after its blocks have been decrypted in place. */
  function InPlace(c: Cipher, body: bytes): (r: bytes)
    ensures |r| == |body|
  {
    MapBlocks(c.dec, body[..Whole(body)]) + body[Whole(body)..]
  }

  method DecryptBlocks(pkg: Buffer, c: Cipher, ghost kind: byte, ghost field: bytes, ghost body: bytes) returns (offset: nat)
    requires pkg.Valid() && pkg.Contents() == [kind] + field + body && pkg.readPos == 1 + |field|
    modifies pkg.data
    ensures offset == Whole(body)
    ensures pkg.Contents() == [kind] + field + InPlace(c, body)
  {
    hide MapBlocks, Whole;
    var data, at, inLen := pkg.data, pkg.readPos, pkg.writePos - pkg.readPos;
    offset := inLen / BLOCK * BLOCK;
    ghost var end := pkg.writePos;
    WholeIs(body);
    Cut(data, end, [kind] + field, body, offset);
    CryptBlocks(data, at, inLen / BLOCK, c.dec);
    Paste(data, end, at, offset);
  }

  lemma WholeIs(body: bytes)
    ensures Whole(body) == |body| / BLOCK * BLOCK <= |body|
  {
  }

  /** The parts of an array that holds a header and a body. */
  lemma Cut(data: array<byte>, end: nat, head: bytes, body: bytes, offset: nat)
    requires end <= data.Length && data[..end] == head + body && offset <= |body|
    ensures data[..|head|] == head && data[|head|..|head| + offset] == body[..offset]
    ensures data[|head| + offset..][..|body| - offset] == body[offset..]
  {
    var at := |head|;
    assert data[..at] == data[..end][..at];
    assert data[at..at + offset] == data[..end][at..][..offset];
    assert data[at + offset..][..|body| - offset] == data[..end][at..][offset..];
  }

  /** And the whole from its parts. */
  lemma Paste(data: array<byte>, end: nat, at: nat, offset: nat)
    requires at + offset <= end <= data.Length
    ensures data[..end] == data[..at] + (data[at..at + offset] + data[at + offset..][..end - at - offset])
  {
  }

  method AesDecrypt(pkg: Buffer, c: Cipher, ghost kind: byte, ghost field: bytes, ghost body: bytes) returns (ret: int)
    requires pkg.Valid() && Framed(pkg.Contents(), kind, field, body) && pkg.readPos == 1 + |field|
    modifies pkg`readPos, pkg`writePos, pkg.data
    ensures pkg.Valid()
    ensures Decrypted(c, body).BadPadding? ==>
      ret == -1 && pkg.Contents() == [kind] + field + InPlace(c, body) && pkg.readPos == 1 + |field|
    ensures Decrypted(c, body).Body? ==>
      var b := Decrypted(c, body).body;
      ret == |b| && pkg.Contents() == Frame(kind, |b|, b) && pkg.readPos == 1
  {
    hide MapBlocks, Remainlen, LengthFrom, Framed, Whole, Decrypted, InPlace;
    ghost var was, plain := pkg.Contents(), MapBlocks(c.dec, body[..Whole(body)]);
    assert was == [kind] + field + body by { FramedText(was, kind, field, body); }
    var offset := DecryptBlocks(pkg, c, kind, field, body);
    var paddingLen := pkg.data[pkg.readPos + offset - 1] as int - ZERO as int;
    PaddingByte(c, was, pkg.Contents(), kind, field, body);
    if paddingLen < 0 || paddingLen > BLOCK {
      return -1;
    }
    var len := offset - paddingLen;
    NarrowerField(was, kind, field, body, len);
    Slice(pkg.data, pkg.writePos, pkg.readPos, len);
    CloseGap(pkg, len, kind);
    ret := len;
  }

  lemma Slice(data: array<byte>, end: nat, at: nat, len: nat)
    requires 0 < at && at + len <= end <= data.Length
    ensures data[..end][at..at + len] == data[at..at + len] && data[..end][0] == data[0]
  {
  }

  lemma FramedText(p: bytes, kind: byte, field: bytes, body: bytes)
    requires Framed(p, kind, field, body)
    ensures p == [kind] + field + body
  {
  }

  /** The byte the padding length is read from decides as `Decrypted` does. */
  lemma PaddingByte(c: Cipher, was: bytes, now: bytes, kind: byte, field: bytes, body: bytes)
    requires Framed(was, kind, field, body) && now == [kind] + field + InPlace(c, body)
    ensures var n := now[|field| + Whole(body)] as int - ZERO as int;
            if 0 <= n <= BLOCK then
              && 0 < Whole(body) && n <= Whole(body)
              && Decrypted(c, body) == Body(now[1 + |field|..1 + |field| + Whole(body) - n])
            else Decrypted(c, body) == BadPadding
  {
    hide MapBlocks, LengthFrom;
    var w := Whole(body);
    var plain := MapBlocks(c.dec, body[..w]);
    if w == 0 {
      ShortBodyByte(was, kind, field, body);
      assert now[|field|] == was[|field|];
    } else {
      assert now[|field| + w] == plain[w - 1];
      assert now[1 + |field|..1 + |field| + w] == plain;
      var n := plain[w - 1] as int - ZERO as int;
      if 0 <= n <= BLOCK {
        assert plain[..w - n] == now[1 + |field|..1 + |field| + w - n];
      }
    }
  }

  /** Moves a shortened body down to its shorter length field. */
  method CloseGap(pkg: Buffer, len: nat, ghost kind: byte)
    requires pkg.Valid() && 0 < pkg.readPos && pkg.data[0] == kind
    requires len < LENGTH_LIMIT && pkg.readPos + len <= pkg.data.Length && 1 + |Remainlen(len)| <= pkg.readPos
    modifies pkg`readPos, pkg`writePos, pkg.data
    ensures pkg.Valid() && pkg.readPos == 1
    ensures pkg.Contents() == Frame(kind, len, old(pkg.data[pkg.readPos..pkg.readPos + len]))
  {
    hide Remainlen;
    var data, at := pkg.data, pkg.readPos;
    var pos := HeaderEnd(len);
    assert 0 < pos && data[..pos][0] == kind;
    if at > pos {
      ShiftLeft(data, at, len, at - pos);
      assert data[..pos][0] == kind;
    }
    Reheader(pkg, len);
    pkg.readPos := 1;
  }

  method SymmDecrypt(pkg: Buffer, c: Cipher, ghost kind: byte, ghost field: bytes, ghost body: bytes) returns (ret: int)
    requires pkg.Valid() && Framed(pkg.Contents(), kind, field, body)
    modifies pkg`readPos, pkg`writePos, pkg.data
    ensures pkg.Valid()
    ensures body == [] ==> ret == 0 && pkg.Contents() == old(pkg.Contents()) && pkg.readPos == 1
    ensures body != [] && Decrypted(c, body).BadPadding? ==>
      ret == -1 && pkg.Contents() == [kind] + field + InPlace(c, body) && pkg.readPos == 1 + |field|
    ensures body != [] && Decrypted(c, body).Body? ==>
      var b := Decrypted(c, body).body;
      ret == |b| && pkg.Contents() == Frame(kind, |b|, b) && pkg.readPos == 1
  {
    hide LengthFrom, Decrypted, InPlace, Remainlen;
    var remainLen := OpenPacket(pkg, kind, field, body);
    if remainLen == 0 {
      pkg.readPos := 1;
      return 0;
    }
    ret := AesDecrypt(pkg, c, kind, field, body);
  }

  /** Encrypt, then decrypt, in the same buffer: the packet comes back exactly
      when its body is empty, which neither call touches, or its length field is
      the shortest one. */
  method EncryptThenDecrypt(pkg: Buffer, c: Cipher, ghost kind: byte, ghost field: bytes, ghost body: bytes)
    requires Inverse(c)
    requires pkg.Valid() && Framed(pkg.Contents(), kind, field, body)
    requires |Padded(body)| < LENGTH_LIMIT
    requires 1 + |field| + (|body| / BLOCK + 2) * BLOCK <= pkg.data.Length
    modifies pkg`readPos, pkg`writePos, pkg.data
    ensures pkg.Valid()
    ensures pkg.Contents() == old(pkg.Contents()) <==> body == [] || field == Remainlen(|body|)
    ensures pkg.Contents() == old(pkg.Contents()) ==> pkg.readPos == 1
  {
    hide Remainlen, LengthFrom, Padded, Carried, Decrypted, MapBlocks, InPlace;
    ghost var p := pkg.Contents();
    var _ := SymmEncrypt(pkg, c, kind, field, body);
    ghost var field', body' := field, body;
    if body != [] {
      field', body' := Remainlen(|Padded(body)|), Carried(c, field, body);
      EncryptedFramed(c, kind, field, body);
      CryptRoundTrip(c, p, kind, field, body);
      NeverSame(kind, field, body, InPlace(c, body'));
    }
    var _ := SymmDecrypt(pkg, c, kind, field', body');
  }

  /** A packet left with its padding on is never the packet that was encrypted. */
  lemma NeverSame(kind: byte, field: bytes, body: bytes, x: bytes)
    requires Framed([kind] + field + body, kind, field, body)
    requires |x| == |Padded(body)| < LENGTH_LIMIT
    ensures [kind] + Remainlen(|x|) + x != [kind] + field + body
  {
    hide LengthFrom, Remainlen;
    if [kind] + Remainlen(|x|) + x == [kind] + field + body {
      LengthRoundTrip(|x|, x);
      Tail(kind, field, body);
      Tail(kind, Remainlen(|x|), x);
      assert false;
    }
  }

  /** For instance an empty body behind a length field of two bytes. */
  lemma EmptyBodyKept(kind: byte)
    ensures Framed([kind, 0x80, 0], kind, [0x80, 0], []) && [0x80, 0] != Remainlen(0)
  {
    var f: bytes := [0x80, 0];
    assert f[1..] == [0] && f + [] == f;
    assert LengthFrom([0], 1) == Length(0, 1);
    assert LengthFrom(f, 0) == Length(0, 2);
  }

  /** And a body of one byte behind such a field, which no cipher brings back. */
  lemma LongerFieldLost(c: Cipher, kind: byte, x: byte)
    requires Inverse(c)
    ensures Framed([kind, 0x81, 0, x], kind, [0x81, 0], [x])
    ensures
      var d := Decrypted(c, Carried(c, [0x81, 0], [x]));
      !(d.Body? && Frame(kind, |d.body|, d.body) == [kind, 0x81, 0, x])
  {
    assert [kind, 0x81, 0, x] == [kind] + [0x81, 0] + [x];
    assert LengthFrom([0x81, 0], 0) == Length(1, 2);
    assert Remainlen(1) == [1];
    CryptRoundTrip(c, [kind, 0x81, 0, x], kind, [0x81, 0], [x]);
  }
}
