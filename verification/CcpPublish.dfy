/** Publish messages: the body, encrypted and framed, and the way back. */
module CcpPublish {
  import opened Octets
  import opened EdpWire
  import opened EdpCrypto
  import opened CcpPacket

  const DATA_MAX_LEN := 262144
  const TOPIC_MAX_LEN := 64
  const PUBLISH := 0x19

  /** hasData in the lowest bit, compress two above it, the type in the top five. */
  const HEADER: byte := 8 * PUBLISH + 1

  datatype Publish = Publish(seqId: nat, alive: nat, topic: bytes, payload: bytes)

  /** What the source's types allow. */
  predicate Allowed(p: Publish) {
    p.seqId < UINT32 && p.alive < UINT32 && |p.topic| <= TOPIC_MAX_LEN && 0 !in p.topic
  }

  predicate Accepted(p: Publish) {
    |p.payload| + 128 <= DATA_MAX_LEN
  }

  function Content(sid: nat, p: Publish): bytes
    requires Allowed(p)
  {
    Remainlen(sid) + Counted(p.topic) + Remainlen(p.alive) + p.payload
  }

  function Message(c: Cipher, sid: nat, p: Publish): bytes
    requires Allowed(p)
  {
    var data := Pkcs(Content(sid, p));
    [HEADER] + Remainlen(|data|) + MapBlocks(c.enc, data)
  }

  /** A message byte by byte, when its numbers take one byte each. */
  lemma MessageBytes(c: Cipher, sid: byte, p: Publish)
    requires Allowed(p) && sid < 128 && p.alive < 128
    ensures Message(c, sid, p)[0] == 0xC9
    ensures Content(sid, p) == [sid, 0x00, |p.topic|] + p.topic + [p.alive] + p.payload
  {
    assert Remainlen(sid) == [sid] && Remainlen(p.alive) == [p.alive];
    assert Counted(p.topic) == [0x00, |p.topic|] + p.topic;
  }

  // ----- reading

  /** `Beyond` when the source would leave one of its buffers. */
  datatype Parsed =
    | Beyond | BadType | BadLength | TooLong | BadPayload
    | Got(publish: Publish, hasData: bool, compress: bool)

  function Parse(c: Cipher, buf: bytes): Parsed {
    if buf == [] then Beyond
    else if buf[0] / 8 != PUBLISH then BadType
    else if !Ends(buf[1..], 0) then Beyond
    else
      var r := Number(buf[1..], 0);
      if r.value < BLOCK then BadLength
      else if r.value > DATA_MAX_LEN then TooLong
      else if r.value % BLOCK != 0 || 1 + r.width + r.value > |buf| then Beyond
      else ParseBody(MapBlocks(c.dec, buf[1 + r.width..1 + r.width + r.value]), buf[0])
  }

  function ParseBody(d: bytes, head: byte): Parsed
    requires d != []
  {
    if !Ends(d, 0) || Number(d, 0).width + 2 > |d| then Beyond
    else
      var s := Number(d, 0);
      var n, at := d[s.width] as int * 256 + d[s.width + 1] as int, s.width + 2;
      if n > TOPIC_MAX_LEN + 1 || at + n > |d| || !Ends(d[at + n..], 0) then Beyond
      else
        var a := Number(d[at + n..], 0);
        var pos, dataLen := at + n + a.width, |d| - d[|d| - 1] as int;
        if dataLen < pos then BadPayload
        else Got(Publish(s.value, a.value, UpToNul(d[at..at + n], 0), d[pos..dataLen]), head % 2 == 1, head / 4 % 2 == 1)
  }

  // ----- the round trip

  lemma BodyLength(sid: nat, p: Publish)
    requires Allowed(p) && sid < UINT32
    ensures |Content(sid, p)| == |Remainlen(sid)| + 2 + |p.topic| + |Remainlen(p.alive)| + |p.payload| <= |p.payload| + 76
  {
    NumberRoundTrip(sid, []);
    NumberRoundTrip(p.alive, []);
  }

  /** Where the parts of a padded body stand. */
  lemma Layout(d: bytes, a: bytes, size: bytes, topic: bytes, b: bytes, payload: bytes, pad: bytes)
    requires d == a + (size + topic) + b + payload + pad
    ensures d == a + (size + topic + (b + (payload + pad)))
    ensures d[|a| + |size| + |topic|..] == b + (payload + pad)
  {
  }

  lemma LayoutFront(d: bytes, a: bytes, size: bytes, topic: bytes, rest: bytes)
    requires d == a + (size + topic + rest) && |size| == 2
    ensures d[|a|] == size[0] && d[|a| + 1] == size[1]
    ensures d[|a| + 2..|a| + 2 + |topic|] == topic
  {
  }

  lemma LayoutBack(d: bytes, front: bytes, payload: bytes, pad: bytes)
    requires d == front + payload + pad && pad != []
    ensures d[|front|..|d| - |pad|] == payload && d[|d| - 1] == pad[|pad| - 1]
  {
  }

  lemma ParseParts(d: bytes, sid: nat, w: nat, n: nat, alive: nat, v: nat, end: nat)
    requires Ends(d, 0) && Number(d, 0) == Read(sid, w) && w + 2 + n <= |d|
    requires d[w] as int * 256 + d[w + 1] as int == n <= TOPIC_MAX_LEN
    requires Ends(d[w + 2 + n..], 0) && Number(d[w + 2 + n..], 0) == Read(alive, v)
    requires w + 2 + n + v <= end == |d| - d[|d| - 1] as int
    ensures ParseBody(d, HEADER)
      == Got(Publish(sid, alive, UpToNul(d[w + 2..w + 2 + n], 0), d[w + 2 + n + v..end]), true, false)
  {
    hide Ends, Number, UpToNul;
  }

  lemma Size(n: nat)
    requires n <= TOPIC_MAX_LEN
    ensures n / 256 == 0 && n % 256 == n
  {
  }

  function Unpadded(sid: nat, p: Publish): bytes
    requires Allowed(p)
  {
    Remainlen(sid) + ([0, |p.topic|] + p.topic) + Remainlen(p.alive) + p.payload
  }

  lemma UnpaddedParsed(sid: nat, p: Publish, pad: bytes)
    requires Allowed(p) && sid < UINT32 && pad != [] && pad[|pad| - 1] == |pad|
    ensures ParseBody(Unpadded(sid, p) + pad, HEADER)
      == Got(Publish(sid % NUMBER_LIMIT, p.alive % NUMBER_LIMIT, p.topic, p.payload), true, false)
  {
    hide Remainlen, Ends, Number, UpToNul, ParseBody;
    var a, size, b := Remainlen(sid), [0, |p.topic|], Remainlen(p.alive);
    var d := Unpadded(sid, p) + pad;
    hide Unpadded;
    var after := b + (p.payload + pad);
    Layout(d, a, size, p.topic, b, p.payload, pad);
    LayoutFront(d, a, size, p.topic, after);
    LayoutBack(d, a + (size + p.topic) + b, p.payload, pad);
    NumberRoundTrip(sid, size + p.topic + after);
    NumberRoundTrip(p.alive, p.payload + pad);
    UpToNulWhole(p.topic, 0);
    ParseParts(d, sid % NUMBER_LIMIT, |a|, |p.topic|, p.alive % NUMBER_LIMIT, |b|, |d| - |pad|);
  }

  lemma BodyParsed(sid: nat, p: Publish)
    requires Allowed(p) && sid < UINT32
    ensures ParseBody(Pkcs(Content(sid, p)), HEADER)
      == Got(Publish(sid % NUMBER_LIMIT, p.alive % NUMBER_LIMIT, p.topic, p.payload), true, false)
  {
    hide Remainlen, Repeat, PadLength, ParseBody;
    var body := Content(sid, p);
    var pad := Repeat(PadLength(|body|), PadLength(|body|));
    Size(|p.topic|);
    assert body == Unpadded(sid, p);
    UnpaddedParsed(sid, p, pad);
  }

  lemma PaddedSize(sid: nat, p: Publish)
    requires Allowed(p) && Accepted(p) && sid < UINT32
    ensures BLOCK <= |Pkcs(Content(sid, p))| <= |p.payload| + 92 <= DATA_MAX_LEN
  {
    BodyLength(sid, p);
    hide Content, Remainlen;
  }

  /** Where the parts of a message stand. */
  lemma Frames(head: byte, field: bytes, e: bytes, rest: bytes)
    ensures var buf := [head] + field + e + rest;
      && buf[0] == head && buf[1..] == field + (e + rest)
      && |buf| >= 1 + |field| + |e| && buf[1 + |field|..1 + |field| + |e|] == e
  {
  }

  lemma ParseFrame(c: Cipher, head: byte, data: bytes, rest: bytes)
    requires Inverse(c) && |data| % BLOCK == 0 && BLOCK <= |data| <= DATA_MAX_LEN && head / 8 == PUBLISH
    ensures Parse(c, [head] + Remainlen(|data|) + MapBlocks(c.enc, data) + rest) == ParseBody(data, head)
  {
    hide Remainlen, Ends, Number, MapBlocks, Parse, ParseBody, Inverse;
    var field, e := Remainlen(|data|), MapBlocks(c.enc, data);
    Frames(head, field, e, rest);
    NumberRoundTrip(|data|, e + rest);
    MapInverse(c, data);
    ParseHead(c, [head] + field + e + rest, |data|, |field|);
  }

  lemma ParseHead(c: Cipher, buf: bytes, v: nat, w: nat)
    requires buf != [] && buf[0] / 8 == PUBLISH && Ends(buf[1..], 0) && Number(buf[1..], 0) == Read(v, w)
    requires BLOCK <= v <= DATA_MAX_LEN && v % BLOCK == 0 && 1 + w + v <= |buf|
    ensures Parse(c, buf) == ParseBody(MapBlocks(c.dec, buf[1 + w..1 + w + v]), buf[0])
  {
    hide Ends, Number, MapBlocks, ParseBody;
  }

  /** A serialized publish is read back, whatever follows it, with its numbers modulo 2^28. */
  lemma MessageParsed(c: Cipher, sid: nat, p: Publish, rest: bytes)
    requires Inverse(c) && Allowed(p) && Accepted(p) && sid < UINT32
    ensures Parse(c, Message(c, sid, p) + rest)
      == Got(Publish(sid % NUMBER_LIMIT, p.alive % NUMBER_LIMIT, p.topic, p.payload), true, false)
  {
    hide Parse, ParseBody, Remainlen, MapBlocks, Content, Pkcs, Inverse;
    PaddedSize(sid, p);
    ParseFrame(c, HEADER, Pkcs(Content(sid, p)), rest);
    BodyParsed(sid, p);
  }

  /** So it comes back as it was exactly when both numbers are below 2^28. */
  lemma RoundTrip(c: Cipher, sid: nat, p: Publish, rest: bytes)
    requires Inverse(c) && Allowed(p) && Accepted(p) && sid < UINT32
    ensures Parse(c, Message(c, sid, p) + rest) == Got(p.(seqId := sid), true, false)
      <==> sid < NUMBER_LIMIT && p.alive < NUMBER_LIMIT
  {
    hide Parse, Message, Inverse;
    MessageParsed(c, sid, p, rest);
  }

  // ----- the methods

  class Client {
    const cipher: Cipher
    const writeBuf: array<byte>
    var sequenceId: nat

    constructor (cipher: Cipher, size: nat)
      ensures this.cipher == cipher && writeBuf.Length == size && fresh(writeBuf) && sequenceId == 1
    {
      this.cipher := cipher;
      writeBuf := new byte[size];
      sequenceId := 1;
    }

    /** The id a publish goes out under: its own or, when that is zero, the next new one. */
    function Sid(p: Publish): nat
      reads this
    {
      if p.seqId != 0 then p.seqId else sequenceId
    }

    method WriteBody(p: Publish, sid: nat) returns (data: array<byte>, len: nat)
      requires Allowed(p) && sid < UINT32
      ensures fresh(data) && data.Length == |p.payload| + 128
      ensures len == |Content(sid, p)| <= data.Length && data[..len] == Content(sid, p)
    {
      hide Remainlen;
      data := new byte[|p.payload| + 128];
      BodyLength(sid, p);
      len := WriteNumber(data, 0, sid);
      len := EncodeString(data, len, p.topic);
      len := WriteNumber(data, len, p.alive);
      len := WriteBytes(data, len, p.payload);
    }

    /** -1 stands for the source's error code for data that is too long. */
    method Serialize(p: Publish) returns (n: int, ghost sid: nat)
      requires Allowed(p) && sequenceId < UINT32
      requires Accepted(p) ==> writeBuf.Length >= |Message(cipher, Sid(p), p)|
      modifies this, writeBuf
      ensures !Accepted(p) ==> n == -1 && unchanged(this) && unchanged(writeBuf)
      ensures Accepted(p) ==>
        && sid == old(Sid(p)) && n == |Message(cipher, sid, p)|
        && writeBuf[..n] == Message(cipher, sid, p)
        && sequenceId == if p.seqId == 0 then (old(sequenceId) + 1) % UINT32 else old(sequenceId)
    {
      sid := Sid(p);
      if |p.payload| + 128 > DATA_MAX_LEN { return -1, sid; }
      hide Content, Remainlen, MapBlocks;
      PaddedSize(sid, p);
      BodyLength(sid, p);
      var data, len := WriteBody(p, Sid(p));
      if p.seqId == 0 { sequenceId := (sequenceId + 1) % UINT32; }
      var aes := new byte[len + BLOCK];
      var aesLen := EcbEncrypt(cipher, data, aes, len);
      var at := WriteBytes(writeBuf, 0, [HEADER]);
      at := WriteNumber(writeBuf, at, aesLen);
      n := WriteBytes(writeBuf, at, aes[..aesLen]);
    }
  }

  /** What the source's reader leaves in its out-parameters. */
  method Deserialize(c: Cipher, buf: bytes) returns (r: Parsed)
    requires Parse(c, buf) != Beyond
    ensures r == Parse(c, buf)
  {
    hide Ends, Number, MapBlocks;
    var header := buf[0];
    if header / 8 != PUBLISH { return BadType; }
    var value, width := DecodeVariableNumber(buf[1..]);
    if value < BLOCK { return BadLength; }
    if value > DATA_MAX_LEN { return TooLong; }
    var data := new byte[value];
    var dataLen := EcbDecrypt(c, buf[1 + width..1 + width + value], data);
    r := ReadBody(data[..], dataLen, header);
  }

  method ReadBody(d: bytes, dataLen: int, header: byte) returns (r: Parsed)
    requires d != [] && dataLen == |d| - d[|d| - 1] as int && ParseBody(d, header) != Beyond
    ensures r == ParseBody(d, header)
  {
    hide Ends, Number, UpToNul;
    var sid, at := DecodeVariableNumber(d);
    var n := d[at] as int * 256 + d[at + 1] as int;
    at := at + 2;
    var topic := UpToNul(d[at..at + n], 0);
    at := at + n;
    var alive, width := DecodeVariableNumber(d[at..]);
    at := at + width;
    if dataLen < at { return BadPayload; }
    r := Got(Publish(sid, alive, topic, d[at..dataLen]), header % 2 == 1, header / 4 % 2 == 1);
  }
}
