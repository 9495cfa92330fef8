/** Packet constructors and unpackers.  A packet is a list of fields; the
    constructors declare the sum of the nominal field sizes as its length. */
module EdpPackets {
  import opened Sequences
  import opened Octets
  import opened EdpWire
  import opened EdpStream
  import opened EdpBuffer

  datatype Option<T> = None | Some(value: T)

  // ----- fields

  datatype Field = Byte(b: byte) | U16(n: nat) | U32(n: nat) | Text(s: bytes) | Raw(s: bytes)

  function FieldBytes(f: Field): bytes {
    match f
    case Byte(b) => [b]
    case U16(n) => Uint16(n)
    case U32(n) => Uint32(n)
    case Text(s) => Str(s)
    case Raw(s) => s
  }

  function FieldSize(f: Field): nat {
    match f
    case Byte(_) => 1
    case U16(_) => 2
    case U32(_) => 4
    case Text(s) => 2 + |s|
    case Raw(s) => |s|
  }

  function Body(fs: seq<Field>): bytes {
    if fs == [] then [] else FieldBytes(fs[0]) + Body(fs[1..])
  }

  function Declared(fs: seq<Field>): nat {
    if fs == [] then 0 else FieldSize(fs[0]) + Declared(fs[1..])
  }

  function Packet(kind: byte, fs: seq<Field>): bytes {
    Frame(kind, Declared(fs), Body(fs))
  }

  /** Every string fits the 16-bit length in front of it. */
  predicate Fits(fs: seq<Field>) {
    forall i :: 0 <= i < |fs| ==> FieldFits(fs[i])
  }

  predicate FieldFits(f: Field) {
    f.Text? ==> |f.s| < 0x1_0000
  }

  lemma FieldLength(f: Field)
    ensures |FieldBytes(f)| <= FieldSize(f)
    ensures |FieldBytes(f)| == FieldSize(f) <==> FieldFits(f)
  {
    if f.Text? {
      var n := |f.s| % 0x1_0000;
      assert |Str(f.s)| == 2 + n;
    }
  }

  lemma {:induction false} BodyLength(fs: seq<Field>)
    ensures |Body(fs)| <= Declared(fs)
    ensures |Body(fs)| == Declared(fs) <==> Fits(fs)
  {
    if fs != [] {
      FieldLength(fs[0]);
      BodyLength(fs[1..]);
      assert Fits(fs) ==> FieldFits(fs[0]) && Fits(fs[1..]);
      assert FieldFits(fs[0]) && Fits(fs[1..]) ==> Fits(fs) by {
        assert forall i :: 1 <= i < |fs| ==> fs[i] == fs[1..][i - 1];
      }
    }
  }

  /** Every constructor below is self-delimiting exactly when its strings fit. */
  lemma SelfDelimiting(kind: byte, fs: seq<Field>)
    requires Declared(fs) < LENGTH_LIMIT
    ensures PacketLength(Packet(kind, fs)) == |Packet(kind, fs)| <==> Fits(fs)
    ensures Fits(fs) ==> WellFormed(Packet(kind, fs))
  {
    BodyLength(fs);
    FrameDelimited(kind, Declared(fs), Body(fs));
  }

  // ----- the packets

  const CONNREQ: byte := 0x10
  const PUSHDATA: byte := 0x30
  const UPDATEREQ: byte := 0x50
  const SAVEDATA: byte := 0x80
  const CMDRESP: byte := 0xB0
  const PINGREQ: byte := 0xC0

  const TYPE_BIN: byte := 0x02
  const TYPE_STRING: byte := 0x05
  const TYPE_STRING_WITH_TIME: byte := 0x06

  const PROTOCOL_NAME: bytes := [0x45, 0x44, 0x50]
  const PROTOCOL_VERSION: byte := 1

  function Connect1(devid: bytes, authKey: bytes): seq<Field> {
    [Text(PROTOCOL_NAME), Byte(PROTOCOL_VERSION), Byte(0x40), U16(300), Text(devid), Text(authKey)]
  }

  function Connect2(userid: bytes, authInfo: bytes): seq<Field> {
    [Text(PROTOCOL_NAME), Byte(PROTOCOL_VERSION), Byte(0xC0), U16(0x80), Byte(0), Byte(0), Text(userid), Text(authInfo)]
  }

  function Pushdata(dst: bytes, data: bytes): seq<Field> {
    [Text(dst), Raw(data)]
  }

  function SaveHead(dst: Option<bytes>, msgId: nat): seq<Field> {
    [Byte((if dst.Some? then 0x80 else 0) + (if msgId != 0 then 0x40 else 0))]
    + (if dst.Some? then [Text(dst.value)] else [])
    + (if msgId != 0 then [U16(msgId)] else [])
  }

  function SimpleString(dst: Option<bytes>, input: bytes, msgId: nat): seq<Field> {
    SaveHead(dst, msgId) + [Byte(TYPE_STRING), Text(input)]
  }

  datatype DataTime = DataTime(year: nat, month: byte, day: byte, hour: byte, minute: byte, second: byte)

  function TimeFields(t: Option<DataTime>): seq<Field> {
    match t
    case None => [Byte(0), Byte(0), Byte(0), Byte(0), Byte(0), Byte(0)]
    case Some(t) =>
      [Byte((t.year - 2000) % 256), Byte(t.month), Byte(t.day), Byte(t.hour), Byte(t.minute), Byte(t.second)]
  }

  function SimpleStringWithTime(dst: Option<bytes>, input: bytes, time: Option<DataTime>, msgId: nat): seq<Field> {
    SaveHead(dst, msgId) + [Byte(TYPE_STRING_WITH_TIME)] + TimeFields(time) + [Text(input)]
  }

  function BinStr(dst: Option<bytes>, desc: bytes, bin: bytes, msgId: nat): seq<Field> {
    SaveHead(dst, msgId) + [Byte(TYPE_BIN), Text(desc), U32(|bin|), Raw(bin)]
  }

  function CmdResp(cmdid: bytes, resp: bytes): seq<Field> {
    [U16(|cmdid|), Raw(cmdid)] + (if resp != [] then [U32(|resp|), Raw(resp)] else [])
  }

  datatype Version = Version(name: bytes, version: bytes)

  function UpdateReq(vs: seq<Version>): seq<Field> {
    if vs == [] then [] else [Text(vs[0].name), Text(vs[0].version)] + UpdateReq(vs[1..])
  }

  // ----- appending a field

  lemma {:induction false} BodyAppend(fs: seq<Field>, gs: seq<Field>)
    ensures Body(fs + gs) == Body(fs) + Body(gs)
    ensures Declared(fs + gs) == Declared(fs) + Declared(gs)
  {
    if fs == [] {
      assert fs + gs == gs;
    } else {
      assert (fs + gs)[1..] == fs[1..] + gs;
      BodyAppend(fs[1..], gs);
      Assoc(FieldBytes(fs[0]), Body(fs[1..]), Body(gs));
    }
  }

  lemma BodySnoc(p: bytes, fs: seq<Field>, f: Field)
    ensures p + Body(fs + [f]) == p + Body(fs) + FieldBytes(f)
    ensures Declared(fs + [f]) == Declared(fs) + FieldSize(f)
    ensures |Body(fs)| <= Declared(fs)
  {
    BodyAppend(fs, [f]);
    assert Body([f]) == FieldBytes(f) + Body([]) && Declared([f]) == FieldSize(f) + Declared([]);
    Assoc(p, Body(fs), FieldBytes(f));
    BodyLength(fs);
  }

  /** A packet under construction: its header is written, and the fields `fs`. */
  ghost predicate Building(pkg: Buffer, p: bytes, fs: seq<Field>)
    reads pkg, pkg.data
  {
    && pkg.Growable() && pkg.readPos == 0 && pkg.Contents() == p + Body(fs)
    && |p| <= 5 && Declared(fs) <= LENGTH_LIMIT
  }

  method Start(kind: byte, remainlen: nat) returns (pkg: Buffer, ghost p: bytes)
    requires remainlen < LENGTH_LIMIT
    ensures fresh(pkg) && fresh(pkg.data) && Building(pkg, p, []) && p == [kind] + Remainlen(remainlen)
  {
    pkg := new Buffer();
    var _ := pkg.WriteByte(kind);
    LengthRoundTrip(remainlen, []);
    pkg.WriteRemainlen(remainlen);
    p := [kind] + Remainlen(remainlen);
    assert p + [] == p;
  }

  /** What a finished packet holds, when the length written was the declared one. */
  lemma Finished(pkg: Buffer, kind: byte, fs: seq<Field>)
    requires Building(pkg, [kind] + Remainlen(Declared(fs)), fs)
    ensures pkg.Growable() && pkg.readPos == 0 && pkg.Contents() == Packet(kind, fs)
  {
  }

  method AddByte(pkg: Buffer, b: byte, ghost p: bytes, ghost fs: seq<Field>) returns (ghost next: seq<Field>)
    requires Building(pkg, p, fs) && Declared(fs) + 1 <= LENGTH_LIMIT
    modifies pkg, pkg.data
    ensures next == fs + [Byte(b)] && Declared(next) == Declared(fs) + 1
    ensures Building(pkg, p, next) && fresh({pkg.data} - {old(pkg.data)})
  {
    next := fs + [Byte(b)];
    BodySnoc(p, fs, Byte(b));
    var _ := pkg.WriteByte(b);
  }

  method AddUint16(pkg: Buffer, n: nat, ghost p: bytes, ghost fs: seq<Field>) returns (ghost next: seq<Field>)
    requires Building(pkg, p, fs) && Declared(fs) + 2 <= LENGTH_LIMIT && n < 0x1_0000
    modifies pkg, pkg.data
    ensures next == fs + [U16(n)] && Declared(next) == Declared(fs) + 2
    ensures Building(pkg, p, next) && fresh({pkg.data} - {old(pkg.data)})
  {
    next := fs + [U16(n)];
    BodySnoc(p, fs, U16(n));
    var _ := pkg.WriteUint16(n);
  }

  method AddUint32(pkg: Buffer, n: nat, ghost p: bytes, ghost fs: seq<Field>) returns (ghost next: seq<Field>)
    requires Building(pkg, p, fs) && Declared(fs) + 4 <= LENGTH_LIMIT && n < WORD
    modifies pkg, pkg.data
    ensures next == fs + [U32(n)] && Declared(next) == Declared(fs) + 4
    ensures Building(pkg, p, next) && fresh({pkg.data} - {old(pkg.data)})
  {
    next := fs + [U32(n)];
    BodySnoc(p, fs, U32(n));
    var _ := pkg.WriteUint32(n);
  }

  method AddStr(pkg: Buffer, s: bytes, ghost p: bytes, ghost fs: seq<Field>) returns (ghost next: seq<Field>)
    requires Building(pkg, p, fs) && Declared(fs) + 2 + |s| <= LENGTH_LIMIT
    modifies pkg, pkg.data
    ensures next == fs + [Text(s)] && Declared(next) == Declared(fs) + 2 + |s|
    ensures Building(pkg, p, next) && fresh({pkg.data} - {old(pkg.data)})
  {
    next := fs + [Text(s)];
    BodySnoc(p, fs, Text(s));
    var _ := pkg.WriteStr(s);
  }

  method AddBytes(pkg: Buffer, s: bytes, ghost p: bytes, ghost fs: seq<Field>) returns (ghost next: seq<Field>)
    requires Building(pkg, p, fs) && Declared(fs) + |s| <= LENGTH_LIMIT
    modifies pkg, pkg.data
    ensures next == fs + [Raw(s)] && Declared(next) == Declared(fs) + |s|
    ensures Building(pkg, p, next) && fresh({pkg.data} - {old(pkg.data)})
  {
    next := fs + [Raw(s)];
    BodySnoc(p, fs, Raw(s));
    var _ := pkg.WriteBytes(s);
  }

  // ----- constructors

  function ConnectHead(flag: byte, keepTime: nat): seq<Field> {
    [Text(PROTOCOL_NAME), Byte(PROTOCOL_VERSION), Byte(flag), U16(keepTime)]
  }

  /** Protocol name and version, connect flag and keep time. */
  method StartConnect(remainlen: nat, flag: byte, keepTime: nat) returns (pkg: Buffer, ghost p: bytes, ghost fs: seq<Field>)
    requires 9 <= remainlen < LENGTH_LIMIT && keepTime < 0x1_0000
    ensures fresh(pkg) && fresh(pkg.data) && Building(pkg, p, fs) && p == [CONNREQ] + Remainlen(remainlen)
    ensures fs == ConnectHead(flag, keepTime) && Declared(fs) == 9
  {
    ghost var target := ConnectHead(flag, keepTime);
    assert Declared([]) == 0;
    hide *;
    pkg, p := Start(CONNREQ, remainlen);
    fs := [];
    fs := AddStr(pkg, PROTOCOL_NAME, p, fs);
    fs := AddByte(pkg, PROTOCOL_VERSION, p, fs);
    fs := AddByte(pkg, flag, p, fs);
    fs := AddUint16(pkg, keepTime, p, fs);
    assert fs == target;
  }

  method PacketConnect1(devid: bytes, authKey: bytes) returns (pkg: Buffer)
    requires (2 + 3) + 1 + 1 + 2 + (2 + |devid|) + (2 + |authKey|) < LENGTH_LIMIT
    ensures fresh(pkg) && pkg.Growable() && pkg.readPos == 0
    ensures pkg.Contents() == Packet(CONNREQ, Connect1(devid, authKey))
  {
    ghost var p, fs := [], [];
    ghost var target := ConnectHead(0x40, 300) + [Text(devid), Text(authKey)];
    assert target == Connect1(devid, authKey);
    hide *;
    pkg, p, fs := StartConnect((2 + 3) + 1 + 1 + 2 + (2 + |devid|) + (2 + |authKey|), 0x40, 300);
    fs := AddStr(pkg, devid, p, fs);
    fs := AddStr(pkg, authKey, p, fs);
    assert fs == target;
    Finished(pkg, CONNREQ, target);
  }

  method PacketConnect2(userid: bytes, authInfo: bytes) returns (pkg: Buffer)
    requires (2 + 3) + 1 + 1 + 2 + 2 + (2 + |userid|) + (2 + |authInfo|) < LENGTH_LIMIT
    ensures fresh(pkg) && pkg.Growable() && pkg.readPos == 0
    ensures pkg.Contents() == Packet(CONNREQ, Connect2(userid, authInfo))
  {
    ghost var p, fs := [], [];
    ghost var target := ConnectHead(0xC0, 0x80) + [Byte(0), Byte(0), Text(userid), Text(authInfo)];
    assert target == Connect2(userid, authInfo);
    hide *;
    pkg, p, fs := StartConnect((2 + 3) + 1 + 1 + 2 + 2 + (2 + |userid|) + (2 + |authInfo|), 0xC0, 0x80);
    fs := AddByte(pkg, 0, p, fs);
    fs := AddByte(pkg, 0, p, fs);
    fs := AddStr(pkg, userid, p, fs);
    fs := AddStr(pkg, authInfo, p, fs);
    FourMore(ConnectHead(0xC0, 0x80), Byte(0), Byte(0), Text(userid), Text(authInfo));
    Finished(pkg, CONNREQ, target);
  }

  lemma FourMore<T>(s: seq<T>, a: T, b: T, c: T, d: T)
    ensures s + [a] + [b] + [c] + [d] == s + [a, b, c, d]
  {
  }

  method PacketPushdata(dst: bytes, data: bytes) returns (pkg: Buffer)
    requires (2 + |dst|) + |data| < LENGTH_LIMIT
    ensures fresh(pkg) && pkg.Growable() && pkg.readPos == 0
    ensures pkg.Contents() == Packet(PUSHDATA, Pushdata(dst, data))
  {
    assert Declared([]) == 0;
    hide Body, Declared;
    ghost var p, fs := [], [];
    pkg, p := Start(PUSHDATA, (2 + |dst|) + |data|);
    fs := AddStr(pkg, dst, p, fs);
    fs := AddBytes(pkg, data, p, fs);
    assert fs == Pushdata(dst, data);
  }

  function HeadSize(dst: Option<bytes>, msgId: nat): nat {
    1 + (if msgId != 0 then 2 else 0) + (if dst.Some? then 2 + |dst.value| else 0)
  }

  /** The part all save-data packets share. */
  method StartSave(dst: Option<bytes>, msgId: nat, remainlen: nat) returns (pkg: Buffer, ghost p: bytes, ghost fs: seq<Field>)
    requires msgId < 0x1_0000 && HeadSize(dst, msgId) <= remainlen < LENGTH_LIMIT
    ensures fresh(pkg) && fresh(pkg.data) && Building(pkg, p, fs) && p == [SAVEDATA] + Remainlen(remainlen)
    ensures fs == SaveHead(dst, msgId) && Declared(fs) == HeadSize(dst, msgId)
  {
    pkg, p := Start(SAVEDATA, remainlen);
    fs := [];
    var flag: byte := 0;
    if dst.Some? { flag := flag + 0x80; }
    if msgId != 0 { flag := flag + 0x40; }
    fs := AddByte(pkg, flag, p, fs);
    if dst.Some? {
      fs := AddStr(pkg, dst.value, p, fs);
    }
    if msgId != 0 {
      fs := AddUint16(pkg, msgId, p, fs);
    }
  }

  method PacketSavedataSimpleString(dst: Option<bytes>, input: bytes, msgId: nat) returns (pkg: Buffer)
    requires msgId < 0x1_0000 && HeadSize(dst, msgId) + 1 + (2 + |input|) < LENGTH_LIMIT
    ensures fresh(pkg) && pkg.Growable() && pkg.readPos == 0
    ensures pkg.Contents() == Packet(SAVEDATA, SimpleString(dst, input, msgId))
  {
    ghost var p, fs := [], [];
    pkg, p, fs := StartSave(dst, msgId, HeadSize(dst, msgId) + 1 + (2 + |input|));
    fs := AddByte(pkg, TYPE_STRING, p, fs);
    fs := AddStr(pkg, input, p, fs);
    assert fs == SimpleString(dst, input, msgId);
  }

  method PacketSavedataSimpleStringWithTime(dst: Option<bytes>, input: bytes, time: Option<DataTime>, msgId: nat) returns (pkg: Buffer)
    requires msgId < 0x1_0000 && HeadSize(dst, msgId) + 1 + 6 + (2 + |input|) < LENGTH_LIMIT
    ensures fresh(pkg) && pkg.Growable() && pkg.readPos == 0
    ensures pkg.Contents() == Packet(SAVEDATA, SimpleStringWithTime(dst, input, time, msgId))
  {
    ghost var p, fs := [], [];
    pkg, p, fs := StartSave(dst, msgId, HeadSize(dst, msgId) + 1 + 6 + (2 + |input|));
    fs := AddByte(pkg, TYPE_STRING_WITH_TIME, p, fs);
    fs := AddTime(pkg, time, p, fs);
    fs := AddStr(pkg, input, p, fs);
    assert fs == SimpleStringWithTime(dst, input, time, msgId);
  }

  method AddThree(pkg: Buffer, a: byte, b: byte, c: byte, ghost p: bytes, ghost fs0: seq<Field>) returns (ghost fs: seq<Field>)
    requires Building(pkg, p, fs0) && Declared(fs0) + 3 <= LENGTH_LIMIT
    modifies pkg, pkg.data
    ensures fs == fs0 + [Byte(a), Byte(b), Byte(c)] && Declared(fs) == Declared(fs0) + 3
    ensures Building(pkg, p, fs) && fresh({pkg.data} - {old(pkg.data)})
  {
    hide *;
    fs := AddByte(pkg, a, p, fs0);
    fs := AddByte(pkg, b, p, fs);
    fs := AddByte(pkg, c, p, fs);
  }

  method AddTime(pkg: Buffer, time: Option<DataTime>, ghost p: bytes, ghost fs0: seq<Field>) returns (ghost fs: seq<Field>)
    requires Building(pkg, p, fs0) && Declared(fs0) + 6 <= LENGTH_LIMIT
    modifies pkg, pkg.data
    ensures fs == fs0 + TimeFields(time) && Declared(fs) == Declared(fs0) + 6
    ensures Building(pkg, p, fs) && fresh({pkg.data} - {old(pkg.data)})
  {
    hide Building, Body, Declared;
    if time.None? {
      fs := AddThree(pkg, 0, 0, 0, p, fs0);
      fs := AddThree(pkg, 0, 0, 0, p, fs);
    } else {
      var t := time.value;
      fs := AddThree(pkg, (t.year - 2000) % 256, t.month, t.day, p, fs0);
      fs := AddThree(pkg, t.hour, t.minute, t.second, p, fs);
    }
    assert fs == fs0 + TimeFields(time);
  }

  const MAX_DESC: nat := 0x1_0000
  const MAX_BIN: nat := 3 * 0x10_0000

  /** Refuses oversized arguments; a description of exactly 2^16 bytes is let
      through although its length field cannot hold it. */
  method PacketSavedataBinStr(dst: Option<bytes>, desc: bytes, bin: bytes, msgId: nat) returns (pkg: Buffer?)
    requires msgId < 0x1_0000 && HeadSize(dst, msgId) + 1 + (2 + |desc|) + 4 + |bin| < LENGTH_LIMIT
    ensures pkg == null <==> |desc| > MAX_DESC || |bin| > MAX_BIN
    ensures pkg != null ==> fresh(pkg) && pkg.Growable() && pkg.readPos == 0
    ensures pkg != null ==> pkg.Contents() == Packet(SAVEDATA, BinStr(dst, desc, bin, msgId))
  {
    if |desc| > MAX_DESC || |bin| > MAX_BIN {
      return null;
    }
    ghost var p, fs := [], [];
    var packet: Buffer;
    packet, p, fs := StartSave(dst, msgId, HeadSize(dst, msgId) + 1 + (2 + |desc|) + 4 + |bin|);
    fs := AddByte(packet, TYPE_BIN, p, fs);
    fs := AddStr(packet, desc, p, fs);
    fs := AddUint32(packet, |bin|, p, fs);
    fs := AddBytes(packet, bin, p, fs);
    assert fs == BinStr(dst, desc, bin, msgId);
    pkg := packet;
  }

  method PacketCmdResp(cmdid: bytes, resp: bytes) returns (pkg: Buffer)
    requires |cmdid| < 0x1_0000 && |cmdid| + |resp| + 6 < LENGTH_LIMIT
    ensures fresh(pkg) && pkg.Growable() && pkg.readPos == 0
    ensures pkg.Contents() == Packet(CMDRESP, CmdResp(cmdid, resp))
  {
    assert Declared([]) == 0;
    hide Body, Declared;
    ghost var p, fs := [], [];
    pkg, p := Start(CMDRESP, |cmdid| + |resp| + (if |resp| != 0 then 6 else 2));
    fs := AddUint16(pkg, |cmdid|, p, fs);
    fs := AddBytes(pkg, cmdid, p, fs);
    if |resp| != 0 {
      fs := AddUint32(pkg, |resp|, p, fs);
      fs := AddBytes(pkg, resp, p, fs);
    }
    assert fs == CmdResp(cmdid, resp);
  }

  method PacketPing() returns (pkg: Buffer)
    ensures fresh(pkg) && pkg.Growable() && pkg.readPos == 0
    ensures pkg.Contents() == Packet(PINGREQ, []) == [0xC0, 0x00]
  {
    ghost var p;
    pkg, p := Start(PINGREQ, 0);
  }

  method MeasureVersions(vs: seq<Version>) returns (ok: bool, len: nat)
    ensures ok <==> forall i :: 0 <= i < |vs| ==> vs[i].name != []
    ensures ok ==> len == Declared(UpdateReq(vs))
  {
    len, ok := 0, true;
    var i := 0;
    assert vs[0..] == vs;
    while i < |vs|
      invariant 0 <= i <= |vs|
      invariant forall k :: 0 <= k < i ==> vs[k].name != []
      invariant len + Declared(UpdateReq(vs[i..])) == Declared(UpdateReq(vs))
    {
      if |vs[i].name| == 0 {
        return false, 0;
      }
      UpdateReqStep(vs, i);
      len := len + |vs[i].name| + |vs[i].version| + 4;
      i := i + 1;
    }
  }

  /** Two passes over the list: one adds up the length, one writes. */
  method PacketUpdateReq(vs: seq<Version>) returns (pkg: Buffer?)
    requires Declared(UpdateReq(vs)) < LENGTH_LIMIT
    ensures pkg == null <==> exists i :: 0 <= i < |vs| && vs[i].name == []
    ensures pkg != null ==> fresh(pkg) && pkg.Growable() && pkg.readPos == 0
    ensures pkg != null ==> pkg.Contents() == Packet(UPDATEREQ, UpdateReq(vs))
  {
    var ok, len := MeasureVersions(vs);
    if !ok {
      return null;
    }
    ghost var p, fs := [], [];
    var packet: Buffer;
    assert vs[0..] == vs && Declared([]) == 0 && UpdateReq(vs[|vs|..]) == [];
    hide *;
    packet, p := Start(UPDATEREQ, len);
    var i := 0;
    while i < |vs|
      invariant 0 <= i <= |vs|
      invariant fresh(packet) && fresh(packet.data) && Building(packet, p, fs)
      invariant fs + UpdateReq(vs[i..]) == UpdateReq(vs)
      invariant Declared(fs) + Declared(UpdateReq(vs[i..])) == len
    {
      UpdateReqStep(vs, i);
      fs := AddVersion(packet, vs[i], UpdateReq(vs[i + 1..]), p, fs);
      i := i + 1;
    }
    assert fs + [] == fs;
    Finished(packet, UPDATEREQ, fs);
    pkg := packet;
  }

  method AddVersion(pkg: Buffer, v: Version, ghost more: seq<Field>, ghost p: bytes, ghost fs: seq<Field>)
    returns (ghost next: seq<Field>)
    requires Building(pkg, p, fs) && Declared(fs) + |v.name| + |v.version| + 4 <= LENGTH_LIMIT
    modifies pkg, pkg.data
    ensures next + more == fs + ([Text(v.name), Text(v.version)] + more)
    ensures Declared(next) == Declared(fs) + |v.name| + |v.version| + 4
    ensures Building(pkg, p, next) && fresh({pkg.data} - {old(pkg.data)})
  {
    hide *;
    next := AddStr(pkg, v.name, p, fs);
    next := AddStr(pkg, v.version, p, next);
    Assoc3(fs, Text(v.name), Text(v.version), more);
  }

  lemma Assoc3<T>(a: seq<T>, x: T, y: T, b: seq<T>)
    ensures a + [x] + [y] + b == a + ([x, y] + b)
  {
  }

  lemma UpdateReqStep(vs: seq<Version>, i: nat)
    requires i < |vs|
    ensures UpdateReq(vs[i..]) == [Text(vs[i].name), Text(vs[i].version)] + UpdateReq(vs[i + 1..])
    ensures Declared(UpdateReq(vs[i..])) == |vs[i].name| + |vs[i].version| + 4 + Declared(UpdateReq(vs[i + 1..]))
  {
    assert vs[i..][1..] == vs[i + 1..] && vs[i..][0] == vs[i];
    var head := [Text(vs[i].name), Text(vs[i].version)];
    BodyAppend(head, UpdateReq(vs[i + 1..]));
    assert head[1..] == [Text(vs[i].version)] && head[1..][1..] == [];
  }
}
