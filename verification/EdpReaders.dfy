/** The packets a device sends, read field by field with the buffer's own readers. */
module EdpReaders {
  import opened Sequences
  import opened Octets
  import opened EdpWire
  import opened EdpBuffer
  import opened EdpPackets
  import opened EdpUnpack

  // ----- several strings in a row

  function Strs(ss: seq<bytes>): bytes {
    if ss == [] then [] else Str(ss[0]) + Strs(ss[1..])
  }

  function GetStrs(s: bytes, n: nat): Read<seq<bytes>>
    decreases n
  {
    if n == 0 then Got([], s)
    else
      var (head, s1) :- GetStr(s);
      var (tail, s2) :- GetStrs(s1, n - 1);
      Got([head] + tail, s2)
  }

  function Cuts(ss: seq<bytes>): (r: seq<bytes>)
    ensures |r| == |ss|
  {
    seq(|ss|, i requires 0 <= i < |ss| => Cut(ss[i]))
  }

  ghost predicate NoNul(ss: seq<bytes>) {
    forall i :: 0 <= i < |ss| ==> 0 !in ss[i]
  }

  ghost predicate AllFit(ss: seq<bytes>) {
    forall i :: 0 <= i < |ss| ==> |ss[i]| < 0x1_0000
  }

  lemma CutsAreWhole(ss: seq<bytes>)
    ensures Cuts(ss) == ss <==> AllFit(ss)
  {
    forall i | 0 <= i < |ss|
      ensures Cuts(ss)[i] == ss[i] <==> |ss[i]| < 0x1_0000
    {
      CutIsWhole(ss[i]);
    }
  }

  /** Strings come back in order, each cut to its length modulo 2^16, and what
      follows them is untouched. */
  lemma {:induction false} StrsBack(ss: seq<bytes>, rest: bytes)
    requires NoNul(ss)
    ensures GetStrs(Strs(ss) + rest, |ss|) == Got(Cuts(ss), rest)
  {
    if ss == [] {
      assert Strs(ss) + rest == rest;
    } else {
      var tail := Strs(ss[1..]) + rest;
      Assoc(Str(ss[0]), Strs(ss[1..]), rest);
      StrBack(ss[0], tail);
      StrsBack(ss[1..], rest);
      assert Cuts(ss) == [Cut(ss[0])] + Cuts(ss[1..]);
    }
  }

  function Texts(ss: seq<bytes>): (fs: seq<Field>)
    ensures |fs| == |ss|
  {
    seq(|ss|, i requires 0 <= i < |ss| => Text(ss[i]))
  }

  lemma {:induction false} TextsBody(ss: seq<bytes>)
    ensures Body(Texts(ss)) == Strs(ss)
  {
    if ss != [] {
      assert Texts(ss)[1..] == Texts(ss[1..]);
      TextsBody(ss[1..]);
    }
  }

  // ----- connection requests

  datatype Connect = Connect(kind: byte, remain: nat, name: bytes, version: byte, flag: byte, keepTime: nat, strings: seq<bytes>)

  function GetConnect(s: bytes, n: nat): Read<Connect> {
    var (kind, s1) :- GetByte(s);
    var (remain, s2) :- GetRemainlen(s1);
    var (name, s3) :- GetStr(s2);
    var (version, s4) :- GetByte(s3);
    var (flag, s5) :- GetByte(s4);
    var (keepTime, s6) :- GetUint16(s5);
    var (strings, s7) :- GetStrs(s6, n);
    Got(Connect(kind, remain, name, version, flag, keepTime, strings), s7)
  }

  /** "EDP" behind its length, version 1, the flag and the time in two bytes. */
  function ConnectBytes(flag: byte, high: byte, low: byte): bytes {
    [0x00, 0x03, 0x45, 0x44, 0x50, 0x01, flag, high, low]
  }

  const EDP: bytes := [0x45, 0x44, 0x50]

  lemma Named(flag: byte, high: byte, low: byte, rest: bytes)
    ensures GetStr(ConnectBytes(flag, high, low) + rest) == Got(EDP, [0x01, flag, high, low] + rest)
  {
    var tail := [0x01, flag, high, low] + rest;
    assert ConnectBytes(flag, high, low) == Str(EDP) + [0x01, flag, high, low];
    Assoc(Str(EDP), [0x01, flag, high, low], rest);
    CutIsWhole(EDP);
    assert 0 !in EDP;
    hide *;
    StrBack(EDP, tail);
  }

  lemma Numbered(flag: byte, high: byte, low: byte, rest: bytes)
    ensures GetByte([0x01, flag, high, low] + rest) == Got(0x01, [flag, high, low] + rest)
    ensures GetByte([flag, high, low] + rest) == Got(flag, [high, low] + rest)
    ensures GetUint16([high, low] + rest) == Got(high as int * 256 + low as int, rest)
  {
    assert ([0x01, flag, high, low] + rest)[1..] == [flag, high, low] + rest;
    assert ([flag, high, low] + rest)[1..] == [high, low] + rest;
    assert ([high, low] + rest)[2..] == rest;
  }

  /** The readers in turn, each starting where the one before stopped. */
  lemma InTurn(s: bytes, s1: bytes, s2: bytes, s3: bytes, s4: bytes, s5: bytes, s6: bytes, n: nat)
    requires GetByte(s).Got? && s1 == GetByte(s).rest && GetRemainlen(s1).Got? && s2 == GetRemainlen(s1).rest
    requires GetStr(s2).Got? && s3 == GetStr(s2).rest && GetByte(s3).Got? && s4 == GetByte(s3).rest
    requires GetByte(s4).Got? && s5 == GetByte(s4).rest && GetUint16(s5).Got? && s6 == GetUint16(s5).rest
    requires GetStrs(s6, n).Got?
    ensures GetConnect(s, n) ==
      Got(Connect(GetByte(s).value, GetRemainlen(s1).value, GetStr(s2).value, GetByte(s3).value, GetByte(s4).value,
                  GetUint16(s5).value, GetStrs(s6, n).value), GetStrs(s6, n).rest)
  {
    hide GetByte, GetRemainlen, GetStr, GetStrs, GetUint16;
  }

  /** What a request reads as, when nothing is left behind it. */
  ghost predicate ReadsAs(p: bytes, remain: nat, flag: byte, keepTime: nat, ss: seq<bytes>) {
    var r := GetConnect(p, |ss|);
    && r.Got? && r.rest == [] && r.value.kind == 0x10 && r.value.remain == remain && r.value.name == [0x45, 0x44, 0x50]
    && r.value.version == 1 && r.value.flag == flag && r.value.keepTime == keepTime && r.value.strings == ss
  }

  lemma InTurnReads(p: bytes, n: nat, s1: bytes, flag: byte, high: byte, low: byte, tail: bytes, k: nat, ss: seq<bytes>)
    requires |ss| == k && GetByte(p) == Got(0x10, s1) && GetRemainlen(s1) == Got(n, ConnectBytes(flag, high, low) + tail)
    requires GetStrs(tail, k) == Got(ss, [])
    ensures ReadsAs(p, n, flag, high as int * 256 + low as int, ss)
  {
    assert EDP == [0x45, 0x44, 0x50];
    hide GetByte, GetRemainlen, GetStr, GetStrs, GetUint16, GetConnect, ConnectBytes;
    Named(flag, high, low, tail);
    Numbered(flag, high, low, tail);
    InTurn(p, s1, ConnectBytes(flag, high, low) + tail, [0x01, flag, high, low] + tail, [flag, high, low] + tail,
           [high, low] + tail, tail, k);
  }

  /** A request read back, once its body is known. */
  lemma ConnectBack(p: bytes, n: nat, flag: byte, high: byte, low: byte, ss: seq<bytes>)
    requires NoNul(ss) && 0 < |p| && p[0] == 0x10
    requires GetRemainlen(p[1..]) == Got(n, ConnectBytes(flag, high, low) + Strs(ss))
    ensures ReadsAs(p, n, flag, high as int * 256 + low as int, Cuts(ss))
  {
    assert GetByte(p) == Got(0x10, p[1..]);
    hide *;
    StrsBack(ss, []);
    assert Strs(ss) + [] == Strs(ss);
    InTurnReads(p, n, p[1..], flag, high, low, Strs(ss), |ss|, Cuts(ss));
  }

  lemma HeadIs(flag: byte, keepTime: nat)
    requires keepTime < 0x1_0000
    ensures Body(ConnectHead(flag, keepTime)) == ConnectBytes(flag, keepTime / 256, keepTime % 256)
    ensures Declared(ConnectHead(flag, keepTime)) == 9
  {
    assert ConnectHead(flag, keepTime) == [Text(PROTOCOL_NAME)] + ([Byte(PROTOCOL_VERSION)] + ([Byte(flag)] + [U16(keepTime)]));
    assert Str(PROTOCOL_NAME) == [0x00, 0x03, 0x45, 0x44, 0x50];
    hide Body, Declared, ConnectHead, Str;
    BodyCons(Text(PROTOCOL_NAME), [Byte(PROTOCOL_VERSION)] + ([Byte(flag)] + [U16(keepTime)]));
    BodyCons(Byte(PROTOCOL_VERSION), [Byte(flag)] + [U16(keepTime)]);
    BodyCons(Byte(flag), [U16(keepTime)]);
    BodyLast(U16(keepTime));
  }

  lemma HeadBody(flag: byte, keepTime: nat, ss: seq<bytes>)
    requires keepTime < 0x1_0000
    ensures Body(ConnectHead(flag, keepTime) + Texts(ss)) == ConnectBytes(flag, keepTime / 256, keepTime % 256) + Strs(ss)
    ensures Declared(ConnectHead(flag, keepTime) + Texts(ss)) == 9 + Declared(Texts(ss))
  {
    hide *;
    HeadIs(flag, keepTime);
    BodyAppend(ConnectHead(flag, keepTime), Texts(ss));
    TextsBody(ss);
  }

  lemma TwoTexts(a: bytes, b: bytes)
    ensures Texts([a, b]) == [Text(a), Text(b)] && Declared([Text(a), Text(b)]) == 4 + |a| + |b|
  {
    assert [Text(a), Text(b)] == [Text(a)] + [Text(b)];
    BodyCons(Text(a), [Text(b)]);
    BodyLast(Text(b));
  }

  lemma Blank()
    ensures Body([Byte(0), Byte(0)]) == Str([]) && Declared([Byte(0), Byte(0)]) == 2
  {
    assert [Byte(0), Byte(0)] == [Byte(0)] + [Byte(0)];
    BodyCons(Byte(0), [Byte(0)]);
    BodyLast(Byte(0));
    assert Str([]) == [0, 0];
  }

  lemma Connect1Body(devid: bytes, authKey: bytes)
    ensures Body(Connect1(devid, authKey)) == ConnectBytes(0x40, 0x01, 0x2C) + Strs([devid, authKey])
    ensures Declared(Connect1(devid, authKey)) == 13 + |devid| + |authKey|
  {
    TwoTexts(devid, authKey);
    assert Connect1(devid, authKey) == ConnectHead(0x40, 300) + [Text(devid), Text(authKey)];
    hide *;
    HeadBody(0x40, 300, [devid, authKey]);
  }

  /** The empty device name is a string of no bytes. */
  lemma Connect2Body(userid: bytes, authInfo: bytes)
    ensures Body(Connect2(userid, authInfo)) == ConnectBytes(0xC0, 0x00, 0x80) + Strs([[], userid, authInfo])
    ensures Declared(Connect2(userid, authInfo)) == 15 + |userid| + |authInfo|
  {
    var head, two: seq<bytes> := ConnectHead(0xC0, 0x80), [userid, authInfo];
    var blank := [Byte(0), Byte(0)];
    TwoTexts(userid, authInfo);
    assert Connect2(userid, authInfo) == head + (blank + [Text(userid), Text(authInfo)]);
    ThirdStr(userid, authInfo);
    hide *;
    HeadIs(0xC0, 0x80);
    BodyAppend(head, blank + Texts(two));
    BodyAppend(blank, Texts(two));
    TextsBody(two);
    Blank();
  }

  lemma ThirdStr(a: bytes, b: bytes)
    ensures Strs([[], a, b]) == Str([]) + Strs([a, b])
  {
    var all: seq<bytes> := [[], a, b];
    assert all[1..] == [a, b];
  }

  lemma FirstByte(kind: byte, fs: seq<Field>)
    ensures 0 < |Packet(kind, fs)| && Packet(kind, fs)[0] == kind
  {
  }

  lemma ReadsOne(p: bytes, n: nat, flag: byte, keepTime: nat, ss: seq<bytes>, tt: seq<bytes>)
    requires |ss| == |tt| && ReadsAs(p, n, flag, keepTime, ss)
    ensures ReadsAs(p, n, flag, keepTime, tt) <==> ss == tt
  {
    hide GetConnect;
  }

  lemma ConnectRead(fs: seq<Field>, n: nat, flag: byte, high: byte, low: byte, keepTime: nat, ss: seq<bytes>)
    requires NoNul(ss) && n == Declared(fs) < LENGTH_LIMIT && keepTime == high as int * 256 + low as int
    requires Body(fs) == ConnectBytes(flag, high, low) + Strs(ss)
    ensures ReadsAs(Packet(CONNREQ, fs), n, flag, keepTime, ss) <==> AllFit(ss)
  {
    FirstByte(CONNREQ, fs);
    assert CONNREQ == 0x10;
    hide *;
    PacketSplit(CONNREQ, fs);
    ConnectBack(Packet(CONNREQ, fs), n, flag, high, low, ss);
    CutsAreWhole(ss);
    ReadsOne(Packet(CONNREQ, fs), n, flag, keepTime, Cuts(ss), ss);
  }

  lemma TwoFit(a: bytes, b: bytes)
    requires 0 !in a && 0 !in b
    ensures NoNul([a, b])
    ensures AllFit([a, b]) <==> |a| < 0x1_0000 && |b| < 0x1_0000
  {
    var ss := [a, b];
    assert ss[0] == a && ss[1] == b;
  }

  lemma ThreeFit(a: bytes, b: bytes)
    requires 0 !in a && 0 !in b
    ensures NoNul([[], a, b])
    ensures AllFit([[], a, b]) <==> |a| < 0x1_0000 && |b| < 0x1_0000
  {
    var ss: seq<bytes> := [[], a, b];
    assert ss[1] == a && ss[2] == b;
  }

  /** The first connection request read back: protocol, version, flag, 300 seconds,
      then device and key in that order, with nothing left, exactly when both strings
      fit their 16-bit length. */
  lemma Connect1RoundTrip(devid: bytes, authKey: bytes)
    requires 0 !in devid && 0 !in authKey && 13 + |devid| + |authKey| < LENGTH_LIMIT
    ensures ReadsAs(Packet(CONNREQ, Connect1(devid, authKey)), 13 + |devid| + |authKey|, 0x40, 300, [devid, authKey])
      <==> |devid| < 0x1_0000 && |authKey| < 0x1_0000
  {
    hide *;
    TwoFit(devid, authKey);
    Connect1Body(devid, authKey);
    ConnectRead(Connect1(devid, authKey), 13 + |devid| + |authKey|, 0x40, 0x01, 0x2C, 300, [devid, authKey]);
  }

  /** The second one: flag 0xC0, 128 seconds, an empty device name, user and secret. */
  lemma Connect2RoundTrip(userid: bytes, authInfo: bytes)
    requires 0 !in userid && 0 !in authInfo && 15 + |userid| + |authInfo| < LENGTH_LIMIT
    ensures ReadsAs(Packet(CONNREQ, Connect2(userid, authInfo)), 15 + |userid| + |authInfo|, 0xC0, 128, [[], userid, authInfo])
      <==> |userid| < 0x1_0000 && |authInfo| < 0x1_0000
  {
    hide *;
    ThreeFit(userid, authInfo);
    Connect2Body(userid, authInfo);
    ConnectRead(Connect2(userid, authInfo), 15 + |userid| + |authInfo|, 0xC0, 0x00, 0x80, 128, [[], userid, authInfo]);
  }

  // ----- the head of saved data

  datatype Saved = Saved(device: Option<bytes>, id: Option<nat>)

  function GetSaved(s: bytes): Read<Saved> {
    var (flag, s1) :- GetByte(s);
    var (device, s2) :- GetDevice(s1, flag >= 0x80);
    var (id, s3) :- GetId(s2, flag / 0x40 % 2 == 1);
    Got(Saved(device, id), s3)
  }

  function GetDevice(s: bytes, present: bool): Read<Option<bytes>> {
    if !present then Got(None, s)
    else
      var (device, rest) :- GetStr(s);
      Got(Some(device), rest)
  }

  function GetId(s: bytes, present: bool): Read<Option<nat>> {
    if !present then Got(None, s)
    else
      var (id, rest) :- GetUint16(s);
      Got(Some(id), rest)
  }

  lemma SavedStep(dst: Option<bytes>, msgId: nat, kind: byte, more: bytes)
    requires msgId < 0x1_0000 && (dst.Some? ==> 0 !in dst.value)
    ensures GetSaved(HeadBytes(dst, msgId) + ([kind] + more)) ==
      Got(Saved(CutOption(dst), if msgId == 0 then None else Some(msgId)), [kind] + more)
  {
    hide GetStr, GetUint16, GetByte, HeadBytes, Str, Cut, Uint16;
    HeadBytesBack(dst, msgId, kind, more);
  }

  /** Destination and message id of any saved data come back, with the kind and the
      fields behind it left, exactly when the destination fits. */
  lemma SavedRoundTrip(dst: Option<bytes>, msgId: nat, kind: byte, more: seq<Field>)
    requires msgId < 0x1_0000 && (dst.Some? ==> 0 !in dst.value)
    requires HeadSize(dst, msgId) + 1 + Declared(more) < LENGTH_LIMIT
    ensures var p := Packet(SAVEDATA, SaveHead(dst, msgId) + ([Byte(kind)] + more));
      && p[0] == 0x80 && GetRemainlen(p[1..]).Got?
      && GetRemainlen(p[1..]).value == HeadSize(dst, msgId) + 1 + Declared(more)
      && (GetSaved(GetRemainlen(p[1..]).rest) == Got(Saved(dst, if msgId == 0 then None else Some(msgId)), [kind] + Body(more))
          <==> dst.None? || |dst.value| < 0x1_0000)
  {
    var tail := [Byte(kind)] + more;
    var fs := SaveHead(dst, msgId) + tail;
    SaveHeadSize(dst, msgId);
    BodyAppend(SaveHead(dst, msgId), tail);
    BodyCons(Byte(kind), more);
    PacketSplit(SAVEDATA, fs);
    FirstByte(SAVEDATA, fs);
    assert SAVEDATA == 0x80;
    hide Body, Declared, Packet, GetSaved, GetRemainlen, HeadBytes, SaveHead, HeadSize;
    SavedStep(dst, msgId, kind, Body(more));
    CutOptionIsWhole(dst);
  }

  // ----- a response to a command

  const ERR_CMDREQ := -1031

  datatype Command = Command(id: bytes, text: bytes)

  function CmdText(s: bytes, total: nat): Unpacked<bytes>
    requires |s| <= total
  {
    match GetUint32(s)
    case Got(n, rest) => TakeRest(rest, total, n, ERR_CMDREQ)
    case _ => Err(-1)
  }

  /** What the reader of a command makes of the unread part of `total` bytes. */
  function CmdReqOf(s: bytes, total: nat): Unpacked<Command>
    requires |s| <= total
  {
    match GetRemainlen(s)
    case Got(_, s1) =>
      (match GetUint16(s1)
       case Got(n, s2) =>
         (match GetBytes(s2, total - |s2|, n)
          case Got(id, s3) =>
            (match CmdText(s3, total)
             case Ok(text) => Ok(Command(id, text))
             case Abort => Abort
             case Err(code) => Err(code))
          case Overrun => Abort
          case Short => Err(ERR_CMDREQ))
       case _ => Err(-1))
    case _ => Err(ERR_CMDREQ)
  }

  lemma Uint16Bound()
    ensures forall s: bytes :: GetUint16(s).Got? ==> GetUint16(s).value < 0x1_0000
  {
  }

  method UnpackCmdReq(pkg: Buffer) returns (r: Unpacked<Command>)
    requires pkg.Valid()
    modifies pkg`readPos
    ensures pkg.Valid() && r == CmdReqOf(old(pkg.Unread()), pkg.writePos)
  {
    Uint16Bound();
    hide GetRemainlen, GetBytes, GetUint16, CmdText;
    var remainlen := pkg.ReadRemainlen();
    if !remainlen.Got? { return Err(ERR_CMDREQ); }
    var idLen := pkg.ReadUint16();
    if !idLen.Got? { return Err(-1); }
    var id := pkg.ReadBytes(idLen.value);
    if id.Short? { return Err(ERR_CMDREQ); }
    if id.Overrun? { return Abort; }
    var text := ReadText(pkg);
    match text
    case Ok(t) => r := Ok(Command(id.value, t));
    case Abort => r := Abort;
    case Err(code) => r := Err(code);
  }

  method ReadText(pkg: Buffer) returns (r: Unpacked<bytes>)
    requires pkg.Valid()
    modifies pkg`readPos
    ensures pkg.Valid() && r == CmdText(old(pkg.Unread()), pkg.writePos)
  {
    Uint32Bound();
    hide GetBytes, GetUint32;
    var textLen := pkg.ReadUint32();
    if !textLen.Got? { return Err(-1); }
    var text := pkg.ReadBytes(textLen.value);
    if text.Short? { return Err(ERR_CMDREQ); }
    if text.Overrun? || pkg.readPos != pkg.writePos { return Abort; }
    r := Ok(text.value);
  }

  lemma CmdRespBody(cmdid: bytes, resp: bytes)
    requires |cmdid| < 0x1_0000
    ensures Body(CmdResp(cmdid, resp)) ==
      Uint16(|cmdid|) + (cmdid + (if resp != [] then Uint32(|resp|) + resp else []))
    ensures Declared(CmdResp(cmdid, resp)) == |cmdid| + |resp| + (if resp != [] then 6 else 2)
  {
    var tail := if resp != [] then [U32(|resp|), Raw(resp)] else [];
    assert CmdResp(cmdid, resp) == [U16(|cmdid|)] + ([Raw(cmdid)] + tail);
    BodyCons(U16(|cmdid|), [Raw(cmdid)] + tail);
    BodyCons(Raw(cmdid), tail);
    if resp != [] {
      assert tail == [U32(|resp|)] + [Raw(resp)];
      BodyCons(U32(|resp|), [Raw(resp)]);
      BodyLast(Raw(resp));
    }
  }

  lemma FirstOf(a: bytes, rest: bytes, pos: nat)
    requires pos + |a| + |rest| < WORD
    ensures GetBytes(a + rest, pos, |a|) == Got(a, rest)
  {
    assert (a + rest)[..|a|] == a && (a + rest)[|a|..] == rest;
  }

  lemma FourBytes(n: nat)
    ensures |Uint32(n)| == 4
  {
  }

  lemma NoWord()
    ensures GetUint32([]) == Short
  {
  }

  lemma CmdReqStep(s: bytes, total: nat, n: nat, cmdid: bytes, tail: bytes, resp: bytes)
    requires |s| <= total < WORD && |cmdid| < 0x1_0000
    requires tail == (if resp != [] then Uint32(|resp|) + resp else [])
    requires GetRemainlen(s) == Got(n, Uint16(|cmdid|) + (cmdid + tail)) && |cmdid| + |tail| + 2 <= total
    ensures CmdReqOf(s, total) == if resp != [] then Ok(Command(cmdid, resp)) else Err(-1)
  {
    hide GetRemainlen, GetUint16, GetUint32, GetBytes, Uint16, Uint32, TakeRest;
    Uint16Back(|cmdid|, cmdid + tail);
    FirstOf(cmdid, tail, total - |cmdid| - |tail|);
    if resp != [] {
      FourBytes(|resp|);
      Uint32Back(|resp|, resp);
      TakeAll(resp, total, ERR_CMDREQ);
    } else {
      NoWord();
    }
  }

  lemma CmdRespPacket(cmdid: bytes, resp: bytes, n: nat)
    requires |cmdid| < 0x1_0000 && n == |cmdid| + |resp| + (if resp != [] then 6 else 2) < LENGTH_LIMIT
    ensures var p := Packet(CMDRESP, CmdResp(cmdid, resp));
      var tail := if resp != [] then Uint32(|resp|) + resp else [];
      && 0 < |p| < WORD && p[0] == 0xB0 && |cmdid| + |tail| + 2 <= |p|
      && GetRemainlen(p[1..]) == Got(n, Uint16(|cmdid|) + (cmdid + tail))
  {
    FourBytes(|resp|);
    CmdRespBody(cmdid, resp);
    PacketSplit(CMDRESP, CmdResp(cmdid, resp));
    hide Uint32, GetRemainlen, Body, Declared, CmdResp;
  }

  /** A response read the way a command is read: its identifier and text come back
      exactly when the text is not empty, since an empty one is sent without a length. */
  lemma CmdRespRoundTrip(cmdid: bytes, resp: bytes)
    requires |cmdid| < 0x1_0000 && |cmdid| + |resp| + 6 < LENGTH_LIMIT
    ensures var p := Packet(CMDRESP, CmdResp(cmdid, resp));
      && p[0] == 0xB0
      && (resp != [] ==> CmdReqOf(p[1..], |p|) == Ok(Command(cmdid, resp)))
      && (resp == [] ==> CmdReqOf(p[1..], |p|) == Err(-1))
  {
    var p := Packet(CMDRESP, CmdResp(cmdid, resp));
    var n := |cmdid| + |resp| + (if resp != [] then 6 else 2);
    var tail := if resp != [] then Uint32(|resp|) + resp else [];
    hide *;
    CmdRespPacket(cmdid, resp, n);
    assert |p[1..]| == |p| - 1;
    CmdReqStep(p[1..], |p|, n, cmdid, tail, resp);
  }

  /** A response without text is its identifier behind a length, and nothing else. */
  lemma CmdRespEmpty(cmdid: bytes)
    requires |cmdid| < 0x1_0000
    ensures var p := Packet(CMDRESP, CmdResp(cmdid, []));
      && p[0] == 0xB0 && GetRemainlen(p[1..]).Got? && GetRemainlen(p[1..]).value == 2 + |cmdid|
      && GetUint16(GetRemainlen(p[1..]).rest) == Got(|cmdid|, cmdid)
  {
    assert 2 + |cmdid| < LENGTH_LIMIT;
    hide *;
    CmdRespPacket(cmdid, [], 2 + |cmdid|);
    assert cmdid + [] == cmdid;
    Uint16Back(|cmdid|, cmdid);
  }

  // ----- a request for updates

  /** Names and versions in turn until nothing is left. */
  function GetVersions(s: bytes): Read<seq<Version>>
    decreases |s|
  {
    if s == [] then Got([], s)
    else
      var (name, s1) :- GetStr(s);
      var (version, s2) :- GetStr(s1);
      var (vs, rest) :- GetVersions(s2);
      Got([Version(name, version)] + vs, rest)
  }

  function CutVersions(vs: seq<Version>): (r: seq<Version>)
    ensures |r| == |vs|
  {
    seq(|vs|, i requires 0 <= i < |vs| => Version(Cut(vs[i].name), Cut(vs[i].version)))
  }

  ghost predicate Readable(v: Version) {
    0 !in v.name && 0 !in v.version
  }

  predicate VersionFits(v: Version) {
    |v.name| < 0x1_0000 && |v.version| < 0x1_0000
  }

  lemma VersionsStep(s: bytes, name: bytes, version: bytes, s1: bytes, s2: bytes)
    requires s != [] && GetStr(s) == Got(name, s1) && GetStr(s1) == Got(version, s2) && GetVersions(s2).Got?
    ensures GetVersions(s) == Got([Version(name, version)] + GetVersions(s2).value, GetVersions(s2).rest)
  {
    hide GetStr;
  }

  lemma StrSome(s: bytes)
    ensures Str(s) != []
  {
  }

  lemma UpdateReqBody(v: Version, vs: seq<Version>)
    ensures Body(UpdateReq([v] + vs)) == Str(v.name) + (Str(v.version) + Body(UpdateReq(vs)))
  {
    var more := UpdateReq(vs);
    assert ([v] + vs)[1..] == vs;
    assert UpdateReq([v] + vs) == [Text(v.name)] + ([Text(v.version)] + more);
    BodyCons(Text(v.version), more);
    BodyCons(Text(v.name), [Text(v.version)] + more);
  }

  lemma {:induction false} VersionsBack(vs: seq<Version>)
    requires forall i :: 0 <= i < |vs| ==> Readable(vs[i])
    ensures GetVersions(Body(UpdateReq(vs))) == Got(CutVersions(vs), [])
  {
    if vs != [] {
      var v, more := vs[0], vs[1..];
      assert vs == [v] + more;
      assert Readable(v);
      assert CutVersions(vs) == [Version(Cut(v.name), Cut(v.version))] + CutVersions(more);
      VersionsBack(more);
      hide Body, UpdateReq, GetVersions, GetStr, Str, CutVersions, Cut;
      var rest := Body(UpdateReq(more));
      UpdateReqBody(v, more);
      StrBack(v.name, Str(v.version) + rest);
      StrBack(v.version, rest);
      StrSome(v.name);
      VersionsStep(Body(UpdateReq(vs)), Cut(v.name), Cut(v.version), Str(v.version) + rest, rest);
    }
  }

  lemma CutVersionsAreWhole(vs: seq<Version>)
    ensures CutVersions(vs) == vs <==> forall i :: 0 <= i < |vs| ==> VersionFits(vs[i])
  {
    forall i | 0 <= i < |vs|
      ensures CutVersions(vs)[i] == vs[i] <==> VersionFits(vs[i])
    {
      CutIsWhole(vs[i].name);
      CutIsWhole(vs[i].version);
    }
  }

  /** The list of names and versions comes back in order with nothing left, behind a
      length that counts it, exactly when every string fits. */
  lemma UpdateReqRoundTrip(vs: seq<Version>)
    requires (forall i :: 0 <= i < |vs| ==> Readable(vs[i])) && Declared(UpdateReq(vs)) < LENGTH_LIMIT
    ensures var p := Packet(UPDATEREQ, UpdateReq(vs));
      && p[0] == 0x50 && GetRemainlen(p[1..]).Got?
      && (GetVersions(GetRemainlen(p[1..]).rest) == Got(vs, []) <==> forall i :: 0 <= i < |vs| ==> VersionFits(vs[i]))
      && (GetRemainlen(p[1..]).value == |GetRemainlen(p[1..]).rest| <==> forall i :: 0 <= i < |vs| ==> VersionFits(vs[i]))
  {
    PacketSplit(UPDATEREQ, UpdateReq(vs));
    BodyLength(UpdateReq(vs));
    UpdateReqFits(vs);
    hide Body, Declared, UpdateReq, GetRemainlen, GetVersions, VersionFits, Fits, CutVersions;
    VersionsBack(vs);
    CutVersionsAreWhole(vs);
  }

  lemma {:induction false} UpdateReqFits(vs: seq<Version>)
    ensures Fits(UpdateReq(vs)) <==> forall i :: 0 <= i < |vs| ==> VersionFits(vs[i])
  {
    if vs != [] {
      var fs, more := UpdateReq(vs), UpdateReq(vs[1..]);
      UpdateReqFits(vs[1..]);
      assert fs[0] == Text(vs[0].name) && fs[1] == Text(vs[0].version);
      assert forall i :: 0 <= i < |more| ==> more[i] == fs[i + 2];
      assert forall i :: 2 <= i < |fs| ==> fs[i] == more[i - 2];
      assert forall i :: 1 <= i < |vs| ==> vs[i] == vs[1..][i - 1];
      assert Fits(fs) <==> FieldFits(fs[0]) && FieldFits(fs[1]) && Fits(more);
    }
  }
}
