/** Unpackers, and which arguments survive being packed and unpacked. */
module EdpUnpack {
  import opened Sequences
  import opened Octets
  import opened EdpWire
  import opened EdpStream
  import opened EdpBuffer
  import opened EdpPackets

  /** `Abort`: the source's closing assertion fails, or it copies from outside
      the packet. */
  datatype Unpacked<T> = Err(code: int) | Abort | Ok(value: T)

  const ERR_PUSHD_REMAIN := -1010
  const ERR_PUSHD_DEVID := -1011
  const ERR_PUSHD_DATA := -1012
  const ERR_SAVED_REMAIN := -1020
  const ERR_SAVED_TRANSFLAG := -1021
  const ERR_SAVED_DEVID := -1022
  const ERR_SAVED_DATAFLAG := -1023
  const ERR_SAVED_JSON := -1024
  const ERR_SAVED_BIN_DESC := -1026
  const ERR_SAVED_BINLEN := -1028
  const ERR_SAVED_BINDATA := -1029
  const ERR_SAVED_STR_WITH_TIME := -1034

  // ----- what the unpackers return; `s` is the unread part of `total` bytes

  datatype Push = Push(src: bytes, data: bytes)

  function TakeRest(s: bytes, total: nat, count: nat, code: int): Unpacked<bytes>
    requires |s| <= total
  {
    match GetBytes(s, total - |s|, count)
    case Short => Err(code)
    case Overrun => Abort
    case Got(data, rest) => if rest == [] then Ok(data) else Abort
  }

  function PushdataOf(s: bytes, total: nat): Unpacked<Push>
    requires |s| <= total
  {
    match GetRemainlen(s)
    case Got(remainlen, s1) =>
      (match GetStr(s1)
       case Got(src, s2) =>
         (match TakeRest(s2, total, (remainlen - (2 + |src|)) % WORD, ERR_PUSHD_DATA)
          case Ok(data) => Ok(Push(src, data))
          case Abort => Abort
          case Err(code) => Err(code))
       case _ => Err(ERR_PUSHD_DEVID))
    case _ => Err(ERR_PUSHD_REMAIN)
  }

  datatype Head = Head(src: Option<bytes>, kind: byte, rest: bytes)

  function SavedataOf(s: bytes): Unpacked<Head> {
    match GetRemainlen(s)
    case Got(_, s1) =>
      (match GetByte(s1)
       case Got(flag, s2) =>
         var dev := if flag >= 0x80 then GetStr(s2) else Got([], s2);
         if !dev.Got? then Err(ERR_SAVED_DEVID)
         else
           var id := if flag / 0x40 % 2 == 1 then GetUint16(dev.rest) else Got(0, dev.rest);
           if !id.Got? then Err(ERR_SAVED_DEVID)
           else (match GetByte(id.rest)
                 case Got(kind, s3) => Ok(Head(if flag >= 0x80 then Some(dev.value) else None, kind, s3))
                 case _ => Err(ERR_SAVED_DATAFLAG))
       case _ => Err(ERR_SAVED_TRANSFLAG))
    case _ => Err(ERR_SAVED_REMAIN)
  }

  function SimpleStringOf(s: bytes): Unpacked<bytes> {
    match GetStr(s)
    case Got(text, _) => Ok(text)
    case _ => Err(ERR_SAVED_JSON)
  }

  const NO_TIME := DataTime(0, 0, 0, 0, 0, 0)

  /** Six zero bytes mean no time; otherwise every part is range checked. */
  function GetTime(s: bytes): Read<DataTime> {
    if |s| <= 6 then Short
    else if forall i :: 0 <= i < 6 ==> s[i] == 0 then Got(NO_TIME, s[6..])
    else if s[0] > 0 && 1 <= s[1] <= 12 && 1 <= s[2] <= 31 && s[3] <= 23 && s[4] <= 59 && s[5] <= 59 then
      Got(DataTime(2000 + s[0] as int, s[1], s[2], s[3], s[4], s[5]), s[6..])
    else Short
  }

  datatype Timed = Timed(time: DataTime, text: bytes)

  function StringWithTimeOf(s: bytes): Unpacked<Timed> {
    match GetTime(s)
    case Got(t, s1) =>
      (match GetStr(s1)
       case Got(text, _) => Ok(Timed(t, text))
       case _ => Err(ERR_SAVED_STR_WITH_TIME))
    case _ => Err(ERR_SAVED_STR_WITH_TIME)
  }

  datatype Bin = Bin(desc: bytes, data: bytes)

  function BinStrOf(s: bytes, total: nat): Unpacked<Bin>
    requires |s| <= total
  {
    match GetStr(s)
    case Got(desc, s1) =>
      (match GetUint32(s1)
       case Got(n, s2) =>
         (match TakeRest(s2, total, n, ERR_SAVED_BINDATA)
          case Ok(data) => Ok(Bin(desc, data))
          case Abort => Abort
          case Err(code) => Err(code))
       case _ => Err(ERR_SAVED_BINLEN))
    case _ => Err(ERR_SAVED_BIN_DESC)
  }

  // ----- the unpackers

  method UnpackPushdata(pkg: Buffer) returns (r: Unpacked<Push>)
    requires pkg.Valid()
    modifies pkg`readPos
    ensures pkg.Valid() && r == PushdataOf(old(pkg.Unread()), pkg.writePos)
  {
    hide GetStr, GetRemainlen, GetBytes, LengthFrom, UpToNul;
    var remainlen := pkg.ReadRemainlen();
    if !remainlen.Got? { return Err(ERR_PUSHD_REMAIN); }
    var src := pkg.ReadStr();
    if !src.Got? { return Err(ERR_PUSHD_DEVID); }
    var data := pkg.ReadBytes((remainlen.value - (2 + |src.value|)) % WORD);
    if data.Short? { return Err(ERR_PUSHD_DATA); }
    if data.Overrun? || pkg.readPos != pkg.writePos { return Abort; }
    r := Ok(Push(src.value, data.value));
  }

  method UnpackSavedata(pkg: Buffer) returns (r: Unpacked<Head>)
    requires pkg.Valid()
    modifies pkg`readPos
    ensures pkg.Valid() && r == SavedataOf(old(pkg.Unread()))
    ensures r.Ok? ==> pkg.Unread() == r.value.rest
  {
    hide GetStr, GetRemainlen, GetUint16, GetByte, LengthFrom, UpToNul;
    var remainlen := pkg.ReadRemainlen();
    if !remainlen.Got? { return Err(ERR_SAVED_REMAIN); }
    var flag := pkg.ReadByte();
    if !flag.Got? { return Err(ERR_SAVED_TRANSFLAG); }
    var src: Option<bytes> := None;
    if flag.value >= 0x80 {
      var dev := pkg.ReadStr();
      if !dev.Got? { return Err(ERR_SAVED_DEVID); }
      src := Some(dev.value);
    }
    if flag.value / 0x40 % 2 == 1 {
      var msgId := pkg.ReadUint16();
      if !msgId.Got? { return Err(ERR_SAVED_DEVID); }
    }
    var kind := pkg.ReadByte();
    if !kind.Got? { return Err(ERR_SAVED_DATAFLAG); }
    r := Ok(Head(src, kind.value, kind.rest));
  }

  method ReadDataTime(pkg: Buffer) returns (r: Read<DataTime>)
    requires pkg.Valid()
    modifies pkg`readPos
    ensures pkg.Valid() && r == GetTime(old(pkg.Unread()))
    ensures r.Got? ==> pkg.Unread() == r.rest
  {
    if pkg.readPos + 6 >= pkg.writePos { return Short; }
    var t := pkg.data[pkg.readPos..pkg.readPos + 6];
    ghost var s := pkg.Unread();
    assert forall i :: 0 <= i < 6 ==> t[i] == s[i];
    if t == [0, 0, 0, 0, 0, 0] {
      pkg.readPos := pkg.readPos + 6;
      return Got(NO_TIME, pkg.data[pkg.readPos..pkg.writePos]);
    }
    assert !(forall i :: 0 <= i < 6 ==> s[i] == 0);
    var year, month, day := ReadThree(pkg);
    if year <= 0 { return Short; }
    if month < 1 || month > 12 { return Short; }
    if day < 1 || day > 31 { return Short; }
    assert s[3..][0] == s[3] && s[3..][1] == s[4] && s[3..][2] == s[5];
    var hour, minute, second := ReadThree(pkg);
    if hour > 23 { return Short; }
    if minute > 59 { return Short; }
    if second > 59 { return Short; }
    assert s[3..][3..] == s[6..];
    r := Got(DataTime(2000 + year as int, month, day, hour, minute, second), pkg.data[pkg.readPos..pkg.writePos]);
  }

  method ReadThree(pkg: Buffer) returns (a: byte, b: byte, c: byte)
    requires pkg.Valid() && |pkg.Unread()| >= 3
    modifies pkg`readPos
    ensures pkg.Valid() && pkg.Unread() == old(pkg.Unread())[3..]
    ensures old(pkg.Unread())[0] == a && old(pkg.Unread())[1] == b && old(pkg.Unread())[2] == c
  {
    ghost var s := pkg.Unread();
    var x := pkg.ReadByte();
    var y := pkg.ReadByte();
    var z := pkg.ReadByte();
    a, b, c := x.value, y.value, z.value;
    FirstThree(s);
  }

  lemma FirstThree(s: bytes)
    requires |s| >= 3
    ensures s[1..][0] == s[1] && s[1..][1..][0] == s[2] && s[1..][1..][1..] == s[3..]
  {
  }

  method UnpackSimpleString(pkg: Buffer) returns (r: Unpacked<bytes>)
    requires pkg.Valid()
    modifies pkg`readPos
    ensures pkg.Valid() && r == SimpleStringOf(old(pkg.Unread()))
  {
    var text := pkg.ReadStr();
    if !text.Got? { return Err(ERR_SAVED_JSON); }
    r := Ok(text.value);
  }

  method UnpackStringWithTime(pkg: Buffer) returns (r: Unpacked<Timed>)
    requires pkg.Valid()
    modifies pkg`readPos
    ensures pkg.Valid() && r == StringWithTimeOf(old(pkg.Unread()))
  {
    hide GetStr, GetTime, UpToNul;
    var time := ReadDataTime(pkg);
    if !time.Got? { return Err(ERR_SAVED_STR_WITH_TIME); }
    var text := pkg.ReadStr();
    if !text.Got? { return Err(ERR_SAVED_STR_WITH_TIME); }
    r := Ok(Timed(time.value, text.value));
  }

  lemma Uint32Bound()
    ensures forall s: bytes :: GetUint32(s).Got? ==> GetUint32(s).value < WORD
  {
  }

  method UnpackBinStr(pkg: Buffer) returns (r: Unpacked<Bin>)
    requires pkg.Valid()
    modifies pkg`readPos
    ensures pkg.Valid() && r == BinStrOf(old(pkg.Unread()), pkg.writePos)
  {
    Uint32Bound();
    hide GetStr, GetUint32, GetBytes, UpToNul;
    var desc := pkg.ReadStr();
    if !desc.Got? { return Err(ERR_SAVED_BIN_DESC); }
    var n := pkg.ReadUint32();
    if !n.Got? { return Err(ERR_SAVED_BINLEN); }
    var data := pkg.ReadBytes(n.value);
    if data.Short? { return Err(ERR_SAVED_BINDATA); }
    if data.Overrun? || pkg.readPos != pkg.writePos { return Abort; }
    r := Ok(Bin(desc.value, data.value));
  }

  // ----- what comes back

  /** A string is cut to its length modulo 2^16. */
  function Cut(s: bytes): bytes {
    s[..|s| % 0x1_0000]
  }

  function CutOption(s: Option<bytes>): Option<bytes> {
    if s.Some? then Some(Cut(s.value)) else None
  }

  lemma CutIsWhole(s: bytes)
    ensures Cut(s) == s <==> |s| < 0x1_0000
  {
    if |s| < 0x1_0000 {
      assert s[..|s|] == s;
    } else {
      assert |Cut(s)| < |s|;
    }
  }

  lemma Uint16Back(n: nat, rest: bytes)
    requires n < 0x1_0000
    ensures GetUint16(Uint16(n) + rest) == Got(n, rest)
  {
    assert (Uint16(n) + rest)[2..] == rest;
    assert n / 256 % 256 == n / 256;
  }

  lemma Uint32Back(n: nat, rest: bytes)
    requires n < WORD
    ensures GetUint32(Uint32(n) + rest) == Got(n, rest)
  {
    assert (Uint32(n) + rest)[4..] == rest;
    var a, b := n / 256, n / 0x1_0000;
    assert b == a / 256 && n / 0x100_0000 == b / 256;
    assert n == 256 * a + n % 256 && a == 256 * b + a % 256 && b == 256 * (b / 256) + b % 256;
  }

  lemma StrBack(s: bytes, rest: bytes)
    requires 0 !in s
    ensures GetStr(Str(s) + rest) == Got(Cut(s), rest)
  {
    var n := |s| % 0x1_0000;
    Assoc(Uint16(n), Cut(s), rest);
    Uint16Back(n, Cut(s) + rest);
    assert (Cut(s) + rest)[..n] == Cut(s) && (Cut(s) + rest)[n..] == rest;
    UpToNulWhole(Cut(s), 0);
  }

  lemma TakeAll(data: bytes, total: nat, code: int)
    requires |data| <= total < WORD
    ensures TakeRest(data, total, |data|, code) == Ok(data)
  {
    assert data[..|data|] == data && data[|data|..] == [];
  }

  lemma PacketSplit(kind: byte, fs: seq<Field>)
    requires Declared(fs) < LENGTH_LIMIT
    ensures GetRemainlen(Packet(kind, fs)[1..]) == Got(Declared(fs), Body(fs))
    ensures |Body(fs)| < |Packet(kind, fs)| <= 5 + Declared(fs)
  {
    var n, body := Declared(fs), Body(fs);
    assert Packet(kind, fs)[1..] == Remainlen(n) + body;
    LengthRoundTrip(n, body);
    assert (Remainlen(n) + body)[|Remainlen(n)|..] == body;
    BodyLength(fs);
  }

  lemma BodyCons(f: Field, fs: seq<Field>)
    ensures Body([f] + fs) == FieldBytes(f) + Body(fs)
    ensures Declared([f] + fs) == FieldSize(f) + Declared(fs)
  {
    assert ([f] + fs)[1..] == fs;
  }

  lemma BodyLast(f: Field)
    ensures Body([f]) == FieldBytes(f) && Declared([f]) == FieldSize(f)
  {
    BodyCons(f, []);
    assert [f] + [] == [f];
  }

  lemma PushdataStep(s: bytes, total: nat, n: nat, s1: bytes, src: bytes, data: bytes)
    requires |s| <= total < WORD && |data| <= total
    requires GetRemainlen(s) == Got(n, s1) && GetStr(s1) == Got(src, data)
    ensures PushdataOf(s, total).Ok? ==> PushdataOf(s, total).value.src == src
    ensures n == 2 + |src| + |data| ==> PushdataOf(s, total) == Ok(Push(src, data))
  {
    hide GetRemainlen, GetStr, TakeRest;
    TakeAll(data, total, ERR_PUSHD_DATA);
  }

  /** A pushed packet gives its arguments back exactly when the device name fits
      its 16-bit length. */
  lemma PushdataRoundTrip(dst: bytes, data: bytes)
    requires 0 !in dst && 2 + |dst| + |data| < LENGTH_LIMIT
    ensures var p := Packet(PUSHDATA, Pushdata(dst, data));
            && p[0] == 0x30
            && (PushdataOf(p[1..], |p|) == Ok(Push(dst, data)) <==> |dst| < 0x1_0000)
  {
    hide *;
    var p := Packet(PUSHDATA, Pushdata(dst, data));
    PushdataPacket(dst, data);
    assert |p[1..]| == |p| - 1;
    StrBack(dst, data);
    CutIsWhole(dst);
    PushdataStep(p[1..], |p|, 2 + |dst| + |data|, Str(dst) + data, Cut(dst), data);
  }

  lemma PushdataPacket(dst: bytes, data: bytes)
    requires 2 + |dst| + |data| < LENGTH_LIMIT
    ensures var p := Packet(PUSHDATA, Pushdata(dst, data));
            && |p| < WORD && |data| <= |p| && 0 < |p| && p[0] == 0x30
            && GetRemainlen(p[1..]) == Got(2 + |dst| + |data|, Str(dst) + data)
  {
    assert Pushdata(dst, data) == [Text(dst)] + [Raw(data)];
    BodyCons(Text(dst), [Raw(data)]);
    BodyLast(Raw(data));
    PacketSplit(PUSHDATA, Pushdata(dst, data));
  }

  lemma SaveHeadSize(dst: Option<bytes>, msgId: nat)
    ensures Declared(SaveHead(dst, msgId)) == HeadSize(dst, msgId)
    ensures Body(SaveHead(dst, msgId)) == HeadBytes(dst, msgId)
  {
    var flag := Byte((if dst.Some? then 0x80 else 0) + (if msgId != 0 then 0x40 else 0));
    var ds := if dst.Some? then [Text(dst.value)] else [];
    var ms := if msgId != 0 then [U16(msgId)] else [];
    BodyAppend([flag] + ds, ms);
    BodyAppend([flag], ds);
    BodyLast(flag);
    if dst.Some? { BodyLast(Text(dst.value)); }
    if msgId != 0 { BodyLast(U16(msgId)); }
  }

  function HeadBytes(dst: Option<bytes>, msgId: nat): bytes {
    [(if dst.Some? then 0x80 else 0) + (if msgId != 0 then 0x40 else 0)]
    + (if dst.Some? then Str(dst.value) else [])
    + (if msgId != 0 then Uint16(msgId) else [])
  }

  /** The common head comes back with its device name cut and the rest of the
      packet untouched. */
  lemma SaveHeadBack(dst: Option<bytes>, msgId: nat, kind: byte, more: seq<Field>)
    requires msgId < 0x1_0000 && (dst.Some? ==> 0 !in dst.value)
    requires HeadSize(dst, msgId) + 1 + Declared(more) < LENGTH_LIMIT
    ensures var p := Packet(SAVEDATA, SaveHead(dst, msgId) + ([Byte(kind)] + more));
            && SavedataOf(p[1..]) == Ok(Head(CutOption(dst), kind, Body(more)))
            && |p| < WORD && |Body(more)| <= |p|
  {
    var tail := [Byte(kind)] + more;
    var fs := SaveHead(dst, msgId) + tail;
    var p := Packet(SAVEDATA, fs);
    SaveHeadSize(dst, msgId);
    BodyAppend(SaveHead(dst, msgId), tail);
    BodyCons(Byte(kind), more);
    PacketSplit(SAVEDATA, fs);
    hide Body, Declared, Packet, SavedataOf, GetRemainlen, HeadBytes, SaveHead;
    SavedataStep(p[1..], Declared(fs), dst, msgId, kind, Body(more));
  }

  lemma SavedataStep(s: bytes, n: nat, dst: Option<bytes>, msgId: nat, kind: byte, more: bytes)
    requires msgId < 0x1_0000 && (dst.Some? ==> 0 !in dst.value)
    requires GetRemainlen(s) == Got(n, HeadBytes(dst, msgId) + ([kind] + more))
    ensures SavedataOf(s) == Ok(Head(CutOption(dst), kind, more))
  {
    hide GetStr, GetRemainlen, GetUint16, GetByte, HeadBytes, Str, Cut, Uint16;
    HeadBytesBack(dst, msgId, kind, more);
  }

  lemma HeadBytesBack(dst: Option<bytes>, msgId: nat, kind: byte, more: bytes)
    requires msgId < 0x1_0000 && (dst.Some? ==> 0 !in dst.value)
    ensures var flag: byte := (if dst.Some? then 0x80 else 0) + (if msgId != 0 then 0x40 else 0);
            var idText := (if msgId != 0 then Uint16(msgId) else []) + ([kind] + more);
            var devText := (if dst.Some? then Str(dst.value) else []) + idText;
            && GetByte(HeadBytes(dst, msgId) + ([kind] + more)) == Got(flag, devText)
            && (dst.Some? ==> GetStr(devText) == Got(Cut(dst.value), idText))
            && (dst.None? ==> devText == idText)
            && (msgId != 0 ==> GetUint16(idText) == Got(msgId, [kind] + more))
            && (msgId == 0 ==> idText == [kind] + more)
            && GetByte([kind] + more) == Got(kind, more)
  {
    var flag: byte := (if dst.Some? then 0x80 else 0) + (if msgId != 0 then 0x40 else 0);
    var id := if msgId != 0 then Uint16(msgId) else [];
    var dev := if dst.Some? then Str(dst.value) else [];
    var tail := [kind] + more;
    Assoc([flag] + dev, id, tail);
    Assoc([flag], dev, id + tail);
    assert ([flag] + (dev + (id + tail)))[1..] == dev + (id + tail);
    if dst.Some? { StrBack(dst.value, id + tail); }
    if msgId != 0 { Uint16Back(msgId, tail); }
    assert tail[1..] == more;
  }

  lemma CutOptionIsWhole(dst: Option<bytes>)
    ensures CutOption(dst) == dst <==> dst.None? || |dst.value| < 0x1_0000
  {
    if dst.Some? { CutIsWhole(dst.value); }
  }

  lemma SimpleStringRoundTrip(dst: Option<bytes>, input: bytes, msgId: nat)
    requires msgId < 0x1_0000 && 0 !in input && (dst.Some? ==> 0 !in dst.value)
    requires HeadSize(dst, msgId) + 1 + (2 + |input|) < LENGTH_LIMIT
    ensures var h := SavedataOf(Packet(SAVEDATA, SimpleString(dst, input, msgId))[1..]);
            && h.Ok? && h.value.kind == 0x05
            && (h.value.src == dst <==> dst.None? || |dst.value| < 0x1_0000)
            && (SimpleStringOf(h.value.rest) == Ok(input) <==> |input| < 0x1_0000)
  {
    assert SimpleString(dst, input, msgId) == SaveHead(dst, msgId) + ([Byte(TYPE_STRING)] + [Text(input)]);
    BodyLast(Text(input));
    SaveHeadBack(dst, msgId, TYPE_STRING, [Text(input)]);
    CutOptionIsWhole(dst);
    StrBack(input, []);
    assert Str(input) + [] == Str(input);
    CutIsWhole(input);
  }

  /** The times the reader accepts; a year is kept in one byte, and year 2000
      itself is refused. */
  predicate ValidTime(t: DataTime) {
    2000 < t.year < 2256 && 1 <= t.month <= 12 && 1 <= t.day <= 31 && t.hour <= 23 && t.minute <= 59 && t.second <= 59
  }

  function TimeBytes(t: Option<DataTime>): bytes {
    match t
    case None => [0, 0, 0, 0, 0, 0]
    case Some(t) => [(t.year - 2000) % 256, t.month, t.day, t.hour, t.minute, t.second]
  }

  lemma TimeBytesBody(t: Option<DataTime>)
    ensures Body(TimeFields(t)) == TimeBytes(t) && Declared(TimeFields(t)) == 6
  {
    var fs := TimeFields(t);
    assert fs == [fs[0]] + ([fs[1]] + ([fs[2]] + ([fs[3]] + ([fs[4]] + [fs[5]]))));
    BodyLast(fs[5]);
    BodyCons(fs[4], [fs[5]]);
    BodyCons(fs[3], [fs[4]] + [fs[5]]);
    BodyCons(fs[2], [fs[3]] + ([fs[4]] + [fs[5]]));
    BodyCons(fs[1], [fs[2]] + ([fs[3]] + ([fs[4]] + [fs[5]])));
    BodyCons(fs[0], [fs[1]] + ([fs[2]] + ([fs[3]] + ([fs[4]] + [fs[5]]))));
  }

  lemma TimeBack(t: Option<DataTime>, rest: bytes)
    requires rest != []
    ensures var r := GetTime(TimeBytes(t) + rest);
            && (t.None? ==> r == Got(NO_TIME, rest))
            && (t.Some? ==> (r == Got(t.value, rest) <==> ValidTime(t.value)))
            && (r.Got? ==> r.rest == rest)
            && (t.Some? && r.Got? ==> (r.value == t.value <==> ValidTime(t.value)))
  {
    var s := TimeBytes(t) + rest;
    assert s[6..] == rest;
    if t.Some? {
      var y := t.value.year - 2000;
      assert 0 < y < 256 ==> y % 256 == y;
      assert s[0] == y % 256;
    }
  }

  /** A time comes back exactly when it is one the reader accepts; no time comes
      back as the zero time. */
  lemma StringWithTimeRoundTrip(dst: Option<bytes>, input: bytes, time: Option<DataTime>, msgId: nat)
    requires msgId < 0x1_0000 && 0 !in input && (dst.Some? ==> 0 !in dst.value)
    requires HeadSize(dst, msgId) + 1 + 6 + (2 + |input|) < LENGTH_LIMIT
    ensures var h := SavedataOf(Packet(SAVEDATA, SimpleStringWithTime(dst, input, time, msgId))[1..]);
            && h.Ok? && h.value.kind == 0x06
            && (h.value.src == dst <==> dst.None? || |dst.value| < 0x1_0000)
            && (time.None? ==> (StringWithTimeOf(h.value.rest) == Ok(Timed(NO_TIME, input)) <==> |input| < 0x1_0000))
            && (time.Some? ==> (StringWithTimeOf(h.value.rest) == Ok(Timed(time.value, input))
                                <==> ValidTime(time.value) && |input| < 0x1_0000))
  {
    assert TYPE_STRING_WITH_TIME == 0x06;
    hide *;
    var more := TimeFields(time) + [Text(input)];
    TimedFields(dst, input, time, msgId);
    SaveHeadBack(dst, msgId, TYPE_STRING_WITH_TIME, more);
    CutOptionIsWhole(dst);
    TimedStep(input, time);
  }

  lemma TimedFields(dst: Option<bytes>, input: bytes, time: Option<DataTime>, msgId: nat)
    ensures var more := TimeFields(time) + [Text(input)];
            && SimpleStringWithTime(dst, input, time, msgId) == SaveHead(dst, msgId) + ([Byte(TYPE_STRING_WITH_TIME)] + more)
            && Body(more) == TimeBytes(time) + Str(input) && Declared(more) == 6 + 2 + |input|
  {
    hide SaveHead;
    BodyAppend(TimeFields(time), [Text(input)]);
    BodyLast(Text(input));
    TimeBytesBody(time);
    hide TimeFields, TimeBytes, Str, Body, Declared;
    assert SaveHead(dst, msgId) + [Byte(TYPE_STRING_WITH_TIME)] + TimeFields(time) + [Text(input)]
        == SaveHead(dst, msgId) + ([Byte(TYPE_STRING_WITH_TIME)] + (TimeFields(time) + [Text(input)]));
  }

  lemma TimedStep(input: bytes, time: Option<DataTime>)
    requires 0 !in input
    ensures var r := StringWithTimeOf(TimeBytes(time) + Str(input));
            && (time.None? ==> (r == Ok(Timed(NO_TIME, input)) <==> |input| < 0x1_0000))
            && (time.Some? ==> (r == Ok(Timed(time.value, input)) <==> ValidTime(time.value) && |input| < 0x1_0000))
  {
    assert Str(input) != [] && Str(input) + [] == Str(input);
    TimeBack(time, Str(input));
    hide GetTime, GetStr, TimeBytes, Str, Cut, ValidTime;
    StrBack(input, []);
    CutIsWhole(input);
  }

  /** The size check lets one length through that does not come back: a
      description of exactly 2^16 bytes. */
  lemma BinStrRoundTrip(dst: Option<bytes>, desc: bytes, bin: bytes, msgId: nat)
    requires msgId < 0x1_0000 && 0 !in desc && (dst.Some? ==> 0 !in dst.value)
    requires |desc| <= MAX_DESC && |bin| <= MAX_BIN
    requires HeadSize(dst, msgId) + 1 + (2 + |desc|) + 4 + |bin| < LENGTH_LIMIT
    ensures var p := Packet(SAVEDATA, BinStr(dst, desc, bin, msgId));
            var h := SavedataOf(p[1..]);
            && h.Ok? && h.value.kind == 0x02 && |h.value.rest| <= |p|
            && (h.value.src == dst <==> dst.None? || |dst.value| < 0x1_0000)
            && (BinStrOf(h.value.rest, |p|) == Ok(Bin(desc, bin)) <==> |desc| != MAX_DESC)
  {
    var more := [Text(desc), U32(|bin|), Raw(bin)];
    var p := Packet(SAVEDATA, BinStr(dst, desc, bin, msgId));
    assert BinStr(dst, desc, bin, msgId) == SaveHead(dst, msgId) + ([Byte(TYPE_BIN)] + more);
    BinFields(desc, bin);
    SaveHeadBack(dst, msgId, TYPE_BIN, more);
    hide Body, Declared, Packet, BinStrOf, SavedataOf, SaveHead, Str, Cut, Uint32, BinStr;
    CutOptionIsWhole(dst);
    BinStrStep(desc, bin, |p|);
  }

  lemma BinFields(desc: bytes, bin: bytes)
    ensures var fs := [Text(desc), U32(|bin|), Raw(bin)];
            Body(fs) == Str(desc) + (Uint32(|bin|) + bin) && Declared(fs) == 2 + |desc| + 4 + |bin|
  {
    assert [Text(desc), U32(|bin|), Raw(bin)] == [Text(desc)] + ([U32(|bin|)] + [Raw(bin)]);
    BodyLast(Raw(bin));
    BodyCons(U32(|bin|), [Raw(bin)]);
    BodyCons(Text(desc), [U32(|bin|)] + [Raw(bin)]);
  }

  lemma BinStrStep(desc: bytes, bin: bytes, total: nat)
    requires 0 !in desc && |bin| < WORD
    requires |Str(desc) + (Uint32(|bin|) + bin)| <= total < WORD
    ensures BinStrOf(Str(desc) + (Uint32(|bin|) + bin), total) == Ok(Bin(Cut(desc), bin))
    ensures Cut(desc) == desc <==> |desc| < 0x1_0000
  {
    StrBack(desc, Uint32(|bin|) + bin);
    Uint32Back(|bin|, bin);
    TakeAll(bin, total, ERR_SAVED_BINDATA);
    CutIsWhole(desc);
    hide GetStr, GetUint32, TakeRest, Str, Cut, Uint32;
  }
}
