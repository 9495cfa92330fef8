/** The growable byte buffer: writers that append, readers that advance a cursor,
    and the extraction of whole packets from the front. */
module EdpBuffer {
  import opened Sequences
  import opened Octets
  import opened EdpWire
  import opened EdpStream

  const WORD: nat := 0x1_0000_0000
  const BUFFER_SIZE: nat := 0x10_0000
  const MAX_CAPACITY: nat := 0x8000_0000

  /** Capacities reachable by doubling: the exponent of 2^20 .. 2^31, else 0. */
  function Exponent(c: nat): nat {
    if c == 0x10_0000 then 20 else if c == 0x20_0000 then 21 else if c == 0x40_0000 then 22
    else if c == 0x80_0000 then 23 else if c == 0x100_0000 then 24 else if c == 0x200_0000 then 25
    else if c == 0x400_0000 then 26 else if c == 0x800_0000 then 27 else if c == 0x1000_0000 then 28
    else if c == 0x2000_0000 then 29 else if c == 0x4000_0000 then 30 else if c == 0x8000_0000 then 31
    else 0
  }

  // ----- readers as functions

  /** `Short`: not enough bytes.  `Overrun`: a count so large that the bounds test
      wraps around, for which the source copies from outside the packet. */
  datatype Read<T> = Short | Overrun | Got(value: T, rest: bytes) {
    predicate IsFailure() {
      !Got?
    }

    function PropagateFailure<U>(): Read<U>
      requires IsFailure()
    {
      if Short? then Short else Overrun
    }

    function Extract(): (T, bytes)
      requires Got?
    {
      (value, rest)
    }
  }

  function GetByte(s: bytes): Read<byte> {
    if s == [] then Short else Got(s[0], s[1..])
  }

  function GetUint16(s: bytes): Read<nat> {
    if |s| < 2 then Short else Got(s[0] as int * 256 + s[1] as int, s[2..])
  }

  function GetUint32(s: bytes): Read<nat> {
    if |s| < 4 then Short else Got(((s[0] as int * 256 + s[1] as int) * 256 + s[2] as int) * 256 + s[3] as int, s[4..])
  }

  /** `pos` is where `s` starts in the packet: the bounds test adds to it. */
  function GetBytes(s: bytes, pos: nat, count: nat): Read<bytes> {
    if (pos + count) % WORD > pos + |s| then Short
    else if count > |s| then Overrun
    else Got(s[..count], s[count..])
  }

  function GetStr(s: bytes): Read<bytes> {
    match GetUint16(s)
    case Got(n, rest) => if n > |rest| then Short else Got(UpToNul(rest[..n], 0), rest[n..])
    case _ => Short
  }

  function GetRemainlen(s: bytes): Read<nat> {
    match LengthFrom(s, 0)
    case Length(v, w) => Got(v, s[w..])
    case _ => Short
  }

  // ----- the loop that reads a length field

  /** The value so far, the weight of the next digit, and the digits read. */
  datatype Scan = Scan(value: nat, multiplier: nat, digits: nat)

  function ScanByte(c: Scan, b: byte): Scan {
    Scan(c.value + b % 128 * c.multiplier, c.multiplier * 128, c.digits + 1)
  }

  function Assemble(c: Scan, r: Length): Length {
    match r
    case Length(v, w) => Length(c.value + v * c.multiplier, c.digits + w)
    case other => other
  }

  /** The digits read so far and the rest of the field make up the field in `s`. */
  ghost predicate Scanning(s: bytes, c: Scan) {
    c.digits <= 4 && c.digits <= |s| && Assemble(c, LengthFrom(s[c.digits..], c.digits)) == LengthFrom(s, 0)
  }

  lemma ScanStep(s: bytes, c: Scan)
    requires Scanning(s, c) && c.digits < 4 && c.digits < |s|
    ensures var b, next := s[c.digits], ScanByte(c, s[c.digits]);
            && (b >= 128 ==> Scanning(s, next))
            && (b < 128 ==> LengthFrom(s, 0) == Length(next.value, next.digits))
  {
    hide LengthFrom, Assemble, ScanByte;
    var t := s[c.digits..];
    assert t[1..] == s[c.digits + 1..] && t[0] == s[c.digits];
    LengthStep(t, c.digits);
    assert ScanByte(c, t[0]).digits == c.digits + 1 by { ScanDigits(c, t[0]); }
    AssembleByte(c, t[0], LengthFrom(t[1..], c.digits + 1));
  }

  lemma ScanDigits(c: Scan, b: byte)
    ensures ScanByte(c, b).digits == c.digits + 1
  {
  }

  lemma LengthStep(t: bytes, k: nat)
    requires k < 4 && t != []
    ensures t[0] < 128 ==> LengthFrom(t, k) == Length(t[0], 1)
    ensures t[0] >= 128 ==>
      var r := LengthFrom(t[1..], k + 1);
      LengthFrom(t, k) == if r.Length? then Length(t[0] - 128 + 128 * r.value, r.width + 1) else r
  {
  }

  lemma AssembleByte(c: Scan, b: byte, r: Length)
    ensures b < 128 ==> Assemble(c, Length(b, 1)) == Length(ScanByte(c, b).value, ScanByte(c, b).digits)
    ensures b >= 128 && r.Length? ==>
      Assemble(c, Length(b - 128 + 128 * r.value, r.width + 1)) == Assemble(ScanByte(c, b), r)
    ensures !r.Length? ==> Assemble(c, r) == r && Assemble(ScanByte(c, b), r) == r
  {
    if b >= 128 && r.Length? {
      assert b % 128 == b - 128;
      Distribute(c.multiplier, b as int - 128, r.value);
    }
  }

  lemma Distribute(m: nat, d: nat, v: nat)
    ensures (d + 128 * v) * m == d * m + v * (m * 128)
  {
  }

  lemma ScanStart(s: bytes)
    ensures Scanning(s, Scan(0, 1, 0))
  {
    assert s[0..] == s;
  }

  // ----- writers as functions

  function Uint16(n: nat): bytes {
    [n / 256 % 256, n % 256]
  }

  function Uint32(n: nat): bytes {
    [n / 0x100_0000 % 256, n / 0x1_0000 % 256, n / 256 % 256, n % 256]
  }

  /** The length is kept in a 16-bit variable, and only that many bytes follow. */
  function Str(s: bytes): bytes {
    Uint16(|s| % 0x1_0000) + s[..|s| % 0x1_0000]
  }

  // ----- the buffer

  class Buffer {
    var data: array<byte>
    var writePos: nat
    var readPos: nat

    ghost predicate Valid()
      reads this
    {
      readPos <= writePos <= data.Length
    }

    /** A buffer made by the constructor and grown by doubling. */
    ghost predicate Growable()
      reads this
    {
      Valid() && Exponent(data.Length) != 0
    }

    ghost function Contents(): bytes
      reads this, data
      requires Valid()
    {
      data[..writePos]
    }

    ghost function Unread(): bytes
      reads this, data
      requires Valid()
    {
      data[readPos..writePos]
    }

    constructor ()
      ensures Growable() && fresh(data) && Contents() == [] && readPos == 0
    {
      data := new byte[BUFFER_SIZE];
      writePos, readPos := 0, 0;
    }

    /** A packet laid over an existing array, as the cipher does with a scratch header. */
    constructor Over(d: array<byte>, pos: nat)
      requires pos <= d.Length
      ensures Valid() && data == d && writePos == pos && readPos == 0
    {
      data, writePos, readPos := d, pos, 0;
    }

    /** Unsigned 32-bit arithmetic throughout.  The buffer gets room for `len`
        more bytes exactly when they end below 2^31.  Past that the doubling
        wraps to zero: the call then fails only for an empty buffer or beyond
        2^32, and otherwise reports success with no room made. */
    method CheckCapacity(len: nat) returns (rc: int)
      requires Growable() && len < WORD
      modifies this`data
      ensures Growable() && Contents() == old(Contents()) && fresh({data} - {old(data)})
      ensures rc == 0 || rc == -1
      ensures rc == 0 && writePos + len <= data.Length <==> writePos + len <= MAX_CAPACITY
      ensures rc == -1 <==> writePos + len > MAX_CAPACITY && (writePos == 0 || writePos + len > WORD)
    {
      var capLen: nat, flag := data.Length, 0;
      while (capLen - writePos) % WORD < len
        invariant 0 <= flag <= 32
        invariant capLen == 0 || (Exponent(capLen) == Exponent(data.Length) + flag && data.Length <= capLen)
        invariant capLen == 0 ==> writePos + len > MAX_CAPACITY
        invariant flag == 0 ==> capLen == data.Length
        decreases 33 - flag
      {
        capLen := capLen * 2 % WORD;
        flag := flag + 1;
        if flag > 32 {
          break;
        }
      }
      if flag > 32 {
        return -1;
      }
      if capLen > data.Length {
        var pdata := new byte[capLen];
        forall i | 0 <= i < writePos {
          pdata[i] := data[i];
        }
        data := pdata;
      }
      rc := 0;
    }

    // ----- writers; each needs room below 2^31 and appends to the contents

    method WriteByte(b: byte) returns (rc: int)
      requires Growable() && readPos == 0 && writePos + 1 <= MAX_CAPACITY
      modifies this`data, this`writePos, data
      ensures Growable() && fresh({data} - {old(data)})
      ensures rc == 0 && Contents() == old(Contents()) + [b]
    {
      rc := CheckCapacity(1);
      data[writePos] := b;
      writePos := writePos + 1;
    }

    method WriteBytes(s: bytes) returns (rc: int)
      requires Growable() && readPos == 0 && writePos + |s| <= MAX_CAPACITY
      modifies this`data, this`writePos, data
      ensures Growable() && fresh({data} - {old(data)})
      ensures rc == 0 && Contents() == old(Contents()) + s
    {
      rc := CheckCapacity(|s|);
      ghost var was := Contents();
      forall i | 0 <= i < |s| {
        data[writePos + i] := s[i];
      }
      writePos := writePos + |s|;
      assert Contents() == was + s;
    }

    method WriteUint16(n: nat) returns (rc: int)
      requires Growable() && readPos == 0 && writePos + 2 <= MAX_CAPACITY && n < 0x1_0000
      modifies this`data, this`writePos, data
      ensures Growable() && fresh({data} - {old(data)})
      ensures rc == 0 && Contents() == old(Contents()) + Uint16(n)
    {
      rc := WriteByte(n / 256 % 256);
      rc := WriteByte(n % 256);
    }

    method WriteUint32(n: nat) returns (rc: int)
      requires Growable() && readPos == 0 && writePos + 4 <= MAX_CAPACITY && n < WORD
      modifies this`data, this`writePos, data
      ensures Growable() && fresh({data} - {old(data)})
      ensures rc == 0 && Contents() == old(Contents()) + Uint32(n)
    {
      rc := WriteByte(n / 0x100_0000 % 256);
      rc := WriteByte(n / 0x1_0000 % 256);
      rc := WriteByte(n / 256 % 256);
      rc := WriteByte(n % 256);
    }

    method WriteStr(s: bytes) returns (rc: int)
      requires Growable() && readPos == 0 && writePos + 2 + |s| <= MAX_CAPACITY
      modifies this`data, this`writePos, data
      ensures Growable() && fresh({data} - {old(data)})
      ensures rc == 0 && Contents() == old(Contents()) + Str(s)
    {
      var length := |s| % 0x1_0000;
      rc := WriteUint16(length);
      rc := WriteBytes(s[..length]);
    }

    /** Writes without growing: the caller must have left room. */
    method WriteRemainlen(n: nat)
      requires Valid() && readPos == 0 && n < LENGTH_LIMIT && writePos + |Remainlen(n)| <= data.Length
      modifies this`writePos, data
      ensures Valid() && readPos == 0
      ensures Contents() == old(Contents()) + Remainlen(n)
      ensures data[writePos..] == old(data[writePos + |Remainlen(n)|..])
    {
      ghost var was, end := Contents(), writePos + |Remainlen(n)|;
      var rem: nat, count := n, 0;
      var more := true;
      while more
        invariant Valid() && readPos == 0 && 0 <= count <= 4
        invariant more ==> count < 4 && rem < Capacity(count)
        invariant more ==> Contents() + Remainlen(rem) == was + Remainlen(n)
        invariant !more ==> Contents() == was + Remainlen(n)
        invariant data[end..] == old(data[end..])
        decreases more, 4 - count
      {
        ghost var before := Contents();
        var b: byte := rem % 128;
        ghost var r := rem;
        rem := rem / 128;
        if rem > 0 {
          b := b + 128;
        }
        data[writePos] := b;
        writePos := writePos + 1;
        count := count + 1;
        more := rem > 0;
        assert Contents() == before + [b];
        assert r >= 128 ==> before + Remainlen(r) == before + [b] + Remainlen(rem);
      }
    }

    // ----- readers

    method ReadByte() returns (r: Read<byte>)
      requires Valid()
      modifies this`readPos
      ensures Valid() && r == GetByte(old(Unread()))
      ensures Unread() == if r.Got? then r.rest else old(Unread())
    {
      if readPos + 1 > writePos {
        return Short;
      }
      var b := data[readPos];
      readPos := readPos + 1;
      r := Got(b, data[readPos..writePos]);
    }

    method ReadUint16() returns (r: Read<nat>)
      requires Valid()
      modifies this`readPos
      ensures Valid() && r == GetUint16(old(Unread()))
      ensures Unread() == if r.Got? then r.rest else old(Unread())
    {
      if readPos + 2 > writePos {
        return Short;
      }
      var msb, lsb := data[readPos], data[readPos + 1];
      readPos := readPos + 2;
      r := Got(msb as int * 256 + lsb as int, data[readPos..writePos]);
    }

    method ReadUint32() returns (r: Read<nat>)
      requires Valid()
      modifies this`readPos
      ensures Valid() && r == GetUint32(old(Unread()))
      ensures Unread() == if r.Got? then r.rest else old(Unread())
    {
      if readPos + 4 > writePos {
        return Short;
      }
      ghost var s := Unread();
      var i, val := 0, 0;
      while i < 4
        invariant 0 <= i <= 4 && readPos == old(readPos) + i && readPos <= writePos
        invariant i == 0 ==> val == 0
        invariant i == 1 ==> val == s[0] as int
        invariant i == 2 ==> val == s[0] as int * 256 + s[1] as int
        invariant i == 3 ==> val == (s[0] as int * 256 + s[1] as int) * 256 + s[2] as int
        invariant i == 4 ==> val == ((s[0] as int * 256 + s[1] as int) * 256 + s[2] as int) * 256 + s[3] as int
      {
        val := val * 256 + data[readPos] as int;
        readPos := readPos + 1;
        i := i + 1;
      }
      r := Got(val, data[readPos..writePos]);
    }

    method ReadBytes(count: nat) returns (r: Read<bytes>)
      requires Valid() && count < WORD
      modifies this`readPos
      ensures Valid() && r == GetBytes(old(Unread()), old(readPos), count)
      ensures Unread() == if r.Got? then r.rest else old(Unread())
    {
      if (readPos + count) % WORD > writePos {
        return Short;
      }
      if readPos + count > writePos {
        return Overrun;
      }
      var val := data[readPos..readPos + count];
      assert val == Unread()[..count] && data[readPos + count..writePos] == Unread()[count..];
      readPos := readPos + count;
      r := Got(val, data[readPos..writePos]);
    }

    method ReadStr() returns (r: Read<bytes>)
      requires Valid()
      modifies this`readPos
      ensures Valid() && r == GetStr(old(Unread()))
      ensures Unread() ==
        if r.Got? then r.rest else if |old(Unread())| < 2 then old(Unread()) else old(Unread())[2..]
    {
      var n := ReadUint16();
      if !n.Got? {
        return Short;
      }
      if readPos + n.value > writePos {
        return Short;
      }
      var val := UpToNul(data[readPos..readPos + n.value], 0);
      assert Unread()[..n.value] == data[readPos..readPos + n.value];
      readPos := readPos + n.value;
      r := Got(val, data[readPos..writePos]);
    }

    method ReadRemainlen() returns (r: Read<nat>)
      requires Valid()
      modifies this`readPos
      ensures Valid() && r == GetRemainlen(old(Unread()))
      ensures Unread() ==
        if r.Got? then r.rest else if |old(Unread())| < 5 then [] else old(Unread())[5..]
    {
      ghost var s := Unread();
      ScanStart(s);
      var c := Scan(0, 1, 0);
      var more := true;
      while more
        invariant Valid() && c.digits <= 4 && c.digits <= |s| && Unread() == s[c.digits..]
        invariant more ==> Scanning(s, c)
        invariant !more ==> LengthFrom(s, 0) == Length(c.value, c.digits)
        decreases more, 4 - c.digits
      {
        var b := ReadByte();
        if !b.Got? {
          return Short;
        }
        if c.digits < 4 {
          ScanStep(s, c);
        }
        c := ScanByte(c, b.value);
        if c.digits > 4 {
          return Short;
        }
        more := b.value >= 128;
      }
      r := Got(c.value, data[readPos..writePos]);
    }

    // ----- extraction

    method IsPkgComplete() returns (n: int)
      requires Valid()
      ensures n == PacketLength(Contents())
    {
      if writePos <= 1 {
        return 0;
      }
      ghost var s := Contents()[1..];
      ScanStart(s);
      var c := Scan(0, 1, 0);
      var more := true;
      while more
        invariant c.digits <= 4 && c.digits < writePos
        invariant more ==> Scanning(s, c)
        invariant !more ==> LengthFrom(s, 0) == Length(c.value, c.digits)
        decreases more, 4 - c.digits
      {
        if c.digits + 1 > 4 {
          return -1;
        }
        if c.digits + 1 > writePos - 1 {
          return 0;
        }
        var digit := data[c.digits + 1];
        assert s[c.digits] == digit;
        ScanStep(s, c);
        c := ScanByte(c, digit);
        more := digit >= 128;
      }
      var total := 1 + c.digits + c.value;
      n := if total <= writePos then total else 0;
    }

    /** Takes the first packet off the front, when there is a whole one. */
    method GetEdpPacket() returns (pkg: Buffer?)
      requires Growable() && readPos == 0
      modifies this`writePos, data
      ensures Growable() && readPos == 0 && data == old(data)
      ensures pkg == null <==> PacketLength(old(Contents())) <= 0
      ensures pkg == null ==> Contents() == old(Contents())
      ensures pkg != null ==>
        var n := PacketLength(old(Contents()));
        && fresh(pkg) && fresh(pkg.data) && pkg.Growable() && pkg.readPos == 0
        && pkg.Contents() == old(Contents())[..n] && Contents() == old(Contents())[n..]
    {
      pkg := null;
      var flag := IsPkgComplete();
      if flag <= 0 {
        return;
      }
      pkg := new Buffer();
      assert data[..flag] == Contents()[..flag];
      var _ := pkg.WriteBytes(data[..flag]);
      assert [] + data[..flag] == data[..flag];
      MoveDown(flag);
    }

    method MoveDown(n: nat)
      requires Valid() && readPos == 0 && n <= writePos
      modifies this`writePos, data
      ensures Valid() && Contents() == old(Contents())[n..]
    {
      forall i | 0 <= i < writePos - n {
        data[i] := data[i + n];
      }
      writePos := writePos - n;
    }

    /** One round of the receive loop: append a chunk, then extract until no
        whole packet is left. */
    method ReceiveChunk(chunk: bytes) returns (packets: seq<bytes>)
      requires Growable() && readPos == 0 && writePos + |chunk| <= MAX_CAPACITY
      modifies this`data, this`writePos, data
      ensures Growable() && readPos == 0 && fresh({data} - {old(data)})
      ensures (packets, Contents()) == Drain(old(Contents()) + chunk)
    {
      var _ := WriteBytes(chunk);
      ghost var all := Contents();
      packets := [];
      assert [] + Drain(all).0 == Drain(all).0;
      var more := true;
      while more
        invariant Growable() && readPos == 0 && fresh({data} - {old(data)})
        invariant Drain(all) == (packets + Drain(Contents()).0, Drain(Contents()).1)
        invariant !more ==> PacketLength(Contents()) <= 0
        decreases more, writePos
      {
        ghost var s := Contents();
        var pkg := GetEdpPacket();
        if pkg == null {
          more := false;
        } else {
          ghost var n := PacketLength(s);
          Assoc(packets, [s[..n]], Drain(s[n..]).0);
          packets := packets + [pkg.data[..pkg.writePos]];
        }
      }
      assert packets + [] == packets;
    }
  }
}
