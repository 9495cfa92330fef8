/** The hash context: bytes arrive in any number of updates, whole blocks are
    compressed as they fill, and two 32-bit counters keep the length. */
module Sha1Stream {
  import opened Octets
  import opened Sha1Spec
  import opened Sha1Compress

  const U32: nat := 0x1_0000_0000
  const U64: nat := 0x1_0000_0000_0000_0000

  function Full(n: nat): (f: nat)
    ensures f <= n < f + 64 && f % 64 == 0 && n - f == n % 64
  {
    n / 64 * 64
  }

  /** What the counters hold after `n` bytes when `lost` multiples of 2^32 were
      dropped by updates of 2^32 bytes or more. */
  function Counted(n: nat, lost: nat): (c: nat)
    ensures c < U64
  {
    (n - lost * U32) % U64
  }

  lemma {:induction false} HashAppend(s: State, m: seq<byte>, b: seq<byte>)
    requires |m| % 64 == 0 && |b| == 64
    ensures HashBlocks(s, m + b) == Compress(HashBlocks(s, m), b)
    decreases |m|
  {
    hide Compress;
    if m == [] {
      assert m + b == b && b[..64] == b && b[64..] == [];
    } else {
      assert (m + b)[..64] == m[..64] && (m + b)[64..] == m[64..] + b;
      HashAppend(Compress(s, m[..64]), m[64..], b);
    }
  }

  lemma HashStep(all: seq<byte>, done: nat)
    requires done % 64 == 0 && done + 64 <= |all|
    ensures HashBlocks(IV, all[..done + 64]) == Compress(HashBlocks(IV, all[..done]), all[done..done + 64])
  {
    hide HashBlocks, Compress;
    HashAppend(IV, all[..done], all[done..done + 64]);
    assert all[..done + 64] == all[..done] + all[done..done + 64];
  }

  // ----- the counters

  lemma CounterLow(total0: nat, total1: nat, n: nat, lost: nat)
    requires total0 < U32 && total1 * U32 + total0 == Counted(n, lost)
    ensures total0 % 64 == n % 64
  {
    var q := (n - lost * U32) / U64;
    assert n - lost * U32 == q * U64 + total1 * U32 + total0;
    assert n == total0 + 64 * (q * 0x400_0000_0000_0000 + (total1 + lost) * 0x400_0000);
  }

  lemma CounterAdd(total0: nat, total1: nat, n: nat, lost: nat, len: nat)
    requires total0 < U32 && total1 < U32 && total1 * U32 + total0 == Counted(n, lost)
    ensures var t0 := (total0 + len % U32) % U32;
            var t1 := if t0 < len % U32 then (total1 + 1) % U32 else total1;
            t1 * U32 + t0 == Counted(n + len, lost + len / U32)
  {
    var low := len % U32;
    var t0 := (total0 + low) % U32;
    var t1 := if t0 < low then (total1 + 1) % U32 else total1;
    assert t0 < low <==> total0 + low >= U32;
    var sum := total1 * U32 + total0 + low;
    assert t1 * U32 + t0 == sum % U64;
    var q := (n - lost * U32) / U64;
    assert n + len - (lost + len / U32) * U32 == q * U64 + sum;
    AddMultiple(sum, q);
  }

  lemma LostAdd(n: nat, lost: nat, len: nat)
    requires lost * U32 <= n
    ensures (lost + len / U32) * U32 <= n + len
  {
  }

  lemma AddMultiple(a: int, q: int)
    ensures (q * U64 + a) % U64 == a % U64
  {
  }

  // ----- the context

  class Context {
    var total0: nat
    var total1: nat
    var state: State
    const buffer: array<byte>
    ghost var msg: seq<byte>
    ghost var lost: nat

    /** `done` bytes of `all` are compressed and the next `left` are buffered. */
    ghost predicate Absorbed(all: seq<byte>, done: nat, left: nat)
      reads this, buffer
    {
      && buffer.Length == 64 && done % 64 == 0 && left < 64 && done + left <= |all|
      && state == HashBlocks(IV, all[..done])
      && buffer[..left] == all[done..done + left]
    }

    ghost predicate Valid()
      reads this, buffer
    {
      && total0 < U32 && total1 < U32 && total1 * U32 + total0 == Counted(|msg|, lost)
      && lost * U32 <= |msg|
      && Absorbed(msg, Full(|msg|), |msg| - Full(|msg|))
    }

    constructor ()
      ensures Valid() && msg == [] && lost == 0 && fresh(buffer)
    {
      buffer := new byte[64](_ => 0);
      total0, total1 := 0, 0;
      state := State(0x67452301, 0xEFCDAB89, 0x98BADCFE, 0x10325476, 0xC3D2E1F0);
      msg, lost := [], 0;
    }

    method Starts()
      requires buffer.Length == 64
      modifies this
      ensures Valid() && msg == [] && lost == 0
    {
      total0, total1 := 0, 0;
      state := State(0x67452301, 0xEFCDAB89, 0x98BADCFE, 0x10325476, 0xC3D2E1F0);
      msg, lost := [], 0;
    }

    method Copy(at: nat, s: seq<byte>)
      requires at + |s| <= buffer.Length
      modifies buffer
      ensures buffer[..at] == old(buffer[..at]) && buffer[at..at + |s|] == s
    {
      forall i | 0 <= i < |s| {
        buffer[at + i] := s[i];
      }
    }

    method CompressNext(data: seq<byte>, ghost all: seq<byte>, ghost done: nat, ghost left: nat)
      requires Absorbed(all, done, left) && done + 64 <= |all| && data == all[done..done + 64]
      modifies this`state
      ensures Absorbed(all, done + 64, 0)
    {
      hide HashBlocks, Compress;
      HashStep(all, done);
      state := Process(state, data);
    }

    /** The carry between the two counters. */
    method Count(len: nat)
      requires total0 < U32 && total1 < U32 && total1 * U32 + total0 == Counted(|msg|, lost)
      modifies this`total0, this`total1
      ensures total0 < U32 && total1 < U32 && total1 * U32 + total0 == Counted(|msg| + len, lost + len / U32)
    {
      CounterAdd(total0, total1, |msg|, lost, len);
      total0 := (total0 + len % U32) % U32;
      if total0 < len % U32 {
        total1 := (total1 + 1) % U32;
      }
    }

    /** Completes the buffered block. */
    method FillBlock(head: seq<byte>, left: nat, ghost all: seq<byte>, ghost done: nat)
      requires Absorbed(all, done, left) && |head| == 64 - left
      requires done + 64 <= |all| && all[done + left..done + 64] == head
      modifies this`state, buffer
      ensures Absorbed(all, done + 64, 0)
    {
      hide HashBlocks;
      Copy(left, head);
      assert buffer[..] == buffer[..left] + buffer[left..64];
      assert all[done..done + 64] == all[done..done + left] + head;
      CompressNext(buffer[..], all, done, left);
    }

    /** Keeps what does not fill a block. */
    method Keep(tail: seq<byte>, left: nat, ghost all: seq<byte>, ghost done: nat)
      requires Absorbed(all, done, left) && left + |tail| < 64
      requires done + left + |tail| == |all| && all[done + left..] == tail
      modifies buffer
      ensures Absorbed(all, done, left + |tail|)
    {
      hide HashBlocks;
      Copy(left, tail);
      assert all[done..] == all[done..done + left] + tail;
      assert buffer[..left + |tail|] == buffer[..left] + buffer[left..left + |tail|];
    }

    method Absorb(input: seq<byte>, left0: nat, ghost all: seq<byte>, ghost done0: nat)
      requires Absorbed(all, done0, left0)
      requires done0 + left0 + |input| == |all| && all[done0 + left0..] == input
      modifies this`state, buffer
      ensures Absorbed(all, Full(|all|), |all| - Full(|all|))
    {
      hide HashBlocks, Absorbed, Full;
      assert left0 < 64 && done0 % 64 == 0 by { AbsorbedBounds(all, done0, left0); }
      ghost var done, start := done0, done0 + left0;
      var left, fill, pos := left0, 64 - left0, 0;
      if left != 0 && |input| >= fill {
        Window(all, start, input, 0, fill);
        FillBlock(input[..fill], left, all, done);
        done, pos, left := done + 64, fill, 0;
      }
      while |input| - pos >= 64
        invariant 0 <= pos <= |input| && done + left == start + pos && done % 64 == 0
        invariant left == 0 || left + |input| - pos < 64
        invariant Absorbed(all, done, left)
      {
        Window(all, start, input, pos, pos + 64);
        CompressNext(input[pos..pos + 64], all, done, left);
        done, pos := done + 64, pos + 64;
      }
      FullIs(done, |all|);
      if |input| - pos > 0 {
        Window(all, start, input, pos, |input|);
        assert input[pos..] == input[pos..|input|];
        Keep(input[pos..], left, all, done);
      }
    }

    lemma AbsorbedBounds(all: seq<byte>, done: nat, left: nat)
      requires Absorbed(all, done, left)
      ensures left < 64 && done % 64 == 0 && done + left <= |all|
    {
    }

    method Update(input: seq<byte>)
      requires Valid()
      modifies this, buffer
      ensures Valid() && msg == old(msg) + input && lost == old(lost) + |input| / U32
    {
      hide HashBlocks, Counted;
      if |input| == 0 {
        assert msg + input == msg;
        return;
      }
      CounterLow(total0, total1, |msg|, lost);
      ghost var all, done := msg + input, Full(|msg|);
      var left := total0 % 64;
      Extended(msg, input, done);
      Count(|input|);
      Absorb(input, left, all, done);
      LostAdd(|msg|, lost, |input|);
      msg, lost := all, lost + |input| / U32;
    }

    /** The message length in bits, from the two counters. */
    method LengthField() returns (msglen: seq<byte>)
      requires Valid()
      ensures msglen == BigEndian64(8 * Counted(|msg|, lost) % U64) && |msglen| == 8
    {
      var high := total0 / 0x2000_0000 + total1 * 8 % U32;
      var low := total0 * 8 % U32;
      msglen := [high / 0x100_0000 % 256, high / 0x1_0000 % 256, high / 0x100 % 256, high % 256,
                 low / 0x100_0000 % 256, low / 0x1_0000 % 256, low / 0x100 % 256, low % 256];
      assert msglen == BigEndian32(high) + BigEndian32(low);
      FinishBits(total0, total1);
    }

    /** The padding, taken from a constant table. */
    method Padding() returns (padding: seq<byte>)
      requires Valid()
      ensures padding == [0x80] + Zeros(ZeroCount(|msg|))
    {
      CounterLow(total0, total1, |msg|, lost);
      hide *;
      var last := total0 % 64;
      var padn := if last < 56 then 56 - last else 120 - last;
      padding := ([0x80] + Zeros(63))[..padn];
      ZerosNeeded(|msg|);
      SomeZeros(padn - 1);
    }

    /** Pads and returns the digest.  The context is used up. */
    method Finish() returns (output: seq<byte>)
      requires Valid()
      modifies this, buffer
      ensures output == StateBytes(HashBlocks(IV, PadWith(old(msg), 8 * Counted(|old(msg)|, old(lost)) % U64)))
    {
      hide HashBlocks, Counted, BigEndian64, Zeros, StateBytes;
      ghost var m, n := msg, lost;
      var msglen := LengthField();
      var padding := Padding();
      Update(padding);
      Update(msglen);
      PadWithIs(m, 8 * Counted(|m|, n) % U64);
      WholeBlocks(msg);
      output := PutState(state);
    }
  }

  /** The macro that writes four bytes, high byte first. */
  method PutWord(n: word, b: array<byte>, i: nat)
    requires i + 4 <= b.Length
    modifies b
    ensures b[..i + 4] == old(b[..i]) + WordBytes(n)
  {
    hide LowByte;
    b[i] := LowByte(n >> 24);
    b[i + 1] := LowByte(n >> 16);
    b[i + 2] := LowByte(n >> 8);
    b[i + 3] := LowByte(n);
  }

  method PutState(s: State) returns (output: seq<byte>)
    ensures output == StateBytes(s)
  {
    hide WordBytes;
    var out := new byte[20];
    PutWord(s.a, out, 0);
    PutWord(s.b, out, 4);
    PutWord(s.c, out, 8);
    PutWord(s.d, out, 12);
    PutWord(s.e, out, 16);
    output := out[..20];
  }

  lemma Extended(m: seq<byte>, input: seq<byte>, done: nat)
    requires done <= |m|
    ensures var all := m + input;
      all[..done] == m[..done] && all[done..|m|] == m[done..] && all[|m|..] == input
  {
  }

  lemma ZerosNeeded(n: nat)
    ensures ZeroCount(n) == if n % 64 < 56 then 55 - n % 64 else 119 - n % 64
  {
  }

  lemma SomeZeros(k: nat)
    requires k < 64
    ensures ([0x80] + Zeros(63))[..k + 1] == [0x80] + Zeros(k)
  {
  }

  lemma FullIs(done: nat, n: nat)
    requires done % 64 == 0 && done <= n < done + 64
    ensures Full(n) == done
  {
  }

  lemma WholeBlocks(m: seq<byte>)
    requires |m| % 64 == 0
    ensures Full(|m|) == |m| && m[..|m|] == m
  {
  }

  lemma PadWithIs(m: seq<byte>, bits: nat)
    ensures m + ([0x80] + Zeros(ZeroCount(|m|))) + BigEndian64(bits) == PadWith(m, bits)
  {
    hide BigEndian64, Zeros;
    assert m + ([0x80] + Zeros(ZeroCount(|m|))) == m + [0x80] + Zeros(ZeroCount(|m|));
  }

  lemma FinishArithmetic(total0: nat, total1: nat, high: nat, low: nat)
    requires total0 < U32 && total1 < U32
    requires high == total0 / 0x2000_0000 + total1 * 8 % U32 && low == total0 * 8 % U32
    ensures 8 * (total1 * U32 + total0) % U64 == high * U32 + low && high < U32
  {
    var a, b := total0 / 0x2000_0000, total1 / 0x2000_0000;
    var c, d := total0 % 0x2000_0000, total1 % 0x2000_0000;
    assert total0 == a * 0x2000_0000 + c && total1 == b * 0x2000_0000 + d;
    assert low == c * 8 && total1 * 8 % U32 == d * 8;
    assert 8 * (total1 * U32 + total0) == b * U64 + (high * U32 + low);
    AddMultiple(high * U32 + low, b);
  }

  /** The length field as assembled from the two counters. */
  lemma FinishBits(total0: nat, total1: nat)
    requires total0 < U32 && total1 < U32
    ensures BigEndian32(total0 / 0x2000_0000 + total1 * 8 % U32) + BigEndian32(total0 * 8 % U32)
         == BigEndian64(8 * (total1 * U32 + total0) % U64)
  {
    hide BigEndian32;
    var high, low := total0 / 0x2000_0000 + total1 * 8 % U32, total0 * 8 % U32;
    FinishArithmetic(total0, total1, high, low);
    BigEndian32Low(high * U32 + low, low, high);
  }

  lemma BigEndian32Low(n: nat, low: nat, high: nat)
    requires n == high * U32 + low && low < U32
    ensures n / U32 == high && BigEndian32(n) == BigEndian32(low)
  {
    assert n / 0x100_0000 == high * 256 + low / 0x100_0000;
    assert n / 0x1_0000 == high * 0x1_0000 + low / 0x1_0000;
    assert n / 256 == high * 0x100_0000 + low / 256;
    SameOctet(low / 0x100_0000, high);
    SameOctet(low / 0x1_0000, high * 256);
    SameOctet(low / 256, high * 0x1_0000);
    SameOctet(low, high * 0x100_0000);
  }

  lemma SameOctet(n: nat, k: nat)
    ensures Octet(k * 256 + n) == Octet(n)
  {
    assert (k * 256 + n) % 256 == n % 256;
  }

  lemma Window(all: seq<byte>, start: nat, input: seq<byte>, from: nat, to: nat)
    requires start + |input| == |all| && all[start..] == input && from <= to <= |input|
    ensures all[start + from..start + to] == input[from..to]
    ensures from == 0 ==> input[from..to] == input[..to]
    ensures to == |input| ==> input[from..to] == input[from..] && all[start + from..start + to] == all[start + from..]
  {
    var a, b := all[start + from..start + to], input[from..to];
    forall i | 0 <= i < to - from
      ensures a[i] == b[i]
    {
      assert input[from + i] == all[start..][from + i] == all[start + (from + i)];
    }
    assert a == b;
  }
}
