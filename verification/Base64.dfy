/** Base64 as section 4 of RFC 4648 defines it, and the two encoders of the
    repository: one works a bit at a time, one shifts an accumulator. */
module Base64 {
  import opened Octets

  /** The alphabet: A-Z, a-z, 0-9, plus and slash. */
  function Letter(n: nat): (c: char)
    requires n < 64
    ensures c != '='
  {
    if n < 26 then ('A' as int + n) as char
    else if n < 52 then ('a' as int + n - 26) as char
    else if n < 62 then ('0' as int + n - 52) as char
    else if n == 62 then '+'
    else '/'
  }

  /** Table 1 of RFC 4648. */
  lemma Alphabet()
    ensures seq(16, n requires 0 <= n < 16 => Letter(n)) == "ABCDEFGHIJKLMNOP"
    ensures seq(16, n requires 0 <= n < 16 => Letter(16 + n)) == "QRSTUVWXYZabcdef"
    ensures seq(16, n requires 0 <= n < 16 => Letter(32 + n)) == "ghijklmnopqrstuv"
    ensures seq(16, n requires 0 <= n < 16 => Letter(48 + n)) == "wxyz0123456789+/"
  {
  }

  // ----- RFC 4648

  function Quantum(a: byte, b: byte, c: byte): (q: seq<nat>)
    ensures |q| == 4 && forall i :: 0 <= i < 4 ==> q[i] < 64
  {
    [a as int / 4, a as int % 4 * 16 + b as int / 16, b as int % 16 * 4 + c as int / 64, c as int % 64]
  }

  function Letters(q: seq<nat>): (r: string)
    requires forall i :: 0 <= i < |q| ==> q[i] < 64
    ensures |r| == |q|
  {
    seq(|q|, i requires 0 <= i < |q| => Letter(q[i]))
  }

  function Encode(s: seq<byte>): string {
    if |s| == 0 then []
    else if |s| == 1 then Letters(Quantum(s[0], 0, 0)[..2]) + "=="
    else if |s| == 2 then Letters(Quantum(s[0], s[1], 0)[..3]) + "="
    else Letters(Quantum(s[0], s[1], s[2])) + Encode(s[3..])
  }

  /** The position of a letter in the table. */
  function Index(c: char): (n: nat)
    ensures n < 64
  {
    if 'A' <= c <= 'Z' then c as int - 'A' as int
    else if 'a' <= c <= 'z' then c as int - 'a' as int + 26
    else if '0' <= c <= '9' then c as int - '0' as int + 52
    else if c == '+' then 62
    else 63
  }

  lemma IndexLetter(n: nat)
    requires n < 64
    ensures Index(Letter(n)) == n
  {
  }

  function Bytes(a: nat, b: nat, c: nat, d: nat): seq<byte>
    requires a < 64 && b < 64 && c < 64 && d < 64
  {
    [a * 4 + b / 16, b % 16 * 16 + c / 4, c % 4 * 64 + d]
  }

  function Decode(t: string): seq<byte>
    decreases |t|
  {
    if |t| < 4 then []
    else if t[2] == '=' then Bytes(Index(t[0]), Index(t[1]), 0, 0)[..1]
    else if t[3] == '=' then Bytes(Index(t[0]), Index(t[1]), Index(t[2]), 0)[..2]
    else Bytes(Index(t[0]), Index(t[1]), Index(t[2]), Index(t[3])) + Decode(t[4..])
  }

  lemma BytesQuantum(a: byte, b: byte, c: byte)
    ensures var q := Quantum(a, b, c); Bytes(q[0], q[1], q[2], q[3]) == [a, b, c]
  {
  }

  lemma IndexLetters(q: seq<nat>)
    requires forall i :: 0 <= i < |q| ==> q[i] < 64
    ensures forall i :: 0 <= i < |q| ==> Index(Letters(q)[i]) == q[i] && Letters(q)[i] != '='
  {
    forall i | 0 <= i < |q|
      ensures Index(Letters(q)[i]) == q[i] && Letters(q)[i] != '='
    {
      IndexLetter(q[i]);
    }
  }

  lemma {:induction false} DecodeEncode(s: seq<byte>)
    ensures Decode(Encode(s)) == s
    decreases |s|
  {
    hide Letters, Index, Quantum, Bytes;
    var a := if |s| > 0 then s[0] else 0;
    var b := if |s| > 1 then s[1] else 0;
    var c := if |s| > 2 then s[2] else 0;
    var q := Quantum(a, b, c);
    BytesQuantum(a, b, c);
    LastQuantum(a, b, c);
    IndexLetters(q);
    IndexLetters(q[..2]);
    IndexLetters(q[..3]);
    if |s| >= 3 {
      DecodeEncode(s[3..]);
      assert Encode(s)[4..] == Encode(s[3..]);
      assert s == [a, b, c] + s[3..];
    }
  }

  /** The letters a short last quantum leaves out stand for zero. */
  lemma LastQuantum(a: byte, b: byte, c: byte)
    ensures c == 0 ==> Quantum(a, b, c)[3] == 0
    ensures b == 0 && c == 0 ==> Quantum(a, b, c)[2] == 0
  {
  }
}
