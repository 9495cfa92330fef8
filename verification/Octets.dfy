/** Octets, and the C strings read from memory. */
module Octets {

  type byte = b: int | 0 <= b < 256

  type bytes = seq<byte>

  function Zeros(n: nat): (r: bytes)
    ensures |r| == n
  {
    seq(n, _ => 0)
  }

  predicate IsHex(c: char) {
    '0' <= c <= '9' || 'A' <= c <= 'F' || 'a' <= c <= 'f'
  }

  function HexValue(c: char): (v: nat)
    requires IsHex(c)
    ensures v < 16
  {
    if '0' <= c <= '9' then c as int - '0' as int
    else if 'A' <= c <= 'F' then 10 + c as int - 'A' as int
    else 10 + c as int - 'a' as int
  }

  /** A C string ends at its first NUL. */
  function UpToNul<T(==)>(s: seq<T>, nul: T): (r: seq<T>)
    ensures r <= s
  {
    if s == [] || s[0] == nul then [] else [s[0]] + UpToNul(s[1..], nul)
  }

  lemma {:induction false} UpToNulIs<T>(s: seq<T>, nul: T)
    ensures
      var r := UpToNul(s, nul);
      r <= s && nul !in r && (|r| < |s| ==> s[|r|] == nul)
  {
    if s != [] && s[0] != nul { UpToNulIs(s[1..], nul); }
  }

  lemma UpToNulWhole<T>(s: seq<T>, nul: T)
    requires nul !in s
    ensures UpToNul(s, nul) == s
  {
    UpToNulIs(s, nul);
  }

  /** A string with its terminator reads the same whatever stands behind it. */
  lemma {:induction false} UpToNulTerminated<T>(m: seq<T>, s: seq<T>, nul: T)
    requires |s| < |m| && m[..|s|] == s && m[|s|] == nul
    ensures UpToNul(m, nul) == UpToNul(s, nul)
  {
    if s != [] && s[0] != nul {
      assert m[1..][..|s| - 1] == s[1..];
      UpToNulTerminated(m[1..], s[1..], nul);
    }
  }
}
