/** The EDP wire format as functions on byte strings: the base-128 length field,
    packet framing, and the readers the unpackers are made of. */
module EdpWire {
  import opened Octets

  // ----- the length field

  const LENGTH_LIMIT: nat := 0x1000_0000

  /** Seven bits a byte, low digit first, top bit set on all but the last. */
  function Remainlen(n: nat): (s: bytes)
    ensures |s| > 0
  {
    if n < 128 then [n] else [n % 128 + 128] + Remainlen(n / 128)
  }

  /** The number whose base-128 digits are the low seven bits, lowest first. */
  function Base128(s: bytes): nat {
    if s == [] then 0 else s[0] as int % 128 + 128 * Base128(s[1..])
  }

  /** The field spells its number with no leading zero digit, and the top bit says
      which byte is the last. */
  lemma {:induction false} RemainlenDigits(n: nat)
    ensures var s := Remainlen(n);
      && Base128(s) == n
      && (forall i :: 0 <= i < |s| ==> (s[i] < 128 <==> i == |s| - 1))
      && (|s| > 1 ==> s[|s| - 1] != 0)
  {
    if n >= 128 {
      RemainlenDigits(n / 128);
      assert Remainlen(n)[1..] == Remainlen(n / 128);
    }
  }

  /** `Need` when the field is cut off, `Bad` when it is longer than four bytes. */
  datatype Length = Need | Bad | Length(value: nat, width: nat)

  /** Reads a length field of which `k` bytes have been read already. */
  function LengthFrom(s: bytes, k: nat): (r: Length)
    requires k <= 4
    ensures r.Length? ==> 0 < r.width <= |s| && r.width + k <= 4
    decreases 4 - k
  {
    if k == 4 then Bad
    else if s == [] then Need
    else if s[0] < 128 then Length(s[0], 1)
    else match LengthFrom(s[1..], k + 1)
      case Length(v, w) => Length(s[0] - 128 + 128 * v, w + 1)
      case other => other
  }

  function Capacity(k: nat): (n: nat)
    requires k <= 4
    ensures n > 0
    decreases 4 - k
  {
    if k == 4 then 1 else 128 * Capacity(k + 1)
  }

  lemma {:induction false} LengthRoundTripFrom(n: nat, k: nat, rest: bytes)
    requires k < 4 && n < Capacity(k)
    ensures LengthFrom(Remainlen(n) + rest, k) == Length(n, |Remainlen(n)|)
    decreases 4 - k
  {
    if n >= 128 {
      LengthRoundTripFrom(n / 128, k + 1, rest);
      assert (Remainlen(n) + rest)[1..] == Remainlen(n / 128) + rest;
    }
  }

  /** Every length below 2^28 is read back, whatever follows. */
  lemma LengthRoundTrip(n: nat, rest: bytes)
    requires n < LENGTH_LIMIT
    ensures LengthFrom(Remainlen(n) + rest, 0) == Length(n, |Remainlen(n)|)
    ensures |Remainlen(n)| <= 4
  {
    LengthRoundTripFrom(n, 0, rest);
  }

  /** What is decided about a field is not changed by bytes that arrive later. */
  lemma {:induction false} LengthStable(s: bytes, more: bytes, k: nat)
    requires k <= 4 && LengthFrom(s, k) != Need
    ensures LengthFrom(s + more, k) == LengthFrom(s, k)
    decreases 4 - k
  {
    if k < 4 && s[0] >= 128 {
      assert (s + more)[1..] == s[1..] + more;
      LengthStable(s[1..], more, k + 1);
    }
  }

  lemma {:induction false} LengthBelowLimit(s: bytes, k: nat)
    requires k <= 4 && LengthFrom(s, k).Length?
    ensures LengthFrom(s, k).value < Capacity(k)
    decreases 4 - k
  {
    if s[0] >= 128 { LengthBelowLimit(s[1..], k + 1); }
  }

  // ----- framing

  /** How long the packet at the front of `s` is; 0 when more bytes are needed,
      -1 when its length field cannot be right. */
  function PacketLength(s: bytes): (n: int)
    ensures n == -1 || n == 0 || 2 <= n <= |s|
  {
    if |s| <= 1 then 0
    else match LengthFrom(s[1..], 0)
      case Need => 0
      case Bad => -1
      case Length(v, w) => if 1 + w + v <= |s| then 1 + w + v else 0
  }

  function Frame(kind: byte, declared: nat, body: bytes): bytes {
    [kind] + Remainlen(declared) + body
  }

  /** The declared length is the number of bytes that follow it. */
  ghost predicate WellFormed(p: bytes) {
    exists kind: byte, body: bytes :: |body| < LENGTH_LIMIT && p == Frame(kind, |body|, body)
  }

  lemma FrameLength(kind: byte, declared: nat, body: bytes, rest: bytes)
    requires declared < LENGTH_LIMIT
    ensures var s := Frame(kind, declared, body) + rest;
            && s[1..] == Remainlen(declared) + (body + rest)
            && LengthFrom(s[1..], 0) == Length(declared, |Remainlen(declared)|)
  {
    LengthRoundTrip(declared, body + rest);
    assert (Frame(kind, declared, body) + rest)[1..] == Remainlen(declared) + (body + rest);
  }

  /** A frame is found whole, whatever follows it, exactly when its declared
      length is right. */
  lemma FrameDelimited(kind: byte, declared: nat, body: bytes)
    requires declared < LENGTH_LIMIT
    ensures PacketLength(Frame(kind, declared, body)) == |Frame(kind, declared, body)| <==> declared == |body|
    ensures declared == |body| ==> forall rest :: PacketLength(Frame(kind, declared, body) + rest) == |Frame(kind, declared, body)|
  {
    var p := Frame(kind, declared, body);
    forall rest
      ensures declared == |body| ==> PacketLength(p + rest) == |p|
    {
      FrameLength(kind, declared, body, rest);
    }
    FrameLength(kind, declared, body, []);
    assert p + [] == p;
  }

  /** A proper prefix of a frame asks for more bytes. */
  lemma FrameIncomplete(kind: byte, body: bytes, n: nat)
    requires |body| < LENGTH_LIMIT && n < |Frame(kind, |body|, body)|
    ensures PacketLength(Frame(kind, |body|, body)[..n]) == 0
  {
    var p := Frame(kind, |body|, body);
    var s := p[..n];
    if n > 1 {
      FrameLength(kind, |body|, body, []);
      assert p + [] == p;
      assert p[1..] == s[1..] + p[n..];
      if LengthFrom(s[1..], 0) != Need {
        LengthStable(s[1..], p[n..], 0);
      }
    }
  }
}
