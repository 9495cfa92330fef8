/** Stream reassembly: what the append-then-extract loop yields does not depend
    on how the bytes were cut into chunks. */
module EdpStream {
  import opened Sequences
  import opened Octets
  import opened EdpWire

  /** The packets taken off the front of `s`, and the bytes left in the buffer. */
  function Drain(s: bytes): (r: (seq<bytes>, bytes))
    ensures PacketLength(r.1) <= 0
    decreases |s|
  {
    var n := PacketLength(s);
    if n <= 0 then ([], s)
    else
      var (ps, rest) := Drain(s[n..]);
      ([s[..n]] + ps, rest)
  }

  /** The receive loop over a run of chunks, starting from a buffered tail. */
  function Receive(buffered: bytes, chunks: seq<bytes>): (seq<bytes>, bytes)
    decreases |chunks|
  {
    if chunks == [] then ([], buffered)
    else
      var (ps, rest) := Drain(buffered + chunks[0]);
      var (qs, end) := Receive(rest, chunks[1..]);
      (ps + qs, end)
  }

  lemma PacketStable(s: bytes, more: bytes)
    requires PacketLength(s) != 0
    ensures PacketLength(s + more) == PacketLength(s)
  {
    LengthStable(s[1..], more, 0);
    assert (s + more)[1..] == s[1..] + more;
  }

  lemma DrainCons(p: bytes, t: bytes)
    requires PacketLength(p + t) == |p| > 0
    ensures Drain(p + t) == ([p] + Drain(t).0, Drain(t).1)
  {
    assert (p + t)[..|p|] == p && (p + t)[|p|..] == t;
  }

  lemma {:induction false} DrainAppend(s: bytes, more: bytes)
    ensures var rest := Drain(s).1 + more;
            Drain(s + more) == (Drain(s).0 + Drain(rest).0, Drain(rest).1)
    decreases |s|
  {
    var n := PacketLength(s);
    if n <= 0 {
      assert [] + Drain(s + more).0 == Drain(s + more).0;
    } else {
      var p, t := s[..n], s[n..];
      assert s == p + t;
      Assoc(p, t, more);
      PacketStable(s, more);
      DrainCons(p, t);
      DrainCons(p, t + more);
      DrainAppend(t, more);
      Assoc([p], Drain(t).0, Drain(Drain(t).1 + more).0);
    }
  }

  /** For every stream, well formed or not, and every way of cutting it: the
      packets extracted and the bytes left over are those of the whole stream. */
  lemma {:induction false} ChunkIndependence(buffered: bytes, chunks: seq<bytes>)
    requires PacketLength(buffered) <= 0
    ensures Receive(buffered, chunks) == Drain(buffered + Flatten(chunks))
    decreases |chunks|
  {
    if chunks == [] {
      assert buffered + [] == buffered;
    } else {
      var s := buffered + chunks[0];
      ChunkIndependence(Drain(s).1, chunks[1..]);
      DrainAppend(s, Flatten(chunks[1..]));
      Assoc(buffered, chunks[0], Flatten(chunks[1..]));
    }
  }

  /** Nothing is lost, duplicated or reordered. */
  lemma {:induction false} DrainConserves(s: bytes)
    ensures Flatten(Drain(s).0) + Drain(s).1 == s
    decreases |s|
  {
    var n := PacketLength(s);
    if n > 0 {
      hide PacketLength, Flatten;
      DrainConserves(s[n..]);
      var (ps, rest) := Drain(s[n..]);
      FlattenCons(s[..n], ps);
      Assoc(s[..n], Flatten(ps), rest);
    }
  }

  /** `tail` is what has arrived so far of the packet after `ps`. */
  lemma {:induction false} DrainPackets(ps: seq<bytes>, tail: bytes)
    requires forall i :: 0 <= i < |ps| ==> WellFormed(ps[i])
    requires PacketLength(tail) <= 0
    ensures Drain(Flatten(ps) + tail) == (ps, tail)
    decreases |ps|
  {
    if ps == [] {
      assert [] + tail == tail;
    } else {
      var p := ps[0];
      var kind: byte, body: bytes :| |body| < LENGTH_LIMIT && p == Frame(kind, |body|, body);
      var more := Flatten(ps[1..]) + tail;
      Assoc(p, Flatten(ps[1..]), tail);
      FrameDelimited(kind, |body|, body);
      assert PacketLength(p + more) == |p|;
      DrainCons(p, more);
      DrainPackets(ps[1..], tail);
      assert [p] + ps[1..] == ps;
    }
  }

  /** Well-formed packets cut into any chunks come out as they went in. */
  lemma Reassembly(ps: seq<bytes>, chunks: seq<bytes>)
    requires forall i :: 0 <= i < |ps| ==> WellFormed(ps[i])
    requires Flatten(chunks) == Flatten(ps)
    ensures Receive([], chunks) == (ps, [])
  {
    ChunkIndependence([], chunks);
    DrainPackets(ps, []);
    assert [] + Flatten(chunks) == Flatten(ps) + [];
  }

  /** While the last packet is still arriving, all earlier ones have been
      delivered and its bytes are what the buffer holds. */
  lemma PartialReassembly(ps: seq<bytes>, kind: byte, body: bytes, n: nat, chunks: seq<bytes>)
    requires forall i :: 0 <= i < |ps| ==> WellFormed(ps[i])
    requires |body| < LENGTH_LIMIT && n < |Frame(kind, |body|, body)|
    requires Flatten(chunks) == Flatten(ps) + Frame(kind, |body|, body)[..n]
    ensures Receive([], chunks) == (ps, Frame(kind, |body|, body)[..n])
  {
    ChunkIndependence([], chunks);
    FrameIncomplete(kind, body, n);
    DrainPackets(ps, Frame(kind, |body|, body)[..n]);
    assert [] + Flatten(chunks) == Flatten(chunks);
  }
}
