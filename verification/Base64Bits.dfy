/** The mail client's encoder: one bit at a time into a six-bit register. */
module Base64Bits {
  import opened Octets
  import opened Arithmetic
  import opened Base64

  // ----- bits

  type bit = z: int | 0 <= z < 2

  function Bits(b: byte): seq<bit> {
    var n := b as int;
    [n / 128 % 2, n / 64 % 2, n / 32 % 2, n / 16 % 2, n / 8 % 2, n / 4 % 2, n / 2 % 2, n % 2]
  }

  function BitString(s: seq<byte>): (r: seq<bit>)
    ensures |r| == 8 * |s|
  {
    if s == [] then [] else BitString(s[..|s| - 1]) + Bits(s[|s| - 1])
  }

  function Val(bits: seq<bit>): nat {
    if bits == [] then 0 else 2 * Val(bits[..|bits| - 1]) + bits[|bits| - 1] as int
  }

  lemma PowersOfTwo()
    ensures Pow2(0) == 1 && Pow2(1) == 2 && Pow2(2) == 4 && Pow2(3) == 8
    ensures Pow2(4) == 16 && Pow2(5) == 32 && Pow2(6) == 64 && Pow2(7) == 128
  {
    assert Pow2(4) == 2 * Pow2(3) && Pow2(5) == 2 * Pow2(4) && Pow2(6) == 2 * Pow2(5) && Pow2(7) == 2 * Pow2(6);
  }

  lemma SixBits(bits: seq<bit>)
    requires |bits| == 6
    ensures Val(bits) == bits[0] as int * 32 + bits[1] as int * 16 + bits[2] as int * 8 + bits[3] as int * 4 + bits[4] as int * 2 + bits[5] as int
    ensures Val(bits) < 64
  {
    var b5 := bits[..5];
    var b4, b3, b2, b1 := b5[..4], b5[..4][..3], b5[..4][..3][..2], b5[..4][..3][..2][..1];
    assert Val(bits) == 2 * Val(b5) + bits[5] as int;
    assert Val(b5) == 2 * Val(b4) + bits[4] as int;
    assert Val(b4) == 2 * Val(b3) + bits[3] as int;
    assert Val(b3) == 2 * Val(b2) + bits[2] as int;
    assert Val(b2) == 2 * Val(b1) + bits[1] as int;
  }

  function Sextet(bits: seq<bit>, i: nat): (v: nat)
    requires 6 * i + 6 <= |bits|
    ensures v < 64
  {
    SixBits(bits[6 * i..6 * i + 6]);
    Val(bits[6 * i..6 * i + 6])
  }

  /** The whole groups of six bits. */
  function Sextets(bits: seq<bit>): (r: seq<nat>)
    ensures |r| == |bits| / 6
    ensures forall i :: 0 <= i < |r| ==> r[i] == Sextet(bits, i) && r[i] < 64
  {
    seq(|bits| / 6, i requires 0 <= i < |bits| / 6 => Sextet(bits, i))
  }

  // ----- groups of three bytes

  lemma SextetsAppend(x: seq<bit>, y: seq<bit>)
    requires |x| % 6 == 0
    ensures Sextets(x + y) == Sextets(x) + Sextets(y)
  {
    var n := |x| / 6;
    forall i | 0 <= i < |x + y| / 6
      ensures Sextets(x + y)[i] == (Sextets(x) + Sextets(y))[i]
    {
      if i < n {
        assert (x + y)[6 * i..6 * i + 6] == x[6 * i..6 * i + 6];
      } else {
        Behind(x, y, 6 * i);
        assert 6 * i - |x| == 6 * (i - n);
      }
    }
  }

  lemma Behind(x: seq<bit>, y: seq<bit>, at: nat)
    requires |x| <= at && at + 6 <= |x| + |y|
    ensures (x + y)[at..at + 6] == y[at - |x|..at - |x| + 6]
  {
  }

  lemma ByteBits(n: nat)
    requires n < 256
    ensures n / 128 % 2 * 32 + n / 64 % 2 * 16 + n / 32 % 2 * 8 + n / 16 % 2 * 4 + n / 8 % 2 * 2 + n / 4 % 2 == n / 4
    ensures n / 128 % 2 * 8 + n / 64 % 2 * 4 + n / 32 % 2 * 2 + n / 16 % 2 == n / 16
    ensures n / 128 % 2 * 2 + n / 64 % 2 == n / 64
    ensures n / 2 % 2 * 2 + n % 2 == n % 4
    ensures n / 8 % 2 * 8 + n / 4 % 2 * 4 + n / 2 % 2 * 2 + n % 2 == n % 16
    ensures n / 32 % 2 * 32 + n / 16 % 2 * 16 + n / 8 % 2 * 8 + n / 4 % 2 * 4 + n / 2 % 2 * 2 + n % 2 == n % 64
  {
    var a, b, c, d, e, f, g := n / 2, n / 4, n / 8, n / 16, n / 32, n / 64, n / 128;
    assert b == a / 2 && c == b / 2 && d == c / 2 && e == d / 2 && f == e / 2 && g == f / 2;
  }

  lemma QuantumBits(a: byte, b: byte, c: byte)
    ensures Sextets(Bits(a) + Bits(b) + Bits(c)) == Quantum(a, b, c)
  {
    hide *;
    QuantumFirst(a, b, c);
    QuantumRest(a, b, c);
    var x := Bits(a) + Bits(b) + Bits(c);
    assert |x| == 24 by { BitsLength(a); BitsLength(b); BitsLength(c); }
    QuantumLength(a, b, c);
  }

  lemma QuantumLength(a: byte, b: byte, c: byte)
    ensures |Quantum(a, b, c)| == 4
  {
  }

  lemma QuantumFirst(a: byte, b: byte, c: byte)
    ensures |Bits(a) + Bits(b) + Bits(c)| == 24 && |Quantum(a, b, c)| == 4
    ensures Sextet(Bits(a) + Bits(b) + Bits(c), 0) == Quantum(a, b, c)[0]
    ensures Sextet(Bits(a) + Bits(b) + Bits(c), 1) == Quantum(a, b, c)[1]
  {
    var x := Bits(a) + Bits(b) + Bits(c);
    ByteBits(a);
    ByteBits(b);
    SixBits(x[0..6]);
    SixBits(x[6..12]);
  }

  lemma QuantumRest(a: byte, b: byte, c: byte)
    ensures |Bits(a) + Bits(b) + Bits(c)| == 24 && |Quantum(a, b, c)| == 4
    ensures Sextet(Bits(a) + Bits(b) + Bits(c), 2) == Quantum(a, b, c)[2]
    ensures Sextet(Bits(a) + Bits(b) + Bits(c), 3) == Quantum(a, b, c)[3]
  {
    var x := Bits(a) + Bits(b) + Bits(c);
    ByteBits(b);
    ByteBits(c);
    SixBits(x[12..18]);
    SixBits(x[18..24]);
  }

  function Quanta(s: seq<byte>): (r: seq<nat>)
    requires |s| % 3 == 0
    ensures |r| == |s| / 3 * 4 && forall i :: 0 <= i < |r| ==> r[i] < 64
    decreases |s|
  {
    if s == [] then [] else Quantum(s[0], s[1], s[2]) + Quanta(s[3..])
  }

  lemma {:induction false} BitStringCons(s: seq<byte>)
    requires |s| >= 3
    ensures BitString(s) == Bits(s[0]) + Bits(s[1]) + Bits(s[2]) + BitString(s[3..])
  {
    hide Bits;
    var n := |s|;
    if n == 3 {
      assert s[..2][..1] == s[..1] && s[..1][..0] == [];
      assert BitString(s) == BitString(s[..2]) + Bits(s[2]);
      assert BitString(s[..2]) == BitString(s[..1]) + Bits(s[1]);
      assert BitString(s[..1]) == BitString([]) + Bits(s[0]);
    } else {
      BitStringCons(s[..n - 1]);
      assert s[..n - 1][3..] == s[3..][..n - 4];
      assert BitString(s[3..]) == BitString(s[3..][..n - 4]) + Bits(s[n - 1]);
    }
  }

  lemma {:induction false} SextetsAreQuanta(s: seq<byte>)
    requires |s| % 3 == 0
    ensures Sextets(BitString(s)) == Quanta(s)
    decreases |s|
  {
    hide Bits, Quantum;
    if s != [] {
      BitStringCons(s);
      var x := Bits(s[0]) + Bits(s[1]) + Bits(s[2]);
      assert |x| == 24 by { BitsLength(s[0]); BitsLength(s[1]); BitsLength(s[2]); }
      SextetsAppend(x, BitString(s[3..]));
      QuantumBits(s[0], s[1], s[2]);
      SextetsAreQuanta(s[3..]);
    }
  }

  lemma BitsLength(b: byte)
    ensures |Bits(b)| == 8
  {
  }

  // ----- padding

  function Longer(s: seq<byte>): (n: nat)
    ensures n < 3 && (|s| + n) % 3 == 0
  {
    if |s| % 3 != 0 then 3 - |s| % 3 else 0
  }

  function PadEnd(t: string, n: nat): (r: string)
    requires n <= |t|
    ensures |r| == |t|
  {
    t[..|t| - n] + seq(n, _ => '=')
  }

  lemma PadAfter(q: seq<nat>, t: seq<nat>, n: nat)
    requires forall i :: 0 <= i < |q| ==> q[i] < 64
    requires forall i :: 0 <= i < |t| ==> t[i] < 64
    requires n <= |t|
    ensures PadEnd(Letters(q + t), n) == Letters(q) + PadEnd(Letters(t), n)
  {
    hide Letter;
    assert Letters(q + t) == Letters(q) + Letters(t);
  }

  ghost predicate Fills(s: seq<byte>, z: seq<byte>) {
    |z| < 3 && (forall i :: 0 <= i < |z| ==> z[i] == 0) && |s + z| % 3 == 0
  }

  lemma ShortQuanta(s: seq<byte>, z: seq<byte>)
    requires |s| < 3 && Fills(s, z)
    ensures |Quanta(s + z)| >= |z|
    ensures PadEnd(Letters(Quanta(s + z)), |z|) == Encode(s)
  {
    hide Letter, Quantum;
    var p := s + z;
    if |s| > 0 {
      assert Quanta(p) == Quantum(p[0], p[1], p[2]) + Quanta(p[3..]);
      var q := Quantum(p[0], p[1], p[2]);
      assert Quanta(p) == q;
      assert PadEnd(Letters(q), |z|) == Letters(q[..4 - |z|]) + seq(|z|, _ => '=');
    }
  }

  lemma QuantaStep(s: seq<byte>, z: seq<byte>)
    requires |s| >= 3 && |s + z| % 3 == 0
    ensures |s[3..] + z| % 3 == 0
    ensures Quanta(s + z) == Quantum(s[0], s[1], s[2]) + Quanta(s[3..] + z)
  {
    hide Quantum;
    assert (s + z)[3..] == s[3..] + z;
  }

  lemma {:induction false} PaddedQuanta(s: seq<byte>, z: seq<byte>)
    requires Fills(s, z)
    ensures |Quanta(s + z)| >= |z|
    ensures PadEnd(Letters(Quanta(s + z)), |z|) == Encode(s)
    decreases |s|
  {
    if |s| < 3 {
      ShortQuanta(s, z);
    } else {
      hide Letters, Quantum, PadEnd, Quanta;
      QuantaStep(s, z);
      PaddedQuanta(s[3..], z);
      PadAfter(Quantum(s[0], s[1], s[2]), Quanta(s[3..] + z), |z|);
    }
  }

  // ----- the encoder

  /** What the register holds once the bits in `done` went through it. */
  ghost predicate Register(done: seq<bit>, x: nat, current: nat) {
    var r := |done| % 6;
    x == 5 - r && current == Val(done[|done| - r..]) * Pow2(6 - r)
  }

  lemma Shifted(v: nat, z: bit, x: nat)
    requires x <= 5
    ensures v * Pow2(x + 1) + z * Pow2(x) == (2 * v + z) * Pow2(x)
  {
    assert Pow2(x + 1) == 2 * Pow2(x);
  }

  lemma RegisterStep(done: seq<bit>, z: bit, x: nat, current: nat)
    requires Register(done, x, current)
    ensures x > 0 ==> Register(done + [z], x - 1, current + z * Pow2(x)) && Sextets(done + [z]) == Sextets(done)
    ensures x == 0 ==> current + z < 64 && Register(done + [z], 5, 0) && Sextets(done + [z]) == Sextets(done) + [current + z]
  {
    hide Sextets, Val, Pow2;
    var n, r := |done|, |done| % 6;
    var rest := done[n - r..];
    assert (done + [z])[n - r..] == rest + [z];
    ValSnoc(rest, z);
    Shifted(Val(rest), z, x);
    StepSextets(done, z);
    if x == 0 {
      SixBits(rest + [z]);
      FullRegister(done + [z]);
    }
  }

  lemma ValSnoc(rest: seq<bit>, z: bit)
    ensures Val(rest + [z]) == 2 * Val(rest) + z
  {
    assert (rest + [z])[..|rest|] == rest;
  }

  lemma FullRegister(done: seq<bit>)
    requires |done| % 6 == 0
    ensures Register(done, 5, 0) && Pow2(0) == 1 && Pow2(1) == 2
  {
    assert done[|done|..] == [];
  }

  lemma StepSextets(done: seq<bit>, z: bit)
    ensures |done| % 6 < 5 ==> Sextets(done + [z]) == Sextets(done)
    ensures |done| % 6 == 5 ==> Sextets(done + [z]) == Sextets(done) + [Val(done[|done| - 5..] + [z])]
  {
    hide Val;
    var n := |done|;
    forall i | 0 <= i < n / 6
      ensures Sextet(done + [z], i) == Sextet(done, i)
    {
      assert (done + [z])[6 * i..6 * i + 6] == done[6 * i..6 * i + 6];
    }
    if n % 6 == 5 {
      assert (done + [z])[6 * (n / 6)..6 * (n / 6) + 6] == done[n - 5..] + [z];
    }
  }

  lemma BitAt(b: byte, j: nat)
    requires j < 8
    ensures |Bits(b)| == 8 && Bits(b)[7 - j] == b / Pow2(j) % 2
  {
    PowersOfTwo();
  }

  lemma LettersSnoc(q: seq<nat>, n: nat)
    requires n < 64 && forall i :: 0 <= i < |q| ==> q[i] < 64
    ensures Letters(q + [n]) == Letters(q) + [Letter(n)]
  {
  }

  method PushBit(target: array<char>, idx: nat, x: nat, current: nat, z: bit, ghost done: seq<bit>)
    returns (idx': nat, x': nat, current': nat)
    requires Register(done, x, current)
    requires idx == |done| / 6 && target.Length >= (|done| + 1) / 6
    requires target[..idx] == Letters(Sextets(done))
    modifies target
    ensures idx' == (|done| + 1) / 6 && Register(done + [z], x', current')
    ensures target[..idx'] == Letters(Sextets(done + [z]))
    ensures target[idx'..] == old(target[idx'..])
  {
    hide Register, Sextets, Letters, Letter;
    RegisterStep(done, z, x, current);
    assert x == 5 - |done| % 6 by { RegisterPosition(done, x, current); }
    // the bit is still clear, so setting it adds its weight
    idx', x', current' := idx, x, current + z * Pow2(x);
    if x' == 0 {
      assert Pow2(0) == 1;
      LettersSnoc(Sextets(done), current');
      target[idx'] := Letter(current');
      idx', x', current' := idx' + 1, 6, 0;
    }
    x' := x' - 1;
  }

  lemma RegisterPosition(done: seq<bit>, x: nat, current: nat)
    requires Register(done, x, current)
    ensures x == 5 - |done| % 6
  {
  }

  method PushByte(target: array<char>, idx: nat, x: nat, current: nat, b: byte, ghost done: seq<bit>)
    returns (idx': nat, x': nat, current': nat)
    requires Register(done, x, current)
    requires idx == |done| / 6 && target.Length >= (|done| + 8) / 6
    requires target[..idx] == Letters(Sextets(done))
    modifies target
    ensures idx' == (|done| + 8) / 6 && Register(done + Bits(b), x', current')
    ensures target[..idx'] == Letters(Sextets(done + Bits(b)))
    ensures target[idx'..] == old(target[idx'..])
  {
    hide Register, Sextets, Letters, Letter, Pow2, Bits;
    idx', x', current' := idx, x, current;
    var j := 7;
    ghost var all := done;
    BitsLength(b);
    while j >= 0
      invariant -1 <= j <= 7
      invariant all == done + Bits(b)[..7 - j]
      invariant idx' == |all| / 6 && Register(all, x', current')
      invariant target[..idx'] == Letters(Sextets(all))
      invariant target[idx'..] == old(target[idx'..])
    {
      BitAt(b, j);
      ghost var before, at := target[..], idx';
      idx', x', current' := PushBit(target, idx', x', current', b / Pow2(j) % 2, all);
      Further(before, old(target[..]), at, idx');
      all := all + [b / Pow2(j) % 2];
      assert Bits(b)[..7 - j] + [Bits(b)[7 - j]] == Bits(b)[..8 - j];
      j := j - 1;
    }
    assert Bits(b)[..8] == Bits(b);
  }

  lemma Snoc(p: seq<byte>, i: nat)
    requires i < |p|
    ensures BitString(p[..i + 1]) == BitString(p[..i]) + Bits(p[i])
  {
    hide Bits;
    assert p[..i + 1][..i] == p[..i];
  }

  method EncodeBits(target: array<char>, source: seq<byte>) returns (len: nat)
    requires target.Length >= (|source| + Longer(source)) * 4 / 3
    modifies target
    ensures len == |Encode(source)| <= target.Length
    ensures target[..len] == Encode(source)
    ensures target[len..] == old(target[len..])
  {
    hide *;
    var longer := if |source| % 3 != 0 then 3 - |source| % 3 else 0;
    assert longer == Longer(source) by { LongerIs(source); }
    var total := |source| + longer;
    len := total * 4 / 3;
    ghost var padded := source + Zeros(longer);
    ZerosFill(source);
    var idx: nat, x: nat, current: nat := 0, 5, 0;
    Starting(target);
    var i := 0;
    while i < total
      invariant 0 <= i <= total
      invariant idx == 8 * i / 6 <= len && Register(BitString(padded[..i]), x, current)
      invariant target[..idx] == Letters(Sextets(BitString(padded[..i])))
      invariant target[idx..] == old(target[idx..])
    {
      var b := if i < |source| then source[i] else 0;
      ghost var before, at := target[..], idx;
      Snoc(padded, i);
      idx, x, current := PushByte(target, idx, x, current, b, BitString(padded[..i]));
      Further(before, old(target[..]), at, idx);
      i := i + 1;
    }
    assert padded[..total] == padded;
    SextetsAreQuanta(padded);
    PaddedQuanta(source, Zeros(longer));
    FillEnd(target, len, longer);
  }

  lemma Further(a: string, b: string, at: nat, idx: nat)
    requires at <= idx <= |a| == |b| && a[at..] == b[at..]
    ensures a[idx..] == b[idx..]
  {
    assert a[idx..] == a[at..][idx - at..];
    assert b[idx..] == b[at..][idx - at..];
  }

  lemma LongerIs(s: seq<byte>)
    ensures Longer(s) == if |s| % 3 != 0 then 3 - |s| % 3 else 0
  {
  }

  lemma ZerosFill(s: seq<byte>)
    ensures Fills(s, Zeros(Longer(s))) && |Zeros(Longer(s))| == Longer(s)
    ensures forall i :: 0 <= i < Longer(s) ==> Zeros(Longer(s))[i] == 0
    ensures |s + Zeros(Longer(s))| % 3 == 0
  {
    hide Longer;
  }

  lemma Starting(target: array<char>)
    ensures Register(BitString([]), 5, 0) && Letters(Sextets(BitString([]))) == target[..0]
  {
  }

  method FillEnd(target: array<char>, len: nat, longer: nat)
    requires longer <= len <= target.Length
    modifies target
    ensures target[..len] == PadEnd(old(target[..len]), longer)
    ensures target[len..] == old(target[len..])
  {
    var i := len - longer;
    while i < len
      invariant len - longer <= i <= len
      invariant target[..len - longer] == old(target[..len - longer])
      invariant forall k :: len - longer <= k < i ==> target[k] == '='
      invariant target[len..] == old(target[len..])
    {
      target[i] := '=';
      i := i + 1;
    }
    assert target[..len] == target[..len - longer] + seq(longer, _ => '=');
    assert old(target[..len])[..len - longer] == old(target[..len - longer]);
  }
}
