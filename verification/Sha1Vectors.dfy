/** A published value worked out from the definitions: SHA-1 of "abc", from FIPS 180. */
module Sha1Vectors {
  import opened Octets
  import opened Sha1Spec
  import opened Sha1Numbers
  import opened Sha1Fast

  // ----- blocks and bytes

  lemma OneBlock(s: State, m: seq<byte>)
    requires |m| == 64
    ensures HashBlocks(s, m) == Fast(s, Ws(m, 0))
  {
    hide Compress, Fast;
    assert m[..64] == m && m[64..] == [];
    FastIs(s, m);
  }

  lemma TwoBlocks(s: State, a: seq<byte>, b: seq<byte>)
    requires |a| == 64 && |b| == 64
    ensures HashBlocks(s, a + b) == Fast(Fast(s, Ws(a, 0)), Ws(b, 0))
  {
    hide Compress, Fast;
    assert (a + b)[..64] == a && (a + b)[64..] == b;
    FastIs(s, a);
    OneBlock(Compress(s, a), b);
  }

  /** Words lo to hi of a block that holds the same byte throughout. */
  ghost predicate Filled(block: seq<byte>, lo: nat, hi: nat, x: byte) {
    |block| == 64 && hi <= 16 && forall j :: 4 * lo <= j < 4 * hi ==> block[j] == x
  }

  lemma FilledWords(block: seq<byte>, lo: nat, hi: nat, x: byte)
    requires Filled(block, lo, hi, x)
    ensures forall i :: lo <= i < hi ==> Ws(block, 0)[i] == Pack(x, x, x, x)
  {
    forall i | lo <= i < hi
      ensures Ws(block, 0)[i] == Pack(x, x, x, x)
    {
      HeldWord(block, i, x, x, x, x);
    }
  }

  ghost predicate Holds(block: seq<byte>, i: nat, a: byte, b: byte, c: byte, d: byte) {
    && |block| == 64 && i < 16 && block[4 * i] == a && block[4 * i + 1] == b
    && block[4 * i + 2] == c && block[4 * i + 3] == d
  }

  lemma HeldWord(block: seq<byte>, i: nat, a: byte, b: byte, c: byte, d: byte)
    requires Holds(block, i, a, b, c, d)
    ensures Ws(block, 0)[i] == Pack(a, b, c, d)
  {
    WsAt(block, 0, i);
    assert W(block, i) == WordAt(block, i);
    hide Pack, Ws, W;
  }

  /** Sixteen words given one by one. */
  lemma WordsAre(ws: seq<word>, block: seq<byte>)
    requires |block| == 64 && |ws| == 16
    requires forall i :: 0 <= i < 16 ==> Ws(block, 0)[i] == ws[i]
    ensures Ws(block, 0) == ws
  {
  }

  lemma WordOut(w: word, a: byte, b: byte, c: byte, d: byte)
    requires Pack(a, b, c, d) == w
    ensures WordBytes(w) == [a, b, c, d]
  {
    hide Pack, WordBytes;
    BytesBack(a, b, c, d);
  }

  // ----- "abc"

  const ABC: bytes := [0x61, 0x62, 0x63]

  lemma AbcPadded()
    ensures var m := Pad(ABC);
      |m| == 64 && Holds(m, 0, 0x61, 0x62, 0x63, 0x80) && Filled(m, 1, 15, 0) && Holds(m, 15, 0, 0, 0, 24)
  {
    assert BigEndian64(24) == [0, 0, 0, 0, 0, 0, 0, 24];
  }

  lemma AbcPacks()
    ensures Pack(0x61, 0x62, 0x63, 0x80) == 0x61626380 && Pack(0, 0, 0, 0) == 0 && Pack(0, 0, 0, 24) == 24
  {
  }

  lemma AbcWords()
    ensures |Pad(ABC)| == 64
    ensures Ws(Pad(ABC), 0) ==
      [0x61626380, 0, 0, 0, 0, 0, 0, 0,
       0, 0, 0, 0, 0, 0, 0, 0x18]
  {
    AbcPadded();
    AbcPacks();
    hide Pad, Ws, Pack;
    var m := Pad(ABC);
    HeldWord(m, 0, 0x61, 0x62, 0x63, 0x80);
    FilledWords(m, 1, 15, 0);
    HeldWord(m, 15, 0, 0, 0, 24);
  }

  lemma Abc0()
    ensures Five(0, Work(State(0x67452301, 0xEFCDAB89, 0x98BADCFE, 0x10325476, 0xC3D2E1F0),
      [0x61626380, 0, 0, 0, 0, 0, 0, 0,
       0, 0, 0, 0, 0, 0, 0, 0x18])) ==
      Work(State(0xFD9E1D7D, 0xDC64901D, 0x20AA99CA, 0xD3A49608, 0xC82F758B),
      [0, 0x60, 0xB131C03, 0x30, 0x85898EC1, 0x16263806, 0, 0x180,
       0x2C4C700C, 0xF0, 0x93AFB507, 0x5898E048, 0x8E9A9202, 0x600, 0xB131C0F0, 0x16263BC6])
  {
  }

  lemma Abc1()
    ensures Five(1, Work(State(0xFD9E1D7D, 0xDC64901D, 0x20AA99CA, 0xD3A49608, 0xC82F758B),
      [0, 0x60, 0xB131C03, 0x30, 0x85898EC1, 0x16263806, 0, 0x180,
       0x2C4C700C, 0xF0, 0x93AFB507, 0x5898E048, 0x8E9A9202, 0x600, 0xB131C0F0, 0x16263BC6])) ==
      Work(State(0x32DE1CBA, 0x4C986405, 0xF718E5CF, 0x3D447F6, 0xF72EEC32),
      [0xD2E138C4, 0xF00, 0x3AFB5079, 0x898E04E5, 0xE2BA3C2B, 0x60C0, 0x53A37CD, 0x74458547,
       0xDA9415ED, 0x26380A16, 0x626383A1, 0x4EBF54DE, 0x3835B44B, 0xF600, 0x1E84C7A3, 0x98E04D98])
  {
  }

  lemma Abc2()
    ensures Five(2, Work(State(0x32DE1CBA, 0x4C986405, 0xF718E5CF, 0x3D447F6, 0xF72EEC32),
      [0xD2E138C4, 0xF00, 0x3AFB5079, 0x898E04E5, 0xE2BA3C2B, 0x60C0, 0x53A37CD, 0x74458547,
       0xDA9415ED, 0x26380A16, 0x626383A1, 0x4EBF54DE, 0x3835B44B, 0xF600, 0x1E84C7A3, 0x98E04D98])) ==
      Work(State(0x3F52DE5A, 0x9D785FD, 0x3498BFD4, 0xF211824F, 0xD79915AB),
      [0x7BA06619, 0x6380AEA2, 0xAE55269, 0x627B49A1, 0x7CD45C9D, 0xF0000, 0xFB50753A, 0xEC6765E8,
       0xBA3C2BE2, 0x60C000, 0x3A37CD05, 0x458546F4, 0xB8599DD6, 0x380A1A26, 0x1E02203, 0xE7CC3456])
  {
  }

  lemma Abc3()
    ensures Five(3, Work(State(0x3F52DE5A, 0x9D785FD, 0x3498BFD4, 0xF211824F, 0xD79915AB),
      [0x7BA06619, 0x6380AEA2, 0xAE55269, 0x627B49A1, 0x7CD45C9D, 0xF0000, 0xFB50753A, 0xEC6765E8,
       0xBA3C2BE2, 0x60C000, 0x3A37CD05, 0x458546F4, 0xB8599DD6, 0x380A1A26, 0x1E02203, 0xE7CC3456])) ==
      Work(State(0x42541B35, 0x5738D5E1, 0x21834873, 0x681E6DF6, 0xD8FDF6AD),
      [0x7E577CE2, 0x7EF2103, 0x8544E945, 0xEB39DAB8, 0xC205991A, 0x80AECB63, 0x7D84CA48, 0x7B499B62,
       0x8E8010A8, 0x4B5B8A77, 0x3216B69A, 0x507E88D, 0x705BEE96, 0x60C0FF00, 0xA28362D0, 0x1DA6B91D])
  {
  }

  lemma Abc()
    ensures Fast(State(0x67452301, 0xEFCDAB89, 0x98BADCFE, 0x10325476, 0xC3D2E1F0),
      [0x61626380, 0, 0, 0, 0, 0, 0, 0,
       0, 0, 0, 0, 0, 0, 0, 0x18]) == State(0xA9993E36, 0x4706816A, 0xBA3E2571, 0x7850C26C, 0x9CD0D89D)
  {
    hide Five;
    Abc0();
    Abc1();
    Abc2();
    Abc3();
  }


  lemma AbcWord0()
    ensures WordBytes(0xA9993E36) == [0xa9, 0x99, 0x3e, 0x36]
  {
    assert Pack(0xa9, 0x99, 0x3e, 0x36) == 0xA9993E36;
    hide *;
    WordOut(0xA9993E36, 0xa9, 0x99, 0x3e, 0x36);
  }

  lemma AbcWord1()
    ensures WordBytes(0x4706816A) == [0x47, 0x06, 0x81, 0x6a]
  {
    assert Pack(0x47, 0x06, 0x81, 0x6a) == 0x4706816A;
    hide *;
    WordOut(0x4706816A, 0x47, 0x06, 0x81, 0x6a);
  }

  lemma AbcWord2()
    ensures WordBytes(0xBA3E2571) == [0xba, 0x3e, 0x25, 0x71]
  {
    assert Pack(0xba, 0x3e, 0x25, 0x71) == 0xBA3E2571;
    hide *;
    WordOut(0xBA3E2571, 0xba, 0x3e, 0x25, 0x71);
  }

  lemma AbcWord3()
    ensures WordBytes(0x7850C26C) == [0x78, 0x50, 0xc2, 0x6c]
  {
    assert Pack(0x78, 0x50, 0xc2, 0x6c) == 0x7850C26C;
    hide *;
    WordOut(0x7850C26C, 0x78, 0x50, 0xc2, 0x6c);
  }

  lemma AbcWord4()
    ensures WordBytes(0x9CD0D89D) == [0x9c, 0xd0, 0xd8, 0x9d]
  {
    assert Pack(0x9c, 0xd0, 0xd8, 0x9d) == 0x9CD0D89D;
    hide *;
    WordOut(0x9CD0D89D, 0x9c, 0xd0, 0xd8, 0x9d);
  }

  lemma AbcOut()
    ensures StateBytes(State(0xA9993E36, 0x4706816A, 0xBA3E2571, 0x7850C26C, 0x9CD0D89D)) ==
      [0xa9, 0x99, 0x3e, 0x36, 0x47, 0x06, 0x81, 0x6a, 0xba, 0x3e, 0x25, 0x71, 0x78, 0x50, 0xc2, 0x6c, 0x9c, 0xd0, 0xd8, 0x9d]
  {
    hide WordBytes;
    AbcWord0();
    AbcWord1();
    AbcWord2();
    AbcWord3();
    AbcWord4();
  }

  /** The example of FIPS 180: A9993E36 4706816A BA3E2571 7850C26C 9CD0D89D. */
  lemma DigestAbc()
    ensures Digest(ABC) ==
      [0xa9, 0x99, 0x3e, 0x36, 0x47, 0x06, 0x81, 0x6a, 0xba, 0x3e, 0x25, 0x71, 0x78, 0x50, 0xc2, 0x6c, 0x9c, 0xd0, 0xd8, 0x9d]
  {
    hide HashBlocks, Pad, StateBytes, Fast, Ws;
    AbcWords();
    OneBlock(IV, Pad(ABC));
    Abc();
    AbcOut();
  }
}
