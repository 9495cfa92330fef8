/** The compression of one block with a 16-word circular schedule and rotating
    register roles, refining `Sha1Spec`. */
module Sha1Compress {
  import opened Octets
  import opened Sha1Spec

  // ----- the macros of the compression function

  function S(x: word, n: nat): word
    requires 0 < n < 32
  {
    (x << n) | ((x & 0xFFFFFFFF) >> (32 - n))
  }

  /** The four boolean functions as rewritten for speed. */
  function FastF(t: nat, x: word, y: word, z: word): word {
    if t < 20 then z ^ (x & (y ^ z))
    else if t < 40 then x ^ y ^ z
    else if t < 60 then (x & y) | (z & (x | y))
    else x ^ y ^ z
  }

  /** The constant each group of rounds is compiled with. */
  function FastK(t: nat): word {
    if t < 20 then 0x5A827999 else if t < 40 then 0x6ED9EBA1 else if t < 60 then 0x8F1BBCDC else 0xCA62C1D6
  }

  lemma FastKIsK(t: nat)
    ensures FastK(t) == K(t)
  {
  }

  lemma ChRewritten(x: word, y: word, z: word)
    ensures z ^ (x & (y ^ z)) == Ch(x, y, z)
  {
  }

  lemma MajRewritten(x: word, y: word, z: word)
    ensures (x & y) | (z & (x | y)) == Maj(x, y, z)
  {
  }

  lemma FastFIsF(t: nat, x: word, y: word, z: word)
    ensures FastF(t, x, y, z) == F(t, x, y, z)
  {
    ChRewritten(x, y, z);
    MajRewritten(x, y, z);
  }

  lemma SIsRotl(x: word, n: nat)
    requires 0 < n < 32
    ensures S(x, n) == Rotl(x, n)
  {
    assert x & 0xFFFFFFFF == x;
  }

  // ----- the circular schedule

  /** Sixteen words, of which the slot of each index holds its latest value
      below `m`. */
  ghost predicate Holds(ws: seq<word>, block: seq<byte>, m: nat)
    requires |block| == 64
  {
    |ws| == 16 && m >= 16 && forall j :: m - 16 <= j < m ==> ws[j % 16] == W(block, j)
  }

  function Least(t: nat): nat {
    if t < 16 then 16 else t
  }

  lemma SlotOf(j: int, t: int)
    requires t - 16 <= j < t
    ensures j % 16 == t % 16 <==> j == t - 16
  {
  }

  lemma HoldsStep(ws: seq<word>, block: seq<byte>, t: nat)
    requires |block| == 64 && t >= 16 && Holds(ws, block, t)
    ensures Mix(ws[(t - 3) % 16], ws[(t - 8) % 16], ws[(t - 14) % 16], ws[t % 16]) == W(block, t)
    ensures Holds(ws[t % 16 := W(block, t)], block, t + 1)
  {
    hide Mix, WordAt;
    SlotOf(t - 16, t);
    var next := ws[t % 16 := W(block, t)];
    forall j | t - 15 <= j < t + 1
      ensures next[j % 16] == W(block, j)
    {
      if j < t { SlotOf(j, t); }
    }
  }

  method ScheduleWord(ws: array<word>, ghost block: seq<byte>, t: nat) returns (x: word)
    requires |block| == 64 && Holds(ws[..], block, Least(t))
    modifies ws
    ensures x == W(block, t) && Holds(ws[..], block, Least(t + 1))
  {
    hide W, Mix;
    if t < 16 {
      assert t % 16 == t;
      return ws[t];
    }
    ghost var was := ws[..];
    HoldsStep(was, block, t);
    x := FastMix(ws[(t - 3) % 16], ws[(t - 8) % 16], ws[(t - 14) % 16], ws[t % 16]);
    ws[t % 16] := x;
    assert ws[..] == was[t % 16 := x];
  }

  method FastMix(a: word, b: word, c: word, d: word) returns (x: word)
    ensures x == Mix(a, b, c, d)
  {
    var temp := a ^ b ^ c ^ d;
    SIsRotl(temp, 1);
    x := S(temp, 1);
  }

  /** The macro that reads four bytes, high byte first. */
  function GetWord(b: seq<byte>, i: nat): (w: word)
    requires i + 4 <= |b|
    ensures i % 4 == 0 ==> w == WordAt(b, i / 4)
  {
    (ToWord(b[i]) << 24) | (ToWord(b[i + 1]) << 16) | (ToWord(b[i + 2]) << 8) | ToWord(b[i + 3])
  }

  method LoadBlock(block: seq<byte>) returns (ws: array<word>)
    requires |block| == 64
    ensures fresh(ws) && Holds(ws[..], block, 16)
  {
    hide GetWord, WordAt;
    ws := new word[16];
    var i := 0;
    while i < 16
      invariant 0 <= i <= 16 && ws.Length == 16
      invariant forall j :: 0 <= j < i ==> ws[j] == W(block, j)
    {
      ws[i] := GetWord(block, 4 * i);
      i := i + 1;
    }
    assert forall j :: 0 <= j < 16 ==> j % 16 == j;
  }

  // ----- the rounds

  /** The `P` macro: updates its fifth and second register. */
  method Step(t: nat, a: word, b: word, c: word, d: word, e: word, x: word) returns (e': word, b': word)
    ensures State(e', a, b', c, d) == Round(State(a, b, c, d, e), t, x)
  {
    hide S, Rotl, F, FastF, K, FastK, Sum, AddTo;
    FastFIsF(t, b, c, d);
    SIsRotl(a, 5);
    SIsRotl(b, 30);
    FastKIsK(t);
    e' := AddTo(e, S(a, 5), FastF(t, b, c, d), FastK(t), x);
    b' := S(b, 30);
    Commute(e, Rotl(a, 5), F(t, b, c, d), K(t), x);
  }

  function AddTo(e: word, a: word, f: word, k: word, x: word): word {
    e + (a + f + k + x)
  }

  lemma Commute(e: word, a: word, f: word, k: word, x: word)
    ensures AddTo(e, a, f, k, x) == Sum(a, f, e, k, x)
  {
  }

  /** Five consecutive rounds, after which every register has its old role again. */
  method FiveSteps(ws: array<word>, ghost block: seq<byte>, t: nat, s: State) returns (r: State)
    requires |block| == 64 && Holds(ws[..], block, Least(t))
    modifies ws
    ensures Holds(ws[..], block, Least(t + 5))
    ensures r ==
      Round(Round(Round(Round(Round(s, t, W(block, t)), t + 1, W(block, t + 1)),
        t + 2, W(block, t + 2)), t + 3, W(block, t + 3)), t + 4, W(block, t + 4))
  {
    hide *;
    var A, B, C, D, E := s.a, s.b, s.c, s.d, s.e;
    var x := ScheduleWord(ws, block, t);
    E, B := Step(t, A, B, C, D, E, x);
    x := ScheduleWord(ws, block, t + 1);
    D, A := Step(t + 1, E, A, B, C, D, x);
    x := ScheduleWord(ws, block, t + 2);
    C, E := Step(t + 2, D, E, A, B, C, x);
    x := ScheduleWord(ws, block, t + 3);
    B, D := Step(t + 3, C, D, E, A, B, x);
    x := ScheduleWord(ws, block, t + 4);
    A, C := Step(t + 4, B, C, D, E, A, x);
    r := State(A, B, C, D, E);
  }

  method Process(state: State, data: seq<byte>) returns (r: State)
    requires |data| == 64
    ensures r == Compress(state, data)
  {
    RoundsZero(state, data);
    hide *;
    var ws := LoadBlock(data);
    r := state;
    var t, group := 0, 0;
    while group < 16
      invariant 0 <= group <= 16 && t == 5 * group && fresh(ws)
      invariant Holds(ws[..], data, Least(t))
      invariant r == Rounds(state, data, t)
    {
      r := FiveSteps(ws, data, t, r);
      FiveRounds(state, data, t);
      t, group := t + 5, group + 1;
    }
    CompressIs(state, data, t);
    r := Add(state, r);
  }

  lemma RoundsZero(s: State, block: seq<byte>)
    requires |block| == 64
    ensures Rounds(s, block, 0) == s && Least(0) == 16
  {
  }

  lemma CompressIs(s: State, block: seq<byte>, n: nat)
    requires |block| == 64 && n == 80
    ensures Compress(s, block) == Add(s, Rounds(s, block, n))
  {
    hide Rounds, Add;
  }

  lemma FiveRounds(s: State, block: seq<byte>, t: nat)
    requires |block| == 64
    ensures Rounds(s, block, t + 5) ==
      Round(Round(Round(Round(Round(Rounds(s, block, t), t, W(block, t)), t + 1, W(block, t + 1)),
        t + 2, W(block, t + 2)), t + 3, W(block, t + 3)), t + 4, W(block, t + 4))
  {
    hide Round, W;
    assert Rounds(s, block, t + 1) == Round(Rounds(s, block, t), t, W(block, t));
    assert Rounds(s, block, t + 2) == Round(Rounds(s, block, t + 1), t + 1, W(block, t + 1));
    assert Rounds(s, block, t + 3) == Round(Rounds(s, block, t + 2), t + 2, W(block, t + 2));
    assert Rounds(s, block, t + 4) == Round(Rounds(s, block, t + 3), t + 3, W(block, t + 3));
  }
}
