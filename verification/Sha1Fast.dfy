/** The compression function in straight lines with constant shifts, in a form that
    can be worked out word by word. */
module Sha1Fast {
  import opened Octets
  import opened Sha1Spec

  // ----- the compression in straight lines

  function Rot1(x: word): word { (x << 1) | (x >> 31) }
  function Rot5(x: word): word { (x << 5) | (x >> 27) }
  function Rot30(x: word): word { (x << 30) | (x >> 2) }

  lemma Rots(x: word)
    ensures Rotl(x, 1) == Rot1(x) && Rotl(x, 5) == Rot5(x) && Rotl(x, 30) == Rot30(x)
  {
  }

  /** One round of the stage with this function and constant. */
  function Go(s: State, f: word, k: word, w: word): State {
    State(Sum(Rot5(s.a), f, s.e, k, w), s.a, Rot30(s.b), s.c, s.d)
  }

  /** Four rounds of stage 0, 1, 2 or 3. */
  function Quad(stage: nat, s: State, w: word, x: word, y: word, z: word): State {
    var p := Stage(stage, s, w);
    var q := Stage(stage, p, x);
    var r := Stage(stage, q, y);
    Stage(stage, r, z)
  }

  function Stage(stage: nat, s: State, w: word): State {
    match stage
    case 0 => Go(s, Ch(s.b, s.c, s.d), 0x5A827999, w)
    case 1 => Go(s, Parity(s.b, s.c, s.d), 0x6ED9EBA1, w)
    case 2 => Go(s, Maj(s.b, s.c, s.d), 0x8F1BBCDC, w)
    case _ => Go(s, Parity(s.b, s.c, s.d), 0xCA62C1D6, w)
  }

  lemma RoundIs(s: State, t: nat, w: word)
    ensures Round(s, t, w) == Go(s, F(t, s.b, s.c, s.d), K(t), w)
  {
    hide Rotl, Rot5, Rot30, F, K, Sum;
    Rots(s.a);
    Rots(s.b);
  }

  lemma StageIs(s: State, t: nat, w: word)
    requires t < 80
    ensures Round(s, t, w) == Stage(t / 20, s, w)
  {
    hide Go, Round, Ch, Parity, Maj;
    RoundIs(s, t, w);
  }

  lemma QuadIs(s: State, block: seq<byte>, t: nat, stage: nat, g: seq<word>, j: nat)
    requires |block| == 64 && 20 * stage <= t && t + 4 <= 20 * stage + 20 <= 80 && j + 4 <= |g|
    requires g[j] == W(block, t) && g[j + 1] == W(block, t + 1) && g[j + 2] == W(block, t + 2) && g[j + 3] == W(block, t + 3)
    ensures Rounds(s, block, t + 4) == Quad(stage, Rounds(s, block, t), g[j], g[j + 1], g[j + 2], g[j + 3])
  {
    hide Round, Stage, W;
    var p := Rounds(s, block, t);
    StageIs(p, t, g[j]);
    var q := Rounds(s, block, t + 1);
    StageIs(q, t + 1, g[j + 1]);
    var r := Rounds(s, block, t + 2);
    StageIs(r, t + 2, g[j + 2]);
    var u := Rounds(s, block, t + 3);
    StageIs(u, t + 3, g[j + 3]);
  }

  // ----- the schedule, four words at a time

  function Ws(block: seq<byte>, t: nat): (r: seq<word>)
    requires |block| == 64
    ensures |r| == 16
  {
    seq(16, i requires 0 <= i < 16 => W(block, t + i))
  }

  function Mix1(a: word, b: word, c: word, d: word): word { Rot1(a ^ b ^ c ^ d) }

  lemma MixIs(a: word, b: word, c: word, d: word)
    ensures Mix(a, b, c, d) == Mix1(a, b, c, d)
  {
    hide Rot1, Rotl;
    Rots(a ^ b ^ c ^ d);
  }

  lemma MixAt(block: seq<byte>, u: nat)
    requires |block| == 64 && u >= 16
    ensures W(block, u) == Mix1(W(block, u - 3), W(block, u - 8), W(block, u - 14), W(block, u - 16))
  {
    hide Mix1, Mix, WordAt;
    MixIs(W(block, u - 3), W(block, u - 8), W(block, u - 14), W(block, u - 16));
  }

  /** Sixteen words of the schedule, moved on by four. */
  function Move(g: seq<word>): (r: seq<word>)
    requires |g| == 16
    ensures |r| == 16
  {
    var n := Mix1(g[13], g[8], g[2], g[0]);
    [g[4], g[5], g[6], g[7], g[8], g[9], g[10], g[11], g[12], g[13], g[14], g[15],
     n, Mix1(g[14], g[9], g[3], g[1]), Mix1(g[15], g[10], g[4], g[2]), Mix1(n, g[11], g[5], g[3])]
  }

  lemma Kept(g: seq<word>, j: nat)
    requires |g| == 16 && j < 12
    ensures Move(g)[j] == g[j + 4]
  {
    hide Mix1;
  }

  lemma Added(g: seq<word>)
    requires |g| == 16
    ensures Move(g)[12..] == [Mix1(g[13], g[8], g[2], g[0]), Mix1(g[14], g[9], g[3], g[1]),
      Mix1(g[15], g[10], g[4], g[2]), Mix1(Mix1(g[13], g[8], g[2], g[0]), g[11], g[5], g[3])]
  {
    hide Mix1;
  }

  lemma WsAt(block: seq<byte>, t: nat, i: nat)
    requires |block| == 64 && i < 16
    ensures Ws(block, t)[i] == W(block, t + i)
  {
    hide W;
  }

  /** The first twelve words stay in order, four places further down. */
  lemma MoveKeeps(block: seq<byte>, t: nat, j: nat)
    requires |block| == 64 && j < 12
    ensures Move(Ws(block, t))[j] == Ws(block, t + 4)[j]
  {
    hide Move, Ws, W;
    Kept(Ws(block, t), j);
    WsAt(block, t, j + 4);
    WsAt(block, t + 4, j);
  }

  /** Each word added mixes the words three, eight, fourteen and sixteen places before it. */
  lemma Mixed(block: seq<byte>, t: nat, i: nat)
    requires |block| == 64 && i < 3
    ensures Mix1(Ws(block, t)[13 + i], Ws(block, t)[8 + i], Ws(block, t)[2 + i], Ws(block, t)[i]) == W(block, t + 16 + i)
  {
    hide Mix1, W, Ws;
    MixAt(block, t + 16 + i);
    WsAt(block, t, 13 + i);
    WsAt(block, t, 8 + i);
    WsAt(block, t, 2 + i);
    WsAt(block, t, i);
  }

  lemma MixedLast(block: seq<byte>, t: nat)
    requires |block| == 64
    ensures Mix1(W(block, t + 16), Ws(block, t)[11], Ws(block, t)[5], Ws(block, t)[3]) == W(block, t + 19)
  {
    hide Mix1, W, Ws;
    MixAt(block, t + 19);
    WsAt(block, t, 11);
    WsAt(block, t, 5);
    WsAt(block, t, 3);
  }

  lemma MoveAdds(block: seq<byte>, t: nat)
    requires |block| == 64
    ensures Move(Ws(block, t))[12..] == [W(block, t + 16), W(block, t + 17), W(block, t + 18), W(block, t + 19)]
  {
    hide Mix1, W, Ws, Move;
    Added(Ws(block, t));
    Mixed(block, t, 0);
    Mixed(block, t, 1);
    Mixed(block, t, 2);
    MixedLast(block, t);
  }

  lemma MoveIs(block: seq<byte>, t: nat)
    requires |block| == 64
    ensures Move(Ws(block, t)) == Ws(block, t + 4)
  {
    hide Move, Ws, W;
    var r := Move(Ws(block, t));
    MoveAdds(block, t);
    forall j | 0 <= j < 16
      ensures r[j] == Ws(block, t + 4)[j]
    {
      if j < 12 {
        MoveKeeps(block, t, j);
      } else {
        assert r[j] == r[12..][j - 12];
        WsAt(block, t + 4, j);
      }
    }
  }

  // ----- all eighty rounds

  datatype Work = Work(s: State, g: seq<word>)

  predicate Sixteen(w: Work) { |w.g| == 16 }

  /** Four rounds of a stage. */
  function Turn(stage: nat, w: Work): (r: Work)
    requires Sixteen(w)
    ensures Sixteen(r)
  {
    Work(Quad(stage, w.s, w.g[0], w.g[1], w.g[2], w.g[3]), Move(w.g))
  }

  function Five(stage: nat, w: Work): (r: Work)
    requires Sixteen(w)
    ensures Sixteen(r)
  {
    Turn(stage, Turn(stage, Turn(stage, Turn(stage, Turn(stage, w)))))
  }

  function Fast(s: State, g: seq<word>): State
    requires |g| == 16
  {
    Add(s, Five(3, Five(2, Five(1, Five(0, Work(s, g))))).s)
  }

  function At(s: State, block: seq<byte>, t: nat): (w: Work)
    requires |block| == 64
    ensures Sixteen(w)
  {
    Work(Rounds(s, block, t), Ws(block, t))
  }

  lemma TurnIs(s: State, block: seq<byte>, t: nat, stage: nat)
    requires |block| == 64 && 20 * stage <= t && t + 4 <= 20 * stage + 20 <= 80
    ensures At(s, block, t + 4) == Turn(stage, At(s, block, t))
  {
    hide Rounds, Quad, W, Move;
    MoveIs(block, t);
    QuadIs(s, block, t, stage, Ws(block, t), 0);
  }

  lemma FiveIs(s: State, block: seq<byte>, t: nat, stage: nat)
    requires |block| == 64 && t == 20 * stage && stage < 4
    ensures At(s, block, t + 20) == Five(stage, At(s, block, t))
  {
    hide At, Turn;
    TurnIs(s, block, t, stage);
    TurnIs(s, block, t + 4, stage);
    TurnIs(s, block, t + 8, stage);
    TurnIs(s, block, t + 12, stage);
    TurnIs(s, block, t + 16, stage);
  }

  /** The straight lines compute the compression function. */
  lemma FastIs(s: State, block: seq<byte>)
    requires |block| == 64
    ensures Compress(s, block) == Fast(s, Ws(block, 0))
  {
    hide Rounds, Five, Ws, Add;
    assert Rounds(s, block, 0) == s by { NoRound(s, block); }
    FiveIs(s, block, 0, 0);
    FiveIs(s, block, 20, 1);
    FiveIs(s, block, 40, 2);
    FiveIs(s, block, 60, 3);
  }

  lemma NoRound(s: State, block: seq<byte>)
    requires |block| == 64
    ensures Rounds(s, block, 0) == s
  {
  }
}
