/** The HTTP client's encoder: a 32-bit accumulator fed with signed characters. */
module Base64Shift {
  import opened Sequences
  import opened Octets
  import opened Arithmetic
  import opened Base64

  // ----- the accumulator

  const WORD := 0x1_0000_0000

  /** x << 8 | c, where a character from 128 up is sign-extended to 32 bits first. */
  function Push(x: nat, c: byte): (r: nat)
    requires x < WORD
    ensures r < WORD
  {
    if c < 128 then x % 0x100_0000 * 256 + c else WORD - 256 + c
  }

  lemma PushShows(x: nat, c: byte)
    requires x < WORD
    ensures Push(x, c) % 256 == c
    ensures Push(x, c) / 256 % 16 == Before(x % 256, c) % 16
  {
    hide Push;
    if c < 128 {
      assert Push(x, c) == x % 0x100_0000 * 256 + c by { PushSmall(x, c); }
      Nibble(x);
    } else {
      assert Push(x, c) == 0xFF_FFFF * 256 + c by { PushLarge(x, c); }
    }
  }

  lemma PushSmall(x: nat, c: byte)
    requires x < WORD && c < 128
    ensures Push(x, c) == x % 0x100_0000 * 256 + c
  {
  }

  lemma PushLarge(x: nat, c: byte)
    requires x < WORD && c >= 128
    ensures Push(x, c) == 0xFF_FFFF * 256 + c
  {
  }

  lemma Nibble(x: nat)
    ensures x % 0x100_0000 % 16 == x % 256 % 16
  {
    Coarser(x, 16, 0x10_0000);
    Coarser(x, 16, 16);
  }

  /** What the accumulator shows of the previous byte once c is in. */
  function Before(previous: nat, c: byte): (r: nat) {
    if c < 128 then previous else 255
  }

  // ----- what the encoder writes

  function Second(a: nat, b: byte): (r: nat)
    ensures r < 64
  {
    Before(a, b) % 4 * 16 + b / 16
  }

  function Third(b: nat, c: byte): (r: nat)
    ensures r < 64
  {
    Before(b, c) % 16 * 4 + c / 64
  }

  /** The six-bit groups completed by the i-th byte. */
  function Sixes(i: nat, previous: nat, c: byte): (r: seq<nat>)
    ensures |r| == 1 + i % 3 / 2 && forall k :: 0 <= k < |r| ==> r[k] < 64
  {
    match i % 3
    case 0 => [c / 4]
    case 1 => [Second(previous, c)]
    case _ => [Third(previous, c), c % 64]
  }

  function Previous(s: seq<byte>, i: nat): byte
    requires i <= |s|
  {
    if i == 0 then 0 else s[i - 1]
  }

  function Emitted(s: seq<byte>, n: nat): (r: seq<nat>)
    requires n <= |s|
    ensures |r| == n + n / 3 && forall k :: 0 <= k < |r| ==> r[k] < 64
  {
    if n == 0 then [] else Emitted(s, n - 1) + Sixes(n - 1, Previous(s, n - 1), s[n - 1])
  }

  /** The bits still in the accumulator at the end, shifted into place. */
  function Rest(s: seq<byte>): (r: seq<nat>)
    ensures |r| == (if |s| % 3 == 0 then 0 else 1) && forall k :: 0 <= k < |r| ==> r[k] < 64
  {
    match |s| % 3
    case 0 => []
    case 1 => [s[|s| - 1] % 4 * 16]
    case _ => [s[|s| - 1] % 16 * 4]
  }

  function Signs(n: nat): string {
    seq(if n % 4 == 0 then 0 else 4 - n % 4, _ => '=')
  }

  function Written(s: seq<byte>): string {
    var q := Emitted(s, |s|) + Rest(s);
    Letters(q) + Signs(|q|)
  }

  // ----- when that is base64

  /** The byte before c, as far as its group shares bits with c, survives c. */
  predicate Survives(s: seq<byte>, i: nat)
    requires i < |s|
  {
    || s[i] < 128
    || i % 3 == 0
    || (i % 3 == 1 && s[i - 1] % 4 == 3)
    || (i % 3 == 2 && s[i - 1] % 16 == 15)
  }

  predicate Clean(s: seq<byte>) {
    forall i :: 0 <= i < |s| ==> Survives(s, i)
  }

  lemma {:induction false} EmittedCons(s: seq<byte>, n: nat)
    requires 3 <= n <= |s|
    ensures Emitted(s, n) == Emitted(s[..3], 3) + Emitted(s[3..], n - 3)
  {
    hide Sixes, Emitted, Previous;
    if n == 3 {
      EmittedPrefix(s, 3, 3);
      EmittedNone(s[3..]);
    } else {
      EmittedCons(s, n - 1);
      EmittedSnoc(s, n - 1);
      EmittedSnoc(s[3..], n - 4);
      SixesShift(s, n - 1);
      Assoc(Emitted(s[..3], 3), Emitted(s[3..], n - 4), Sixes(n - 1, Previous(s, n - 1), s[n - 1]));
    }
  }

  lemma EmittedNone(s: seq<byte>)
    ensures Emitted(s, 0) == []
  {
  }

  lemma {:induction false} EmittedPrefix(s: seq<byte>, m: nat, n: nat)
    requires n <= m <= |s|
    ensures Emitted(s, n) == Emitted(s[..m], n)
  {
    hide Sixes;
    if n > 0 { EmittedPrefix(s, m, n - 1); }
  }

  lemma SixesShift(s: seq<byte>, i: nat)
    requires 3 <= i < |s|
    ensures Sixes(i, Previous(s, i), s[i]) == Sixes(i - 3, Previous(s[3..], i - 3), s[3..][i - 3])
  {
    assert (i - 3) % 3 == i % 3;
  }

  lemma SecondRight(a: byte, b: byte, c: byte)
    ensures Second(a, b) == Quantum(a, b, c)[1] <==> b < 128 || a % 4 == 3
  {
  }

  lemma ThirdRight(a: byte, b: byte, c: byte)
    ensures Third(b, c) == Quantum(a, b, c)[2] <==> c < 128 || b % 16 == 15
  {
  }

  lemma OutersRight(a: byte, b: byte, c: byte)
    ensures Quantum(a, b, c)[0] == a / 4 && Quantum(a, b, c)[3] == c % 64
    ensures b == 0 ==> Quantum(a, b, c)[1] == a % 4 * 16
    ensures c == 0 ==> Quantum(a, b, c)[2] == b % 16 * 4
  {
  }

  lemma EmittedPair(s: seq<byte>)
    requires |s| >= 2
    ensures Emitted(s, 1) == [s[0] / 4]
    ensures Emitted(s, 2) == [s[0] / 4, Second(s[0], s[1])]
  {
    hide Second, Third, Emitted, Sixes;
    EmittedOne(s);
    EmittedSnoc(s, 1);
    SixesOne(s[0], s[1]);
  }

  lemma SixesOne(previous: nat, c: byte)
    ensures Sixes(1, previous, c) == [Second(previous, c)]
  {
    hide Second, Third;
  }

  lemma EmittedGroup(s: seq<byte>)
    requires |s| == 3
    ensures Emitted(s, 3) == [s[0] / 4, Second(s[0], s[1]), Third(s[1], s[2]), s[2] % 64]
  {
    hide Second, Third;
    EmittedPair(s);
    assert Emitted(s, 3) == Emitted(s, 2) + Sixes(2, s[1], s[2]);
  }

  lemma CleanGroup(s: seq<byte>)
    requires 2 <= |s| <= 3
    ensures Clean(s) <==> (s[1] < 128 || s[0] % 4 == 3) && (|s| == 3 ==> s[2] < 128 || s[1] % 16 == 15)
  {
    assert Clean(s) <==> Survives(s, 1) && (|s| == 3 ==> Survives(s, 2));
  }

  /** A group of three comes out right exactly when its bytes survive. */
  lemma GroupRight(s: seq<byte>)
    requires |s| == 3
    ensures Emitted(s, 3) == Quantum(s[0], s[1], s[2]) <==> Clean(s)
  {
    hide *;
    EmittedGroup(s);
    CleanGroup(s);
    OutersRight(s[0], s[1], s[2]);
    SecondRight(s[0], s[1], s[2]);
    ThirdRight(s[0], s[1], s[2]);
  }

  lemma CleanCons(s: seq<byte>)
    requires |s| >= 3
    ensures Clean(s) <==> Clean(s[..3]) && Clean(s[3..])
  {
    if Clean(s[..3]) && Clean(s[3..]) {
      forall i | 0 <= i < |s| ensures Survives(s, i) {
        if i < 3 {
          assert Survives(s[..3], i);
        } else {
          assert (i - 3) % 3 == i % 3 && Survives(s[3..], i - 3);
        }
      }
    }
    if Clean(s) {
      forall i | 0 <= i < |s| - 3 ensures Survives(s[3..], i) {
        assert (i + 3) % 3 == i % 3 && Survives(s, i + 3);
      }
      forall i | 0 <= i < 3 ensures Survives(s[..3], i) {
        assert Survives(s, i);
      }
    }
  }

  lemma LettersInjective(p: seq<nat>, q: seq<nat>)
    requires forall i :: 0 <= i < |p| ==> p[i] < 64
    requires forall i :: 0 <= i < |q| ==> q[i] < 64
    ensures Letters(p) == Letters(q) <==> p == q
  {
    hide Letter, Letters, Index;
    IndexLetters(p);
    IndexLetters(q);
    if Letters(p) == Letters(q) {
      forall i | 0 <= i < |p| ensures p[i] == q[i] { assert Index(Letters(p)[i]) == Index(Letters(q)[i]); }
    }
  }

  lemma WrittenCons(s: seq<byte>)
    requires |s| >= 3
    ensures Written(s) == Letters(Emitted(s[..3], 3)) + Written(s[3..])
  {
    hide Letter, Letters, Emitted, Rest, Signs;
    EmittedCons(s, |s|);
    var t := s[3..];
    var p, q := Emitted(s[..3], 3), Emitted(t, |t|) + Rest(t);
    RestSkip(s);
    assert Emitted(s, |s|) + Rest(s) == p + q;
    LettersConcat(p, q);
    SignsSkip(|q|);
    assert (Letters(p) + Letters(q)) + Signs(|q|) == Letters(p) + (Letters(q) + Signs(|q|));
  }

  lemma RestSkip(s: seq<byte>)
    requires |s| >= 3
    ensures Rest(s) == Rest(s[3..])
  {
    assert (|s| - 3) % 3 == |s| % 3;
    if |s| > 3 { assert s[3..][|s| - 4] == s[|s| - 1]; }
  }

  lemma LettersConcat(p: seq<nat>, q: seq<nat>)
    requires forall i :: 0 <= i < |p| ==> p[i] < 64
    requires forall i :: 0 <= i < |q| ==> q[i] < 64
    ensures Letters(p + q) == Letters(p) + Letters(q)
  {
    hide Letter;
  }

  lemma SignsSkip(n: nat)
    ensures Signs(4 + n) == Signs(n)
  {
    assert (4 + n) % 4 == n % 4;
  }

  lemma ShortRight(s: seq<byte>)
    requires |s| < 3
    ensures Written(s) == Encode(s) <==> Clean(s)
  {
    if |s| == 0 {
      assert Letters([]) == [] && Signs(0) == [];
    } else if |s| == 1 {
      SingleRight(s);
    } else {
      PairRight(s);
    }
  }

  lemma SingleEmitted(s: seq<byte>)
    requires |s| == 1
    ensures Emitted(s, 1) + Rest(s) == Quantum(s[0], 0, 0)[..2]
  {
    hide *;
    var q := Quantum(s[0], 0, 0);
    OutersRight(s[0], 0, 0);
    assert Emitted(s, 1) == [s[0] / 4] by { EmittedOne(s); }
    assert Rest(s) == [s[0] % 4 * 16] by { RestOne(s); }
    assert [s[0] / 4] + [s[0] % 4 * 16] == q[..2];
  }

  lemma EmittedOne(s: seq<byte>)
    requires |s| >= 1
    ensures Emitted(s, 1) == [s[0] / 4]
  {
    hide Second, Third;
    assert Emitted(s, 1) == Emitted(s, 0) + Sixes(0, 0, s[0]);
  }

  lemma RestOne(s: seq<byte>)
    requires |s| == 1
    ensures Rest(s) == [s[0] % 4 * 16]
  {
  }

  lemma TwoSigns()
    ensures Signs(2) == "=="
  {
  }

  lemma SingleRight(s: seq<byte>)
    requires |s| == 1
    ensures Written(s) == Encode(s) && Clean(s)
  {
    hide Letter, Letters, Second, Third, Quantum, Emitted, Rest, Clean, Survives, Signs;
    SingleClean(s);
    SingleEmitted(s);
    TwoSigns();
    QuantumLong(s[0], 0, 0);
  }

  lemma SingleClean(s: seq<byte>)
    requires |s| == 1
    ensures Clean(s)
  {
  }

  lemma QuantumLong(a: byte, b: byte, c: byte)
    ensures |Quantum(a, b, c)| == 4
  {
  }

  lemma PairRight(s: seq<byte>)
    requires |s| == 2
    ensures Written(s) == Encode(s) <==> Clean(s)
  {
    hide Letter, Letters, Second, Quantum, Emitted, Clean, Survives;
    EmittedPair(s);
    SecondRight(s[0], s[1], 0);
    OutersRight(s[0], s[1], 0);
    CleanGroup(s);
    var p, q := Emitted(s, 2) + Rest(s), Quantum(s[0], s[1], 0)[..3];
    LettersInjective(p, q);
    assert Signs(3) == "=";
    SplitEqual(Letters(p), "=", Letters(q), "=");
  }

  /** The encoder's text is base64 exactly when every byte from 128 up starts a
      group of three or follows one whose shared bits are all ones; so for all of
      US-ASCII. */
  lemma {:induction false} WrittenRight(s: seq<byte>)
    ensures Written(s) == Encode(s) <==> Clean(s)
    decreases |s|
  {
    hide Letter, Letters, Quantum, Written, Emitted, Clean, Survives;
    if |s| < 3 {
      ShortRight(s);
    } else {
      var p, q := Emitted(s[..3], 3), Quantum(s[0], s[1], s[2]);
      WrittenCons(s);
      WrittenRight(s[3..]);
      GroupRight(s[..3]);
      CleanCons(s);
      LettersInjective(p, q);
      SplitEqual(Letters(p), Written(s[3..]), Letters(q), Encode(s[3..]));
    }
  }

  lemma SplitEqual(a: string, b: string, c: string, d: string)
    requires |a| == |c|
    ensures a + b == c + d <==> a == c && b == d
  {
    if a + b == c + d {
      assert a == (a + b)[..|a|] == (c + d)[..|c|] == c;
      assert b == (a + b)[|a|..] == (c + d)[|c|..] == d;
    }
  }

  lemma AsciiRight(s: seq<byte>)
    requires forall i :: 0 <= i < |s| ==> s[i] < 128
    ensures Written(s) == Encode(s)
  {
    WrittenRight(s);
  }

  /** A letter followed by a byte from 128 up does not come out as base64. */
  lemma NotBase64()
    ensures Written([0x41, 0xA9]) != Encode([0x41, 0xA9])
  {
    var s: seq<byte> := [0x41, 0xA9];
    WrittenRight(s);
    assert !Survives(s, 1);
  }

  // ----- the loops

  lemma FirstWindow(y: nat, c: byte)
    ensures (256 * y + c) / 4 % 64 == c / 4
  {
    assert (256 * y + c) / 4 == 64 * y + c / 4;
  }

  lemma SecondWindow(y: nat, c: byte)
    ensures (256 * y + c) / 16 % 64 == y % 4 * 16 + c / 16
  {
    assert (256 * y + c) / 16 == 16 * y + c / 16;
    assert y == 4 * (y / 4) + y % 4;
  }

  lemma ThirdWindow(y: nat, c: byte)
    ensures (256 * y + c) / 64 % 64 == y % 16 * 4 + c / 64
    ensures (256 * y + c) % 64 == c % 64
  {
    assert (256 * y + c) / 64 == 4 * y + c / 64;
    assert y == 16 * (y / 16) + y % 16;
  }

  lemma Windows(x: nat, previous: nat, c: byte)
    requires x % 256 == c && x / 256 % 16 == Before(previous, c) % 16
    ensures x / Pow2(2) % 64 == c / 4
    ensures x / Pow2(4) % 64 == Second(previous, c)
    ensures x / Pow2(6) % 64 == Third(previous, c)
    ensures x / Pow2(0) % 64 == c % 64
  {
    assert Pow2(2) == 4 && Pow2(4) == 4 * Pow2(2) && Pow2(6) == 4 * Pow2(4);
    FirstWindow(x / 256, c);
    SecondWindow(x / 256, c);
    ThirdWindow(x / 256, c);
    Low(x / 256, Before(previous, c));
  }

  lemma Low(y: nat, h: nat)
    requires y % 16 == h % 16
    ensures y % 4 == h % 4
  {
    Coarser(y, 4, 4);
    Coarser(h, 4, 4);
  }

  /** Six bits, the lowest of them l - 6 bits up. */
  function Window(x: nat, l: nat): (r: nat)
    requires l >= 6
    ensures r < 64
  {
    x / Pow2(l - 6) % 64
  }

  /** The k-th window the inner loop looks through shows the k-th group. */
  lemma WindowShows(x: nat, i: nat, previous: nat, c: byte, k: nat, l: nat)
    requires x % 256 == c && x / 256 % 16 == Before(previous, c) % 16
    requires k < |Sixes(i, previous, c)| && l == 2 * (i % 3) + 8 - 6 * k && l >= 6
    ensures Window(x, l) == Sixes(i, previous, c)[k]
  {
    hide Pow2, Before, Second, Third;
    Windows(x, previous, c);
  }

  lemma LettersSnoc(q: seq<nat>, r: seq<nat>, k: nat)
    requires k < |r|
    requires forall i :: 0 <= i < |q| ==> q[i] < 64
    requires forall i :: 0 <= i < |r| ==> r[i] < 64
    ensures Letters(q + r[..k + 1]) == Letters(q + r[..k]) + [Letter(r[k])]
  {
    hide Letter;
  }

  method PushByte(out: array<char>, idx: nat, x: nat, l: nat, c: byte, ghost s: seq<byte>, ghost n: nat)
    returns (idx': nat, x': nat, l': nat)
    requires n < |s| && s[n] == c && out.Length >= (n + 1) + (n + 1) / 3
    requires x < WORD && x % 256 == Previous(s, n) && l == 2 * (n % 3)
    requires idx == n + n / 3 && out[..idx] == Letters(Emitted(s, n))
    modifies out
    ensures x' < WORD && x' % 256 == c && l' == 2 * ((n + 1) % 3)
    ensures idx' == (n + 1) + (n + 1) / 3 && out[..idx'] == Letters(Emitted(s, n + 1))
    ensures out[idx'..] == old(out[idx'..])
  {
    hide Letters, Letter, Emitted, Sixes, Before, Push, Window, Previous;
    ghost var q, r, m := Emitted(s, n), Sixes(n, Previous(s, n), c), n % 3;
    Counts(n);
    PushShows(x, c);
    idx', x', l' := idx, Push(x, c), l + 8;
    ghost var k: nat := 0;
    assert q + r[..0] == q;
    while l' >= 6
      invariant 0 <= m < 3 && k <= |r| == 1 + m / 2 && l' == 2 * m + 8 - 6 * k && idx' == idx + k
      invariant out[..idx'] == Letters(q + r[..k])
      invariant out[idx'..] == old(out[idx'..])
    {
      WindowShows(x', n, Previous(s, n), c, k, l');
      LettersSnoc(q, r, k);
      ghost var before := out[..idx'];
      out[idx'] := Letter(Window(x', l'));
      assert out[..idx' + 1] == before + [out[idx']];
      idx', l', k := idx' + 1, l' - 6, k + 1;
    }
    assert r[..k] == r;
    EmittedSnoc(s, n);
  }

  /** How many letters a byte completes and how many bits it leaves. */
  lemma Counts(n: nat)
    ensures (n + 1) + (n + 1) / 3 == n + n / 3 + 1 + n % 3 / 2
    ensures 2 * ((n + 1) % 3) == 2 * (n % 3) + 8 - 6 * (1 + n % 3 / 2)
  {
  }

  lemma EmittedSnoc(s: seq<byte>, n: nat)
    requires n < |s|
    ensures Emitted(s, n + 1) == Emitted(s, n) + Sixes(n, Previous(s, n), s[n])
  {
  }

  lemma LeftBits(s: seq<byte>, x: nat)
    requires |s| % 3 > 0 && x % 256 == s[|s| - 1]
    ensures x * Pow2(6 - 2 * (|s| % 3)) % WORD % 64 == Rest(s)[0]
  {
    assert Pow2(2) == 4 && Pow2(4) == 4 * Pow2(2);
    LowBits(x, s[|s| - 1]);
  }

  lemma LowBits(x: nat, c: byte)
    requires x % 256 == c
    ensures x * 16 % WORD % 64 == c % 4 * 16
    ensures x * 4 % WORD % 64 == c % 16 * 4
  {
    hide WORD;
    Modulo(x * 16);
    Modulo(x * 4);
    Sixteen(x / 256, c);
    Four(x / 256, c);
  }

  lemma Sixteen(y: nat, c: byte)
    ensures (256 * y + c) * 16 % 64 == c % 4 * 16
  {
    Divided(c, 4);
    Quotient((256 * y + c) * 16, 64 * y + c / 4, 64, c % 4 * 16);
  }

  lemma Four(y: nat, c: byte)
    ensures (256 * y + c) * 4 % 64 == c % 16 * 4
  {
    Divided(c, 16);
    Quotient((256 * y + c) * 4, 16 * y + c / 16, 64, c % 16 * 4);
  }

  lemma Modulo(v: nat)
    ensures v % WORD % 64 == v % 64
  {
    Coarser(v, 64, 0x400_0000);
  }

  method Flush(out: array<char>, idx: nat, x: nat, l: nat, s: seq<byte>) returns (n: nat)
    requires x < WORD && x % 256 == Previous(s, |s|) && l == 2 * (|s| % 3)
    requires idx == |s| + |s| / 3 < out.Length && out[..idx] == Letters(Emitted(s, |s|))
    modifies out
    ensures n == |Emitted(s, |s|) + Rest(s)| && out[..n] == Letters(Emitted(s, |s|) + Rest(s))
    ensures out[n..] == old(out[n..])
  {
    hide Letters, Letter, Emitted, Rest, Pow2;
    ghost var e, r := Emitted(s, |s|), Rest(s);
    n := idx;
    if l > 0 {
      LeftBits(s, x);
      LettersSnoc(e, r, 0);
      assert e + r[..0] == e && e + r[..1] == e + r;
      out[n] := Letter(x * Pow2(6 - l) % WORD % 64);
      n := n + 1;
    } else {
      assert e + r == e;
    }
  }

  method Close(out: array<char>, m: nat) returns (n: nat)
    requires out.Length > m + |Signs(m)|
    modifies out
    ensures n == m + |Signs(m)| && out[..n] == old(out[..m]) + Signs(m) && out[n] == 0 as char
    ensures out[n + 1..] == old(out[n + 1..])
  {
    n := m;
    while n % 4 != 0
      invariant m <= n <= m + |Signs(m)|
      invariant forall i :: 0 <= i < out.Length ==> out[i] == if m <= i < n then '=' else old(out[i])
      decreases m + |Signs(m)| - n
    {
      out[n] := '=';
      n := n + 1;
    }
    out[n] := 0 as char;
  }

  method PushAll(out: array<char>, s: seq<byte>) returns (idx: nat, x: nat, l: nat)
    requires out.Length >= |s| + |s| / 3
    modifies out
    ensures x < WORD && x % 256 == Previous(s, |s|) && l == 2 * (|s| % 3)
    ensures idx == |s| + |s| / 3 && out[..idx] == Letters(Emitted(s, |s|))
    ensures out[idx..] == old(out[idx..])
  {
    hide Letters, Letter, Emitted, Push, Pow2, Second, Third, Sixes;
    x, l, idx := 0, 0, 0;
    var k := 0;
    Nothing(s);
    while k < |s|
      invariant 0 <= k <= |s| && x < WORD && x % 256 == Previous(s, k) && l == 2 * (k % 3)
      invariant idx == k + k / 3 && out[..idx] == Letters(Emitted(s, k))
      invariant out[idx..] == old(out[idx..])
    {
      ghost var before, at := out[..], idx;
      idx, x, l := PushByte(out, idx, x, l, s[k], s, k);
      assert out[idx..] == before[at..][idx - at..] == old(out[idx..]);
      k := k + 1;
    }
  }

  /** The whole call: the text up to the NUL it writes. */
  method Base64Enc(out: array<char>, s: seq<byte>) returns (n: nat)
    requires out.Length > (|s| + 2) / 3 * 4
    modifies out
    ensures n == (|s| + 2) / 3 * 4 && out[..n] == Written(s) && out[n] == 0 as char
    ensures out[n + 1..] == old(out[n + 1..])
    ensures out[..n] == Encode(s) <==> Clean(s)
  {
    hide Letters, Letter, Emitted, Rest, Written, Encode, Clean, Signs, Previous;
    WrittenIs(s);
    var idx, x, l := PushAll(out, s);
    ghost var before, at := out[..], idx;
    idx := Flush(out, idx, x, l, s);
    ghost var last := out[..];
    n := Close(out, idx);
    assert out[n + 1..] == last[n + 1..] == last[idx..][n + 1 - idx..] == before[idx..][n + 1 - idx..];
    assert before[idx..] == before[at..][idx - at..];
    WrittenRight(s);
  }

  lemma Nothing(s: seq<byte>)
    ensures Letters(Emitted(s, 0)) == []
  {
  }

  lemma WrittenIs(s: seq<byte>)
    ensures var m := |Emitted(s, |s|) + Rest(s)|;
      Written(s) == Letters(Emitted(s, |s|) + Rest(s)) + Signs(m) && m + |Signs(m)| == (|s| + 2) / 3 * 4
  {
    hide Letters, Letter, Emitted, Rest, Signs;
    SignsLength(|s|, |Rest(s)|);
  }

  lemma SignsLength(n: nat, r: nat)
    requires r == if n % 3 == 0 then 0 else 1
    ensures n + n / 3 + r + |Signs(n + n / 3 + r)| == (n + 2) / 3 * 4
  {
    var k := n / 3;
    match n % 3
    case 0 => assert n == 3 * k;
    case 1 => assert n == 3 * k + 1;
    case 2 => assert n == 3 * k + 2;
  }
}
