/** The two passes over a string literal: the one that counts how much room the
    text needs and the one that decodes into that room. */
module JsonMeasure {
  import opened JsonStrings

  /** What the first pass does with the next n characters: it stops among them,
      it is done with exactly them, or its last unit takes one character more. */
  datatype Passed = Stops | Even(units: nat) | Odd(units: nat)

  function Pass(s: string, n: nat): Passed
    decreases n
  {
    if n == 0 then Even(0)
    else if EndsLiteral(s) then Stops
    else if s[0] == BACKSLASH && n == 1 then Odd(1)
    else if s[0] == BACKSLASH then More(Pass(Advance(s, 2), n - 2))
    else More(Pass(s[1..], n - 1))
  }

  /** What a pass over n characters says about the whole count. */
  ghost predicate Tells(s: string, n: nat, p: Passed)
    requires n <= |s|
  {
    match p
    case Stops => |Measure(s).1| > |s| - n
    case Even(k) => Measure(s) == (k + Measure(s[n..]).0, Measure(s[n..]).1)
    case Odd(k) => Measure(s) == (k + Measure(Advance(s, n + 1)).0, Measure(Advance(s, n + 1)).1)
  }

  function More(p: Passed): Passed {
    match p
    case Stops => Stops
    case Even(k) => Even(k + 1)
    case Odd(k) => Odd(k + 1)
  }

  /** One unit of w characters more in front. */
  lemma TellsMore(s: string, t: string, w: nat, n: nat, p: Passed)
    requires w <= n <= |s| && t == s[w..] && Tells(t, n - w, p)
    requires Measure(s).0 == 1 + Measure(t).0 && Measure(s).1 == Measure(t).1
    ensures Tells(s, n, More(p))
  {
    hide Measure, Advance;
    Suffixes(s, w, n);
  }

  lemma Suffixes(s: string, w: nat, n: nat)
    requires w <= n <= |s|
    ensures s[w..][n - w..] == s[n..] && Advance(s[w..], n - w + 1) == Advance(s, n + 1)
  {
    if n < |s| { assert s[w..][n + 1 - w..] == s[n + 1..]; }
  }

  lemma {:induction false} PassTells(s: string, n: nat)
    requires n <= |s|
    ensures Tells(s, n, Pass(s, n))
    ensures n > 0 && !Pass(s, n).Stops? ==> Pass(s, n).units >= 1
    decreases n
  {
    if n == 0 {
      assert s[0..] == s;
    } else if EndsLiteral(s) || (s[0] == BACKSLASH && n == 1) {
    } else {
      var w := if s[0] == BACKSLASH then 2 else 1;
      PassTells(s[w..], n - w);
      assert Measure(s) == (1 + Measure(s[w..]).0, Measure(s[w..]).1) && Pass(s, n) == More(Pass(s[w..], n - w)) by {
        if w == 2 { assert Advance(s, 2) == s[2..]; }
      }
      hide Measure, Pass, Tells;
      TellsMore(s, s[w..], w, n, Pass(s[w..], n - w));
    }
  }

  lemma PassHex(s: string)
    requires IsHex4(s)
    ensures Pass(s, 4) == Even(4)
  {
    var a, b, c := s[1..], s[1..][1..], s[1..][1..][1..];
    assert Pass(c, 1) == Even(1) by { assert Pass(c[1..], 0) == Even(0); }
    assert Pass(b, 2) == Even(2);
    assert Pass(a, 3) == Even(3);
  }

  // ----- one unicode escape

  /** After the backslash: what is written and skipped. */
  lemma UnicodeSkips(u: string)
    requires Head(u) == 'u'
    ensures var (e, after) := UnescapeUnicode(u);
      if after == Advance(u, 5) then |e| <= 3 && (e != "" ==> IsHex4(Advance(u, 1)))
      else
        && after == Advance(u, 11) && |e| <= 4 && |u| > 6
        && IsHex4(u[1..]) && u[5] == BACKSLASH && u[6] == 'u'
        && (e != "" ==> IsHex4(Advance(u, 7)))
  {
  }

  lemma MeasureUnit(u: string)
    requires Head(u) == 'u'
    ensures Measure(u) == (1 + Measure(u[1..]).0, Measure(u[1..]).1)
    ensures Measure([BACKSLASH] + u) == Measure(u)
  {
    var t := [BACKSLASH] + u;
    assert Advance(t, 2) == u[1..];
  }

  /** Skipping the four characters after x[0] keeps within the count. */
  lemma {:induction false} SkipBound(x: string, e: string)
    requires Head(x) == 'u' && |e| <= 4 && (e != "" ==> IsHex4(Advance(x, 1)))
    requires |Decode(Advance(x, 5)).1| >= |Measure(x).1|
    ensures |e| + |Decode(Advance(x, 5)).0| <= Measure(x).0
    decreases |x|, 0
  {
    MeasureUnit(x);
    if |x| >= 5 {
      var s, after := x[1..], x[5..];
      assert s[4..] == after && Advance(s, 5) == Advance(after, 1);
      PassTells(s, 4);
      if IsHex4(s) { PassHex(s); }
      hide Decode, Measure, Pass;
      match Pass(s, 4)
      case Stops =>
      case Even(k) => Within(after);
      case Odd(k) => if after != "" { MidUnit(after); } else { DecodeNothing(); }
    } else {
      assert Advance(x, 5) == "";
    }
  }

  lemma DecodeNothing()
    ensures Decode("") == ("", "")
  {
  }

  lemma {:induction false} UnicodeBound(u: string)
    requires Head(u) == 'u' && |Decode(UnescapeUnicode(u).1).1| >= |Measure(u).1|
    ensures |UnescapeUnicode(u).0| + |Decode(UnescapeUnicode(u).1).0| <= Measure(u).0
    decreases |u|, 1
  {
    UnicodeSkips(u);
    var (e, after) := UnescapeUnicode(u);
    hide UnescapeUnicode, Decode, Measure;
    if after == Advance(u, 5) {
      SkipBound(u, e);
    } else {
      var s, v, x := u[1..], u[5..], u[6..];
      MeasureUnit(u);
      PassTells(s, 4);
      PassHex(s);
      assert s[4..] == v && v == [BACKSLASH] + x;
      MeasureUnit(x);
      assert Advance(x, 1) == Advance(u, 7) && Advance(x, 5) == Advance(u, 11);
      SkipBound(x, e);
    }
  }

  // ----- the two passes

  /** Decoding that stops no later than counting did writes no more than was
      counted, whatever the literal holds. */
  lemma {:induction false} Within(t: string)
    requires |Decode(t).1| >= |Measure(t).1|
    ensures |Decode(t).0| <= Measure(t).0
    decreases |t|, 2
  {
    if EndsLiteral(t) {
    } else if t[0] != BACKSLASH {
      Within(t[1..]);
    } else {
      var u := t[1..];
      assert t == [BACKSLASH] + u && Advance(t, 2) == Advance(u, 1);
      if Head(u) == 'u' {
        MeasureUnit(u);
        UnicodeBound(u);
      } else {
        Within(Advance(u, 1));
      }
    }
  }

  /** The same with the first pass one character ahead, in the middle of a unit. */
  lemma {:induction false} MidUnit(t: string)
    requires t != "" && |Decode(t).1| >= |Measure(t[1..]).1|
    ensures |Decode(t).0| <= Measure(t[1..]).0 + 1
    decreases |t|, 2
  {
    var u := t[1..];
    if EndsLiteral(t) {
    } else if t[0] != BACKSLASH {
      Within(u);
    } else if Head(u) == 'u' {
      UnicodeBound(u);
    } else {
      MidShort(t);
    }
  }

  lemma DecodeShort(t: string)
    requires t != "" && t[0] == BACKSLASH && Head(t[1..]) != 'u'
    ensures |Decode(t).0| == 1 + |Decode(Advance(t[1..], 1)).0| && Decode(t).1 == Decode(Advance(t[1..], 1)).1
  {
    hide UnescapeUnicode, Utf8, Hex4;
    assert |Unescape(t[1..]).0| == 1 && Unescape(t[1..]).1 == Advance(t[1..], 1);
    hide Unescape;
  }

  lemma {:induction false} MidShort(t: string)
    requires t != "" && t[0] == BACKSLASH && Head(t[1..]) != 'u' && |Decode(t).1| >= |Measure(t[1..]).1|
    ensures |Decode(t).0| <= Measure(t[1..]).0 + 1
    decreases |t|, 1
  {
    var u := t[1..];
    var after := Advance(u, 1);
    DecodeShort(t);
    hide Decode;
    if EndsLiteral(u) {
      if u == "" { DecodeNothing(); }
    } else if u[0] == BACKSLASH {
      if after == "" { DecodeNothing(); } else {
        assert after[1..] == Advance(u, 2);
        MidUnit(after);
      }
    } else {
      Within(after);
    }
  }

  // ----- literals on which both passes agree

  /** The first pass neither stops among the four characters a \u skips nor
      pairs the last of them with the next, and no escape is cut off. */
  predicate Orderly(t: string)
    decreases |t|
  {
    if EndsLiteral(t) then true
    else if t[0] != BACKSLASH then Orderly(t[1..])
    else if Head(t[1..]) == '\0' then false
    else if t[1] != 'u' then Orderly(t[2..])
    else |t| >= 6 && Pass(t[2..], 4).Even? && Orderly(t[6..])
  }

  lemma SkipAgrees(x: string)
    requires |x| >= 5 && x[0] == 'u' && Pass(x[1..], 4).Even?
    ensures Measure(x).1 == Measure(x[5..]).1
  {
    MeasureUnit(x);
    PassTells(x[1..], 4);
    assert x[1..][4..] == x[5..];
    hide Measure, Pass;
  }

  lemma {:induction false} SameEnd(t: string)
    requires Orderly(t)
    ensures Decode(t).1 == Measure(t).1
    decreases |t|
  {
    if EndsLiteral(t) {
    } else if t[0] != BACKSLASH {
      SameEnd(t[1..]);
    } else if t[1] != 'u' {
      assert Advance(t[1..], 1) == t[2..] == Advance(t, 2);
      SameEnd(t[2..]);
    } else {
      var u := t[1..];
      UnicodeSkips(u);
      MeasureUnit(u);
      assert t == [BACKSLASH] + u;
      var after := UnescapeUnicode(u).1;
      assert Decode(t).1 == Decode(after).1;
      assert u[1..] == t[2..] && u[5..] == t[6..];
      SkipAgrees(u);
      if after == Advance(u, 5) {
        SameEnd(t[6..]);
      } else {
        PairEnd(t);
      }
    }
  }

  lemma {:induction false} PairEnd(t: string)
    requires Orderly(t) && |t| > 7 && t[0] == BACKSLASH && t[1] == 'u' && t[6] == BACKSLASH && t[7] == 'u'
    ensures Decode(Advance(t[1..], 11)).1 == Measure(t[6..]).1
    decreases |t|, 0
  {
    var v := t[6..];
    assert Orderly(v) && v[1] == 'u';
    var x := v[1..];
    assert v == [BACKSLASH] + x && x[1..] == v[2..] && x[5..] == v[6..];
    MeasureUnit(x);
    SkipAgrees(x);
    assert v[6..] == Advance(t[1..], 11);
    SameEnd(v[6..]);
  }

  /** There the room counted is enough, and both passes stop at the same character. */
  lemma MeasureBoundsDecode(t: string)
    requires Orderly(t)
    ensures |Decode(t).0| <= Measure(t).0 && Decode(t).1 == Measure(t).1
  {
    SameEnd(t);
    Within(t);
  }

  // ----- where a pointer may stand

  /** What a pointer into t can be. */
  predicate Suffix(u: string, t: string) {
    |u| <= |t| && t[|t| - |u|..] == u
  }

  lemma SuffixTrans(a: string, b: string, c: string)
    requires Suffix(a, b) && Suffix(b, c)
    ensures Suffix(a, c)
  {
    assert a == c[|c| - |b|..][|b| - |a|..] == c[|c| - |a|..];
  }

  lemma SuffixTail(u: string, t: string)
    requires u != "" && Suffix(u, t)
    ensures Suffix(u[1..], t)
  {
    SuffixTrans(u[1..], u, t);
  }

  lemma SuffixNext(t: string, past: bool)
    requires past ==> t != ""
    ensures Suffix(if past then t[1..] else t, t)
  {
  }

  /** In every literal that could start in t the room counted is enough. */
  ghost predicate Roomy(t: string) {
    forall u :: Suffix(u, t) && Head(u) == QUOTE ==> !Overruns(u)
  }

  lemma RoomySuffix(u: string, t: string)
    requires Roomy(t) && Suffix(u, t)
    ensures Roomy(u)
  {
    forall v | Suffix(v, u) && Head(v) == QUOTE ensures !Overruns(v) { SuffixTrans(v, u, t); }
  }

  /** Texts whose literals are orderly have room for every literal. */
  lemma OrderlyIsRoomy(t: string)
    requires forall u :: Suffix(u, t) && Head(u) == QUOTE ==> Orderly(u[1..])
    ensures Roomy(t)
  {
    forall u | Suffix(u, t) && Head(u) == QUOTE ensures !Overruns(u) { MeasureBoundsDecode(u[1..]); }
  }

  /** The literal at t decodes to more than was counted for it. */
  predicate Overruns(t: string) {
    t != "" && |Decode(t[1..]).0| > Measure(t[1..]).0
  }

  // ----- a literal on which they do not

  const STRAY: string := [BACKSLASH, 'u', QUOTE] + "aaabbbb" + [QUOTE]

  /** Counting stops at the quote the escape skips: one byte of room, four written. */
  lemma TooLittleRoom()
    ensures Measure(STRAY).0 == 1 && Decode(STRAY).0 == "bbbb"
  {
    var t := STRAY;
    assert Advance(t, 2) == t[2..] && Measure(t[2..]) == (0, t[2..]);
    var u, b := t[1..], t[6..];
    assert Advance(u, 1) == t[2..] && Advance(u, 5) == b && !IsHex4(t[2..]);
    assert Decode(t).0 == "" + Decode(b).0;
    assert b == "bbbb" + [QUOTE];
    assert b[1..] == "bbb" + [QUOTE] && b[1..][1..] == "bb" + [QUOTE] && b[1..][1..][1..] == "b" + [QUOTE];
    assert b[1..][1..][1..][1..] == [QUOTE];
    assert Decode(b[1..][1..][1..]).0 == "b";
    assert Decode(b[1..][1..]).0 == "bb";
    assert Decode(b[1..]).0 == "bbb";
  }
}
