/** Every string literal of section 7 of RFC 8259, those that stand for no text included. */
module JsonLiterals {
  import opened Octets
  import opened Sequences
  import opened JsonStrings

  /** A character as it is, a short escape, or \u with any four hexadecimal digits. */
  predicate Plain(p: Piece) {
    match p
    case Raw(c) => c != QUOTE && c != BACKSLASH && c != '\0'
    case Short(c) => c in SHORT_ESCAPES
    case Unit(h) => |h| == 4 && IsHex4(h)
    case Pair(_, _) => false
  }

  predicate AllPlain(ps: seq<Piece>) {
    forall i :: 0 <= i < |ps| ==> Plain(ps[i])
  }

  predicate High(p: Piece) { p.Unit? && HighSurrogate(Hex4(p.hex)) }

  /** What a unit that starts no surrogate pair becomes: a zero and a low surrogate vanish. */
  function Alone(p: Piece): string
    requires Plain(p)
  {
    match p
    case Unit(h) => if LowSurrogate(Hex4(h)) || Hex4(h) == 0 then [] else Utf8(Hex4(h))
    case _ => PieceMeaning(p)
  }

  /** What two escapes become when the first is a high surrogate: without a low one
      behind it both vanish. */
  function Both(h: string, l: string): string {
    if LowSurrogate(Hex4(l)) then Utf8(Combine(Hex4(h), Hex4(l))) else []
  }

  function Reading(ps: seq<Piece>): string
    requires AllPlain(ps)
  {
    if ps == [] then []
    else if !High(ps[0]) then Alone(ps[0]) + Reading(ps[1..])
    else if |ps| > 1 && ps[1].Unit? then Both(ps[0].hex, ps[1].hex) + Reading(ps[2..])
    else Reading(ps[1..])
  }

  // ----- one unit

  lemma UnitStarts(h: string, t: string)
    requires Plain(Unit(h))
    ensures var v := ['u'] + (h + t); Hex4(Advance(v, 1)) == Hex4(h) && Advance(v, 5) == t
  {
    var v := ['u'] + (h + t);
    assert Advance(v, 1) == h + t && Advance(v, 5) == t;
  }

  lemma Escape(e: string, t: string)
    requires e != [] && e[0] == BACKSLASH
    ensures var (s, after) := Unescape(e[1..] + t);
      Decode(e + t) == (s + Decode(after).0, Decode(after).1)
  {
    assert (e + t)[1..] == e[1..] + t;
  }

  lemma UnescapeOne(h: string, t: string)
    requires Plain(Unit(h))
    requires HighSurrogate(Hex4(h)) ==> Head(t) != BACKSLASH || Head(Advance(t, 1)) != 'u'
    ensures var e := if LowSurrogate(Hex4(h)) || Hex4(h) == 0 || HighSurrogate(Hex4(h)) then [] else Utf8(Hex4(h));
      Unescape(['u'] + (h + t)) == (e, t)
  {
    var v := ['u'] + (h + t);
    UnitStarts(h, t);
    assert Advance(v, 6) == Advance(t, 1);
    hide Hex4, Utf8;
  }

  lemma OneUnit(h: string, t: string)
    requires Plain(Unit(h))
    requires HighSurrogate(Hex4(h)) ==> Head(t) != BACKSLASH || Head(Advance(t, 1)) != 'u'
    ensures var e := if LowSurrogate(Hex4(h)) || Hex4(h) == 0 || HighSurrogate(Hex4(h)) then [] else Utf8(Hex4(h));
      Decode(PieceText(Unit(h)) + t) == (e + Decode(t).0, Decode(t).1)
  {
    var p := PieceText(Unit(h));
    assert p[1..] + t == ['u'] + (h + t);
    UnescapeOne(h, t);
    hide Decode, Unescape, Hex4, Utf8;
    Escape(p, t);
  }

  lemma UnescapeTwo(h: string, l: string, t: string)
    requires Plain(Unit(h)) && HighSurrogate(Hex4(h)) && Plain(Unit(l))
    ensures Unescape(['u'] + h + ([BACKSLASH, 'u'] + l) + t) == (Both(h, l), t)
  {
    var v := ['u'] + h + ([BACKSLASH, 'u'] + l) + t;
    assert Advance(v, 1) == h + ([BACKSLASH, 'u'] + l + t) && Hex4(Advance(v, 1)) == Hex4(h);
    assert v[5] == BACKSLASH && v[6] == 'u';
    assert Advance(v, 7) == l + t && Hex4(l + t) == Hex4(l);
    assert Advance(v, 11) == t;
  }

  lemma TwoUnits(h: string, l: string, t: string)
    requires Plain(Unit(h)) && HighSurrogate(Hex4(h)) && Plain(Unit(l))
    ensures Decode(PieceText(Unit(h)) + (PieceText(Unit(l)) + t)) == (Both(h, l) + Decode(t).0, Decode(t).1)
  {
    var p := PieceText(Unit(h)) + PieceText(Unit(l));
    assert p[1..] == ['u'] + h + ([BACKSLASH, 'u'] + l);
    assert p + t == PieceText(Unit(h)) + (PieceText(Unit(l)) + t);
    UnescapeTwo(h, l, t);
    hide Decode, Unescape, Both;
    Escape(p, t);
  }

  lemma OtherUnit(p: Piece, t: string)
    requires Plain(p) && !p.Unit?
    ensures Decode(PieceText(p) + t) == (Alone(p) + Decode(t).0, Decode(t).1)
  {
    DecodePiece(p, t);
  }

  /** Behind a unit comes an escape of four digits, or nothing that looks like one. */
  lemma NextStarts(ps: seq<Piece>, rest: string)
    requires AllPlain(ps) && (ps == [] || !ps[0].Unit?)
    ensures var t := Text(ps) + ([QUOTE] + rest); Head(t) != BACKSLASH || Head(Advance(t, 1)) != 'u'
  {
  }

  lemma DecodeAlone(p: Piece, t: string)
    requires Plain(p) && !High(p)
    ensures Decode(PieceText(p) + t) == (Alone(p) + Decode(t).0, Decode(t).1)
  {
    hide Decode, Utf8, Hex4;
    if p.Unit? { OneUnit(p.hex, t); } else { OtherUnit(p, t); }
  }

  lemma DecodeLone(p: Piece, ps: seq<Piece>, rest: string)
    requires Plain(p) && High(p) && AllPlain(ps) && (ps == [] || !ps[0].Unit?)
    ensures var t := Text(ps) + ([QUOTE] + rest); Decode(PieceText(p) + t) == Decode(t)
  {
    hide Decode, Hex4, Text;
    var t := Text(ps) + ([QUOTE] + rest);
    NextStarts(ps, rest);
    OneUnit(p.hex, t);
    assert [] + Decode(t).0 == Decode(t).0;
  }

  lemma TextTwo(ps: seq<Piece>, end: string)
    requires |ps| > 1
    ensures Text(ps) + end == PieceText(ps[0]) + (PieceText(ps[1]) + (Text(ps[2..]) + end))
  {
    assert ps[1..][1..] == ps[2..];
    hide PieceText;
  }

  /** Any literal is read to its closing quote and gives what its units say. */
  lemma {:induction false} DecodeLiteral(ps: seq<Piece>, rest: string)
    requires AllPlain(ps)
    ensures Decode(Text(ps) + ([QUOTE] + rest)) == (Reading(ps), [QUOTE] + rest)
  {
    var end := [QUOTE] + rest;
    if ps == [] {
      assert Text(ps) + end == end;
    } else {
      Assoc(PieceText(ps[0]), Text(ps[1..]), end);
      if High(ps[0]) && |ps| > 1 && ps[1].Unit? {
        TextTwo(ps, end);
        hide Decode, Both, Text, PieceText;
        DecodeLiteral(ps[2..], rest);
        TwoUnits(ps[0].hex, ps[1].hex, Text(ps[2..]) + end);
      } else {
        DecodeLiteral(ps[1..], rest);
        hide Decode, Alone, PieceText;
        if High(ps[0]) { DecodeLone(ps[0], ps[1..], rest); } else { DecodeAlone(ps[0], Text(ps[1..]) + end); }
      }
    }
  }

  // ----- the literals that stand for text

  /** A surrogate pair as two escapes. */
  function Units(ps: seq<Piece>): seq<Piece> {
    if ps == [] then []
    else (if ps[0].Pair? then [Unit(ps[0].hi), Unit(ps[0].lo)] else [ps[0]]) + Units(ps[1..])
  }

  lemma TextOne(p: Piece, ps: seq<Piece>)
    ensures Text([p] + ps) == PieceText(p) + Text(ps)
  {
    assert ([p] + ps)[1..] == ps;
  }

  lemma TextPair(h: string, l: string, ps: seq<Piece>)
    ensures Text([Unit(h), Unit(l)] + ps) == PieceText(Pair(h, l)) + Text(ps)
  {
    var a, b := Unit(h), Unit(l);
    assert [a, b] + ps == [a] + ([b] + ps);
    assert PieceText(Pair(h, l)) == PieceText(a) + PieceText(b);
    hide PieceText, Text;
    TextOne(a, [b] + ps);
    TextOne(b, ps);
    Assoc(PieceText(a), PieceText(b), Text(ps));
  }

  lemma {:induction false} UnitsText(ps: seq<Piece>)
    requires ValidPieces(ps)
    ensures AllPlain(Units(ps)) && Text(Units(ps)) == Text(ps)
  {
    if ps != [] {
      var p, more := ps[0], Units(ps[1..]);
      UnitsText(ps[1..]);
      assert Text(ps) == PieceText(p) + Text(ps[1..]);
      assert ValidPiece(p);
      hide PieceText, Text;
      if p.Pair? { TextPair(p.hi, p.lo, more); } else { TextOne(p, more); }
    }
  }

  /** On a literal of valid pieces the reading is the text it denotes. */
  lemma ReadingIsMeaning(ps: seq<Piece>)
    requires ValidPieces(ps)
    ensures AllPlain(Units(ps)) && Reading(Units(ps)) == Meaning(ps)
  {
    UnitsText(ps);
    DecodeLiteral(Units(ps), []);
    DecodeMeaning(ps, []);
  }

  // ----- the numbers behind the escapes

  const HEX: string := "0123456789abcdef"
  const UPPER_HEX: string := "0123456789ABCDEF"

  lemma HexDigit(d: nat)
    requires d < 16
    ensures IsHex(HEX[d]) && HexValue(HEX[d]) == d && IsHex(UPPER_HEX[d]) && HexValue(UPPER_HEX[d]) == d
  {
  }

  /** Four digits, the highest first, are read as the number they spell. */
  lemma HexNumber(a: nat, b: nat, c: nat, d: nat)
    requires a < 16 && b < 16 && c < 16 && d < 16
    ensures var h := [HEX[a], HEX[b], HEX[c], HEX[d]]; IsHex4(h) && Hex4(h) == 4096 * a + 256 * b + 16 * c + d
    ensures var h := [UPPER_HEX[a], UPPER_HEX[b], UPPER_HEX[c], UPPER_HEX[d]]; IsHex4(h) && Hex4(h) == 4096 * a + 256 * b + 16 * c + d
  {
    HexDigit(a);
    HexDigit(b);
    HexDigit(c);
    HexDigit(d);
  }

  /** The two surrogates of any code point above 0xFFFF combine to it. */
  lemma CombineInverse(cp: nat)
    requires 0x1_0000 <= cp < 0x11_0000
    ensures var hi, lo := 0xD800 + (cp - 0x1_0000) / 1024, 0xDC00 + (cp - 0x1_0000) % 1024;
      HighSurrogate(hi) && LowSurrogate(lo) && Combine(hi, lo) == cp
  {
    var q, r := (cp - 0x1_0000) / 1024, (cp - 0x1_0000) % 1024;
    assert (0xD800 + q) % 1024 == q && (0xDC00 + r) % 1024 == r;
  }
}
