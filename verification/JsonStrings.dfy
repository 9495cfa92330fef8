/** String literals of the integer JSON library: what the decoder and the
    escaping printer compute, and what RFC 8259 says a literal means.

    Text is NUL terminated.  A pointer into it is modelled by the suffix it
    points at, so `p + 1` is `Advance(p, 1)` and `*p` is `Head(p)`. */
module JsonStrings {
  import opened Octets
  import opened Sequences

  function Head(t: string): char {
    if t == [] then '\0' else t[0]
  }

  function Advance(t: string, n: nat): string {
    if n <= |t| then t[n..] else []
  }

  const QUOTE: char := '\"'
  const BACKSLASH: char := '\\'
  const BACKSPACE: char := 8 as char
  const FORM_FEED: char := 12 as char

  predicate EndsLiteral(t: string) {
    Head(t) == QUOTE || Head(t) == '\0'
  }

  // ----- hexadecimal escapes

  predicate IsHex4(t: string) {
    |t| >= 4 && IsHex(t[0]) && IsHex(t[1]) && IsHex(t[2]) && IsHex(t[3])
  }

  /** Four hexadecimal digits, or 0 when one of them is not a digit. */
  function Hex4(t: string): (v: nat)
    ensures v < 0x1_0000
  {
    if IsHex4(t) then
      HexValue(t[0]) * 4096 + HexValue(t[1]) * 256 + HexValue(t[2]) * 16 + HexValue(t[3])
    else 0
  }

  // ----- UTF-8, section 3 of RFC 3629

  function Octet(n: nat): char
    requires n < 256
  {
    n as char
  }

  function Utf8(cp: nat): string
    requires cp < 0x11_0000
  {
    if cp < 0x80 then [Octet(cp)]
    else if cp < 0x800 then [Octet(0xC0 + cp / 64), Octet(0x80 + cp % 64)]
    else if cp < 0x1_0000 then
      [Octet(0xE0 + cp / 4096), Octet(0x80 + cp / 64 % 64), Octet(0x80 + cp % 64)]
    else
      [Octet(0xF0 + cp / 262144), Octet(0x80 + cp / 4096 % 64), Octet(0x80 + cp / 64 % 64), Octet(0x80 + cp % 64)]
  }

  predicate HighSurrogate(n: nat) { 0xD800 <= n <= 0xDBFF }
  predicate LowSurrogate(n: nat) { 0xDC00 <= n <= 0xDFFF }

  function Combine(hi: nat, lo: nat): (cp: nat)
    ensures 0x1_0000 <= cp < 0x11_0000
  {
    0x1_0000 + hi % 1024 * 1024 + lo % 1024
  }

  // ----- the decoder

  /** One escape; `t` starts after the backslash.  Gives the bytes written and
      the text the decoder goes on with. */
  function Unescape(t: string): (r: (string, string))
    ensures |r.1| <= |t|
    ensures |t| > 0 ==> |r.1| < |t|
  {
    match Head(t)
    case 'b' => ([BACKSPACE], Advance(t, 1))
    case 'f' => ([FORM_FEED], Advance(t, 1))
    case 'n' => (['\n'], Advance(t, 1))
    case 'r' => (['\r'], Advance(t, 1))
    case 't' => (['\t'], Advance(t, 1))
    case 'u' => UnescapeUnicode(t)
    case c => ([c], Advance(t, 1))
  }

  function UnescapeUnicode(t: string): (r: (string, string))
    requires Head(t) == 'u'
    ensures |r.1| < |t|
  {
    var uc := Hex4(Advance(t, 1));
    if LowSurrogate(uc) || uc == 0 then ([], Advance(t, 5))
    else if !HighSurrogate(uc) then (Utf8(uc), Advance(t, 5))
    else if Head(Advance(t, 5)) != BACKSLASH || Head(Advance(t, 6)) != 'u' then ([], Advance(t, 5))
    else
      var uc2 := Hex4(Advance(t, 7));
      if !LowSurrogate(uc2) then ([], Advance(t, 11))
      else (Utf8(Combine(uc, uc2)), Advance(t, 11))
  }

  /** The second pass of the string parser: decoded bytes and stopping point. */
  function Decode(t: string): (r: (string, string))
    ensures |r.1| <= |t|
    ensures EndsLiteral(r.1)
    decreases |t|
  {
    if EndsLiteral(t) then ([], t)
    else if t[0] != BACKSLASH then
      var (s, rest) := Decode(t[1..]);
      ([t[0]] + s, rest)
    else
      var (e, after) := Unescape(t[1..]);
      var (s, rest) := Decode(after);
      (e + s, rest)
  }

  /** The first pass: how many bytes it allocates for, and where it stops. */
  function Measure(t: string): (r: (nat, string))
    ensures |r.1| <= |t|
    decreases |t|
  {
    if EndsLiteral(t) then (0, t)
    else
      var (n, rest) := Measure(if t[0] == BACKSLASH then Advance(t, 2) else t[1..]);
      (n + 1, rest)
  }

  // ----- the printer

  function LowerHex(d: nat): (c: char)
    requires d < 16
    ensures IsHex(c) && HexValue(c) == d
  {
    if d < 10 then (d + '0' as int) as char else (d - 10 + 'a' as int) as char
  }

  predicate PlainChar(c: char) {
    c as int > 31 && c != QUOTE && c != BACKSLASH
  }

  function Escaped(c: char): string {
    if PlainChar(c) then [c]
    else [BACKSLASH] + match c
      case '\\' => "\\"
      case '\"' => "\""
      case '\n' => "n"
      case '\r' => "r"
      case '\t' => "t"
      case _ =>
        if c == BACKSPACE then "b"
        else if c == FORM_FEED then "f"
        else "u00" + [LowerHex(c as int / 16), LowerHex(c as int % 16)]
  }

  function EscapedAll(s: string): string {
    if s == [] then [] else Escaped(s[0]) + EscapedAll(s[1..])
  }

  function Quoted(s: string): string {
    [QUOTE] + EscapedAll(s) + [QUOTE]
  }

  /** A C string of bytes: no NUL, every character one byte wide. */
  predicate CString(s: string) {
    forall i :: 0 <= i < |s| ==> 0 < s[i] as int < 256
  }

  // ----- what a literal means, section 7 of RFC 8259

  /** One unit of a string literal.  `Unit` holds four hexadecimal digits. */
  datatype Piece = Raw(c: char) | Short(c: char) | Unit(hex: string) | Pair(hi: string, lo: string)

  const SHORT_ESCAPES: string := "\"\\/bfnrt"

  predicate ValidPiece(p: Piece) {
    match p
    case Raw(c) => c != QUOTE && c != BACKSLASH && c != '\0'
    case Short(c) => c in SHORT_ESCAPES
    case Unit(h) => |h| == 4 && IsHex4(h) && Hex4(h) != 0 && !HighSurrogate(Hex4(h)) && !LowSurrogate(Hex4(h))
    case Pair(h, l) =>
      && |h| == 4 && IsHex4(h) && HighSurrogate(Hex4(h))
      && |l| == 4 && IsHex4(l) && LowSurrogate(Hex4(l))
  }

  function PieceText(p: Piece): string {
    match p
    case Raw(c) => [c]
    case Short(c) => [BACKSLASH, c]
    case Unit(h) => [BACKSLASH, 'u'] + h
    case Pair(h, l) => [BACKSLASH, 'u'] + h + [BACKSLASH, 'u'] + l
  }

  function PieceMeaning(p: Piece): string
    requires ValidPiece(p)
  {
    match p
    case Raw(c) => [c]
    case Short(c) => [
      if c == 'b' then BACKSPACE else if c == 'f' then FORM_FEED
      else if c == 'n' then '\n' else if c == 'r' then '\r' else if c == 't' then '\t' else c]
    case Unit(h) => Utf8(Hex4(h))
    case Pair(h, l) => Utf8(Combine(Hex4(h), Hex4(l)))
  }

  predicate ValidPieces(ps: seq<Piece>) {
    forall i :: 0 <= i < |ps| ==> ValidPiece(ps[i])
  }

  function Text(ps: seq<Piece>): string {
    if ps == [] then [] else PieceText(ps[0]) + Text(ps[1..])
  }

  function Meaning(ps: seq<Piece>): string
    requires ValidPieces(ps)
  {
    if ps == [] then [] else PieceMeaning(ps[0]) + Meaning(ps[1..])
  }

  function PiecesOf(s: string): seq<Piece> {
    seq(|s|, i requires 0 <= i < |s| => PieceOf(s[i]))
  }

  function PieceOf(c: char): Piece {
    if PlainChar(c) then Raw(c)
    else if |Escaped(c)| == 2 then Short(Escaped(c)[1])
    else Unit(Escaped(c)[2..])
  }

  // ----- proofs

  lemma Regroup(a: string, b: string, c: string, d: string, e: string)
    ensures a + b + c + d == a + (b + (c + d))
    ensures a + b + c + d + e == a + (b + (c + (d + e)))
  {
    Assoc(a, b, c);
    Assoc(a, b + c, d);
    Assoc(b, c, d);
    Assoc(a, b + (c + d), e);
    Assoc(b, c + d, e);
    Assoc(c, d, e);
  }

  /** Reading one UTF-8 sequence back: the code point and how long it was. */
  function Utf8Value(s: string): (nat, nat)
    requires 0 < |s| && forall i :: 0 <= i < |s| ==> 0 <= s[i] as int < 256
  {
    var b := s[0] as int;
    if b < 0x80 || |s| < 2 then (b, 1)
    else if b < 0xE0 || |s| < 3 then (b % 32 * 64 + s[1] as int % 64, 2)
    else if b < 0xF0 || |s| < 4 then (b % 16 * 4096 + s[1] as int % 64 * 64 + s[2] as int % 64, 3)
    else (b % 8 * 262144 + s[1] as int % 64 * 4096 + s[2] as int % 64 * 64 + s[3] as int % 64, 4)
  }

  predicate Continuation(c: char) {
    0x80 <= c as int < 0xC0
  }

  lemma SixBitDigits(cp: nat)
    ensures cp == cp / 64 * 64 + cp % 64
    ensures cp / 64 == cp / 4096 * 64 + cp / 64 % 64
    ensures cp / 4096 == cp / 262144 * 64 + cp / 4096 % 64
  {
    assert cp / 4096 == cp / 64 / 64 && cp / 262144 == cp / 4096 / 64;
  }

  lemma LeadingByte(mark: nat, q: nat)
    ensures mark == 0xC0 && q < 32 ==> (mark + q) % 32 == q
    ensures mark == 0xE0 && q < 16 ==> (mark + q) % 16 == q
    ensures mark == 0xF0 && q < 8 ==> (mark + q) % 8 == q
    ensures mark == 0x80 && q < 64 ==> (mark + q) % 64 == q
  {
  }

  /** The encoding is read back from its own bytes, and only its first byte can
      start a sequence. */
  lemma Utf8Inverse(cp: nat)
    requires cp < 0x11_0000
    ensures |Utf8(cp)| > 0 && forall i :: 0 <= i < |Utf8(cp)| ==> 0 <= Utf8(cp)[i] as int < 256
    ensures Utf8Value(Utf8(cp)) == (cp, |Utf8(cp)|)
    ensures !Continuation(Utf8(cp)[0])
    ensures forall i :: 1 <= i < |Utf8(cp)| ==> Continuation(Utf8(cp)[i])
  {
    SixBitDigits(cp);
    LeadingByte(0x80, cp % 64);
    if cp < 0x80 {
    } else if cp < 0x800 {
      LeadingByte(0xC0, cp / 64);
    } else if cp < 0x1_0000 {
      Utf8Inverse3(cp);
    } else {
      Utf8Inverse4(cp);
    }
  }

  lemma Utf8Inverse3(cp: nat)
    requires 0x800 <= cp < 0x1_0000
    ensures Utf8Value(Utf8(cp)) == (cp, 3)
  {
    SixBitDigits(cp);
    LeadingByte(0x80, cp % 64);
    LeadingByte(0x80, cp / 64 % 64);
    LeadingByte(0xE0, cp / 4096);
  }

  lemma Utf8Inverse4(cp: nat)
    requires 0x1_0000 <= cp < 0x11_0000
    ensures Utf8Value(Utf8(cp)) == (cp, 4)
  {
    SixBitDigits(cp);
    LeadingByte(0x80, cp % 64);
    LeadingByte(0x80, cp / 64 % 64);
    LeadingByte(0x80, cp / 4096 % 64);
    LeadingByte(0xF0, cp / 262144);
  }

  lemma UnescapeUnit(h: string, t: string)
    requires ValidPiece(Unit(h))
    ensures Unescape(['u'] + h + t) == (Utf8(Hex4(h)), t)
  {
    var v := ['u'] + h + t;
    assert Advance(v, 1) == h + t && Advance(v, 5) == t;
  }

  lemma UnescapePair(h: string, l: string, t: string)
    requires ValidPiece(Pair(h, l))
    ensures Unescape(['u'] + h + ([BACKSLASH, 'u'] + l) + t) == (Utf8(Combine(Hex4(h), Hex4(l))), t)
  {
    var v := ['u'] + h + ([BACKSLASH, 'u'] + l) + t;
    assert Advance(v, 1) == h + ([BACKSLASH, 'u'] + l + t) && Hex4(Advance(v, 1)) == Hex4(h);
    assert v[5] == BACKSLASH && v[6] == 'u';
    assert Advance(v, 7) == l + t && Hex4(l + t) == Hex4(l);
    assert Advance(v, 11) == t;
  }

  lemma UnescapeShort(c: char, t: string)
    requires ValidPiece(Short(c))
    ensures Unescape([c] + t) == (PieceMeaning(Short(c)), t)
  {
    assert Advance([c] + t, 1) == t;
  }

  lemma UnescapePiece(p: Piece, t: string)
    requires ValidPiece(p) && !p.Raw?
    ensures PieceText(p)[0] == BACKSLASH
    ensures Unescape(PieceText(p)[1..] + t) == (PieceMeaning(p), t)
  {
    match p
    case Short(c) =>
      assert PieceText(p)[1..] == [c];
      UnescapeShort(c, t);
    case Unit(h) =>
      assert PieceText(p)[1..] == ['u'] + h;
      UnescapeUnit(h, t);
    case Pair(h, l) =>
      assert PieceText(p)[1..] == ['u'] + h + ([BACKSLASH, 'u'] + l);
      UnescapePair(h, l, t);
  }

  lemma DecodePiece(p: Piece, t: string)
    requires ValidPiece(p)
    ensures Decode(PieceText(p) + t) == (PieceMeaning(p) + Decode(t).0, Decode(t).1)
  {
    var w := PieceText(p) + t;
    assert w[1..] == PieceText(p)[1..] + t;
    if p.Raw? {
      assert w[1..] == t;
    } else {
      UnescapePiece(p, t);
    }
  }

  /** Every literal of the RFC grammar decodes to the UTF-8 text it denotes and
      the decoder stops at its closing quote. */
  lemma {:induction false} DecodeMeaning(ps: seq<Piece>, rest: string)
    requires ValidPieces(ps)
    ensures Decode(Text(ps) + ([QUOTE] + rest)) == (Meaning(ps), [QUOTE] + rest)
  {
    if ps == [] {
      assert Text(ps) + ([QUOTE] + rest) == [QUOTE] + rest;
    } else {
      DecodeMeaning(ps[1..], rest);
      var tail := Text(ps[1..]) + ([QUOTE] + rest);
      DecodePiece(ps[0], tail);
      Assoc(PieceText(ps[0]), Text(ps[1..]), [QUOTE] + rest);
    }
  }

  lemma PieceOfMeans(c: char)
    requires 0 < c as int < 256
    ensures ValidPiece(PieceOf(c)) && PieceText(PieceOf(c)) == Escaped(c)
    ensures PieceMeaning(PieceOf(c)) == [c]
  {
    if !PlainChar(c) && |Escaped(c)| != 2 {
      assert Escaped(c) == [BACKSLASH, 'u', '0', '0', LowerHex(c as int / 16), LowerHex(c as int % 16)];
      assert Escaped(c)[2..] == ['0', '0', LowerHex(c as int / 16), LowerHex(c as int % 16)];
    }
  }

  lemma PiecesOfUnfold(s: string)
    requires s != []
    ensures PiecesOf(s)[0] == PieceOf(s[0]) && PiecesOf(s)[1..] == PiecesOf(s[1..])
  {
  }

  lemma PiecesOfValid(s: string)
    requires CString(s)
    ensures ValidPieces(PiecesOf(s))
  {
    forall i | 0 <= i < |s|
      ensures ValidPiece(PiecesOf(s)[i])
    {
      PieceOfMeans(s[i]);
    }
  }

  lemma {:induction false} PiecesOfMeans(s: string)
    requires CString(s)
    ensures ValidPieces(PiecesOf(s)) && Text(PiecesOf(s)) == EscapedAll(s) && Meaning(PiecesOf(s)) == s
  {
    PiecesOfValid(s);
    if s != [] {
      PiecesOfUnfold(s);
      PieceOfMeans(s[0]);
      PiecesOfMeans(s[1..]);
      assert s == [s[0]] + s[1..];
    }
  }

  /** What the printer escapes, the parser unescapes. */
  lemma EscapeRoundTrip(s: string, rest: string)
    requires CString(s)
    ensures Decode(EscapedAll(s) + ([QUOTE] + rest)) == (s, [QUOTE] + rest)
  {
    PiecesOfMeans(s);
    DecodeMeaning(PiecesOf(s), rest);
  }
}
