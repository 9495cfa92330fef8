/** Texts in which every backslash begins an escape of section 7 of RFC 8259:
    all valid documents, the printed ones among them.  In none of them does the
    parser write behind a buffer. */
module JsonEscapes {
  import opened Sequences
  import opened JsonStrings
  import opened Json
  import opened JsonMeasure

  // ----- one valid literal

  lemma OrderlyHex(h: string, t: string)
    requires |h| == 4 && IsHex4(h) && Orderly(t)
    ensures Orderly([BACKSLASH, 'u'] + h + t)
  {
    var v := [BACKSLASH, 'u'] + h + t;
    assert v[2..] == h + t && v[6..] == t;
    PassHex(h + t);
  }

  lemma OrderlyPair(h: string, l: string, t: string)
    requires |h| == |l| == 4 && IsHex4(h) && IsHex4(l) && Orderly(t)
    ensures Orderly([BACKSLASH, 'u'] + h + [BACKSLASH, 'u'] + l + t)
  {
    hide Orderly, IsHex4;
    var u := [BACKSLASH, 'u'];
    OrderlyHex(l, t);
    OrderlyHex(h, u + l + t);
    assert u + h + u + l + t == u + h + (u + l + t);
  }

  lemma OrderlyPiece(p: Piece, t: string)
    requires ValidPiece(p) && Orderly(t)
    ensures Orderly(PieceText(p) + t)
  {
    match p
    case Raw(c) => assert ([c] + t)[1..] == t;
    case Short(c) => assert ([BACKSLASH, c] + t)[2..] == t;
    case Unit(h) => OrderlyHex(h, t);
    case Pair(h, l) => OrderlyPair(h, l, t);
  }

  lemma {:induction false} OrderlyLiteral(ps: seq<Piece>, rest: string)
    requires ValidPieces(ps)
    ensures Orderly(Text(ps) + ([QUOTE] + rest))
  {
    if ps == [] {
      assert Text(ps) + ([QUOTE] + rest) == [QUOTE] + rest;
    } else {
      OrderlyLiteral(ps[1..], rest);
      OrderlyPiece(ps[0], Text(ps[1..]) + ([QUOTE] + rest));
      Assoc(PieceText(ps[0]), Text(ps[1..]), [QUOTE] + rest);
    }
  }

  /** For every literal of the grammar the text it denotes is no longer than the
      first pass counts, and both passes stop at its closing quote. */
  lemma LiteralFits(ps: seq<Piece>, rest: string)
    requires ValidPieces(ps)
    ensures |Meaning(ps)| <= Measure(Text(ps) + ([QUOTE] + rest)).0
    ensures Measure(Text(ps) + ([QUOTE] + rest)).1 == [QUOTE] + rest
  {
    OrderlyLiteral(ps, rest);
    MeasureBoundsDecode(Text(ps) + ([QUOTE] + rest));
    DecodeMeaning(ps, rest);
  }

  // ----- whole texts

  /** A quote, or a unit of a literal; outside literals any character is one. */
  predicate TextUnit(p: Piece) {
    p == Raw(QUOTE) || ValidPiece(p)
  }

  predicate TextUnits(ps: seq<Piece>) {
    forall i :: 0 <= i < |ps| ==> TextUnit(ps[i])
  }

  /** Every backslash, read from left to right, begins a valid escape. */
  ghost predicate WellEscaped(t: string) {
    exists ps :: TextUnits(ps) && Text(ps) == t
  }

  /** No literal starting anywhere in t makes the passes part. */
  ghost predicate AllOrderly(t: string) {
    Orderly(t) && forall u :: Suffix(u, t) && Head(u) == QUOTE ==> Orderly(u[1..])
  }

  lemma SuffixOf(u: string, p: string, t: string)
    requires Suffix(u, p + t)
    ensures Suffix(u, t) || exists i :: 0 <= i < |p| && u == p[i..] + t
  {
    if |u| > |t| {
      var i := |p| + |t| - |u|;
      assert u == p[i..] + t;
    }
  }

  /** A quote inside a unit is its last character. */
  lemma QuoteLast(p: Piece, i: nat)
    requires TextUnit(p) && i < |PieceText(p)| && PieceText(p)[i] == QUOTE
    ensures i == |PieceText(p)| - 1
  {
  }

  lemma AllOrderlyUnit(p: Piece, t: string)
    requires TextUnit(p) && AllOrderly(t)
    ensures AllOrderly(PieceText(p) + t)
  {
    var x := PieceText(p);
    if p == Raw(QUOTE) { } else { OrderlyPiece(p, t); }
    forall u | Suffix(u, x + t) && Head(u) == QUOTE
      ensures Orderly(u[1..])
    {
      SuffixOf(u, x, t);
      if !Suffix(u, t) {
        var i :| 0 <= i < |x| && u == x[i..] + t;
        QuoteLast(p, i);
        assert u[1..] == t;
      }
    }
  }

  lemma {:induction false} UnitsAllOrderly(ps: seq<Piece>)
    requires TextUnits(ps)
    ensures AllOrderly(Text(ps))
  {
    if ps != [] {
      UnitsAllOrderly(ps[1..]);
      AllOrderlyUnit(ps[0], Text(ps[1..]));
    }
  }

  /** Such a text has room for each of its literals. */
  lemma WellEscapedIsRoomy(t: string)
    requires WellEscaped(t)
    ensures Roomy(t)
  {
    var ps :| TextUnits(ps) && Text(ps) == t;
    UnitsAllOrderly(ps);
    OrderlyIsRoomy(t);
  }

  lemma UnitNoNul(p: Piece)
    requires TextUnit(p)
    ensures '\0' !in PieceText(p)
  {
  }

  lemma {:induction false} UnitsNoNul(ps: seq<Piece>)
    requires TextUnits(ps)
    ensures '\0' !in Text(ps)
  {
    if ps != [] {
      hide PieceText, ValidPiece;
      UnitNoNul(ps[0]);
      UnitsNoNul(ps[1..]);
    }
  }

  lemma WellEscapedNoNul(t: string)
    requires WellEscaped(t)
    ensures '\0' !in t
  {
    var ps :| TextUnits(ps) && Text(ps) == t;
    UnitsNoNul(ps);
  }

  // ----- what the printer writes

  lemma FirstOf<T>(s: seq<T>, t: seq<T>)
    requires s != []
    ensures s == [s[0]] + s[1..] && s + t == [s[0]] + (s[1..] + t)
  {
  }

  lemma TextCons(p: Piece, ps: seq<Piece>)
    ensures Text([p] + ps) == PieceText(p) + Text(ps)
  {
    assert ([p] + ps)[1..] == ps;
  }

  lemma {:induction false} TextAppend(ps: seq<Piece>, qs: seq<Piece>)
    ensures Text(ps + qs) == Text(ps) + Text(qs)
  {
    if ps == [] {
      assert ps + qs == qs;
    } else {
      hide Text, PieceText;
      var p, rest := ps[0], ps[1..];
      TextAppend(rest, qs);
      FirstOf(ps, qs);
      TextCons(p, rest);
      TextCons(p, rest + qs);
      Assoc(PieceText(p), Text(rest), Text(qs));
    }
  }

  lemma Join(s: string, t: string)
    requires WellEscaped(s) && WellEscaped(t)
    ensures WellEscaped(s + t)
  {
    var ps :| TextUnits(ps) && Text(ps) == s;
    var qs :| TextUnits(qs) && Text(qs) == t;
    TextAppend(ps, qs);
    assert TextUnits(ps + qs);
  }

  lemma {:induction false} Plain(s: string)
    requires BACKSLASH !in s && '\0' !in s
    ensures WellEscaped(s)
  {
    if s == "" {
      assert TextUnits([]) && Text([]) == s;
    } else {
      Plain(s[1..]);
      var ps :| TextUnits(ps) && Text(ps) == s[1..];
      var qs := [Raw(s[0])] + ps;
      assert qs[1..] == ps && TextUnits(qs) && Text(qs) == [s[0]] + s[1..] == s;
    }
  }

  lemma QuotedWellEscaped(s: string)
    requires CString(s)
    ensures WellEscaped(Quoted(s))
  {
    PiecesOfMeans(s);
    assert TextUnits(PiecesOf(s)) && WellEscaped(EscapedAll(s));
    Plain([QUOTE]);
    Join([QUOTE], EscapedAll(s));
    Join([QUOTE] + EscapedAll(s), [QUOTE]);
  }

  lemma {:induction false} TabsPlain(n: int)
    ensures WellEscaped(Tabs(n))
  {
    Plain("");
    Plain("\t");
    if n > 0 {
      TabsPlain(n - 1);
      Join(Tabs(n - 1), "\t");
    }
  }

  /** Every print of a tree the library can hold is such a text. */
  lemma {:induction false} PrintWellEscaped(v: Value, depth: nat, fmt: bool)
    requires Representable(v)
    ensures WellEscaped(Print(v, depth, fmt))
    decreases v, 1
  {
    match v
    case String(s) => QuotedWellEscaped(s);
    case Array(items) =>
      var p := PrintItems(items, depth + 1, fmt);
      Plain("[");
      Plain("]");
      ItemsWellEscaped(items, depth + 1, fmt);
      Join("[", p);
      Join("[" + p, "]");
    case Object(ms) => ObjectWellEscaped(v, depth, fmt);
    case Number(n) => Plain(Decimal(n));
    case _ => Plain(Print(v, depth, fmt));
  }

  lemma {:induction false} ItemsWellEscaped(items: seq<Value>, depth: nat, fmt: bool)
    requires forall i :: 0 <= i < |items| ==> Representable(items[i])
    ensures WellEscaped(PrintItems(items, depth, fmt))
    decreases items, 0
  {
    if items == [] {
      Plain("");
    } else {
      var v, sep := Print(items[0], depth, fmt), When(|items| > 1, "," + When(fmt, " "));
      PrintWellEscaped(items[0], depth, fmt);
      Plain(sep);
      ItemsWellEscaped(items[1..], depth, fmt);
      Join(v, sep);
      Join(v + sep, PrintItems(items[1..], depth, fmt));
    }
  }

  lemma {:induction false} ObjectWellEscaped(v: Value, depth: nat, fmt: bool)
    requires v.Object? && Representable(v)
    ensures WellEscaped(Print(v, depth, fmt))
    decreases v, 0
  {
    Plain("{");
    Plain("}");
    Plain("");
    Plain("\n");
    if v.members == [] {
      var w := When(fmt, "\n" + Tabs(depth - 1));
      TabsPlain(depth - 1);
      Join("\n", Tabs(depth - 1));
      Join("{", w);
      Join("{" + w, "}");
    } else {
      var p, nl, w := PrintMembers(v.members, depth + 1, fmt), When(fmt, "\n"), When(fmt, Tabs(depth));
      TabsPlain(depth);
      MembersWellEscaped(v.members, depth + 1, fmt);
      Join("{", nl);
      Join("{" + nl, p);
      Join("{" + nl + p, w);
      Join("{" + nl + p + w, "}");
    }
  }

  lemma {:induction false} MembersWellEscaped(ms: seq<Member>, depth: nat, fmt: bool)
    requires forall i :: 0 <= i < |ms| ==> CString(ms[i].name) && Representable(ms[i].value)
    ensures WellEscaped(PrintMembers(ms, depth, fmt))
    decreases ms, 0
  {
    if ms == [] {
      Plain("");
    } else {
      var m, comma, nl := PrintMember(ms[0], depth, fmt), When(|ms| > 1, ","), When(fmt, "\n");
      MemberWellEscaped(ms[0], depth, fmt);
      Plain(comma);
      Plain(nl);
      MembersWellEscaped(ms[1..], depth, fmt);
      Join(m, comma);
      Join(m + comma, nl);
      Join(m + comma + nl, PrintMembers(ms[1..], depth, fmt));
    }
  }

  lemma {:induction false} MemberWellEscaped(m: Member, depth: nat, fmt: bool)
    requires CString(m.name) && Representable(m.value)
    ensures WellEscaped(PrintMember(m, depth, fmt))
    decreases m, 2
  {
    var w, tab, name := When(fmt, Tabs(depth)), When(fmt, "\t"), Quoted(m.name);
    Plain("");
    TabsPlain(depth);
    QuotedWellEscaped(m.name);
    Plain(":");
    Plain(tab);
    PrintWellEscaped(m.value, depth, fmt);
    Join(w, name);
    Join(w + name, ":");
    Join(w + name + ":", tab);
    Join(w + name + ":" + tab, Print(m.value, depth, fmt));
  }

  /** So it has room for its literals and, as text in memory, ends at its end. */
  lemma PrintRoomy(v: Value, depth: nat, fmt: bool)
    requires Representable(v)
    ensures Roomy(Print(v, depth, fmt)) && '\0' !in Print(v, depth, fmt)
  {
    PrintWellEscaped(v, depth, fmt);
    WellEscapedIsRoomy(Print(v, depth, fmt));
    WellEscapedNoNul(Print(v, depth, fmt));
  }
}
