/** What the minifier leaves of any text of the standard with blanks and comments in it. */
module JsonComments {
  import opened Sequences
  import opened JsonStrings
  import opened Json
  import opened JsonGrammar
  import opened JsonLiterals
  import opened JsonMinify
  import opened JsonSyntax
  import R = JsonRoundTrip
  import N = JsonNumbers

  // ----- what may stand between tokens

  datatype Filler = Blanks(w: string) | Line(text: string) | Block(text: string)

  ghost predicate EndsComment(t: string, i: nat) {
    i + 1 < |t| && t[i] == '*' && t[i + 1] == '/'
  }

  ghost predicate NoEnd(t: string) {
    forall i: nat :: !EndsComment(t, i)
  }

  /** A comment in a block must not hold its end, nor start with a slash. */
  ghost predicate ValidFiller(f: Filler) {
    match f
    case Blanks(w) => forall i :: 0 <= i < |w| ==> Space(w[i])
    case Line(text) => '\n' !in text
    case Block(text) => NoEnd("*" + text)
  }

  function FillerText(f: Filler): string {
    match f
    case Blanks(w) => w
    case Line(text) => "//" + (text + "\n")
    case Block(text) => "/*" + (text + "*/")
  }

  function FillersText(fs: seq<Filler>): string {
    if fs == [] then [] else FillerText(fs[0]) + FillersText(fs[1..])
  }

  ghost predicate ValidFillers(fs: seq<Filler>) {
    forall i :: 0 <= i < |fs| ==> ValidFiller(fs[i])
  }

  ghost predicate Gap(w: string) {
    exists fs :: ValidFillers(fs) && w == FillersText(fs)
  }

  // ----- a filler is dropped

  lemma {:induction false} LineDropped(text: string, t: string)
    requires '\n' !in text
    ensures Scan(text + ("\n" + t), Mode.Line) == Scan(t, Code) && Closed(text + ("\n" + t), Mode.Line) == Closed(t, Code)
  {
    var u := text + ("\n" + t);
    if text == [] {
      assert u == "\n" + t && u[1..] == t;
    } else {
      assert u[1..] == text[1..] + ("\n" + t);
      LineDropped(text[1..], t);
    }
  }

  lemma {:induction false} BlockDropped(text: string, t: string)
    requires NoEnd(text)
    ensures Scan(text + ("*/" + t), Mode.Block) == Scan(t, Code) && Closed(text + ("*/" + t), Mode.Block) == Closed(t, Code)
  {
    var u := text + ("*/" + t);
    if text == [] {
      assert u == "*/" + t && u[1..] == "/" + t && u[1..][1..] == t;
    } else {
      assert u[1..] == text[1..] + ("*/" + t);
      assert !(text[0] == '*' && Head(u[1..]) == '/') by { assert !EndsComment(text, 0); }
      forall i: nat
        ensures !EndsComment(text[1..], i)
      {
        assert !EndsComment(text, i + 1);
      }
      BlockDropped(text[1..], t);
    }
  }

  lemma LineOut(text: string, t: string)
    requires '\n' !in text
    ensures Reads("//" + (text + "\n"), [], t)
  {
    var after := text + ("\n" + t);
    var u := "//" + (text + "\n") + t;
    assert u[1..] == "/" + after && ("/" + after)[1..] == after;
    assert Scan("/" + after, Mode.Line) == Scan(after, Mode.Line);
    LineDropped(text, t);
  }

  lemma BlockOut(text: string, t: string)
    requires NoEnd("*" + text)
    ensures Reads("/*" + (text + "*/"), [], t)
  {
    var after := ("*" + text) + ("*/" + t);
    var u := "/*" + (text + "*/") + t;
    assert u[1..] == after;
    BlockDropped("*" + text, t);
  }

  lemma FillerDropped(f: Filler, t: string)
    requires ValidFiller(f)
    ensures Reads(FillerText(f), [], t)
  {
    hide Reads, NoEnd;
    match f
    case Blanks(w) => ReadsBlank(w, t);
    case Line(text) => LineOut(text, t);
    case Block(text) => BlockOut(text, t);
  }

  /** A block comment that starts with a slash is taken to end there. */
  lemma SlashEndsComment()
    ensures Minify("/*/x*/") == "x*/"
  {
    assert "/*/x*/"[1..] == "*/x*/" && "*/x*/"[1..] == "/x*/" && "/x*/"[1..] == "x*/";
    Token("x*");
    assert Reads("x*", "x*", "/");
    assert "x*" + "/" == "x*/";
  }

  lemma Nothing()
    ensures Reduces([], [])
  {
    forall t
      ensures Reads([], [], t)
    {
      assert [] + t == t && [] + Scan(t, Code) == Scan(t, Code);
    }
  }

  lemma {:induction false} FillersDropped(fs: seq<Filler>)
    requires ValidFillers(fs)
    ensures Reduces(FillersText(fs), [])
  {
    if fs == [] {
      Nothing();
    } else {
      forall t { FillerDropped(fs[0], t); }
      FillersDropped(fs[1..]);
      var none: string := [];
      assert none + none == none;
      Then(FillerText(fs[0]), none, FillersText(fs[1..]), none);
    }
  }

  lemma GapDropped(w: string)
    requires Gap(w)
    ensures Reduces(w, [])
  {
    var fs :| ValidFillers(fs) && w == FillersText(fs);
    FillersDropped(fs);
  }

  // ----- literals and numbers are kept

  lemma {:induction false} LiteralKept(ps: seq<Piece>, t: string)
    requires AllPlain(ps)
    ensures Scan(Text(ps) + t, Literal) == Text(ps) + Scan(t, Literal)
    ensures Closed(Text(ps) + t, Literal) == Closed(t, Literal)
  {
    if ps == [] {
      assert [] + t == t;
    } else {
      var e, more := PieceText(ps[0]), Text(ps[1..]);
      Assoc(e, more, t);
      PieceKept(ps[0], more + t);
      LiteralKept(ps[1..], t);
      Assoc(e, more, Scan(t, Literal));
    }
  }

  lemma PieceKept(p: Piece, t: string)
    requires JsonLiterals.Plain(p)
    ensures Scan(PieceText(p) + t, Literal) == PieceText(p) + Scan(t, Literal)
    ensures Closed(PieceText(p) + t, Literal) == Closed(t, Literal)
  {
    match p
    case Raw(c) => ReadsInside([c], t);
    case Short(c) => ReadsEscape(c, t);
    case Unit(h) =>
      var head := [BACKSLASH, 'u'];
      Assoc(head, h, t);
      ReadsEscape('u', h + t);
      ReadsInside(h, t);
      Assoc(head, h, Scan(t, Literal));
  }

  lemma StringKept(s: Str)
    requires StandardStr(s)
    ensures Reduces(SpellStr(s), SpellStr(s))
  {
    var p := SpellStr(s);
    forall t
      ensures Reads(p, p, t)
    {
      var body, u := Text(s.ps), [QUOTE] + t;
      assert u[1..] == t && Scan(u, Literal) == [QUOTE] + Scan(t, Code);
      Regroup([QUOTE], body, [QUOTE], t, []);
      assert ([QUOTE] + (body + u))[1..] == body + u;
      LiteralKept(s.ps, u);
      Regroup([QUOTE], body, [QUOTE], Scan(t, Code), []);
    }
  }

  lemma NumberKept(n: N.Literal)
    requires N.Valid(n)
    ensures Reduces(N.Text(n), N.Text(n))
  {
    var sign, whole, frac, exp := if n.negative then "-" else "", Digits(n.whole), N.FracText(n), N.ExpText(n);
    Token(sign);
    Token(whole);
    Token(frac);
    Token(exp);
    hide Reduces, Digits, N.FracText, N.ExpText;
    Then(sign, sign, whole, whole);
    Then(sign + whole, sign + whole, frac, frac);
    Then(sign + whole + frac, sign + whole + frac, exp, exp);
  }

  // ----- a text with gaps

  /** A text of the standard with any gaps where blanks may stand. */
  ghost predicate Gapped(x: Syntax)
    decreases x, 1
  {
    match x
    case NumText(n) => n.NumLit? && N.Valid(n.lit)
    case StrText(s) => StandardStr(s)
    case Arr(blank, items) => Gap(blank) && GappedItems(items)
    case Obj(blank, entries) => Gap(blank) && GappedEntries(entries)
    case _ => true
  }

  ghost predicate GappedItem(i: Item)
    decreases i, 2
  {
    Gap(i.before) && Gap(i.after) && Gapped(i.x)
  }

  ghost predicate GappedItems(items: seq<Item>)
    decreases items, 0
  {
    items == [] || (GappedItem(items[0]) && GappedItems(items[1..]))
  }

  ghost predicate GappedEntries(es: seq<Entry>)
    decreases es, 0
  {
    es == [] || (Gap(es[0].before) && StandardStr(es[0].name) && Gap(es[0].between)
                 && GappedItem(es[0].item) && GappedEntries(es[1..]))
  }

  /** The same text without gaps. */
  function Bare(x: Syntax): Syntax
    decreases x, 1
  {
    match x
    case Arr(_, items) => Arr([], BareItems(items))
    case Obj(_, entries) => Obj([], BareEntries(entries))
    case _ => x
  }

  function BareItem(i: Item): Item
    decreases i, 2
  {
    Item([], Bare(i.x), [])
  }

  function BareItems(items: seq<Item>): (r: seq<Item>)
    ensures |r| == |items|
    decreases items, 0
  {
    if items == [] then [] else [BareItem(items[0])] + BareItems(items[1..])
  }

  function BareEntries(es: seq<Entry>): (r: seq<Entry>)
    ensures |r| == |es|
    decreases es, 0
  {
    if es == [] then [] else [Entry([], es[0].name, [], BareItem(es[0].item))] + BareEntries(es[1..])
  }

  lemma {:induction false} BareStandard(x: Syntax)
    requires Gapped(x)
    ensures Standard(Bare(x)) && Tree(Bare(x)) == Tree(x)
    decreases x, 1
  {
    match x
    case Arr(_, items) => BareItemsStandard(items);
    case Obj(_, entries) => BareEntriesStandard(entries);
    case _ =>
  }

  lemma {:induction false} BareItemsStandard(items: seq<Item>)
    requires GappedItems(items)
    ensures StandardItems(BareItems(items)) && Trees(BareItems(items)) == Trees(items)
    decreases items, 0
  {
    if items != [] {
      BareStandard(items[0].x);
      BareItemsStandard(items[1..]);
      assert BareItems(items)[1..] == BareItems(items[1..]);
    }
  }

  lemma {:induction false} BareEntriesStandard(es: seq<Entry>)
    requires GappedEntries(es)
    ensures StandardEntries(BareEntries(es)) && Members(BareEntries(es)) == Members(es)
    decreases es, 0
  {
    if es != [] {
      BareStandard(es[0].item.x);
      BareEntriesStandard(es[1..]);
      assert BareEntries(es)[1..] == BareEntries(es[1..]);
    }
  }

  // ----- minifying

  lemma {:induction false} Bares(x: Syntax)
    requires Gapped(x)
    ensures Reduces(Spell(x), Spell(Bare(x)))
    decreases x, 1
  {
    hide Reduces;
    match x
    case NullWord => Token("null");
    case FalseWord => Token("false");
    case TrueWord => Token("true");
    case NumText(n) => NumberKept(n.lit);
    case StrText(s) => StringKept(s);
    case Arr(blank, items) =>
      Inner(blank, items);
      Bracketed("[", if items == [] then blank else SpellItems(items), SpellItems(BareItems(items)), "]");
    case Obj(blank, entries) =>
      InnerEntries(blank, entries);
      Bracketed("{", if entries == [] then blank else SpellEntries(entries), SpellEntries(BareEntries(entries)), "}");
  }

  lemma {:induction false} Inner(blank: string, items: seq<Item>)
    requires Gap(blank) && GappedItems(items)
    ensures Reduces(if items == [] then blank else SpellItems(items), SpellItems(BareItems(items)))
    decreases items, 1
  {
    if items == [] { GapDropped(blank); } else { BaresItems(items); }
  }

  lemma {:induction false} InnerEntries(blank: string, es: seq<Entry>)
    requires Gap(blank) && GappedEntries(es)
    ensures Reduces(if es == [] then blank else SpellEntries(es), SpellEntries(BareEntries(es)))
    decreases es, 1
  {
    if es == [] { GapDropped(blank); } else { BaresEntries(es); }
  }

  lemma Bracketed(open: string, p: string, kept: string, close: string)
    requires open == "[" || open == "{"
    requires close == "]" || close == "}"
    requires Reduces(p, kept)
    ensures Reduces(open + p + close, open + kept + close)
  {
    Token(open);
    Token(close);
    hide Reduces;
    Then(open, open, p, kept);
    Then(open + p, open + kept, close, close);
  }

  lemma {:induction false} BaresItem(i: Item)
    requires GappedItem(i)
    ensures Reduces(SpellItem(i), SpellItem(BareItem(i)))
    decreases i, 2
  {
    Bares(i.x);
    GapDropped(i.before);
    GapDropped(i.after);
    var p, kept := Spell(i.x), Spell(Bare(i.x));
    assert SpellItem(BareItem(i)) == [] + (kept + []);
    hide Reduces, Gap, Spell, Bare;
    Then(p, kept, i.after, []);
    Then(i.before, [], p + i.after, kept + []);
  }

  lemma {:induction false} BaresItems(items: seq<Item>)
    requires items != [] && GappedItems(items)
    ensures Reduces(SpellItems(items), SpellItems(BareItems(items)))
    decreases items, 0
  {
    var i, more, bare := items[0], items[1..], BareItems(items);
    assert bare[0] == BareItem(i) && bare[1..] == BareItems(more);
    BaresItem(i);
    hide Reduces, SpellItem, BareItem;
    if |items| == 1 {
      assert SpellItems(items) == SpellItem(i) + [] && SpellItems(bare) == SpellItem(bare[0]) + [];
      assert SpellItem(i) + [] == SpellItem(i) && SpellItem(bare[0]) + [] == SpellItem(bare[0]);
    } else {
      BaresItems(more);
      Token(",");
      Then(",", ",", SpellItems(more), SpellItems(BareItems(more)));
      Then(SpellItem(i), SpellItem(BareItem(i)), "," + SpellItems(more), "," + SpellItems(BareItems(more)));
    }
  }

  lemma {:induction false} BaresEntry(e: Entry)
    requires Gap(e.before) && StandardStr(e.name) && Gap(e.between) && GappedItem(e.item)
    ensures Reduces(SpellEntry(e), SpellEntry(Entry([], e.name, [], BareItem(e.item))))
    decreases e, 3
  {
    var name, item, kept := SpellStr(e.name), SpellItem(e.item), SpellItem(BareItem(e.item));
    BaresItem(e.item);
    GapDropped(e.before);
    GapDropped(e.between);
    StringKept(e.name);
    Token(":");
    hide Reduces, Gap, SpellItem, SpellStr, BareItem;
    Then(":", ":", item, kept);
    Then(e.between, [], ":" + item, ":" + kept);
    Then(name, name, e.between + (":" + item), [] + (":" + kept));
    Then(e.before, [], name + (e.between + (":" + item)), name + ([] + (":" + kept)));
  }

  lemma {:induction false} BaresEntries(es: seq<Entry>)
    requires es != [] && GappedEntries(es)
    ensures Reduces(SpellEntries(es), SpellEntries(BareEntries(es)))
    decreases es, 0
  {
    var e, more, bare := es[0], es[1..], BareEntries(es);
    assert bare[0] == Entry([], e.name, [], BareItem(e.item)) && bare[1..] == BareEntries(more);
    BaresEntry(e);
    hide Reduces, SpellEntry, BareItem;
    if |es| == 1 {
      assert SpellEntries(es) == SpellEntry(e) + [] && SpellEntries(bare) == SpellEntry(bare[0]) + [];
      assert SpellEntry(e) + [] == SpellEntry(e) && SpellEntry(bare[0]) + [] == SpellEntry(bare[0]);
    } else {
      BaresEntries(more);
      Token(",");
      Then(",", ",", SpellEntries(more), SpellEntries(BareEntries(more)));
      Then(SpellEntry(e), SpellEntry(bare[0]), "," + SpellEntries(more), "," + SpellEntries(BareEntries(more)));
    }
  }

  /** Any text of the standard, with blanks and comments anywhere between its tokens,
      is minified to its tokens, and those are a document of its tree. */
  lemma MinifiedText(before: string, x: Syntax, after: string, requireEnd: bool)
    requires Gap(before) && Gapped(x) && Gap(after)
    ensures var t := before + (Spell(x) + after);
      && Minify(t) == Spell(Bare(x)) && Closed(t, Code)
      && ParseDocument(Minify(t), requireEnd) == Ok(Tree(x), "")
  {
    var t, p, kept := before + (Spell(x) + after), Spell(x), Spell(Bare(x));
    GapDropped(before);
    Bares(x);
    GapDropped(after);
    BareStandard(x);
    Then(p, kept, after, []);
    Then(before, [], p + after, kept + []);
    assert Reads(t, [] + (kept + []), []);
    assert t + [] == t && [] + (kept + []) + [] == kept;
    hide Minify, Spell, Tree, Standard, ParseDocument, Reduces, Gapped;
    DocumentRead([], Bare(x), [], requireEnd);
    assert [] + (kept + []) == kept;
  }
}
