/** The texts of section 2 of RFC 8259, as trees that keep every blank and every
    spelling.  Parsing the text of such a tree gives its value, and whatever the
    parser accepts is the text of one. */
module JsonSyntax {
  import opened Sequences
  import opened JsonStrings
  import opened Json
  import opened JsonLiterals
  import opened JsonRoundTrip
  import N = JsonNumbers

  /** A string of the standard, or other text that the string parser reads as one. */
  datatype Str = StrLit(ps: seq<Piece>) | OtherStr(raw: string, s: string)

  datatype Num = NumLit(lit: N.Literal) | OtherNum(raw: string, n: int)

  datatype Syntax =
    | NullWord
    | FalseWord
    | TrueWord
    | NumText(num: Num)
    | StrText(str: Str)
    | Arr(blank: string, items: seq<Item>)
    | Obj(blank: string, entries: seq<Entry>)

  /** A value with the blanks before and after it. */
  datatype Item = Item(before: string, x: Syntax, after: string)

  /** A name with the blanks around it, then, behind the colon, a value with its own. */
  datatype Entry = Entry(before: string, name: Str, between: string, item: Item)

  // ----- the text

  function SpellStr(s: Str): string {
    match s
    case StrLit(ps) => [QUOTE] + Text(ps) + [QUOTE]
    case OtherStr(raw, _) => raw
  }

  function SpellNum(n: Num): string {
    match n
    case NumLit(lit) => N.Text(lit)
    case OtherNum(raw, _) => raw
  }

  function Spell(x: Syntax): string
    decreases x, 1
  {
    match x
    case NullWord => "null"
    case FalseWord => "false"
    case TrueWord => "true"
    case NumText(n) => SpellNum(n)
    case StrText(s) => SpellStr(s)
    case Arr(blank, items) => "[" + (if items == [] then blank else SpellItems(items)) + "]"
    case Obj(blank, entries) => "{" + (if entries == [] then blank else SpellEntries(entries)) + "}"
  }

  function SpellItem(i: Item): string
    decreases i, 2
  {
    i.before + (Spell(i.x) + i.after)
  }

  function SpellItems(items: seq<Item>): string
    decreases items, 0
  {
    if items == [] then []
    else SpellItem(items[0]) + (if |items| == 1 then [] else "," + SpellItems(items[1..]))
  }

  function SpellEntry(e: Entry): string
    decreases e, 3
  {
    e.before + (SpellStr(e.name) + (e.between + (":" + SpellItem(e.item))))
  }

  function SpellEntries(es: seq<Entry>): string
    decreases es, 0
  {
    if es == [] then []
    else SpellEntry(es[0]) + (if |es| == 1 then [] else "," + SpellEntries(es[1..]))
  }

  // ----- the value

  function StrValue(s: Str): string {
    match s
    case StrLit(ps) => if AllPlain(ps) then Reading(ps) else []
    case OtherStr(_, v) => v
  }

  /** The integer part, wrapped to 32 bits. */
  function NumValue(n: Num): int {
    match n
    case NumLit(lit) => Wrap32(N.Sign(lit) * lit.whole)
    case OtherNum(_, v) => v
  }

  function Tree(x: Syntax): Value
    decreases x, 1
  {
    match x
    case NullWord => Null
    case FalseWord => False
    case TrueWord => True
    case NumText(n) => Number(NumValue(n))
    case StrText(s) => String(StrValue(s))
    case Arr(_, items) => Array(Trees(items))
    case Obj(_, entries) => Object(Members(entries))
  }

  function Trees(items: seq<Item>): seq<Value>
    decreases items, 0
  {
    if items == [] then [] else [Tree(items[0].x)] + Trees(items[1..])
  }

  function Members(es: seq<Entry>): seq<Member>
    decreases es, 0
  {
    if es == [] then [] else [Member(StrValue(es[0].name), Tree(es[0].item.x))] + Members(es[1..])
  }

  // ----- which texts are meant, given what follows

  predicate StrGood(s: Str, rest: string) {
    match s
    case StrLit(ps) => AllPlain(ps)
    case OtherStr(raw, v) => ParseString(raw + rest) == Ok(v, rest)
  }

  /** A number ends where nothing that follows could still belong to it. */
  predicate NumGood(n: Num, rest: string) {
    match n
    case NumLit(lit) => N.Valid(lit) && !N.Extends(lit, rest)
    case OtherNum(raw, v) => raw != [] && (raw[0] == '-' || IsDigit(raw[0])) && ParseNumber(raw + rest) == (v, rest)
  }

  predicate Good(x: Syntax, rest: string)
    decreases x, 1
  {
    match x
    case NumText(n) => NumGood(n, rest)
    case StrText(s) => StrGood(s, rest)
    case Arr(blank, items) => if items == [] then Blank(blank) else GoodItems(items, "]" + rest)
    case Obj(blank, entries) => if entries == [] then Blank(blank) else GoodEntries(entries, "}" + rest)
    case _ => true
  }

  predicate GoodItem(i: Item, rest: string)
    decreases i, 2
  {
    Blank(i.before) && Blank(i.after) && Good(i.x, i.after + rest)
  }

  /** What follows the first of several values. */
  function After(items: seq<Item>, rest: string): string
    requires items != []
  {
    if |items| == 1 then rest else "," + (SpellItems(items[1..]) + rest)
  }

  predicate GoodItems(items: seq<Item>, rest: string)
    requires items != []
    decreases items, 0
  {
    GoodItem(items[0], After(items, rest)) && (|items| > 1 ==> GoodItems(items[1..], rest))
  }

  predicate GoodEntry(e: Entry, rest: string)
    decreases e, 3
  {
    && Blank(e.before) && Blank(e.between)
    && StrGood(e.name, e.between + (":" + (SpellItem(e.item) + rest)))
    && GoodItem(e.item, rest)
  }

  function AfterEntry(es: seq<Entry>, rest: string): string
    requires es != []
  {
    if |es| == 1 then rest else "," + (SpellEntries(es[1..]) + rest)
  }

  predicate GoodEntries(es: seq<Entry>, rest: string)
    requires es != []
    decreases es, 0
  {
    GoodEntry(es[0], AfterEntry(es, rest)) && (|es| > 1 ==> GoodEntries(es[1..], rest))
  }

  // ----- blanks and first characters

  lemma SkipNone(t: string)
    requires t == [] || !(0 < t[0] as int <= 32)
    ensures Skip(t) == t
  {
  }

  lemma SkipTo(w: string, t: string)
    requires Blank(w) && t != [] && t[0] as int > 32
    ensures Skip(w + t) == t
  {
    SkipBlank(w, t);
  }

  lemma StrStarts(s: Str, rest: string)
    requires StrGood(s, rest)
    ensures SpellStr(s) != [] && SpellStr(s)[0] == QUOTE
  {
    if s.OtherStr? { assert (s.raw + rest)[0] == s.raw[0]; }
  }

  lemma LiteralRead(body: string, s: string, rest: string)
    requires Decode(body + ([QUOTE] + rest)) == (s, [QUOTE] + rest)
    ensures ParseString([QUOTE] + body + [QUOTE] + rest) == Ok(s, rest)
  {
    hide Decode;
    var t, end := [QUOTE] + body + [QUOTE] + rest, [QUOTE] + rest;
    assert t == [QUOTE] + (body + end) && t[1..] == body + end && end[1..] == rest;
  }

  lemma StrRead(s: Str, rest: string)
    requires StrGood(s, rest)
    ensures ParseString(SpellStr(s) + rest) == Ok(StrValue(s), rest)
  {
    hide ParseString, Text, Reading;
    if s.StrLit? {
      DecodeLiteral(s.ps, rest);
      LiteralRead(Text(s.ps), Reading(s.ps), rest);
    }
  }

  lemma NumStarts(n: Num, rest: string)
    requires NumGood(n, rest)
    ensures SpellNum(n) != [] && (SpellNum(n)[0] == '-' || IsDigit(SpellNum(n)[0]))
  {
    if n.NumLit? {
      var d := Digits(n.lit.whole);
      assert d != [] && IsDigit(d[0]);
    }
  }

  lemma NumRead(n: Num, rest: string)
    requires NumGood(n, rest)
    ensures ParseNumber(SpellNum(n) + rest) == (NumValue(n), rest)
  {
    if n.NumLit? { N.NumberRead(n.lit, rest); }
  }

  /** A value starts with a character that is no blank and closes nothing. */
  lemma SpellStarts(x: Syntax, rest: string)
    requires Good(x, rest)
    ensures Spell(x) != [] && Spell(x)[0] as int > 32 && Spell(x)[0] != ']' && Spell(x)[0] != '}'
  {
    hide SpellItems, SpellEntries, StrGood, NumGood, GoodItems, GoodEntries, SpellNum, SpellStr;
    match x
    case NumText(n) => NumStarts(n, rest);
    case StrText(s) => StrStarts(s, rest);
    case _ =>
  }

  // ----- single steps of the parser

  lemma ItemsEnd(u: string, done: seq<Value>, v: Value, w: string, rest: string)
    requires Blank(w) && Parse(Skip(u)) == Ok(v, w + ("]" + rest))
    ensures ParseItems(u, done) == Ok(Array(done + [v]), rest)
  {
    SkipTo(w, "]" + rest);
    assert ("]" + rest)[1..] == rest;
    hide Parse, Skip;
  }

  lemma ItemsMore(u: string, done: seq<Value>, v: Value, w: string, rest: string)
    requires Blank(w) && Parse(Skip(u)) == Ok(v, w + ("," + rest))
    ensures ParseItems(u, done) == ParseItems(rest, done + [v])
  {
    SkipTo(w, "," + rest);
    assert ("," + rest)[1..] == rest;
    hide Parse, Skip;
  }

  lemma SkipTwice(t: string)
    ensures Skip(Skip(t)) == Skip(t)
  {
  }

  // ----- reading a text back

  lemma ReadsNumber(t: string)
    requires t != [] && (t[0] == '-' || IsDigit(t[0]))
    ensures Parse(t) == Ok(Number(ParseNumber(t).0), ParseNumber(t).1)
  {
    NotLiteral(t);
    hide ParseNumber;
  }

  lemma ReadsString(t: string)
    requires t != [] && t[0] == QUOTE && ParseString(t).Ok?
    ensures Parse(t) == Ok(String(ParseString(t).value), ParseString(t).rest)
  {
    NotLiteral(t);
    hide ParseString;
  }

  /** A text is read to its end and gives its tree. */
  lemma {:induction false} ReadsBack(x: Syntax, rest: string)
    requires Good(x, rest)
    ensures Parse(Spell(x) + rest) == Ok(Tree(x), rest)
    decreases x, 1
  {
    hide Parse, ParseNumber, ParseString, SpellNum, SpellStr, NumGood, StrGood;
    match x
    case NumText(n) =>
      NumStarts(n, rest);
      NumRead(n, rest);
      ReadsNumber(SpellNum(n) + rest);
    case StrText(s) =>
      StrStarts(s, rest);
      StrRead(s, rest);
      ReadsString(SpellStr(s) + rest);
    case Arr(_, _) => ArrReadsBack(x, rest);
    case Obj(_, _) => ObjReadsBack(x, rest);
    case _ => WordReadsBack(x, rest);
  }

  lemma WordReadsBack(x: Syntax, rest: string)
    requires x.NullWord? || x.FalseWord? || x.TrueWord?
    ensures Parse(Spell(x) + rest) == Ok(Tree(x), rest)
  {
    LiteralRoundTrip(Tree(x), rest);
  }

  lemma ItemStart(i: Item, rest: string)
    requires GoodItem(i, rest)
    ensures Skip(SpellItem(i) + rest) == Spell(i.x) + (i.after + rest)
    ensures Spell(i.x) != [] && Spell(i.x)[0] != ']'
  {
    var t := Spell(i.x) + (i.after + rest);
    SpellStarts(i.x, i.after + rest);
    assert SpellItem(i) + rest == i.before + t;
    hide Spell, Skip, Good;
    SkipTo(i.before, t);
  }

  lemma {:induction false} ItemReadsBack(i: Item, rest: string, u: string)
    requires GoodItem(i, rest) && Skip(u) == Skip(SpellItem(i) + rest)
    ensures Parse(Skip(u)) == Ok(Tree(i.x), i.after + rest)
    decreases i, 2
  {
    ItemStart(i, rest);
    hide Parse, Spell, Skip, SpellItem;
    ReadsBack(i.x, i.after + rest);
  }

  lemma ItemsSplit(items: seq<Item>, rest: string)
    requires items != []
    ensures SpellItems(items) + rest == SpellItem(items[0]) + After(items, rest)
  {
    hide SpellItem;
    if |items| == 1 {
      assert SpellItems(items) + rest == SpellItem(items[0]) + rest;
    } else {
      var more := "," + SpellItems(items[1..]);
      assert more + rest == After(items, rest);
      Assoc(SpellItem(items[0]), more, rest);
    }
  }

  lemma {:induction false} ItemsReadBack(items: seq<Item>, done: seq<Value>, rest: string, u: string)
    requires items != [] && GoodItems(items, "]" + rest) && Skip(u) == Skip(SpellItems(items) + ("]" + rest))
    ensures ParseItems(u, done) == Ok(Array(done + Trees(items)), rest)
    decreases items, 0
  {
    var i, more := items[0], items[1..];
    ItemsSplit(items, "]" + rest);
    ItemReadsBack(i, After(items, "]" + rest), u);
    var v := Tree(i.x);
    hide Parse, ParseItems, Skip, SpellItem, GoodItem, Tree;
    if |items| == 1 {
      ItemsEnd(u, done, v, i.after, rest);
      assert Trees(items) == [v] + Trees(more) && Trees(more) == [] && [v] + [] == [v];
    } else {
      var next := SpellItems(more) + ("]" + rest);
      ItemsMore(u, done, v, i.after, next);
      ItemsReadBack(more, done + [v], rest, next);
      Assoc(done, [v], Trees(more));
    }
  }

  lemma FirstItem(items: seq<Item>, rest: string)
    requires items != [] && GoodItems(items, rest)
    ensures Head(Skip(SpellItems(items) + rest)) != ']'
  {
    ItemsSplit(items, rest);
    hide Skip, Spell, GoodItem, SpellItem, SpellItems, After;
    ItemStart(items[0], After(items, rest));
  }

  lemma {:induction false} ArrReadsBack(x: Syntax, rest: string)
    requires x.Arr? && Good(x, rest)
    ensures Parse(Spell(x) + rest) == Ok(Tree(x), rest)
    decreases x, 0
  {
    if x.items == [] {
      var u := x.blank + ("]" + rest);
      assert Spell(x) + rest == "[" + u;
      SkipTo(x.blank, "]" + rest);
      OpenArray(u);
      assert ("]" + rest)[1..] == rest;
    } else {
      var u := SpellItems(x.items) + ("]" + rest);
      assert Spell(x) + rest == "[" + u;
      FirstItem(x.items, "]" + rest);
      OpenArray(u);
      SkipTwice(u);
      hide Parse, ParseItems, Skip, SpellItems, GoodItems;
      ItemsReadBack(x.items, [], rest, Skip(u));
      assert [] + Trees(x.items) == Trees(x.items);
    }
  }

  // ----- objects

  lemma Regroup5(a: string, b: string, c: string, d: string, e: string, rest: string)
    ensures a + (b + (c + (d + e))) + rest == a + (b + (c + (d + (e + rest))))
  {
    Assoc(a, b + (c + (d + e)), rest);
    Assoc(b, c + (d + e), rest);
    Assoc(c, d + e, rest);
    Assoc(d, e, rest);
  }

  lemma NameStart(e: Entry, rest: string, u: string)
    requires GoodEntry(e, rest) && Skip(u) == Skip(SpellEntry(e) + rest)
    ensures var t := e.between + (":" + (SpellItem(e.item) + rest));
      Skip(u) == SpellStr(e.name) + t && ParseString(Skip(u)) == Ok(StrValue(e.name), t)
    ensures SpellStr(e.name) != [] && SpellStr(e.name)[0] == QUOTE
  {
    hide SpellStr, Skip, SpellItem, StrGood, ParseString, GoodItem, StrValue;
    var t := e.between + (":" + (SpellItem(e.item) + rest));
    StrStarts(e.name, t);
    StrRead(e.name, t);
    Regroup5(e.before, SpellStr(e.name), e.between, ":", SpellItem(e.item), rest);
    SkipTo(e.before, SpellStr(e.name) + t);
  }

  lemma MemberReads(u: string, name: string, w: string, item: string, v: Value, after: string)
    requires ParseString(Skip(u)) == Ok(name, w + (":" + item)) && Blank(w) && Parse(Skip(item)) == Ok(v, after)
    ensures ParseMember(u) == Ok(Member(name, v), Skip(after))
  {
    SkipTo(w, ":" + item);
    assert (":" + item)[1..] == item;
    hide ParseString, Parse, Skip;
  }

  lemma {:induction false} EntryReadsBack(e: Entry, rest: string, u: string)
    requires GoodEntry(e, rest) && Skip(u) == Skip(SpellEntry(e) + rest) && rest != [] && rest[0] as int > 32
    ensures ParseMember(u) == Ok(Member(StrValue(e.name), Tree(e.item.x)), rest)
    decreases e, 3
  {
    var item := SpellItem(e.item) + rest;
    NameStart(e, rest, u);
    ItemReadsBack(e.item, rest, item);
    hide ParseString, Parse, ParseMember, Skip, SpellStr, SpellItem, Tree, StrValue, StrGood;
    MemberReads(u, StrValue(e.name), e.between, item, Tree(e.item.x), e.item.after + rest);
    SkipTo(e.item.after, rest);
  }

  lemma EntriesSplit(es: seq<Entry>, rest: string)
    requires es != []
    ensures SpellEntries(es) + rest == SpellEntry(es[0]) + AfterEntry(es, rest)
  {
    hide SpellEntry;
    if |es| == 1 {
      assert SpellEntries(es) + rest == SpellEntry(es[0]) + rest;
    } else {
      var more := "," + SpellEntries(es[1..]);
      assert more + rest == AfterEntry(es, rest);
      Assoc(SpellEntry(es[0]), more, rest);
    }
  }

  lemma {:induction false} EntriesReadBack(es: seq<Entry>, done: seq<Member>, rest: string, u: string)
    requires es != [] && GoodEntries(es, "}" + rest) && Skip(u) == Skip(SpellEntries(es) + ("}" + rest))
    ensures ParseMembers(u, done) == Ok(Object(done + Members(es)), rest)
    decreases es, 0
  {
    var e, more := es[0], es[1..];
    EntriesSplit(es, "}" + rest);
    EntryReadsBack(e, AfterEntry(es, "}" + rest), u);
    var m := Member(StrValue(e.name), Tree(e.item.x));
    hide ParseMember, ParseMembers, Skip, SpellEntry, GoodEntry, Tree, StrValue;
    if |es| == 1 {
      MembersLast(u, done, m, rest);
      assert Members(es) == [m] + Members(more) && Members(more) == [] && [m] + [] == [m];
    } else {
      var next := SpellEntries(more) + ("}" + rest);
      MembersNext(u, done, m, next);
      EntriesReadBack(more, done + [m], rest, next);
      Assoc(done, [m], Members(more));
    }
  }

  lemma FirstEntry(es: seq<Entry>, rest: string)
    requires es != [] && GoodEntries(es, rest)
    ensures Head(Skip(SpellEntries(es) + rest)) != '}'
  {
    EntriesSplit(es, rest);
    hide Skip, GoodEntry, SpellEntry, SpellEntries, AfterEntry, SpellItem, SpellStr;
    NameStart(es[0], AfterEntry(es, rest), SpellEntries(es) + rest);
  }

  lemma {:induction false} ObjReadsBack(x: Syntax, rest: string)
    requires x.Obj? && Good(x, rest)
    ensures Parse(Spell(x) + rest) == Ok(Tree(x), rest)
    decreases x, 0
  {
    if x.entries == [] {
      var u := x.blank + ("}" + rest);
      assert Spell(x) + rest == "{" + u;
      SkipTo(x.blank, "}" + rest);
      OpenObject(u);
      assert ("}" + rest)[1..] == rest;
    } else {
      var u := SpellEntries(x.entries) + ("}" + rest);
      assert Spell(x) + rest == "{" + u;
      FirstEntry(x.entries, "}" + rest);
      OpenObject(u);
      SkipTwice(u);
      hide Parse, ParseMembers, Skip, SpellEntries, GoodEntries;
      EntriesReadBack(x.entries, [], rest, Skip(u));
      assert [] + Members(x.entries) == Members(x.entries);
    }
  }
}
