/** Documents: every text of RFC 8259 is read as its tree, and every text that is
    read is spelled by a tree. */
module JsonGrammar {
  import opened Sequences
  import opened JsonStrings
  import opened Json
  import opened JsonLiterals
  import opened JsonMeasure
  import opened JsonParser
  import opened JsonRoundTrip
  import opened JsonSyntax
  import N = JsonNumbers

  // ----- the texts of the standard

  predicate StandardStr(s: Str) {
    s.StrLit? && AllPlain(s.ps)
  }

  predicate Standard(x: Syntax)
    decreases x, 1
  {
    match x
    case NumText(n) => n.NumLit? && N.Valid(n.lit)
    case StrText(s) => StandardStr(s)
    case Arr(blank, items) => Blank(blank) && StandardItems(items)
    case Obj(blank, entries) => Blank(blank) && StandardEntries(entries)
    case _ => true
  }

  predicate StandardItem(i: Item)
    decreases i, 2
  {
    Blank(i.before) && Blank(i.after) && Standard(i.x)
  }

  predicate StandardItems(items: seq<Item>)
    decreases items, 0
  {
    items == [] || (StandardItem(items[0]) && StandardItems(items[1..]))
  }

  predicate StandardEntries(es: seq<Entry>)
    decreases es, 0
  {
    es == [] || (Blank(es[0].before) && StandardStr(es[0].name) && Blank(es[0].between)
                 && StandardItem(es[0].item) && StandardEntries(es[1..]))
  }

  /** The number at the end of a text is not continued by what follows. */
  predicate Whole(x: Syntax, rest: string) {
    x.NumText? && x.num.NumLit? ==> !N.Extends(x.num.lit, rest)
  }

  /** A blank or a structural character continues no number. */
  lemma Ends(x: Syntax, w: string, rest: string)
    requires Blank(w) && rest != [] && rest[0] in ",]}"
    ensures Whole(x, w + rest)
  {
    var t := w + rest;
    assert t[0] == if w == [] then rest[0] else w[0];
  }

  lemma {:induction false} StandardGood(x: Syntax, rest: string)
    requires Standard(x) && Whole(x, rest)
    ensures Good(x, rest)
    decreases x, 1
  {
    match x
    case Arr(_, items) => if items != [] { StandardItemsGood(items, "]" + rest); }
    case Obj(_, entries) => if entries != [] { StandardEntriesGood(entries, "}" + rest); }
    case _ =>
  }

  lemma {:induction false} StandardItemGood(i: Item, rest: string)
    requires StandardItem(i) && rest != [] && rest[0] in ",]}"
    ensures GoodItem(i, rest)
    decreases i, 2
  {
    Ends(i.x, i.after, rest);
    StandardGood(i.x, i.after + rest);
  }

  lemma {:induction false} StandardItemsGood(items: seq<Item>, rest: string)
    requires items != [] && StandardItems(items) && rest != [] && rest[0] in ",]}"
    ensures GoodItems(items, rest)
    decreases items, 0
  {
    hide StandardItem, GoodItem, SpellItems;
    StandardItemGood(items[0], After(items, rest));
    if |items| > 1 { StandardItemsGood(items[1..], rest); }
  }

  lemma {:induction false} StandardEntriesGood(es: seq<Entry>, rest: string)
    requires es != [] && StandardEntries(es) && rest != [] && rest[0] in ",]}"
    ensures GoodEntries(es, rest)
    decreases es, 0
  {
    hide StandardItem, GoodItem, SpellEntries;
    StandardItemGood(es[0].item, AfterEntry(es, rest));
    if |es| > 1 { StandardEntriesGood(es[1..], rest); }
  }

  // ----- what follows a document

  lemma {:induction false} SkipSplits(t: string) returns (w: string)
    ensures Blank(w) && t == w + Skip(t)
  {
    if t != [] && 0 < t[0] as int <= 32 {
      var v := SkipSplits(t[1..]);
      w := [t[0]] + v;
      assert t == [t[0]] + t[1..];
    } else {
      w := [];
    }
  }

  lemma {:induction false} OnlyBlanks(t: string)
    requires '\0' !in t
    ensures Head(Skip(t)) == '\0' <==> Blank(t)
    ensures Blank(t) ==> Skip(t) == []
  {
    if t != [] && 0 < t[0] as int <= 32 {
      OnlyBlanks(t[1..]);
      assert Blank(t) <==> Blank(t[1..]) by {
        assert t == [t[0]] + t[1..];
        assert forall i :: 0 <= i < |t[1..]| ==> t[1..][i] == t[i + 1];
      }
    }
  }

  /** Any text of the standard, with any blanks before it and anything behind it:
      its tree is read, and with an end demanded the parser fails exactly when
      something other than blanks follows, at the first such character. */
  lemma DocumentRead(before: string, x: Syntax, rest: string, requireEnd: bool)
    requires Blank(before) && Standard(x) && Whole(x, rest) && '\0' !in rest
    ensures var r := ParseDocument(before + (Spell(x) + rest), requireEnd);
      && (r.Fail? <==> requireEnd && !Blank(rest))
      && (r.Ok? ==> r.value == Tree(x) && r.rest == if requireEnd then "" else rest)
      && (r.Fail? ==> exists w :: Blank(w) && rest == w + r.at && r.at != [] && !Blank(r.at[..1]))
  {
    var t := Spell(x) + rest;
    StandardGood(x, rest);
    SpellStarts(x, rest);
    hide Parse, Spell, Skip, Standard, Good, Tree, Whole;
    SkipTo(before, t);
    ReadsBack(x, rest);
    OnlyBlanks(rest);
    if requireEnd && !Blank(rest) {
      var w := SkipSplits(rest);
      NotBlank(rest);
    }
  }

  lemma NotBlank(t: string)
    requires '\0' !in t && !Blank(t)
    ensures Skip(t) != [] && !Blank(Skip(t)[..1])
  {
    OnlyBlanks(t);
    SkipStops(t);
  }

  lemma {:induction false} SkipStops(t: string)
    ensures Skip(t) == [] || !(0 < Skip(t)[0] as int <= 32)
  {
    if t != [] && 0 < t[0] as int <= 32 { SkipStops(t[1..]); }
  }

  /** The four blanks of the standard are skipped. */
  lemma StandardBlanks(w: string)
    requires forall i :: 0 <= i < |w| ==> w[i] in " \t\n\r"
    ensures Blank(w) && Skip(w + "x") == "x"
  {
    SkipTo(w, "x");
  }

  // ----- whatever is read is spelled

  lemma Cut(t: string, rest: string)
    requires Suffix(rest, t)
    ensures t == t[..|t| - |rest|] + rest
  {
  }

  lemma AdvanceSuffix(t: string, n: nat)
    ensures Suffix(Advance(t, n), t)
  {
  }

  lemma UnescapeSuffix(t: string)
    ensures Suffix(Unescape(t).1, t)
  {
    AdvanceSuffix(t, 1);
    AdvanceSuffix(t, 5);
    AdvanceSuffix(t, 11);
    hide Advance, Suffix, Utf8, Combine, Hex4;
  }

  lemma {:induction false} DecodeSuffix(t: string)
    ensures Suffix(Decode(t).1, t)
    decreases |t|
  {
    if !EndsLiteral(t) {
      var u := t[1..];
      if t[0] != BACKSLASH {
        DecodeSuffix(u);
        SuffixTrans(Decode(u).1, u, t);
      } else {
        var after := Unescape(u).1;
        UnescapeSuffix(u);
        DecodeSuffix(after);
        SuffixTrans(after, u, t);
        SuffixTrans(Decode(after).1, after, t);
      }
    }
  }

  lemma StringSuffix(t: string)
    requires ParseString(t).Ok?
    ensures Suffix(ParseString(t).rest, t)
  {
    var u := t[1..];
    var end := Decode(u).1;
    DecodeSuffix(u);
    SuffixTrans(end, u, t);
    if Head(end) == QUOTE { SuffixTail(end, t); }
    hide Decode;
  }

  lemma SpelledStr(t: string) returns (s: Str)
    requires ParseString(t).Ok?
    ensures t == SpellStr(s) + ParseString(t).rest && StrGood(s, ParseString(t).rest)
    ensures StrValue(s) == ParseString(t).value
  {
    var r := ParseString(t);
    StringSuffix(t);
    hide ParseString;
    Cut(t, r.rest);
    s := OtherStr(t[..|t| - |r.rest|], r.value);
  }

  lemma SpelledNum(t: string) returns (n: Num)
    requires t != [] && (t[0] == '-' || IsDigit(t[0]))
    ensures t == SpellNum(n) + ParseNumber(t).1 && NumGood(n, ParseNumber(t).1)
    ensures NumValue(n) == ParseNumber(t).0
  {
    var r := ParseNumber(t);
    NumberSuffix(t);
    assert |r.1| < |t|;
    hide ParseNumber;
    Cut(t, r.1);
    n := OtherNum(t[..|t| - |r.1|], r.0);
  }

  lemma SameItems(t: string, done: seq<Value>)
    ensures ParseItems(Skip(t), done) == ParseItems(t, done)
  {
    SkipTwice(t);
    hide Skip, Parse;
  }

  lemma SameMembers(t: string, done: seq<Member>)
    ensures ParseMembers(Skip(t), done) == ParseMembers(t, done)
  {
    SkipTwice(t);
    assert ParseMember(Skip(t)) == ParseMember(t) by { hide Skip, Parse, ParseString; }
    hide Skip, ParseMember;
  }

  /** Every text the parser accepts is the text of a tree, with the value found. */
  lemma {:induction false} Spelled(t: string) returns (x: Syntax)
    requires Parse(t).Ok?
    ensures var r := Parse(t); Good(x, r.rest) && t == Spell(x) + r.rest && Tree(x) == r.value
    decreases |t|, 0
  {
    var rest := Parse(t).rest;
    if "null" <= t {
      x := NullWord;
    } else if "false" <= t {
      x := FalseWord;
    } else if "true" <= t {
      x := TrueWord;
    } else if Head(t) == QUOTE {
      var s := SpelledStr(t);
      x := StrText(s);
    } else if Head(t) == '[' {
      x := SpelledArray(t);
    } else if Head(t) == '{' {
      x := SpelledObject(t);
    } else {
      var n := SpelledNum(t);
      x := NumText(n);
    }
  }

  lemma Between(a: string, b: string, c: string, rest: string)
    ensures a + (b + (c + rest)) == a + b + c + rest
  {
    Assoc(a, b, c + rest);
    Assoc(a + b, c, rest);
  }

  lemma EmptyArray(w: string, rest: string)
    requires Blank(w)
    ensures var x := Arr(w, []); Good(x, rest) && Tree(x) == Array([]) && "[" + (w + ("]" + rest)) == Spell(x) + rest
  {
    Between("[", w, "]", rest);
  }

  lemma FilledArray(items: seq<Item>, rest: string)
    requires items != [] && GoodItems(items, "]" + rest)
    ensures var x := Arr([], items);
      Good(x, rest) && Tree(x) == Array(Trees(items)) && "[" + (SpellItems(items) + ("]" + rest)) == Spell(x) + rest
  {
    hide GoodItems, SpellItems, Trees;
    Between("[", SpellItems(items), "]", rest);
  }

  lemma {:induction false} SpelledArray(t: string) returns (x: Syntax)
    requires Head(t) == '[' && Parse(t).Ok?
    ensures var r := Parse(t); Good(x, r.rest) && t == Spell(x) + r.rest && Tree(x) == r.value
    decreases |t|, -1
  {
    hide Skip, Parse, ParseItems, Good, Spell, Tree;
    var u, rest := t[1..], Parse(t).rest;
    assert t == "[" + u;
    OpenArray(u);
    SameItems(u, []);
    if Head(Skip(u)) == ']' {
      var w := SkipSplits(u);
      assert Skip(u) == "]" + rest;
      x := Arr(w, []);
      EmptyArray(w, rest);
    } else {
      var items := SpelledItems(u, []);
      x := Arr([], items);
      FilledArray(items, rest);
      assert [] + Trees(items) == Trees(items);
    }
  }

  lemma {:induction false} SpelledItems(t: string, done: seq<Value>) returns (items: seq<Item>)
    requires ParseItems(t, done).Ok?
    ensures var r := ParseItems(t, done);
      && items != [] && GoodItems(items, "]" + r.rest) && t == SpellItems(items) + ("]" + r.rest)
      && r.value == Array(done + Trees(items))
    decreases |t|, 2
  {
    hide Skip, Parse, GoodItem, SpellItem, Tree;
    var i := SpelledItem(t);
    var v, rest := Parse(Skip(t)).value, Skip(Parse(Skip(t)).rest);
    if Head(rest) == ',' {
      assert rest == "," + rest[1..];
      items := SpelledItems(rest[1..], done + [v]);
      items := [i] + items;
      ItemCons(i, items[1..], "]" + ParseItems(t, done).rest);
      Assoc(done, [v], Trees(items[1..]));
    } else {
      assert rest == "]" + rest[1..];
      items := [i];
      ItemLast(i, rest);
    }
  }

  lemma Regroup3(a: string, b: string, c: string, d: string)
    ensures a + (b + (c + d)) == a + (b + c) + d
  {
    Assoc(a, b + c, d);
    Assoc(b, c, d);
  }

  lemma ItemCons(i: Item, items: seq<Item>, rest: string)
    requires items != [] && GoodItems(items, rest) && GoodItem(i, "," + (SpellItems(items) + rest))
    ensures GoodItems([i] + items, rest) && Trees([i] + items) == [Tree(i.x)] + Trees(items)
    ensures SpellItems([i] + items) + rest == SpellItem(i) + ("," + (SpellItems(items) + rest))
  {
    assert ([i] + items)[1..] == items;
    hide GoodItem, SpellItem;
    ItemsSplit([i] + items, rest);
  }

  lemma ItemLast(i: Item, rest: string)
    requires GoodItem(i, rest)
    ensures GoodItems([i], rest) && Trees([i]) == [Tree(i.x)] && SpellItems([i]) == SpellItem(i)
  {
    assert [i][1..] == [];
    assert SpellItem(i) + [] == SpellItem(i);
    hide GoodItem, SpellItem;
  }

  lemma EmptyObject(w: string, rest: string)
    requires Blank(w)
    ensures var x := Obj(w, []); Good(x, rest) && Tree(x) == Object([]) && "{" + (w + ("}" + rest)) == Spell(x) + rest
  {
    Between("{", w, "}", rest);
  }

  lemma FilledObject(es: seq<Entry>, rest: string)
    requires es != [] && GoodEntries(es, "}" + rest)
    ensures var x := Obj([], es);
      Good(x, rest) && Tree(x) == Object(Members(es)) && "{" + (SpellEntries(es) + ("}" + rest)) == Spell(x) + rest
  {
    hide GoodEntries, SpellEntries, Members;
    Between("{", SpellEntries(es), "}", rest);
  }

  lemma {:induction false} SpelledObject(t: string) returns (x: Syntax)
    requires Head(t) == '{' && Parse(t).Ok?
    ensures var r := Parse(t); Good(x, r.rest) && t == Spell(x) + r.rest && Tree(x) == r.value
    decreases |t|, -1
  {
    hide Skip, Parse, ParseMembers, Good, Spell, Tree;
    var u, rest := t[1..], Parse(t).rest;
    assert t == "{" + u;
    OpenObject(u);
    SameMembers(u, []);
    if Head(Skip(u)) == '}' {
      var w := SkipSplits(u);
      assert Skip(u) == "}" + rest;
      x := Obj(w, []);
      EmptyObject(w, rest);
    } else {
      var es := SpelledEntries(u, []);
      x := Obj([], es);
      FilledObject(es, rest);
      assert [] + Members(es) == Members(es);
    }
  }

  /** What a member that was read consists of. */
  lemma MemberParts(t: string) returns (after: string, item: string)
    requires ParseMember(t).Ok?
    ensures ParseString(Skip(t)).Ok? && after == ParseString(Skip(t)).rest && Skip(after) == ":" + item
    ensures |item| < |t| && Parse(Skip(item)).Ok?
    ensures ParseMember(t) ==
      Ok(Member(ParseString(Skip(t)).value, Parse(Skip(item)).value), Skip(Parse(Skip(item)).rest))
  {
    hide Skip, Parse, ParseString;
    after := ParseString(Skip(t)).rest;
    item := Skip(after)[1..];
    assert Skip(after) == ":" + item;
  }

  lemma {:induction false} SpelledItem(t: string) returns (i: Item)
    requires Parse(Skip(t)).Ok?
    ensures var r := Parse(Skip(t)); var rest := Skip(r.rest);
      GoodItem(i, rest) && t == SpellItem(i) + rest && Tree(i.x) == r.value
    decreases |t|, 1
  {
    hide Skip, Parse, Good, Spell, Tree;
    var w := SkipSplits(t);
    var x := Spelled(Skip(t));
    var after := Parse(Skip(t)).rest;
    var w' := SkipSplits(after);
    i := Item(w, x, w');
    Regroup3(w, Spell(x), w', Skip(after));
  }

  lemma {:induction false} SpelledEntry(t: string) returns (e: Entry)
    requires ParseMember(t).Ok?
    ensures var r := ParseMember(t);
      && GoodEntry(e, r.rest) && t == SpellEntry(e) + r.rest
      && r.value == Member(StrValue(e.name), Tree(e.item.x))
    decreases |t|, 2
  {
    hide Skip, Parse, ParseString, ParseMember, GoodItem, SpellItem, Tree, StrGood, StrValue, SpellStr;
    var after, item := MemberParts(t);
    var before := SkipSplits(t);
    var name := SpelledStr(Skip(t));
    var between := SkipSplits(after);
    var i := SpelledItem(item);
    e := Entry(before, name, between, i);
    Regroup5(before, SpellStr(name), between, ":", SpellItem(i), ParseMember(t).rest);
  }

  lemma {:induction false} SpelledEntries(t: string, done: seq<Member>) returns (es: seq<Entry>)
    requires ParseMembers(t, done).Ok?
    ensures var r := ParseMembers(t, done);
      && es != [] && GoodEntries(es, "}" + r.rest) && t == SpellEntries(es) + ("}" + r.rest)
      && r.value == Object(done + Members(es))
    decreases |t|, 3
  {
    hide ParseMember, GoodEntry, SpellEntry, Tree, StrValue;
    var e := SpelledEntry(t);
    var m, rest := ParseMember(t).value, ParseMember(t).rest;
    if Head(rest) == ',' {
      assert rest == "," + rest[1..];
      es := SpelledEntries(rest[1..], done + [m]);
      es := [e] + es;
      EntryCons(e, es[1..], "}" + ParseMembers(t, done).rest);
      Assoc(done, [m], Members(es[1..]));
    } else {
      assert rest == "}" + rest[1..];
      es := [e];
      EntryLast(e, rest);
    }
  }

  lemma EntryCons(e: Entry, es: seq<Entry>, rest: string)
    requires es != [] && GoodEntries(es, rest) && GoodEntry(e, "," + (SpellEntries(es) + rest))
    ensures GoodEntries([e] + es, rest)
    ensures Members([e] + es) == [Member(StrValue(e.name), Tree(e.item.x))] + Members(es)
    ensures SpellEntries([e] + es) + rest == SpellEntry(e) + ("," + (SpellEntries(es) + rest))
  {
    assert ([e] + es)[1..] == es;
    hide GoodEntry, SpellEntry;
    EntriesSplit([e] + es, rest);
  }

  lemma EntryLast(e: Entry, rest: string)
    requires GoodEntry(e, rest)
    ensures GoodEntries([e], rest) && Members([e]) == [Member(StrValue(e.name), Tree(e.item.x))]
    ensures SpellEntries([e]) == SpellEntry(e)
  {
    assert [e][1..] == [];
    assert SpellEntry(e) + [] == SpellEntry(e);
    hide GoodEntry, SpellEntry;
  }

  /** The parser accepts a text and stops at `rest` with the value v exactly when
      the text before `rest` is blanks and the spelling of a tree with that value. */
  ghost predicate Spells(t: string, v: Value, rest: string) {
    exists w, x :: Blank(w) && Good(x, rest) && t == w + (Spell(x) + rest) && v == Tree(x)
  }

  lemma DocumentSpelled(t: string, v: Value, rest: string)
    ensures ParseDocument(t, false) == Ok(v, rest) <==> Spells(t, v, rest)
  {
    if ParseDocument(t, false) == Ok(v, rest) {
      var w := SkipSplits(t);
      var x := Spelled(Skip(t));
    }
    if Spells(t, v, rest) {
      var w, x :| Blank(w) && Good(x, rest) && t == w + (Spell(x) + rest) && v == Tree(x);
      SpellStarts(x, rest);
      hide Parse, Spell, Skip, Good, Tree;
      SkipTo(w, Spell(x) + rest);
      ReadsBack(x, rest);
    }
  }
}
