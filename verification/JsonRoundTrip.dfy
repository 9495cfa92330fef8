/** Parsing what was printed gives the tree back, at every depth and in both
    forms, and consumes exactly the printed text. */
module JsonRoundTrip {
  import opened Sequences
  import opened JsonStrings
  import opened Json

  // ----- regrouping concatenations

  lemma SplitFirst<T>(done: seq<T>, xs: seq<T>)
    requires xs != []
    ensures done + [xs[0]] + xs[1..] == done + xs
    ensures |xs| == 1 ==> done + [xs[0]] == done + xs
  {
  }

  // ----- numbers

  /** Text after a number that the number parser would go on reading. */
  predicate ExtendsNumber(t: string) {
    IsDigit(Head(t)) || Head(t) == 'e' || Head(t) == 'E' || (Head(t) == '.' && IsDigit(Head(Advance(t, 1))))
  }

  lemma WrapStep(m: int, d: int)
    ensures Wrap32(Wrap32(Wrap32(m) * 10) + d) == Wrap32(m * 10 + d)
  {
    var q := (m - INT_MIN) / 0x1_0000_0000;
    assert Wrap32(m) == m - q * 0x1_0000_0000;
    var p := (Wrap32(m) * 10 - INT_MIN) / 0x1_0000_0000;
    assert Wrap32(Wrap32(m) * 10) == Wrap32(m) * 10 - p * 0x1_0000_0000;
    assert Wrap32(Wrap32(m) * 10) + d - INT_MIN == m * 10 + d - INT_MIN + (-10 * q - p) * 0x1_0000_0000;
    ModMultiple(m * 10 + d - INT_MIN, -10 * q - p);
  }

  lemma ModMultiple(a: int, k: int)
    ensures (a + k * 0x1_0000_0000) % 0x1_0000_0000 == a % 0x1_0000_0000
  {
  }

  lemma {:induction false} AccumulateDigits(n: nat, rest: string)
    ensures Accumulate(Digits(n) + rest, 0) == Accumulate(rest, Wrap32(n))
  {
    var d := [(n % 10 + '0' as int) as char];
    if n < 10 {
      assert Digits(n) + rest == d + rest && (d + rest)[1..] == rest;
    } else {
      assert Digits(n) + rest == Digits(n / 10) + (d + rest);
      AccumulateDigits(n / 10, d + rest);
      assert (d + rest)[1..] == rest;
      WrapStep(n / 10, n % 10);
    }
  }

  /** The integer part of a number behind its sign. */
  function Unsigned(t: string): (int, string) {
    var u := if Head(t) == '0' then t[1..] else t;
    if '1' <= Head(u) <= '9' then Accumulate(u, 0) else (0, u)
  }

  lemma ParseNegative(u: string, w: int, rest: string)
    requires Unsigned(u) == (w, rest)
    ensures ParseNumber("-" + u) == (Wrap32(-w), SkipExponent(SkipFraction(rest)))
  {
    hide Accumulate, Wrap32, SkipFraction, SkipExponent;
    assert ("-" + u)[1..] == u;
  }

  lemma ParsePositive(u: string, w: int, rest: string)
    requires Unsigned(u) == (w, rest) && Head(u) != '-'
    ensures ParseNumber(u) == (w, SkipExponent(SkipFraction(rest)))
  {
    hide Accumulate, Wrap32, SkipFraction, SkipExponent;
  }

  lemma UnsignedRoundTrip(k: nat, rest: string)
    requires !IsDigit(Head(rest))
    ensures Unsigned(Digits(k) + rest) == (Wrap32(k), rest)
  {
    if k == 0 {
      assert (Digits(k) + rest)[1..] == rest;
    } else {
      hide Accumulate, Wrap32, Digits;
      var d := Digits(k);
      assert Head(d + rest) == d[0] && '1' <= d[0] <= '9';
      AccumulateDigits(k, rest);
      AccumulateStops(rest, Wrap32(k));
    }
  }

  lemma AccumulateStops(rest: string, w: int)
    requires !IsDigit(Head(rest))
    ensures Accumulate(rest, w) == (w, rest)
  {
  }

  lemma WrapInRange(n: int)
    requires INT_MIN <= n <= INT_MAX
    ensures Wrap32(n) == n
  {
  }

  lemma WrapNegate(n: int)
    requires INT_MIN <= n < 0
    ensures Wrap32(-Wrap32(-n)) == n
  {
    if n == INT_MIN {
      assert Wrap32(-n) == n;
    } else {
      WrapInRange(-n);
      WrapInRange(n);
    }
  }

  lemma NumberRoundTrip(n: int, rest: string)
    requires INT_MIN <= n <= INT_MAX
    requires !ExtendsNumber(rest)
    ensures ParseNumber(Decimal(n) + rest) == (n, rest)
  {
    assert SkipExponent(SkipFraction(rest)) == rest && !IsDigit(Head(rest));
    hide *;
    var k: nat := if n < 0 then -n else n;
    UnsignedRoundTrip(k, rest);
    DecimalIs(n, rest);
    if n < 0 {
      Assoc("-", Digits(k), rest);
      ParseNegative(Digits(k) + rest, Wrap32(k), rest);
      WrapNegate(n);
    } else {
      ParsePositive(Digits(k) + rest, Wrap32(k), rest);
      WrapInRange(n);
    }
  }

  lemma DecimalIs(n: int, rest: string)
    ensures Decimal(n) == if n < 0 then "-" + Digits(-n) else Digits(n)
    ensures n >= 0 ==> Head(Digits(n) + rest) != '-'
  {
  }

  // ----- white space

  predicate Blank(w: string) {
    forall i :: 0 <= i < |w| ==> 0 < w[i] as int <= 32
  }

  lemma {:induction false} SkipBlank(w: string, t: string)
    requires Blank(w)
    ensures Skip(w + t) == Skip(t)
  {
    if w == [] {
      assert w + t == t;
    } else {
      assert (w + t)[1..] == w[1..] + t;
      SkipBlank(w[1..], t);
    }
  }

  lemma SkipNewline(fmt: bool, t: string)
    ensures Skip(When(fmt, "\n") + t) == Skip(t)
  {
    SkipBlank(When(fmt, "\n"), t);
  }

  lemma {:induction false} TabsBlank(n: int)
    ensures Blank(Tabs(n))
  {
    if n > 0 { TabsBlank(n - 1); }
  }

  /** A printed value starts with a character that no parser skips, and that
      closes nothing. */
  lemma PrintStarts(v: Value, depth: nat, fmt: bool)
    ensures var p := Print(v, depth, fmt);
            && |p| > 0 && p[0] as int > 32 && p[0] != ']' && p[0] != '}'
  {
  }

  // ----- single steps of the parser

  lemma NotLiteral(t: string)
    requires t != [] && t[0] != 'n' && t[0] != 'f' && t[0] != 't'
    ensures !("null" <= t) && !("false" <= t) && !("true" <= t)
  {
  }

  lemma ItemsLast(t: string, done: seq<Value>, v: Value, rest: string)
    requires Parse(Skip(t)) == Ok(v, "]" + rest)
    ensures ParseItems(t, done) == Ok(Array(done + [v]), rest)
  {
    assert ("]" + rest)[1..] == rest;
  }

  lemma ItemsNext(t: string, done: seq<Value>, v: Value, u: string)
    requires Parse(Skip(t)) == Ok(v, "," + u)
    ensures ParseItems(t, done) == ParseItems(u, done + [v])
  {
    assert ("," + u)[1..] == u;
  }

  lemma MembersLast(t: string, done: seq<Member>, m: Member, rest: string)
    requires ParseMember(t) == Ok(m, "}" + rest)
    ensures ParseMembers(t, done) == Ok(Object(done + [m]), rest)
  {
    assert ("}" + rest)[1..] == rest;
  }

  lemma MembersNext(t: string, done: seq<Member>, m: Member, u: string)
    requires ParseMember(t) == Ok(m, "," + u)
    ensures ParseMembers(t, done) == ParseMembers(u, done + [m])
  {
    assert ("," + u)[1..] == u;
  }

  lemma MemberStep(t: string, name: string, u: string, v: Value, after: string)
    requires ParseString(Skip(t)) == Ok(name, ":" + u)
    requires Parse(Skip(u)) == Ok(v, after)
    ensures ParseMember(t) == Ok(Member(name, v), Skip(after))
  {
    assert (":" + u)[1..] == u;
  }

  lemma OpenArray(u: string)
    ensures Head(Skip(u)) != ']' ==> Parse("[" + u) == ParseItems(Skip(u), [])
    ensures Head(Skip(u)) == ']' ==> Parse("[" + u) == Ok(Array([]), Skip(u)[1..])
  {
    NotLiteral("[" + u);
    assert ("[" + u)[1..] == u;
  }

  lemma OpenObject(u: string)
    ensures Head(Skip(u)) != '}' ==> Parse("{" + u) == ParseMembers(Skip(u), [])
    ensures Head(Skip(u)) == '}' ==> Parse("{" + u) == Ok(Object([]), Skip(u)[1..])
  {
    NotLiteral("{" + u);
    assert ("{" + u)[1..] == u;
  }

  // ----- values

  lemma LiteralRoundTrip(v: Value, rest: string)
    requires v.Null? || v.False? || v.True?
    ensures Parse(Print(v, 0, false) + rest) == Ok(v, rest)
  {
    var p := Print(v, 0, false);
    var t := p + rest;
    assert p <= t && t[|p|..] == rest;
    assert v.False? ==> t[0] != "null"[0];
    assert v.True? ==> t[0] != "null"[0] && t[0] != "false"[0];
  }

  lemma StringRoundTrip(s: string, rest: string)
    requires CString(s)
    ensures ParseString(Quoted(s) + rest) == Ok(s, rest)
  {
    assert (Quoted(s) + rest)[1..] == EscapedAll(s) + ([QUOTE] + rest);
    EscapeRoundTrip(s, rest);
    assert ([QUOTE] + rest)[1..] == rest;
  }

  lemma ScalarRoundTrip(v: Value, rest: string)
    requires v.Number? || v.String?
    requires Representable(v)
    requires v.Number? ==> !ExtendsNumber(rest)
    ensures Parse(Print(v, 0, false) + rest) == Ok(v, rest)
  {
    var t := Print(v, 0, false) + rest;
    NotLiteral(t);
    if v.Number? {
      NumberRoundTrip(v.n, rest);
    } else {
      StringRoundTrip(v.s, rest);
    }
  }

  lemma EmptyRoundTrip(v: Value, depth: nat, fmt: bool, rest: string)
    requires v == Array([]) || v == Object([])
    ensures Parse(Print(v, depth, fmt) + rest) == Ok(v, rest)
  {
    if v.Array? {
      assert Print(v, depth, fmt) + rest == "[" + ("]" + rest);
      OpenArray("]" + rest);
      assert ("]" + rest)[1..] == rest;
    } else {
      var w := When(fmt, "\n" + Tabs(depth - 1));
      TabsBlank(depth - 1);
      assert Print(v, depth, fmt) + rest == "{" + (w + ("}" + rest));
      SkipBlank(w, "}" + rest);
      OpenObject(w + ("}" + rest));
      assert ("}" + rest)[1..] == rest;
    }
  }

  /** The round trip.  Only a number cares about the text that follows it. */
  lemma {:induction false} RoundTrip(v: Value, depth: nat, fmt: bool, rest: string)
    requires Representable(v)
    requires v.Number? ==> !ExtendsNumber(rest)
    ensures Parse(Print(v, depth, fmt) + rest) == Ok(v, rest)
    decreases v, 1
  {
    if v.Number? || v.String? {
      ScalarRoundTrip(v, rest);
    } else if v.Array? {
      ArrayRoundTrip(v, depth, fmt, rest);
    } else if v.Object? {
      ObjectRoundTrip(v, depth, fmt, rest);
    } else {
      LiteralRoundTrip(v, rest);
    }
  }

  lemma {:induction false} ArrayRoundTrip(v: Value, depth: nat, fmt: bool, rest: string)
    requires Representable(v) && v.Array?
    ensures Parse(Print(v, depth, fmt) + rest) == Ok(v, rest)
    decreases v, 0
  {
    if v.items == [] {
      EmptyRoundTrip(v, depth, fmt, rest);
    } else {
      var body := PrintItems(v.items, depth + 1, fmt) + ("]" + rest);
      assert Print(v, depth, fmt) + rest == "[" + body;
      PrintStarts(v.items[0], depth + 1, fmt);
      assert Skip(body) == body;
      OpenArray(body);
      ItemsRoundTrip(v.items, [], depth + 1, fmt, body, rest);
      assert [] + v.items == v.items;
    }
  }

  lemma {:induction false} ItemsRoundTrip(items: seq<Value>, done: seq<Value>, depth: nat, fmt: bool, t: string, rest: string)
    requires items != [] && forall i :: 0 <= i < |items| ==> Representable(items[i])
    requires Skip(t) == PrintItems(items, depth, fmt) + ("]" + rest)
    ensures ParseItems(t, done) == Ok(Array(done + items), rest)
    decreases items, 2
  {
    var v, more := items[0], items[1..];
    if more == [] {
      ItemsText(items, depth, fmt, "]" + rest);
      RoundTrip(v, depth, fmt, "]" + rest);
      ItemsLast(t, done, v, rest);
      SplitFirst(done, items);
    } else {
      var u := When(fmt, " ") + (PrintItems(more, depth, fmt) + ("]" + rest));
      ItemsText(items, depth, fmt, "]" + rest);
      RoundTrip(v, depth, fmt, "," + u);
      ItemsNext(t, done, v, u);
      ItemsStart(more, depth, fmt, "]" + rest);
      ItemsRoundTrip(more, done + [v], depth, fmt, u, rest);
      SplitFirst(done, items);
    }
  }

  lemma ItemsText(items: seq<Value>, depth: nat, fmt: bool, tail: string)
    requires items != []
    ensures PrintItems(items, depth, fmt) + tail == Print(items[0], depth, fmt) +
            if |items| == 1 then tail else "," + (When(fmt, " ") + (PrintItems(items[1..], depth, fmt) + tail))
  {
    var p, q := Print(items[0], depth, fmt), PrintItems(items[1..], depth, fmt);
    if |items| == 1 {
      assert p + [] + [] + tail == p + tail;
    } else {
      Assoc(p, "," + When(fmt, " "), q);
      Assoc(p, "," + When(fmt, " ") + q, tail);
      Regroup(",", When(fmt, " "), q, tail, []);
    }
  }

  lemma ItemsStart(items: seq<Value>, depth: nat, fmt: bool, tail: string)
    requires items != []
    ensures var body := PrintItems(items, depth, fmt) + tail;
            Skip(When(fmt, " ") + body) == body
  {
    var body := PrintItems(items, depth, fmt) + tail;
    SkipBlank(When(fmt, " "), body);
    PrintStarts(items[0], depth, fmt);
  }

  lemma {:induction false} ObjectRoundTrip(v: Value, depth: nat, fmt: bool, rest: string)
    requires Representable(v) && v.Object?
    ensures Parse(Print(v, depth, fmt) + rest) == Ok(v, rest)
    decreases v, 0
  {
    if v.members == [] {
      EmptyRoundTrip(v, depth, fmt, rest);
    } else {
      var tail := When(fmt, Tabs(depth)) + ("}" + rest);
      var body := PrintMembers(v.members, depth + 1, fmt) + tail;
      ObjectText(v, depth, fmt, rest);
      SkipNewline(fmt, body);
      MembersStart(v.members, depth + 1, fmt, tail);
      OpenObject(When(fmt, "\n") + body);
      MembersRoundTrip(v.members, [], depth + 1, fmt, Skip(body), rest);
      assert [] + v.members == v.members;
    }
  }

  lemma ObjectText(v: Value, depth: nat, fmt: bool, rest: string)
    requires v.Object? && v.members != []
    ensures Print(v, depth, fmt) + rest
         == "{" + (When(fmt, "\n") + (PrintMembers(v.members, depth + 1, fmt) + (When(fmt, Tabs(depth)) + ("}" + rest))))
  {
    var nl, ms, w := When(fmt, "\n"), PrintMembers(v.members, depth + 1, fmt), When(fmt, Tabs(depth));
    Regroup("{" + nl, ms, w, "}", rest);
    Assoc("{", nl, ms + (w + ("}" + rest)));
  }

  /** The text of one member, from its name on. */
  function MemberText(m: Member, depth: nat, fmt: bool, after: string): string {
    Quoted(m.name) + (":" + (When(fmt, "\t") + (Print(m.value, depth, fmt) + after)))
  }

  lemma MemberStart(m: Member, depth: nat, fmt: bool, after: string)
    ensures Skip(PrintMember(m, depth, fmt) + after) == MemberText(m, depth, fmt, after)
  {
    var w, b := When(fmt, Tabs(depth)), MemberText(m, depth, fmt, after);
    var tab, p := When(fmt, "\t"), Print(m.value, depth, fmt);
    Regroup(w + Quoted(m.name), ":", tab, p, after);
    Assoc(w, Quoted(m.name), ":" + (tab + (p + after)));
    TabsBlank(depth);
    SkipBlank(w, b);
  }

  /** What follows a member's value in the printed object. */
  function AfterMember(more: seq<Member>, depth: nat, fmt: bool, tail: string): string {
    if more == [] then When(fmt, "\n") + tail
    else "," + (When(fmt, "\n") + (PrintMembers(more, depth, fmt) + tail))
  }

  lemma MembersText(ms: seq<Member>, depth: nat, fmt: bool, tail: string)
    requires ms != []
    ensures PrintMembers(ms, depth, fmt) + tail == PrintMember(ms[0], depth, fmt) + AfterMember(ms[1..], depth, fmt, tail)
  {
    var comma, nl, p := When(|ms| > 1, ","), When(fmt, "\n"), PrintMembers(ms[1..], depth, fmt);
    Regroup(PrintMember(ms[0], depth, fmt), comma, nl, p, tail);
    assert ms[1..] == [] ==> comma + (nl + (p + tail)) == nl + tail;
  }

  lemma MembersStart(ms: seq<Member>, depth: nat, fmt: bool, tail: string)
    requires ms != []
    ensures var body := Skip(PrintMembers(ms, depth, fmt) + tail);
            && body == MemberText(ms[0], depth, fmt, AfterMember(ms[1..], depth, fmt, tail))
            && Skip(body) == body && Head(body) == QUOTE
  {
    var after := AfterMember(ms[1..], depth, fmt, tail);
    MembersText(ms, depth, fmt, tail);
    MemberStart(ms[0], depth, fmt, after);
  }

  lemma AfterMemberStops(more: seq<Member>, depth: nat, fmt: bool, rest: string)
    ensures var tail := When(fmt, Tabs(depth - 1)) + ("}" + rest);
            var after := AfterMember(more, depth, fmt, tail);
            && !ExtendsNumber(after)
            && Skip(after) == if more == [] then "}" + rest else after
  {
    var w, w' := When(fmt, "\n"), When(fmt, Tabs(depth - 1));
    TabsBlank(depth - 1);
    if more == [] {
      SkipBlank(w, w' + ("}" + rest));
      SkipBlank(w', "}" + rest);
      assert !fmt ==> w + (w' + ("}" + rest)) == "}" + rest;
    }
  }

  lemma {:induction false} MembersRoundTrip(ms: seq<Member>, done: seq<Member>, depth: nat, fmt: bool, t: string, rest: string)
    requires ms != [] && forall i :: 0 <= i < |ms| ==> CString(ms[i].name) && Representable(ms[i].value)
    requires Skip(t) == Skip(PrintMembers(ms, depth, fmt) + (When(fmt, Tabs(depth - 1)) + ("}" + rest)))
    ensures ParseMembers(t, done) == Ok(Object(done + ms), rest)
    decreases ms, 3
  {
    var m, more := ms[0], ms[1..];
    var tail := When(fmt, Tabs(depth - 1)) + ("}" + rest);
    var after := AfterMember(more, depth, fmt, tail);
    MembersStart(ms, depth, fmt, tail);
    AfterMemberStops(more, depth, fmt, rest);
    MemberRoundTrip(m, depth, fmt, t, after);
    if more == [] {
      MembersLast(t, done, m, rest);
      SplitFirst(done, ms);
    } else {
      var u := When(fmt, "\n") + (PrintMembers(more, depth, fmt) + tail);
      MembersNext(t, done, m, u);
      SkipNewline(fmt, PrintMembers(more, depth, fmt) + tail);
      MembersRoundTrip(more, done + [m], depth, fmt, u, rest);
      SplitFirst(done, ms);
    }
  }

  lemma {:induction false} MemberRoundTrip(m: Member, depth: nat, fmt: bool, t: string, after: string)
    requires CString(m.name) && Representable(m.value)
    requires !ExtendsNumber(after)
    requires Skip(t) == MemberText(m, depth, fmt, after)
    ensures ParseMember(t) == Ok(m, Skip(after))
    decreases m, 2
  {
    var value := Print(m.value, depth, fmt) + after;
    var u := When(fmt, "\t") + value;
    StringRoundTrip(m.name, ":" + u);
    SkipBlank(When(fmt, "\t"), value);
    PrintStarts(m.value, depth, fmt);
    RoundTrip(m.value, depth, fmt, after);
    MemberStep(t, m.name, u, m.value, after);
  }

  /** Both printed forms of a tree are documents of that tree, with or without
      the demand that nothing follows. */
  lemma DocumentRoundTrip(v: Value, fmt: bool, requireEnd: bool)
    requires Representable(v)
    ensures ParseDocument(Print(v, 0, fmt), requireEnd) == Ok(v, [])
  {
    var p := Print(v, 0, fmt);
    PrintStarts(v, 0, fmt);
    RoundTrip(v, 0, fmt, []);
    assert p + [] == p;
  }
}
