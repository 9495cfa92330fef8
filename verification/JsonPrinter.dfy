/** The two-pass printer.  Every printed text is composed in a buffer allocated
    from the first pass, so the bounds checks of the methods below are the proof
    that each allocation is large enough.  A finished buffer is handed on as the
    C string it holds. */
module JsonPrinter {
  import opened Arithmetic
  import opened Sequences
  import opened JsonStrings
  import opened Json

  /** `s` and a terminator, written from `at` on. */
  method StrCpy(out: array<char>, at: nat, s: string)
    requires at + |s| < out.Length
    modifies out
    ensures out[..at] == old(out[..at])
    ensures out[..at + |s|] == old(out[..at]) + s
    ensures out[at + |s|] == '\0'
    ensures out[at + |s| + 1..] == old(out[at + |s| + 1..])
  {
    var i := 0;
    while i < |s|
      invariant 0 <= i <= |s|
      invariant out[..at] == old(out[..at])
      invariant out[at..at + i] == s[..i]
      invariant out[at + |s| + 1..] == old(out[at + |s| + 1..])
    {
      out[at + i] := s[i];
      i := i + 1;
    }
    out[at + |s|] := '\0';
    assert out[..at + |s|] == out[..at] + out[at..at + |s|];
  }

  /** A buffer of fixed size being filled from the front. */
  class Cursor {
    const out: array<char>
    var ptr: nat
    ghost var text: string

    ghost predicate Valid()
      reads this, out
    {
      ptr == |text| <= out.Length && out[..ptr] == text
    }

    constructor (size: nat)
      ensures Valid() && text == [] && out.Length == size && fresh(out)
    {
      out := new char[size];
      ptr, text := 0, [];
    }

    method Put(s: string)
      requires Valid() && |text| + |s| <= out.Length
      modifies this, out
      ensures Valid() && text == old(text) + s
    {
      ghost var was := text;
      var i := 0;
      while i < |s|
        invariant 0 <= i <= |s| && Valid() && text == was + s[..i]
      {
        out[ptr] := s[i];
        ptr, text := ptr + 1, text + [s[i]];
        i := i + 1;
        assert s[..i] == s[..i - 1] + [s[i - 1]];
      }
    }

    method PutWhen(cond: bool, s: string)
      requires Valid() && |text| + |When(cond, s)| <= out.Length
      modifies this, out
      ensures Valid() && text == old(text) + When(cond, s)
    {
      if cond {
        Put(s);
      }
    }

    method PutTabs(n: int)
      requires Valid() && |text| + (if n > 0 then n else 0) <= out.Length
      modifies this, out
      ensures Valid() && text == old(text) + Tabs(n)
    {
      ghost var was := text;
      var j := 0;
      while j < n
        invariant 0 <= j && (j <= n || j == 0) && Valid() && text == was + Tabs(j) && |text| == |was| + j
      {
        Put("\t");
        Assoc(was, Tabs(j), "\t");
        j := j + 1;
      }
    }

    /** The terminator, which the next character overwrites. */
    method Terminate()
      requires Valid() && |text| < out.Length
      modifies out
      ensures Valid() && out[|text|] == '\0'
    {
      out[ptr] := '\0';
    }

    method Take() returns (s: string)
      requires Valid()
      ensures s == text
    {
      s := out[..ptr];
    }
  }

  // ----- strings

  lemma {:induction false} EscapedAllAppend(a: string, b: string)
    ensures EscapedAll(a + b) == EscapedAll(a) + EscapedAll(b)
  {
    if a == [] {
      assert a + b == b;
    } else {
      assert (a + b)[1..] == a[1..] + b && (a + b)[0] == a[0];
      EscapedAllAppend(a[1..], b);
      Assoc(Escaped(a[0]), EscapedAll(a[1..]), EscapedAll(b));
    }
  }

  lemma EscapedAllSnoc(s: string, i: nat)
    requires i < |s|
    ensures EscapedAll(s[..i + 1]) == EscapedAll(s[..i]) + Escaped(s[i])
  {
    assert s[..i + 1] == s[..i] + [s[i]];
    EscapedAllAppend(s[..i], [s[i]]);
    assert EscapedAll([s[i]]) == Escaped(s[i]) + EscapedAll([]);
  }

  const ESCAPED_SHORT: string := [QUOTE, BACKSLASH, BACKSPACE, FORM_FEED, '\n', '\r', '\t']

  /** First pass over a string: exactly the number of bytes between the quotes. */
  method MeasureEscaped(str: string) returns (len: nat)
    ensures len == |EscapedAll(str)|
  {
    len := 0;
    var i := 0;
    while i < |str|
      invariant 0 <= i <= |str|
      invariant len == |EscapedAll(str[..i])|
    {
      EscapedAllSnoc(str, i);
      var token := str[i];
      len := len + 1;
      if token in ESCAPED_SHORT {
        len := len + 1;
      } else if token as int < 32 {
        len := len + 5;
      }
      i := i + 1;
    }
    assert str[..i] == str;
  }

  /** Prints a string literal; the buffer is exactly its size and one NUL. */
  method PrintStringPtr(str: string) returns (text: string)
    ensures text == Quoted(str)
  {
    var len := MeasureEscaped(str);
    var c := new Cursor(len + 3);
    c.Put([QUOTE]);
    var i := 0;
    while i < |str|
      invariant 0 <= i <= |str| && c.Valid() && fresh(c) && fresh(c.out) && c.out.Length == len + 3
      invariant c.text == [QUOTE] + EscapedAll(str[..i])
    {
      EscapedAllSnoc(str, i);
      PrefixLength(str, i + 1);
      Assoc([QUOTE], EscapedAll(str[..i]), Escaped(str[i]));
      PutEscaped(c, str[i]);
      i := i + 1;
    }
    assert str[..i] == str;
    c.Put([QUOTE]);
    text := c.Take();
    c.Put("\0");
    assert |c.text| == c.out.Length;
  }

  lemma PrefixLength(s: string, i: nat)
    requires i <= |s|
    ensures |EscapedAll(s[..i])| <= |EscapedAll(s)|
  {
    assert s[..i] + s[i..] == s;
    EscapedAllAppend(s[..i], s[i..]);
  }

  /** One character; a numeric escape also leaves the terminator of its `sprintf`. */
  method PutEscaped(c: Cursor, token: char)
    requires c.Valid() && |c.text| + |Escaped(token)| < c.out.Length
    modifies c, c.out
    ensures c.Valid() && c.text == old(c.text) + Escaped(token)
  {
    if PlainChar(token) {
      c.Put([token]);
    } else {
      ghost var start := c.text;
      c.Put([BACKSLASH]);
      var code := EscapeCode(token);
      c.Put(code);
      c.Terminate();
      Assoc(start, [BACKSLASH], code);
    }
  }

  method EscapeCode(token: char) returns (code: string)
    requires !PlainChar(token)
    ensures Escaped(token) == [BACKSLASH] + code
  {
    if token == '\\' { return "\\"; }
    if token == '\"' { return "\""; }
    if token == BACKSPACE { return "b"; }
    if token == FORM_FEED { return "f"; }
    if token == '\n' { return "n"; }
    if token == '\r' { return "r"; }
    if token == '\t' { return "t"; }
    return "u00" + [LowerHex(token as int / 16), LowerHex(token as int % 16)];
  }

  // ----- numbers

  lemma {:induction false} DigitsBound(n: nat, k: nat, limit: nat)
    requires 0 < k && n < limit && limit == Pow10(k)
    ensures |Digits(n)| <= k
  {
    if k > 1 && n >= 10 {
      DigitsBound(n / 10, k - 1, Pow10(k - 1));
    }
  }

  /** Twenty bytes hold any 32-bit number and its terminator. */
  method PrintNumberText(n: int) returns (text: string)
    requires INT_MIN <= n <= INT_MAX
    ensures text == Decimal(n)
  {
    var str := new char[20];
    assert Pow10(10) == 10 * (10 * (10 * (10 * (10 * Pow10(5))))) && Pow10(5) == 10 * (10 * (10 * (10 * (10 * Pow10(0)))));
    DigitsBound(if n < 0 then -n else n, 10, Pow10(10));
    StrCpy(str, 0, Decimal(n));
    text := str[..|Decimal(n)|];
    assert str[..0] == [];
  }

  // ----- arrays

  /** What the first pass over an array adds up. */
  function ItemsSize(items: seq<Value>, depth: nat, fmt: bool): nat {
    if items == [] then 0
    else |Print(items[0], depth, fmt)| + 2 + (if fmt then 1 else 0) + ItemsSize(items[1..], depth, fmt)
  }

  lemma {:induction false} ItemsFit(items: seq<Value>, depth: nat, fmt: bool)
    ensures |PrintItems(items, depth, fmt)| <= ItemsSize(items, depth, fmt)
  {
    if items != [] {
      ItemsFit(items[1..], depth, fmt);
    }
  }

  lemma {:induction false} ItemsSizeSnoc(items: seq<Value>, i: nat, depth: nat, fmt: bool)
    requires i < |items|
    ensures ItemsSize(items[..i + 1], depth, fmt)
         == ItemsSize(items[..i], depth, fmt) + |Print(items[i], depth, fmt)| + 2 + (if fmt then 1 else 0)
  {
    if i > 0 {
      ItemsSizeSnoc(items[1..], i - 1, depth, fmt);
      assert items[..i + 1][1..] == items[1..][..i] && items[..i][1..] == items[1..][..i - 1];
    }
  }

  /** First pass over an array: the printed elements and the size to allocate. */
  method CollectItems(items: seq<Value>, depth: nat, fmt: bool) returns (entries: seq<string>, len: nat)
    requires Representable(Array(items))
    ensures |entries| == |items| && forall k :: 0 <= k < |items| ==> entries[k] == Print(items[k], depth, fmt)
    ensures len == 5 + ItemsSize(items, depth, fmt)
    decreases items, 2
  {
    entries, len := [], 5;
    var i := 0;
    while i < |items|
      invariant 0 <= i <= |items|
      invariant |entries| == i && forall k :: 0 <= k < i ==> entries[k] == Print(items[k], depth, fmt)
      invariant len == 5 + ItemsSize(items[..i], depth, fmt)
    {
      var ret := PrintValue(items[i], depth, fmt);
      ItemsSizeSnoc(items, i, depth, fmt);
      entries := entries + [ret];
      len := len + |ret| + 2 + (if fmt then 1 else 0);
      i := i + 1;
    }
    assert items[..i] == items;
  }

  method PrintArrayText(items: seq<Value>, depth: nat, fmt: bool) returns (text: string)
    requires Representable(Array(items))
    ensures text == Print(Array(items), depth, fmt)
    decreases items, 3
  {
    if |items| == 0 {
      var empty := new char[3];
      StrCpy(empty, 0, "[]");
      assert empty[..0] == [];
      return empty[..2];
    }
    var entries, len := CollectItems(items, depth + 1, fmt);
    ItemsFit(items, depth + 1, fmt);
    text := ComposeArray(len, entries, items, depth + 1, fmt);
  }

  /** Second pass over an array. */
  method ComposeArray(len: nat, entries: seq<string>, ghost items: seq<Value>, ghost depth: nat, fmt: bool)
    returns (text: string)
    requires |entries| == |items| && forall k :: 0 <= k < |items| ==> entries[k] == Print(items[k], depth, fmt)
    requires |PrintItems(items, depth, fmt)| + 3 <= len
    ensures text == "[" + PrintItems(items, depth, fmt) + "]"
  {
    ghost var whole := "[" + PrintItems(items, depth, fmt);
    var c := new Cursor(len);
    c.Put("[");
    c.Terminate();
    var i := 0;
    assert items[0..] == items;
    while i < |entries|
      invariant 0 <= i <= |items| && c.Valid() && fresh(c) && fresh(c.out) && c.out.Length == len
      invariant c.text + PrintItems(items[i..], depth, fmt) == whole
    {
      ItemsSplit(items, i, depth, fmt);
      Assoc(c.text, ItemPiece(items, i, depth, fmt), PrintItems(items[i + 1..], depth, fmt));
      PutItem(c, entries[i], i != |entries| - 1, items, i, depth, fmt);
      i := i + 1;
    }
    assert c.text == whole;
    c.Put("]");
    text := c.Take();
    c.Put("\0");
  }

  method PutItem(c: Cursor, entry: string, comma: bool, ghost items: seq<Value>, ghost i: nat, ghost depth: nat, fmt: bool)
    requires i < |items| && comma == (i != |items| - 1) && entry == Print(items[i], depth, fmt)
    requires c.Valid() && |c.text| + |ItemPiece(items, i, depth, fmt)| < c.out.Length
    modifies c, c.out
    ensures c.Valid() && c.text == old(c.text) + ItemPiece(items, i, depth, fmt)
  {
    Assoc(c.text, entry, When(comma, "," + When(fmt, " ")));
    c.Put(entry);
    c.Terminate();
    if comma {
      Assoc(c.text, ",", When(fmt, " "));
      c.Put(",");
      c.PutWhen(fmt, " ");
      c.Terminate();
    }
  }

  /** One element with what separates it from the next. */
  function ItemPiece(items: seq<Value>, i: nat, depth: nat, fmt: bool): string
    requires i < |items|
  {
    Print(items[i], depth, fmt) + When(i != |items| - 1, "," + When(fmt, " "))
  }

  lemma ItemsSplit(items: seq<Value>, i: nat, depth: nat, fmt: bool)
    requires i < |items|
    ensures PrintItems(items[i..], depth, fmt) == ItemPiece(items, i, depth, fmt) + PrintItems(items[i + 1..], depth, fmt)
  {
    assert items[i..][1..] == items[i + 1..] && items[i..][0] == items[i];
  }

  method PrintValue(item: Value, depth: nat, fmt: bool) returns (text: string)
    requires Representable(item)
    ensures text == Print(item, depth, fmt)
    decreases item, 1
  {
    match item
    case Null => text := "null";
    case False => text := "false";
    case True => text := "true";
    case Number(n) => text := PrintNumberText(n);
    case String(s) =>
      text := PrintStringPtr(s);
    case Array(items) => text := PrintArrayText(items, depth, fmt);
    case Object(ms) => text := PrintObjectText(ms, depth, fmt);
  }

  // ----- objects

  /** What the first pass over an object adds up. */
  function MembersSize(ms: seq<Member>, depth: nat, fmt: bool): nat {
    if ms == [] then 0
    else |Print(ms[0].value, depth, fmt)| + |Quoted(ms[0].name)| + 2 + (if fmt then 2 + depth else 0) + MembersSize(ms[1..], depth, fmt)
  }

  lemma {:induction false} TabsLength(n: nat)
    ensures |Tabs(n)| == n
  {
    if n > 0 { TabsLength(n - 1); }
  }

  lemma {:induction false} MembersFit(ms: seq<Member>, depth: nat, fmt: bool)
    ensures |PrintMembers(ms, depth, fmt)| <= MembersSize(ms, depth, fmt)
  {
    TabsLength(depth);
    if ms != [] {
      MembersFit(ms[1..], depth, fmt);
    }
  }

  lemma {:induction false} MembersSizeSnoc(ms: seq<Member>, i: nat, depth: nat, fmt: bool)
    requires i < |ms|
    ensures MembersSize(ms[..i + 1], depth, fmt)
         == MembersSize(ms[..i], depth, fmt) + |Print(ms[i].value, depth, fmt)| + |Quoted(ms[i].name)| + 2 + (if fmt then 2 + depth else 0)
  {
    if i > 0 {
      MembersSizeSnoc(ms[1..], i - 1, depth, fmt);
      assert ms[..i + 1][1..] == ms[1..][..i] && ms[..i][1..] == ms[1..][..i - 1];
    }
  }

  /** The printed name and the printed value of a member. */
  datatype Entry = Entry(name: string, value: string)

  ghost predicate Printed(entries: seq<Entry>, ms: seq<Member>, depth: nat, fmt: bool) {
    && |entries| == |ms|
    && forall k :: 0 <= k < |ms| ==> entries[k] == EntryOf(ms[k], depth, fmt)
  }

  function EntryOf(m: Member, depth: nat, fmt: bool): Entry {
    Entry(Quoted(m.name), Print(m.value, depth, fmt))
  }

  lemma PrintedSnoc(entries: seq<Entry>, ms: seq<Member>, i: nat, depth: nat, fmt: bool)
    requires i < |ms| && Printed(entries, ms[..i], depth, fmt)
    ensures Printed(entries + [EntryOf(ms[i], depth, fmt)], ms[..i + 1], depth, fmt)
  {
  }

  method CollectMembers(ms: seq<Member>, depth: nat, fmt: bool) returns (entries: seq<Entry>, len: nat)
    requires Representable(Object(ms))
    ensures Printed(entries, ms, depth, fmt)
    ensures len == 7 + (if fmt then depth else 0) + MembersSize(ms, depth, fmt)
    decreases ms, 2
  {
    entries, len := [], 7;
    if fmt { len := len + depth; }
    var i := 0;
    while i < |ms|
      invariant 0 <= i <= |ms|
      invariant Printed(entries, ms[..i], depth, fmt)
      invariant len == 7 + (if fmt then depth else 0) + MembersSize(ms[..i], depth, fmt)
    {
      var str := PrintStringPtr(ms[i].name);
      var ret := PrintValue(ms[i].value, depth, fmt);
      MembersSizeSnoc(ms, i, depth, fmt);
      PrintedSnoc(entries, ms, i, depth, fmt);
      entries := entries + [Entry(str, ret)];
      len := len + |ret| + |str| + 2 + (if fmt then 2 + depth else 0);
      i := i + 1;
    }
    assert ms[..i] == ms;
  }

  method PrintObjectText(ms: seq<Member>, depth: nat, fmt: bool) returns (text: string)
    requires Representable(Object(ms))
    ensures text == Print(Object(ms), depth, fmt)
    decreases ms, 3
  {
    if |ms| == 0 {
      text := PrintEmptyObject(depth, fmt);
      return;
    }
    var entries, len := CollectMembers(ms, depth + 1, fmt);
    MembersFit(ms, depth + 1, fmt);
    text := ComposeObject(len, entries, ms, depth, fmt);
  }

  method PrintEmptyObject(depth: nat, fmt: bool) returns (text: string)
    ensures text == Print(Object([]), depth, fmt)
  {
    var c := new Cursor(if fmt then depth + 4 else 3);
    if depth > 0 { TabsLength(depth - 1); }
    c.Put("{");
    if fmt {
      c.Put("\n");
      c.PutTabs(depth - 1);
    }
    c.Put("}");
    text := c.Take();
    c.Put("\0");
  }

  /** Second pass over an object. */
  method ComposeObject(len: nat, entries: seq<Entry>, ghost ms: seq<Member>, depth: nat, fmt: bool) returns (text: string)
    requires 0 < |ms| && Printed(entries, ms, depth + 1, fmt)
    requires |PrintMembers(ms, depth + 1, fmt)| + 4 + (if fmt then depth else 0) <= len
    ensures text == "{" + When(fmt, "\n") + PrintMembers(ms, depth + 1, fmt) + When(fmt, Tabs(depth)) + "}"
  {
    var c := new Cursor(len);
    c.Put("{");
    assert c.text == "{";
    c.PutWhen(fmt, "\n");
    c.Terminate();
    ComposeMembers(c, entries, ms, depth + 1, fmt);
    text := CloseObject(c, depth, fmt);
  }

  method ComposeMembers(c: Cursor, entries: seq<Entry>, ghost ms: seq<Member>, depth: nat, fmt: bool)
    requires Printed(entries, ms, depth, fmt)
    requires c.Valid() && |c.text| + |PrintMembers(ms, depth, fmt)| < c.out.Length
    modifies c, c.out
    ensures c.Valid() && c.text == old(c.text) + PrintMembers(ms, depth, fmt)
  {
    ghost var whole := c.text + PrintMembers(ms, depth, fmt);
    var i := 0;
    assert ms[0..] == ms;
    while i < |entries|
      invariant 0 <= i <= |ms| && c.Valid()
      invariant c.text + PrintMembers(ms[i..], depth, fmt) == whole
    {
      MembersSplit(ms, i, depth, fmt);
      Assoc(c.text, MemberPiece(ms, i, depth, fmt), PrintMembers(ms[i + 1..], depth, fmt));
      PutMember(c, entries[i], i != |entries| - 1, ms, i, depth, fmt);
      i := i + 1;
    }
    assert ms[i..] == [] && c.text + [] == c.text;
  }

  method CloseObject(c: Cursor, depth: nat, fmt: bool) returns (text: string)
    requires c.Valid() && |c.text| + (if fmt then depth else 0) + 2 <= c.out.Length
    modifies c, c.out
    ensures text == old(c.text) + When(fmt, Tabs(depth)) + "}"
  {
    TabsLength(depth);
    if fmt {
      c.PutTabs(depth);
    }
    c.Put("}");
    text := c.Take();
    c.Put("\0");
  }

  /** One member with what separates it from the next. */
  function MemberPiece(ms: seq<Member>, i: nat, depth: nat, fmt: bool): string
    requires i < |ms|
  {
    PrintMember(ms[i], depth, fmt) + When(i != |ms| - 1, ",") + When(fmt, "\n")
  }

  lemma MembersSplit(ms: seq<Member>, i: nat, depth: nat, fmt: bool)
    requires i < |ms|
    ensures PrintMembers(ms[i..], depth, fmt) == MemberPiece(ms, i, depth, fmt) + PrintMembers(ms[i + 1..], depth, fmt)
  {
    assert ms[i..][1..] == ms[i + 1..] && ms[i..][0] == ms[i];
  }

  method PutMember(c: Cursor, entry: Entry, comma: bool, ghost ms: seq<Member>, ghost i: nat, depth: nat, fmt: bool)
    requires i < |ms| && comma == (i != |ms| - 1) && entry == EntryOf(ms[i], depth, fmt)
    requires c.Valid() && |c.text| + |MemberPiece(ms, i, depth, fmt)| < c.out.Length
    modifies c, c.out
    ensures c.Valid() && c.text == old(c.text) + MemberPiece(ms, i, depth, fmt)
  {
    ghost var m := PrintMember(ms[i], depth, fmt);
    Assoc(c.text, m, When(comma, ","));
    Assoc(c.text, m + When(comma, ","), When(fmt, "\n"));
    PutNameAndValue(c, entry.name, entry.value, depth, fmt);
    c.PutWhen(comma, ",");
    c.PutWhen(fmt, "\n");
    c.Terminate();
  }

  method PutNameAndValue(c: Cursor, name: string, entry: string, depth: nat, fmt: bool)
    requires c.Valid() && |c.text| + |When(fmt, Tabs(depth)) + name + ":" + When(fmt, "\t") + entry| < c.out.Length
    modifies c, c.out
    ensures c.Valid() && c.text == old(c.text) + (When(fmt, Tabs(depth)) + name + ":" + When(fmt, "\t") + entry)
  {
    ghost var start, w, tab := c.text, When(fmt, Tabs(depth)), When(fmt, "\t");
    Assoc(start, w, name);
    Assoc(start, w + name, ":");
    Assoc(start, w + name + ":", tab);
    Assoc(start, w + name + ":" + tab, entry);
    TabsLength(depth);
    if fmt {
      c.PutTabs(depth);
    }
    c.Put(name);
    c.Terminate();
    c.Put(":");
    c.PutWhen(fmt, "\t");
    c.Put(entry);
    c.Terminate();
  }
}
