/** The recursive descent parser: loops over NUL-terminated text, each proved to
    compute the grammar function of the same shape. */
module JsonParser {
  import opened Arithmetic
  import opened Bits
  import opened Octets
  import opened Sequences
  import opened JsonStrings
  import opened Json
  import opened JsonMeasure

  method SkipBlanks(in_: string) returns (t: string)
    ensures t == Skip(in_) && Suffix(t, in_)
  {
    t := in_;
    while t != [] && Head(t) != '\0' && Head(t) as int <= 32
      invariant Skip(t) == Skip(in_) && Suffix(t, in_)
      decreases |t|
    {
      t := t[1..];
    }
  }

  const FIRST_BYTE_MARK := [0x00, 0x00, 0xC0, 0xE0, 0xF0]

  /** The 'transcode' step: fills the sequence from its last byte backwards. */
  method EncodeUtf8(cp: nat) returns (out: string)
    requires cp < 0x11_0000
    ensures out == Utf8(cp)
  {
    hide And, Or;
    var len := 4;
    if cp < 0x80 { len := 1; } else if cp < 0x800 { len := 2; } else if cp < 0x1_0000 { len := 3; }
    var uc := cp;
    out := [];
    SixBitDigits(cp);
    if len >= 4 { ContinuationBits(uc); out := [Octet(And(Or(uc, 0x80), 0xBF))] + out; uc := uc / 64; }
    if len >= 3 { ContinuationBits(uc); out := [Octet(And(Or(uc, 0x80), 0xBF))] + out; uc := uc / 64; }
    if len >= 2 { ContinuationBits(uc); out := [Octet(And(Or(uc, 0x80), 0xBF))] + out; uc := uc / 64; }
    FirstByte(uc, len);
    out := [Octet(Or(uc, FIRST_BYTE_MARK[len]))] + out;
  }

  /** The mark of a first byte and the bits under it do not overlap. */
  lemma FirstByte(uc: nat, len: nat)
    requires 1 <= len <= 4
    requires uc < if len == 1 then 0x80 else if len == 2 then 0x20 else if len == 3 then 0x10 else 0x08
    ensures Or(uc, FIRST_BYTE_MARK[len]) == uc + FIRST_BYTE_MARK[len]
  {
    assert Pow2(3) == 8 && Pow2(4) == 16 && Pow2(5) == 32 && Pow2(7) == 4 * Pow2(5);
    hide Or, Pow2;
    match len
    case 1 => OrDisjoint(uc, 0, 7);
    case 2 => OrDisjoint(uc, 6, 5);
    case 3 => OrDisjoint(uc, 14, 4);
    case 4 => OrDisjoint(uc, 30, 3);
  }

  method ParseHex4(str: string) returns (h: nat)
    ensures h == Hex4(str)
  {
    h := 0;
    if !IsHex(Head(str)) { return 0; }
    h := HexValue(Head(str)) * 16;
    if !IsHex(Head(Advance(str, 1))) { return 0; }
    h := (h + HexValue(Head(Advance(str, 1)))) * 16;
    if !IsHex(Head(Advance(str, 2))) { return 0; }
    h := (h + HexValue(Head(Advance(str, 2)))) * 16;
    if !IsHex(Head(Advance(str, 3))) { return 0; }
    h := h + HexValue(Head(Advance(str, 3)));
  }

  method ParseUnicode(str: string) returns (out: string, ptr: string)
    requires Head(str) == 'u'
    ensures (out, ptr) == UnescapeUnicode(str)
  {
    out := [];
    var uc := ParseHex4(Advance(str, 1));
    ptr := Advance(str, 5);
    if LowSurrogate(uc) || uc == 0 {
      return;
    }
    if HighSurrogate(uc) {
      if Head(Advance(str, 5)) != BACKSLASH || Head(Advance(str, 6)) != 'u' {
        return;
      }
      var uc2 := ParseHex4(Advance(str, 7));
      ptr := Advance(str, 11);
      if uc2 < 0xDC00 || uc2 > 0xDFFF {
        return;
      }
      uc := Combine(uc, uc2);
    }
    out := EncodeUtf8(uc);
  }

  /** First pass over a literal: how much room the decoded text needs. */
  method MeasureLiteral(str: string) returns (len: nat, ghost end: string)
    ensures (len, end) == Measure(str)
  {
    len := 0;
    var ptr := str;
    while Head(ptr) != QUOTE && Head(ptr) != '\0'
      invariant Measure(str) == (len + Measure(ptr).0, Measure(ptr).1)
      decreases |ptr|
    {
      len := len + 1;
      if Head(ptr) == BACKSLASH {
        ptr := Advance(ptr, 2);
      } else {
        ptr := ptr[1..];
      }
    }
    end := ptr;
  }

  /** One character or escape: the bytes it stands for and where the next one starts. */
  method DecodeNext(str: string) returns (piece: string, ptr: string)
    requires !EndsLiteral(str)
    ensures Decode(str) == (piece + Decode(ptr).0, Decode(ptr).1)
    ensures |ptr| < |str| && Suffix(ptr, str)
  {
    if Head(str) != BACKSLASH {
      return [str[0]], str[1..];
    }
    ptr := str[1..];
    if Head(ptr) == 'u' {
      piece, ptr := ParseUnicode(ptr);
      UnicodeSkips(str[1..]);
    } else {
      var c :=
        match Head(ptr)
        case 'b' => BACKSPACE
        case 'f' => FORM_FEED
        case 'n' => '\n'
        case 'r' => '\r'
        case 't' => '\t'
        case c => c;
      piece, ptr := [c], Advance(ptr, 1);
    }
  }

  lemma Starts(str: string)
    ensures [] + Decode(str).0 == Decode(str).0 && Suffix(str, str)
    ensures Decode(str) == (Decode(str).0, Decode(str).1)
  {
  }

  lemma Ends(out: string, ptr: string)
    requires Head(ptr) == QUOTE || Head(ptr) == '\0'
    ensures Decode(ptr) == ("", ptr) && out + Decode(ptr).0 == out
  {
  }

  /** Second pass: decodes up to the closing quote or the end of the text, on values. */
  method DecodeLiteral(str: string) returns (out: string, ptr: string)
    ensures (out, ptr) == Decode(str) && Suffix(ptr, str)
  {
    out, ptr := [], str;
    Starts(str);
    while Head(ptr) != QUOTE && Head(ptr) != '\0'
      invariant Decode(str) == (out + Decode(ptr).0, Decode(ptr).1) && Suffix(ptr, str)
      decreases |ptr|
    {
      ghost var before, at := out, ptr;
      var piece, next := DecodeNext(ptr);
      SuffixTrans(next, at, str);
      Assoc(before, piece, Decode(next).0);
      out, ptr := out + piece, next;
    }
    Ends(out, ptr);
  }

  method Store(out: array<char>, n: nat, piece: string)
    requires n + |piece| <= out.Length
    modifies out
    ensures out[..n + |piece|] == old(out[..n]) + piece
  {
    forall i | 0 <= i < |piece| { out[n + i] := piece[i]; }
  }

  /** Second pass into a buffer: gives up where the next write would land behind it. */
  method DecodeInto(out: array<char>, str: string) returns (n: nat, ptr: string, overrun: bool)
    requires out.Length > 0
    modifies out
    ensures overrun <==> |Decode(str).0| >= out.Length
    ensures !overrun ==> n < out.Length && (out[..n], ptr) == Decode(str) && out[n] == '\0' && Suffix(ptr, str)
  {
    hide Decode, Suffix;
    n, ptr := 0, str;
    Starts(str);
    assert out[..0] == [];
    while Head(ptr) != QUOTE && Head(ptr) != '\0'
      invariant n < out.Length
      invariant Decode(str) == (out[..n] + Decode(ptr).0, Decode(ptr).1) && Suffix(ptr, str)
      decreases |ptr|
    {
      ghost var before, at := out[..n], ptr;
      var piece, next := DecodeNext(ptr);
      SuffixTrans(next, at, str);
      Assoc(before, piece, Decode(next).0);
      if n + |piece| >= out.Length {
        return n, ptr, true;
      }
      Store(out, n, piece);
      n, ptr := n + |piece|, next;
    }
    Ends(out[..n], ptr);
    Store(out, n, "\0");
    assert out[..n] == out[..n + 1][..n];
    overrun := false;
  }

  /** The counted buffer is filled; where the source would write behind it, which
      `overrun` reports, the text is decoded on values. */
  method ParseStringText(str: string) returns (r: Parsed<string>, overrun: bool)
    ensures r == ParseString(str) && (r.Ok? ==> Suffix(r.rest, str))
    ensures overrun <==> Head(str) == QUOTE && Overruns(str)
  {
    if Head(str) != QUOTE {
      return Fail(str), false;
    }
    var len, _ := MeasureLiteral(str[1..]);
    var out := new char[len + 1];
    var n, ptr;
    n, ptr, overrun := DecodeInto(out, str[1..]);
    var text := out[..if overrun then 0 else n];
    if overrun {
      text, ptr := DecodeLiteral(str[1..]);
    }
    SuffixTrans(ptr, str[1..], str);
    if Head(ptr) == QUOTE {
      SuffixTrans(ptr[1..], ptr, str);
      ptr := ptr[1..];
    }
    r := Ok(text, ptr);
  }

  lemma {:induction false} DigitsSuffix(t: string, n: int)
    ensures Suffix(SkipDigits(t), t) && Suffix(Accumulate(t, n).1, t)
    decreases |t|
  {
    if IsDigit(Head(t)) {
      DigitsSuffix(t[1..], Wrap32(Wrap32(n * 10) + t[0] as int - '0' as int));
      SuffixTrans(SkipDigits(t), t[1..], t);
      SuffixTrans(Accumulate(t, n).1, t[1..], t);
    }
  }

  lemma FractionSuffix(t: string)
    ensures Suffix(SkipFraction(t), t)
  {
    DigitsSuffix(Advance(t, 1), 0);
    if SkipFraction(t) != t { SuffixTrans(SkipFraction(t), Advance(t, 1), t); }
  }

  lemma ExponentSuffix(t: string)
    ensures Suffix(SkipExponent(t), t)
  {
    if Head(t) == 'e' || Head(t) == 'E' {
      var u := t[1..];
      var v := if Head(u) == '+' || Head(u) == '-' then u[1..] else u;
      DigitsSuffix(v, 0);
      SuffixTrans(v, u, t);
      SuffixTrans(SkipDigits(v), v, t);
    }
  }

  /** Where the integer part of a number ends. */
  function IntegerRest(t: string): string {
    var t1 := if Head(t) == '-' then t[1..] else t;
    var t2 := if Head(t1) == '0' then t1[1..] else t1;
    if '1' <= Head(t2) <= '9' then Accumulate(t2, 0).1 else t2
  }

  lemma IntegerSuffix(t: string)
    ensures Suffix(IntegerRest(t), t)
  {
    hide Accumulate, Suffix;
    var t1 := if Head(t) == '-' then t[1..] else t;
    var t2 := if Head(t1) == '0' then t1[1..] else t1;
    SuffixNext(t, Head(t) == '-');
    SuffixNext(t1, Head(t1) == '0');
    DigitsSuffix(t2, 0);
    SuffixTrans(t2, t1, t);
    if '1' <= Head(t2) <= '9' { SuffixTrans(Accumulate(t2, 0).1, t2, t); }
  }

  lemma NumberSuffix(t: string)
    ensures Suffix(ParseNumber(t).1, t)
  {
    hide SkipFraction, SkipExponent, Accumulate, Wrap32, IsDigit, Suffix;
    var u := IntegerRest(t);
    assert ParseNumber(t).1 == SkipExponent(SkipFraction(u));
    hide *;
    IntegerSuffix(t);
    FractionSuffix(u);
    ExponentSuffix(SkipFraction(u));
    SuffixTrans(SkipFraction(u), u, t);
    SuffixTrans(SkipExponent(SkipFraction(u)), SkipFraction(u), t);
  }

  method SkipDigitRun(num: string) returns (t: string)
    ensures t == SkipDigits(num)
  {
    t := num;
    while IsDigit(Head(t))
      invariant SkipDigits(t) == SkipDigits(num)
      decreases |t|
    {
      t := t[1..];
    }
  }

  method ParseNumberText(str: string) returns (n: int, num: string)
    ensures (n, num) == ParseNumber(str)
  {
    n, num := 0, str;
    var negative := false;
    if Head(num) == '-' {
      negative, num := true, num[1..];
    }
    if Head(num) == '0' {
      num := num[1..];
    }
    ghost var digits := num;
    if '1' <= Head(num) <= '9' {
      n, num := Wrap32(Wrap32(n * 10) + num[0] as int - '0' as int), num[1..];
      while IsDigit(Head(num))
        invariant Accumulate(num, n) == Accumulate(digits, 0)
        decreases |num|
      {
        n, num := Wrap32(Wrap32(n * 10) + num[0] as int - '0' as int), num[1..];
      }
    }
    if Head(num) == '.' && IsDigit(Head(Advance(num, 1))) {
      num := SkipDigitRun(Advance(num, 1));
    }
    if Head(num) == 'e' || Head(num) == 'E' {
      num := num[1..];
      if Head(num) == '+' || Head(num) == '-' {
        num := num[1..];
      }
      num := SkipDigitRun(num);
    }
    if negative {
      n := Wrap32(-n);
    }
  }

  /** What parsing at a pointer promises about the pointer and about the buffers it fills. */
  ghost predicate Kept<T>(r: Parsed<T>, overrun: bool, text: string) {
    && (r.Ok? ==> Suffix(r.rest, text))
    && (Roomy(text) ==> !overrun)
  }

  /** Reading on behind what was read keeps both promises. */
  lemma KeptOn<T, U>(r: Parsed<T>, o: bool, u: string, s: Parsed<U>, p: bool, text: string)
    requires Suffix(u, text) && (Roomy(text) ==> !p)
    requires Kept(r, o, u) && (s.Ok? ==> Suffix(s.rest, text))
    ensures Kept(s, p || o, text)
    ensures r.Ok? ==> Suffix(r.rest, text)
  {
    if Roomy(text) { RoomySuffix(u, text); }
    if r.Ok? { SuffixTrans(r.rest, u, text); }
  }

  method ParseValue(value: string) returns (r: Parsed<Value>, overrun: bool)
    ensures r == Parse(value) && Kept(r, overrun, value)
    decreases |value|, 0
  {
    if "null" <= value { return Ok(Null, value[4..]), false; }
    if "false" <= value { return Ok(False, value[5..]), false; }
    if "true" <= value { return Ok(True, value[4..]), false; }
    if Head(value) == QUOTE {
      var s, o := ParseStringText(value);
      match s {
        case Fail(at) => return Fail(at), o;
        case Ok(text, rest) => return Ok(String(text), rest), o;
      }
    }
    if Head(value) == '-' || IsDigit(Head(value)) {
      var n, rest := ParseNumberText(value);
      NumberSuffix(value);
      return Ok(Number(n), rest), false;
    }
    if Head(value) == '[' {
      r, overrun := ParseArrayText(value);
      return;
    }
    if Head(value) == '{' {
      r, overrun := ParseObjectText(value);
      return;
    }
    r, overrun := Fail(value), false;
  }

  /** One item with the blanks around it. */
  function ParseItem(start: string): (r: Parsed<Value>)
    ensures r.Ok? ==> |r.rest| < |start|
  {
    var item := Parse(Skip(start));
    if item.Fail? then Fail(item.at) else Ok(item.value, Skip(item.rest))
  }

  method ParseItemText(start: string, ghost text: string) returns (r: Parsed<Value>, overrun: bool)
    requires Suffix(start, text)
    ensures r == ParseItem(start) && Kept(r, overrun, text)
    decreases |start|, 1
  {
    var value := SkipBlanks(start);
    var item;
    item, overrun := ParseValue(value);
    SuffixTrans(value, start, text);
    if item.Fail? {
      r := Fail(item.at);
      KeptOn(item, overrun, value, r, false, text);
      return;
    }
    var rest := SkipBlanks(item.rest);
    SuffixTrans(item.rest, value, text);
    SuffixTrans(rest, item.rest, text);
    r := Ok(item.value, rest);
    KeptOn(item, overrun, value, r, false, text);
  }

  /** The array at start is parsed up to `value` and holds `items` so far. */
  ghost predicate ItemsUpTo(start: string, items: seq<Value>, value: string) {
    Parse(start) ==
      if Head(value) == ',' then ParseItems(value[1..], items)
      else if Head(value) == ']' then Ok(Array(items), value[1..])
      else Fail(value)
  }

  lemma NoItem(start: string, value: string)
    requires Head(start) == '[' && value == Skip(start[1..]) && Head(value) == ']'
    ensures Parse(start) == Ok(Array([]), value[1..])
  {
  }

  lemma FirstItem(start: string, value: string, item: Parsed<Value>)
    requires Head(start) == '[' && value == Skip(start[1..])
    requires Head(value) != ']' && item == ParseItem(value)
    ensures item.Fail? ==> Parse(start) == Fail(item.at)
    ensures item.Ok? ==> ItemsUpTo(start, [item.value], item.rest)
  {
    assert Parse(start) == ParseItems(value, []);
    if item.Ok? { assert [] + [item.value] == [item.value]; }
  }

  lemma NextItem(start: string, items: seq<Value>, value: string, item: Parsed<Value>)
    requires ItemsUpTo(start, items, value) && Head(value) == ',' && item == ParseItem(value[1..])
    ensures item.Fail? ==> Parse(start) == Fail(item.at)
    ensures item.Ok? ==> ItemsUpTo(start, items + [item.value], item.rest)
  {
    assert Parse(start) == ParseItems(value[1..], items);
  }

  method ParseArrayText(start: string) returns (r: Parsed<Value>, overrun: bool)
    requires Head(start) == '['
    ensures r == Parse(start) && Kept(r, overrun, start)
    decreases |start|, -1
  {
    hide Suffix, Roomy, Parse, ParseItem, ParseItems;
    SuffixNext(start, true);
    var value := SkipBlanks(start[1..]);
    SuffixTrans(value, start[1..], start);
    if Head(value) == ']' {
      SuffixTail(value, start);
      NoItem(start, value);
      return Ok(Array([]), value[1..]), false;
    }
    var item;
    item, overrun := ParseItemText(value, start);
    FirstItem(start, value, item);
    if item.Fail? { return Fail(item.at), overrun; }
    var items := [item.value];
    value := item.rest;
    while Head(value) == ','
      invariant |value| < |start| && Suffix(value, start)
      invariant Roomy(start) ==> !overrun
      invariant ItemsUpTo(start, items, value)
      decreases |value|
    {
      hide ItemsUpTo;
      SuffixTail(value, start);
      var o;
      item, o := ParseItemText(value[1..], start);
      NextItem(start, items, value, item);
      overrun := overrun || o;
      if item.Fail? { return Fail(item.at), overrun; }
      items := items + [item.value];
      value := item.rest;
    }
    if Head(value) == ']' {
      SuffixTail(value, start);
      return Ok(Array(items), value[1..]), overrun;
    }
    r := Fail(value);
  }

  lemma MemberSteps(start: string, at: string, name: Parsed<string>, value: string)
    requires at == Skip(start) && name == ParseString(at) && name.Ok? && value == Skip(name.rest)
    ensures |value| < |start|
    ensures Head(value) != ':' ==> ParseMember(start) == Fail(value)
    ensures Head(value) == ':' ==>
      var item := ParseItem(value[1..]);
      ParseMember(start) ==
        if item.Fail? then Fail(item.at) else Ok(Member(name.value, item.value), item.rest)
  {
    hide ParseString;
  }

  method ParseMemberText(start: string, ghost text: string) returns (r: Parsed<Member>, overrun: bool)
    requires Suffix(start, text)
    ensures r == ParseMember(start) && Kept(r, overrun, text)
    decreases |start|, 2
  {
    hide Suffix, ParseItem, ParseString, Overruns;
    var at := SkipBlanks(start);
    SuffixTrans(at, start, text);
    var name;
    name, overrun := ParseStringText(at);
    assert Roomy(text) ==> !overrun;
    if name.Fail? {
      return Fail(name.at), overrun;
    }
    SuffixTrans(name.rest, at, text);
    var value := SkipBlanks(name.rest);
    SuffixTrans(value, name.rest, text);
    MemberSteps(start, at, name, value);
    if Head(value) != ':' { return Fail(value), overrun; }
    hide ParseMember, Roomy;
    SuffixTail(value, text);
    var item, o := ParseItemText(value[1..], text);
    overrun := overrun || o;
    if item.Fail? { return Fail(item.at), overrun; }
    r := Ok(Member(name.value, item.value), item.rest);
  }

  /** The object at start is parsed up to `value` and holds `members` so far. */
  ghost predicate MembersUpTo(start: string, members: seq<Member>, value: string) {
    Parse(start) ==
      if Head(value) == ',' then ParseMembers(value[1..], members)
      else if Head(value) == '}' then Ok(Object(members), value[1..])
      else Fail(value)
  }

  lemma NoMember(start: string, value: string)
    requires Head(start) == '{' && value == Skip(start[1..]) && Head(value) == '}'
    ensures Parse(start) == Ok(Object([]), value[1..])
  {
  }

  lemma FirstMember(start: string, value: string, member: Parsed<Member>)
    requires Head(start) == '{' && value == Skip(start[1..])
    requires Head(value) != '}' && member == ParseMember(value)
    ensures member.Fail? ==> Parse(start) == Fail(member.at)
    ensures member.Ok? ==> MembersUpTo(start, [member.value], member.rest)
  {
    hide ParseMember;
    assert Parse(start) == ParseMembers(value, []);
    if member.Ok? { assert [] + [member.value] == [member.value]; }
  }

  lemma NextMember(start: string, members: seq<Member>, value: string, member: Parsed<Member>)
    requires MembersUpTo(start, members, value) && Head(value) == ',' && member == ParseMember(value[1..])
    ensures member.Fail? ==> Parse(start) == Fail(member.at)
    ensures member.Ok? ==> MembersUpTo(start, members + [member.value], member.rest)
  {
    hide ParseMember;
    assert Parse(start) == ParseMembers(value[1..], members);
  }

  method ParseObjectText(start: string) returns (r: Parsed<Value>, overrun: bool)
    requires Head(start) == '{'
    ensures r == Parse(start) && Kept(r, overrun, start)
    decreases |start|, -1
  {
    hide Suffix, Roomy, Parse, ParseMember, ParseMembers;
    SuffixNext(start, true);
    var value := SkipBlanks(start[1..]);
    SuffixTrans(value, start[1..], start);
    if Head(value) == '}' {
      SuffixTail(value, start);
      NoMember(start, value);
      return Ok(Object([]), value[1..]), false;
    }
    var member;
    member, overrun := ParseMemberText(value, start);
    FirstMember(start, value, member);
    if member.Fail? { return Fail(member.at), overrun; }
    var members := [member.value];
    value := member.rest;
    while Head(value) == ','
      invariant |value| < |start| && Suffix(value, start)
      invariant Roomy(start) ==> !overrun
      invariant MembersUpTo(start, members, value)
      decreases |value|
    {
      hide MembersUpTo;
      SuffixTail(value, start);
      var o;
      member, o := ParseMemberText(value[1..], start);
      NextMember(start, members, value, member);
      overrun := overrun || o;
      if member.Fail? { return Fail(member.at), overrun; }
      members := members + [member.value];
      value := member.rest;
    }
    if Head(value) == '}' {
      SuffixTail(value, start);
      return Ok(Object(members), value[1..]), overrun;
    }
    r := Fail(value);
  }

  method ParseWithOpts(text: string, requireEnd: bool) returns (r: Parsed<Value>, overrun: bool)
    ensures r == ParseDocument(text, requireEnd)
    ensures Roomy(text) ==> !overrun
  {
    var value := SkipBlanks(text);
    r, overrun := ParseValue(value);
    KeptOn(r, overrun, value, Parsed<Value>.Fail(text), false, text);
    if r.Ok? && requireEnd {
      var end := SkipBlanks(r.rest);
      if Head(end) != '\0' {
        return Fail(end), overrun;
      }
      r := Ok(r.value, end);
    }
  }
}
