/** The in-place minifier: what it leaves, that its write position never passes
    its read position, and that it turns the formatted print into the compact one. */
module JsonMinify {
  import opened Sequences
  import opened JsonStrings
  import opened Json

  /** Where the reader stands; each inner loop of the source is one mode. */
  datatype Mode = Code | Literal | Escape | Line | Block | BlockEnd

  predicate Space(c: char) {
    c == ' ' || c == '\t' || c == '\r' || c == '\n'
  }

  /** The mode after reading `c` when `d` comes next. */
  function Next(mode: Mode, c: char, d: char): Mode {
    match mode
    case Code => if c == '/' && d == '/' then Line else if c == '/' && d == '*' then Block
                 else if c == QUOTE then Literal else Code
    case Literal => if c == BACKSLASH then Escape else if c == QUOTE then Code else Literal
    case Escape => Literal
    case Line => if c == '\n' then Code else Line
    case Block => if c == '*' && d == '/' then BlockEnd else Block
    case BlockEnd => Code
  }

  predicate Keeps(mode: Mode, c: char, d: char) {
    match mode
    case Code => !Space(c) && !(c == '/' && (d == '/' || d == '*'))
    case Literal => true
    case Escape => true
    case _ => false
  }

  function Scan(t: string, mode: Mode): string {
    if t == [] then []
    else
      var d := Head(t[1..]);
      (if Keeps(mode, t[0], d) then [t[0]] else []) + Scan(t[1..], Next(mode, t[0], d))
  }

  /** No literal and no block comment is left open at the end. */
  predicate Closed(t: string, mode: Mode) {
    if t == [] then mode.Code? || mode.Line?
    else Closed(t[1..], Next(mode, t[0], Head(t[1..])))
  }

  function Minify(t: string): string {
    Scan(t, Code)
  }

  // ----- the method

  /** `json[..into]` and a scan of the unread text make up the result. */
  ghost predicate Progress(json: array<char>, into: nat, pos: nat, mode: Mode, t: string)
    reads json
  {
    && into <= pos <= |t| < json.Length && '\0' !in t
    && json[pos..|t|] == t[pos..] && json[|t|] == '\0'
    && Closed(t[pos..], mode)
    && json[..into] + Scan(t[pos..], mode) == Minify(t)
  }

  lemma Peek(json: array<char>, into: nat, pos: nat, mode: Mode, t: string)
    requires Progress(json, into, pos, mode, t)
    ensures json[pos] == '\0' <==> pos == |t|
    ensures pos < |t| ==> json[pos] == t[pos] && json[pos + 1] == Head(t[pos + 1..])
    ensures pos == |t| ==> mode.Code? || mode.Line?
    ensures pos == |t| ==> json[..into] == Minify(t)
  {
    assert t[|t|..] == [];
    assert json[pos..|t|] == t[pos..];
    if pos < |t| {
      assert json[pos..|t|][0] == json[pos];
      if pos + 1 < |t| {
        assert json[pos..|t|][1] == json[pos + 1];
      }
    }
  }

  method Drop(json: array<char>, into: nat, pos: nat, ghost mode: Mode, ghost t: string)
    returns (pos': nat, ghost mode': Mode)
    requires Progress(json, into, pos, mode, t) && pos < |t| && !Keeps(mode, t[pos], Head(t[pos + 1..]))
    ensures pos' == pos + 1 && mode' == Next(mode, t[pos], Head(t[pos + 1..]))
    ensures Progress(json, into, pos', mode', t)
  {
    pos' := pos + 1;
    mode' := Next(mode, t[pos], Head(t[pos + 1..]));
    assert t[pos..][1..] == t[pos'..];
    assert json[pos..|t|][1..] == json[pos'..|t|];
    assert Scan(t[pos..], mode) == Scan(t[pos'..], mode');
  }

  method Keep(json: array<char>, into: nat, pos: nat, ghost mode: Mode, ghost t: string)
    returns (into': nat, pos': nat, ghost mode': Mode)
    requires Progress(json, into, pos, mode, t) && pos < |t| && Keeps(mode, t[pos], Head(t[pos + 1..]))
    modifies json
    ensures into' == into + 1 && pos' == pos + 1 && mode' == Next(mode, t[pos], Head(t[pos + 1..]))
    ensures Progress(json, into', pos', mode', t)
    ensures json[|t| + 1..] == old(json[|t| + 1..])
  {
    Peek(json, into, pos, mode, t);
    ghost var before, rest := json[..into], json[pos + 1..|t|];
    assert json[pos..|t|][1..] == rest;
    json[into] := json[pos];
    into', pos' := into + 1, pos + 1;
    mode' := Next(mode, t[pos], Head(t[pos + 1..]));
    assert t[pos..][1..] == t[pos'..];
    assert json[..into'] == before + [t[pos]];
    assert json[pos'..|t|] == rest;
    assert before + ([t[pos]] + Scan(t[pos'..], mode')) == before + [t[pos]] + Scan(t[pos'..], mode');
  }

  /** The loop over a literal, after its opening quote. */
  method CopyLiteral(json: array<char>, into0: nat, pos0: nat, ghost t: string) returns (into: nat, pos: nat)
    requires Progress(json, into0, pos0, Literal, t)
    modifies json
    ensures Progress(json, into, pos, Code, t) && pos0 < pos
    ensures json[|t| + 1..] == old(json[|t| + 1..])
  {
    into, pos := into0, pos0;
    ghost var mode := Literal;
    Peek(json, into, pos, mode, t);
    while json[pos] != '\0' && json[pos] != QUOTE
      invariant mode == Literal && Progress(json, into, pos, mode, t) && pos0 <= pos < |t|
      invariant json[|t| + 1..] == old(json[|t| + 1..])
      decreases |t| - pos
    {
      Peek(json, into, pos, mode, t);
      if json[pos] == BACKSLASH {
        into, pos, mode := Keep(json, into, pos, mode, t);
        Peek(json, into, pos, mode, t);
      }
      into, pos, mode := Keep(json, into, pos, mode, t);
      Peek(json, into, pos, mode, t);
    }
    Peek(json, into, pos, mode, t);
    into, pos, mode := Keep(json, into, pos, mode, t);
  }

  /** The two comment loops. */
  method SkipLine(json: array<char>, into: nat, pos0: nat, ghost t: string) returns (pos: nat, ghost mode: Mode)
    requires Progress(json, into, pos0, Line, t)
    ensures pos0 <= pos && Progress(json, into, pos, mode, t)
    ensures mode == Line && (pos == |t| || t[pos] == '\n')
  {
    pos, mode := pos0, Line;
    Peek(json, into, pos, mode, t);
    while json[pos] != '\0' && json[pos] != '\n'
      invariant mode == Line && pos0 <= pos && Progress(json, into, pos, mode, t)
      decreases |t| - pos
    {
      Peek(json, into, pos, mode, t);
      pos, mode := Drop(json, into, pos, mode, t);
    }
    Peek(json, into, pos, mode, t);
  }

  method SkipBlock(json: array<char>, into: nat, pos0: nat, ghost t: string) returns (pos: nat)
    requires Progress(json, into, pos0, Block, t)
    ensures pos0 < pos && Progress(json, into, pos, Code, t)
  {
    pos := pos0;
    ghost var mode := Block;
    Peek(json, into, pos, mode, t);
    while json[pos] != '\0' && !(json[pos] == '*' && json[pos + 1] == '/')
      invariant mode == Block && pos0 <= pos < |t| && Progress(json, into, pos, mode, t)
      decreases |t| - pos
    {
      Peek(json, into, pos, mode, t);
      pos, mode := Drop(json, into, pos, mode, t);
      Peek(json, into, pos, mode, t);
    }
    Peek(json, into, pos, mode, t);
    pos, mode := Drop(json, into, pos, mode, t);
    Peek(json, into, pos, mode, t);
    pos, mode := Drop(json, into, pos, mode, t);
  }

  /** One turn of the loop: a blank, a comment, a literal or one other character. */
  method MinifyNext(json: array<char>, into0: nat, pos0: nat, ghost mode0: Mode, ghost t: string)
    returns (into: nat, pos: nat, ghost mode: Mode)
    requires Progress(json, into0, pos0, mode0, t) && Rests(mode0, pos0, t) && pos0 < |t|
    modifies json
    ensures pos0 < pos && Progress(json, into, pos, mode, t) && Rests(mode, pos, t)
    ensures json[|t| + 1..] == old(json[|t| + 1..])
  {
    into, pos, mode := into0, pos0, mode0;
    Peek(json, into, pos, mode, t);
    if json[pos] == ' ' {
      pos, mode := Drop(json, into, pos, mode, t);
    } else if json[pos] == '\t' {
      pos, mode := Drop(json, into, pos, mode, t);
    } else if json[pos] == '\r' {
      pos, mode := Drop(json, into, pos, mode, t);
    } else if json[pos] == '\n' {
      pos, mode := Drop(json, into, pos, mode, t);
    } else if json[pos] == '/' && json[pos + 1] == '/' {
      pos, mode := Drop(json, into, pos, mode, t);
      pos, mode := SkipLine(json, into, pos, t);
    } else if json[pos] == '/' && json[pos + 1] == '*' {
      pos, mode := Drop(json, into, pos, mode, t);
      pos := SkipBlock(json, into, pos, t);
      mode := Code;
    } else if json[pos] == QUOTE {
      into, pos, mode := Keep(json, into, pos, mode, t);
      into, pos := CopyLiteral(json, into, pos, t);
      mode := Code;
    } else {
      into, pos, mode := Keep(json, into, pos, mode, t);
    }
  }

  /** Between turns the reader is in code, or at the end of a line comment. */
  ghost predicate Rests(mode: Mode, pos: nat, t: string) {
    mode == Code || (mode == Line && (pos >= |t| || t[pos] == '\n'))
  }

  /** `json` holds the text `t` and a terminator; afterwards it holds the
      minified text and a terminator.  The write position never passes the read
      position, and nothing after the old terminator is touched. */
  method MinifyInPlace(json: array<char>, ghost t: string) returns (ghost end: nat)
    requires |t| < json.Length && json[..|t|] == t && json[|t|] == '\0' && '\0' !in t
    requires Closed(t, Code)
    modifies json
    ensures end <= |t|
    ensures json[..end] == Minify(t) && json[end] == '\0'
    ensures json[|t| + 1..] == old(json[|t| + 1..])
  {
    var into: nat, pos: nat := 0, 0;
    ghost var mode := Code;
    assert t[0..] == t && json[0..|t|] == t && json[..0] + Minify(t) == Minify(t);
    Peek(json, into, pos, mode, t);
    while json[pos] != '\0'
      invariant Progress(json, into, pos, mode, t) && Rests(mode, pos, t)
      invariant json[|t| + 1..] == old(json[|t| + 1..])
      decreases |t| - pos
    {
      Peek(json, into, pos, mode, t);
      into, pos, mode := MinifyNext(json, into, pos, mode, t);
      Peek(json, into, pos, mode, t);
    }
    Peek(json, into, pos, mode, t);
    ghost var done := json[..into];
    json[into] := '\0';
    end := into;
    assert json[..end] == done;
  }

  // ----- the bridge between the two printed forms

  /** Reading `p` before `t`, in code and back in code, keeps `kept` of it. */
  ghost predicate Reads(p: string, kept: string, t: string) {
    Scan(p + t, Code) == kept + Scan(t, Code) && Closed(p + t, Code) == Closed(t, Code)
  }

  /** Whatever follows, minifying `p` leaves `kept`. */
  ghost predicate Reduces(p: string, kept: string) {
    forall t :: Reads(p, kept, t)
  }

  lemma Then(p: string, kept: string, q: string, kept': string)
    requires Reduces(p, kept) && Reduces(q, kept')
    ensures Reduces(p + q, kept + kept')
  {
    forall t
      ensures Reads(p + q, kept + kept', t)
    {
      assert Reads(p, kept, q + t) && Reads(q, kept', t);
      Assoc(p, q, t);
      Assoc(kept, kept', Scan(t, Code));
    }
  }

  lemma {:induction false} ReadsBlank(w: string, t: string)
    requires forall i :: 0 <= i < |w| ==> Space(w[i])
    ensures Reads(w, [], t)
  {
    if w == [] {
      assert w + t == t;
    } else {
      assert (w + t)[1..] == w[1..] + t;
      ReadsBlank(w[1..], t);
    }
    assert [] + Scan(t, Code) == Scan(t, Code);
  }

  predicate Plain(c: char) {
    !Space(c) && c != '/' && c != QUOTE
  }

  lemma {:induction false} ReadsPlain(s: string, t: string)
    requires forall i :: 0 <= i < |s| ==> Plain(s[i])
    ensures Reads(s, s, t)
  {
    if s == [] {
      assert s + t == t;
    } else {
      assert (s + t)[1..] == s[1..] + t;
      ReadsPlain(s[1..], t);
      assert [s[0]] + (s[1..] + Scan(t, Code)) == s + Scan(t, Code);
    }
  }

  /** Inside a literal nothing is dropped. */
  lemma {:induction false} ReadsInside(e: string, t: string)
    requires forall i :: 0 <= i < |e| ==> e[i] != QUOTE && e[i] != BACKSLASH
    ensures Scan(e + t, Literal) == e + Scan(t, Literal) && Closed(e + t, Literal) == Closed(t, Literal)
  {
    if e == [] {
      assert e + t == t;
    } else {
      assert (e + t)[1..] == e[1..] + t;
      ReadsInside(e[1..], t);
      assert [e[0]] + (e[1..] + Scan(t, Literal)) == e + Scan(t, Literal);
    }
  }

  lemma ReadsEscape(c: char, u: string)
    ensures Scan([BACKSLASH, c] + u, Literal) == [BACKSLASH, c] + Scan(u, Literal)
    ensures Closed([BACKSLASH, c] + u, Literal) == Closed(u, Literal)
  {
    var t := [BACKSLASH, c] + u;
    assert t[1..] == [c] + u && ([c] + u)[1..] == u;
    assert Scan([c] + u, Escape) == [c] + Scan(u, Literal);
    assert [BACKSLASH] + ([c] + Scan(u, Literal)) == [BACKSLASH, c] + Scan(u, Literal);
  }

  lemma ReadsEscaped(c: char, t: string)
    ensures Scan(Escaped(c) + t, Literal) == Escaped(c) + Scan(t, Literal)
    ensures Closed(Escaped(c) + t, Literal) == Closed(t, Literal)
  {
    var e := Escaped(c);
    if PlainChar(c) {
      ReadsInside(e, t);
    } else {
      assert e == [BACKSLASH, e[1]] + e[2..];
      Assoc([BACKSLASH, e[1]], e[2..], t);
      ReadsEscape(e[1], e[2..] + t);
      ReadsInside(e[2..], t);
      Assoc([BACKSLASH, e[1]], e[2..], Scan(t, Literal));
    }
  }

  lemma {:induction false} ReadsEscapedAll(s: string, t: string)
    ensures Scan(EscapedAll(s) + t, Literal) == EscapedAll(s) + Scan(t, Literal)
    ensures Closed(EscapedAll(s) + t, Literal) == Closed(t, Literal)
  {
    if s == [] {
      assert [] + t == t;
    } else {
      var e, more := Escaped(s[0]), EscapedAll(s[1..]);
      Assoc(e, more, t);
      ReadsEscaped(s[0], more + t);
      ReadsEscapedAll(s[1..], t);
      Assoc(e, more, Scan(t, Literal));
    }
  }

  lemma ReadsQuoted(s: string, t: string)
    ensures Reads(Quoted(s), Quoted(s), t)
  {
    var body := EscapedAll(s);
    var u := [QUOTE] + t;
    assert u[1..] == t && Scan(u, Literal) == [QUOTE] + Scan(t, Code);
    Regroup([QUOTE], body, [QUOTE], t, []);
    assert ([QUOTE] + (body + u))[1..] == body + u;
    ReadsEscapedAll(s, u);
    Regroup([QUOTE], body, [QUOTE], Scan(t, Code), []);
  }

  lemma Blank(c: bool, w: string)
    requires forall i :: 0 <= i < |w| ==> Space(w[i])
    ensures Reduces(When(c, w), When(false, w))
  {
    forall t { ReadsBlank(When(c, w), t); }
  }

  lemma Token(s: string)
    requires forall i :: 0 <= i < |s| ==> Plain(s[i])
    ensures Reduces(s, s)
  {
    forall t { ReadsPlain(s, t); }
  }

  lemma StringLiteral(s: string)
    ensures Reduces(Quoted(s), Quoted(s))
  {
    forall t { ReadsQuoted(s, t); }
  }

  lemma {:induction false} TabsAreSpace(n: int)
    ensures forall i :: 0 <= i < |Tabs(n)| ==> Space(Tabs(n)[i])
  {
    if n > 0 { TabsAreSpace(n - 1); }
  }

  /** Either print of a value reduces to the compact print. */
  lemma {:induction false} MinifyValue(v: Value, depth: nat, fmt: bool)
    ensures Reduces(Print(v, depth, fmt), Print(v, depth, false))
    decreases v, 1
  {
    match v
    case String(s) => StringLiteral(s);
    case Array(items) =>
      var p, q := PrintItems(items, depth + 1, fmt), PrintItems(items, depth + 1, false);
      Token("[");
      Token("]");
      MinifyItems(items, depth + 1, fmt);
      Then("[", "[", p, q);
      Then("[" + p, "[" + q, "]", "]");
    case Object(ms) => MinifyObject(v, depth, fmt);
    case Number(n) => Token(Decimal(n));
    case _ => Token(Print(v, depth, fmt));
  }

  lemma {:induction false} MinifyItems(items: seq<Value>, depth: nat, fmt: bool)
    ensures Reduces(PrintItems(items, depth, fmt), PrintItems(items, depth, false))
    decreases items, 0
  {
    if items == [] {
      Token([]);
    } else {
      var v, v' := Print(items[0], depth, fmt), Print(items[0], depth, false);
      var sep, sep' := When(|items| > 1, "," + When(fmt, " ")), When(|items| > 1, "," + When(false, " "));
      MinifyValue(items[0], depth, fmt);
      MinifySeparator(|items| > 1, fmt);
      MinifyItems(items[1..], depth, fmt);
      Then(v, v', sep, sep');
      Then(v + sep, v' + sep', PrintItems(items[1..], depth, fmt), PrintItems(items[1..], depth, false));
    }
  }

  lemma MinifySeparator(c: bool, fmt: bool)
    ensures Reduces(When(c, "," + When(fmt, " ")), When(c, "," + When(false, " ")))
  {
    Blank(fmt, " ");
    Token(",");
    Token([]);
    Then(",", ",", When(fmt, " "), When(false, " "));
  }

  lemma {:induction false} MinifyObject(v: Value, depth: nat, fmt: bool)
    requires v.Object?
    ensures Reduces(Print(v, depth, fmt), Print(v, depth, false))
    decreases v, 0
  {
    Token("{");
    Token("}");
    if v.members == [] {
      TabsAreSpace(depth - 1);
      var w, w' := When(fmt, "\n" + Tabs(depth - 1)), When(false, "\n" + Tabs(depth - 1));
      Blank(fmt, "\n" + Tabs(depth - 1));
      Then("{", "{", w, w');
      Then("{" + w, "{" + w', "}", "}");
    } else {
      var p, p' := PrintMembers(v.members, depth + 1, fmt), PrintMembers(v.members, depth + 1, false);
      var nl, nl' := When(fmt, "\n"), When(false, "\n");
      var w, w' := When(fmt, Tabs(depth)), When(false, Tabs(depth));
      TabsAreSpace(depth);
      Blank(fmt, "\n");
      Blank(fmt, Tabs(depth));
      MinifyMembers(v.members, depth + 1, fmt);
      Then("{", "{", nl, nl');
      Then("{" + nl, "{" + nl', p, p');
      Then("{" + nl + p, "{" + nl' + p', w, w');
      Then("{" + nl + p + w, "{" + nl' + p' + w', "}", "}");
    }
  }

  lemma {:induction false} MinifyMembers(ms: seq<Member>, depth: nat, fmt: bool)
    ensures Reduces(PrintMembers(ms, depth, fmt), PrintMembers(ms, depth, false))
    decreases ms, 0
  {
    Token([]);
    if ms != [] {
      var m, m' := PrintMember(ms[0], depth, fmt), PrintMember(ms[0], depth, false);
      var comma, nl, nl' := When(|ms| > 1, ","), When(fmt, "\n"), When(false, "\n");
      MinifyMember(ms[0], depth, fmt);
      Token(",");
      Blank(fmt, "\n");
      MinifyMembers(ms[1..], depth, fmt);
      Then(m, m', comma, comma);
      Then(m + comma, m' + comma, nl, nl');
      Then(m + comma + nl, m' + comma + nl', PrintMembers(ms[1..], depth, fmt), PrintMembers(ms[1..], depth, false));
    }
  }

  lemma {:induction false} MinifyMember(m: Member, depth: nat, fmt: bool)
    ensures Reduces(PrintMember(m, depth, fmt), PrintMember(m, depth, false))
    decreases m, 2
  {
    var w, w' := When(fmt, Tabs(depth)), When(false, Tabs(depth));
    var tab, tab', name := When(fmt, "\t"), When(false, "\t"), Quoted(m.name);
    TabsAreSpace(depth);
    Blank(fmt, Tabs(depth));
    Blank(fmt, "\t");
    StringLiteral(m.name);
    Token(":");
    MinifyValue(m.value, depth, fmt);
    Then(w, w', name, name);
    Then(w + name, w' + name, ":", ":");
    Then(w + name + ":", w' + name + ":", tab, tab');
    Then(w + name + ":" + tab, w' + name + ":" + tab', Print(m.value, depth, fmt), Print(m.value, depth, false));
  }

  /** The minifier takes the formatted print to the compact print, leaves the
      compact print as it is, and never meets an open literal in either. */
  lemma MinifyPrint(v: Value, depth: nat, fmt: bool)
    ensures Minify(Print(v, depth, fmt)) == Print(v, depth, false)
    ensures Closed(Print(v, depth, fmt), Code)
  {
    MinifyValue(v, depth, fmt);
    var p := Print(v, depth, fmt);
    assert Reads(p, Print(v, depth, false), []);
    assert p + [] == p && Print(v, depth, false) + [] == Print(v, depth, false);
  }
}
