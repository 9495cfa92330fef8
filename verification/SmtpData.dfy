/** The message as the server sees it between the 354 reply and the lone dot. */
module SmtpData {
  import opened Sequences
  import opened SmtpText

  // ----- what the client accepts

  predicate Acceptable(data: string, linebreaks: bool, i: nat)
    requires i < |data|
  {
    && data[i] as int < 128
    && (data[i] == '\r' ==> linebreaks && (i == 0 || data[i - 1] != '\r'))
    && (data[i] == '\n' ==> i > 0 && data[i - 1] == '\r')
  }

  ghost predicate Accepted(data: string, linebreaks: bool) {
    forall i :: 0 <= i < |data| ==> Acceptable(data, linebreaks, i)
  }

  predicate CrPaired(data: string, i: nat)
    requires i < |data|
  {
    data[i] == '\r' ==> i + 1 < |data| && data[i + 1] == '\n'
  }

  predicate LfPaired(data: string, i: nat)
    requires i < |data|
  {
    data[i] == '\n' ==> i > 0 && data[i - 1] == '\r'
  }

  /** Every carriage return is followed by a line feed. */
  ghost predicate CrThenLf(data: string) {
    forall i :: 0 <= i < |data| ==> CrPaired(data, i)
  }

  /** What the comment over smtp_verify promises: 7-bit text, no single CR or LF. */
  ghost predicate Documented(data: string) {
    CrThenLf(data) && forall i :: 0 <= i < |data| ==> data[i] as int < 128 && LfPaired(data, i)
  }

  /** With line breaks allowed the promise is kept exactly for text without a
      carriage return before anything but a line feed. */
  lemma PromiseKept(data: string)
    ensures Documented(data) <==> Accepted(data, true) && CrThenLf(data)
  {
    forall i | 0 <= i < |data| && CrThenLf(data)
      ensures data[i] as int < 128 && LfPaired(data, i) <==> Acceptable(data, true, i)
    {
      if i > 0 { assert CrPaired(data, i - 1); }
    }
  }

  /** For instance a carriage return in the middle of a line. */
  lemma LoneCrAccepted()
    ensures Accepted("a\rb", true) && !Documented("a\rb")
  {
    var d := "a\rb";
    assert !CrPaired(d, 1);
  }

  /** smtp_verify accepts exactly 7-bit text whose line feeds each follow a
      carriage return; without line breaks it accepts neither character. */
  method Verify(data: string, linebreaks: bool) returns (ok: bool)
    ensures ok <==> Accepted(data, linebreaks)
    ensures !linebreaks ==> (ok <==> PlainText(data))
  {
    var lastWasCr := false;
    var i := 0;
    while i < |data|
      invariant 0 <= i <= |data|
      invariant lastWasCr == (i > 0 && data[i - 1] == '\r')
      invariant forall k :: 0 <= k < i ==> Acceptable(data, linebreaks, k)
    {
      var current := data[i];
      if current as int >= 128 {
        assert !Acceptable(data, linebreaks, i);
        return false;
      }
      if current == '\r' {
        if !linebreaks || lastWasCr {
          assert !Acceptable(data, linebreaks, i);
          return false;
        }
        lastWasCr := true;
      } else {
        if current == '\n' && !lastWasCr {
          assert !Acceptable(data, linebreaks, i);
          return false;
        }
        lastWasCr := false;
      }
      i := i + 1;
    }
    PlainTextIs(data);
    return true;
  }

  predicate PlainText(data: string) {
    forall i :: 0 <= i < |data| ==> data[i] as int < 128 && data[i] != '\r' && data[i] != '\n'
  }

  lemma PlainTextIs(data: string)
    ensures PlainText(data) <==> forall i :: 0 <= i < |data| ==> Acceptable(data, false, i)
  {
    if forall i :: 0 <= i < |data| ==> Acceptable(data, false, i) {
      forall i | 0 <= i < |data| ensures data[i] as int < 128 && data[i] != '\r' && data[i] != '\n' {
        assert Acceptable(data, false, i);
        if i > 0 { assert Acceptable(data, false, i - 1); }
      }
    }
  }

  /** The fields pass before a connection is opened. */
  predicate Sendable(m: Mail) {
    PlainText(m.to) && PlainText(m.from) && PlainText(m.subject) && PlainText(m.body)
  }

  method CheckData(m: Mail) returns (ok: bool)
    ensures ok <==> Sendable(m)
  {
    ok := Verify(m.to, false);
    if !ok { return; }
    ok := Verify(m.from, false);
    if !ok { return; }
    ok := Verify(m.subject, false);
    if !ok { return; }
    ok := Verify(m.body, false);
  }

  // ----- the message as lines

  function Join(lines: seq<string>): string {
    if lines == [] then "" else lines[0] + CRLF + Join(lines[1..])
  }

  function Message(m: Mail): string { Header(m) + m.body + BODY_FINISHED }

  ghost predicate Unbroken(lines: seq<string>) {
    forall i :: 0 <= i < |lines| ==> '\r' !in lines[i]
  }

  // ----- the receiver of section 4.5.2 of RFC 5321

  datatype Received = Got(mail: string, rest: string) | Unfinished

  /** Read lines up to the lone dot; take the first dot off every other line that has one. */
  function Receive(s: string): Received
    decreases |s|
  {
    var n := Find(s, CRLF, 0);
    if n == -1 then Unfinished
    else if s[..n] == "." then Got("", s[n + 2..])
    else
      match Receive(s[n + 2..])
      case Unfinished => Unfinished
      case Got(mail, rest) => Got(Undotted(s[..n]) + CRLF + mail, rest)
  }

  function Undotted(line: string): string {
    if line != "" && line[0] == '.' then line[1..] else line
  }

  lemma ReceiveLine(line: string, rest: string)
    requires '\r' !in line
    ensures Receive(line + CRLF + rest) ==
      if line == "." then Got("", rest)
      else match Receive(rest)
        case Unfinished => Unfinished
        case Got(mail, after) => Got(Undotted(line) + CRLF + mail, after)
  {
    var s := line + CRLF + rest;
    assert "" + line + CRLF + rest == s;
    LineBreak("", line, rest);
    assert s[..|line|] == line && s[|line| + 2..] == rest;
  }

  function Undots(lines: seq<string>): seq<string> {
    seq(|lines|, i requires 0 <= i < |lines| => Undotted(lines[i]))
  }

  lemma {:induction false} ReceiveLines(lines: seq<string>, after: string)
    requires Unbroken(lines) && "." !in lines
    ensures Receive(Join(lines) + ("." + CRLF + after)) == Got(Join(Undots(lines)), after)
    decreases |lines|
  {
    hide Receive, Undotted;
    var tail := "." + CRLF + after;
    if lines == [] {
      assert "" + tail == tail;
      ReceiveLine(".", after);
    } else {
      ReceiveLines(lines[1..], after);
      Assoc(lines[0] + CRLF, Join(lines[1..]), tail);
      ReceiveLine(lines[0], Join(lines[1..]) + tail);
      assert Undots(lines)[1..] == Undots(lines[1..]);
    }
  }

  lemma {:induction false} JoinAppend(a: seq<string>, b: seq<string>)
    ensures Join(a + b) == Join(a) + Join(b)
    decreases |a|
  {
    if a == [] {
      assert a + b == b;
    } else {
      assert (a + b)[1..] == a[1..] + b;
      JoinAppend(a[1..], b);
      Assoc(a[0] + CRLF, Join(a[1..]), Join(b));
    }
  }

  lemma JoinOne(line: string)
    ensures Join([line]) == line + CRLF
  {
    assert [line][1..] == [];
    assert line + CRLF + "" == line + CRLF;
  }

  function Heading(m: Mail): seq<string> {
    ["From: <" + m.from + ">", "To: <" + m.to + ">", "Subject: " + m.subject, ""]
  }

  lemma JoinFour(a: string, b: string, c: string, d: string)
    ensures Join([a, b, c, d]) == a + CRLF + (b + CRLF + (c + CRLF + (d + CRLF)))
  {
    assert [a, b, c, d][1..] == [b, c, d] && [b, c, d][1..] == [c, d] && [c, d][1..] == [d];
    assert Join([c, d]) == c + CRLF + Join([d]);
    assert Join([b, c, d]) == b + CRLF + Join([c, d]);
    JoinOne(d);
  }

  lemma Spread(a: string, f: string, b: string, n: string, c: string, t: string, d: string, u: string)
    ensures (a + f + b) + n + ((c + t + b) + n + ((d + u) + n + n)) == a + f + (b + n + c) + t + (b + n + d) + u + (n + n)
  {
  }

  lemma HeaderLines(m: Mail)
    ensures Join(Heading(m)) == Header(m)
  {
    JoinFour("From: <" + m.from + ">", "To: <" + m.to + ">", "Subject: " + m.subject, "");
    assert "" + CRLF == CRLF;
    Spread("From: <", m.from, ">", CRLF, "To: <", m.to, "Subject: ", m.subject);
    assert ">" + CRLF + "To: <" == ">\r\nTo: <" && ">" + CRLF + "Subject: " == ">\r\nSubject: ";
    assert CRLF + CRLF == "\r\n\r\n";
  }

  lemma HeadingPlain(m: Mail)
    requires Sendable(m)
    ensures Unbroken(Heading(m)) && "." !in Heading(m) && Undots(Heading(m)) == Heading(m)
  {
    var h := Heading(m);
    assert h[0][0] == 'F' && h[1][0] == 'T' && h[2][0] == 'S';
  }

  lemma MessageSplit(m: Mail, after: string)
    ensures Message(m) + after == Join(Heading(m) + [m.body]) + ("." + CRLF + after)
    ensures m.body == "." ==> Message(m) + after == Join(Heading(m)) + ("." + CRLF + (".\r\n" + after))
  {
    hide Join, Header, Heading;
    HeaderLines(m);
    JoinAppend(Heading(m), [m.body]);
    JoinOne(m.body);
    var dot := "." + CRLF;
    assert CRLF + dot == BODY_FINISHED;
    Pull(Header(m), m.body, CRLF, dot, after);
    assert dot == ".\r\n";
  }

  lemma Pull(h: string, b: string, n: string, d: string, after: string)
    ensures h + b + (n + d) + after == (h + (b + n)) + (d + after)
    ensures h + b + (n + d) + after == h + (b + n + (d + after))
  {
  }

  /** What the server makes of the message, for every mail the client accepts. */
  lemma MessageReceived(m: Mail, after: string)
    requires Sendable(m)
    ensures Receive(Message(m) + after) ==
      if m.body == "." then Got(Header(m), ".\r\n" + after)
      else Got(Header(m) + (Undotted(m.body) + CRLF), after)
  {
    hide Receive, Join, Header, Heading, Undotted, Message;
    MessageSplit(m, after);
    HeaderLines(m);
    HeadingPlain(m);
    if m.body == "." {
      ReceiveLines(Heading(m), ".\r\n" + after);
    } else {
      var lines := Heading(m) + [m.body];
      ReceiveLines(lines, after);
      assert Undots(lines) == Undots(Heading(m)) + [Undotted(m.body)];
      JoinAppend(Heading(m), [Undotted(m.body)]);
      JoinOne(Undotted(m.body));
    }
  }

  /** The mail arrives as it was handed over exactly when its body does not start with a dot. */
  lemma Transparent(m: Mail, after: string)
    requires Sendable(m)
    ensures Receive(Message(m) + after) == Got(Header(m) + (m.body + CRLF), after)
      <==> m.body == "" || m.body[0] != '.'
  {
    hide Receive, Header, Message;
    MessageReceived(m, after);
    if m.body != "" && m.body[0] == '.' {
      assert |Header(m) + (m.body + CRLF)| == |Header(m)| + |m.body| + 2;
      assert |Header(m) + (Undotted(m.body) + CRLF)| < |Header(m)| + |m.body| + 2;
    }
  }

  // ----- the end-of-data sequence

  lemma EndHead(s: string, i: int)
    ensures MatchesAt(s, BODY_FINISHED, i) <==>
      0 <= i && i + 5 <= |s| && s[i] == '\r' && s[i + 1] == '\n' && s[i + 2] == '.' && s[i + 3] == '\r' && s[i + 4] == '\n'
  {
    if 0 <= i && i + 5 <= |s| { assert s[i..i + 5] == [s[i], s[i + 1], s[i + 2], s[i + 3], s[i + 4]]; }
  }

  /** The sequence starts at a line's end exactly when the next line is a lone dot. */
  lemma EndStep(line: string, rest: string, i: int)
    requires '\r' !in line
    ensures MatchesAt(line + CRLF + rest, BODY_FINISHED, i) <==>
      || (i == |line| && |rest| >= 3 && rest[0] == '.' && rest[1] == '\r' && rest[2] == '\n')
      || (i >= |line| + 2 && MatchesAt(rest, BODY_FINISHED, i - |line| - 2))
  {
    var s := line + CRLF + rest;
    EndHead(s, i);
    EndHead(rest, i - |line| - 2);
  }

  lemma LoneDot(line: string, rest: string)
    requires '\r' !in line
    ensures var s := line + CRLF + rest; |s| >= 3 && s[0] == '.' && s[1] == '\r' && s[2] == '\n' <==> line == "."
  {
    var s := line + CRLF + rest;
    if |line| >= 2 { assert s[1] == line[1]; }
  }

  /** Among lines of which none is a lone dot the sequence does not occur. */
  lemma {:induction false} EndOnlyLast(lines: seq<string>, i: int)
    requires lines != [] && Unbroken(lines) && "." !in lines[1..]
    ensures MatchesAt(Join(lines) + ("." + CRLF), BODY_FINISHED, i) <==> i == |Join(lines)| - 2
    decreases |lines|
  {
    hide MatchesAt;
    var dot := "." + CRLF;
    var line, rest := lines[0], Join(lines[1..]) + dot;
    Assoc(line + CRLF, Join(lines[1..]), dot);
    EndStep(line, rest, i);
    if |lines| == 1 {
      assert lines[1..] == [];
      assert rest == dot;
      EndHead(dot, i - |line| - 2);
    } else {
      EndOnlyLast(lines[1..], i - |line| - 2);
      assert lines[1] == lines[1..][0];
      Assoc(lines[1] + CRLF, Join(lines[2..]), dot);
      assert lines[1..][1..] == lines[2..];
      LoneDot(lines[1], Join(lines[2..]) + dot);
    }
  }

  lemma EndTwice(m: Mail)
    requires m.body == "."
    ensures MatchesAt(Message(m), BODY_FINISHED, |Header(m)| - 2) && |Header(m)| - 2 != |Message(m)| - 5
  {
    var h, s := Header(m), Message(m);
    assert h[|h| - 2] == '\r' && h[|h| - 1] == '\n';
    hide Header;
    EndHead(s, |h| - 2);
  }

  /** CRLF.CRLF stands in the message once, at its end, exactly when the body is not a lone dot. */
  lemma EndOnce(m: Mail)
    requires Sendable(m)
    ensures (forall i :: MatchesAt(Message(m), BODY_FINISHED, i) <==> i == |Message(m)| - 5) <==> m.body != "."
  {
    hide MatchesAt, Message, Header, Heading, Join;
    if m.body == "." {
      EndTwice(m);
    } else {
      HeadingPlain(m);
      MessageSplit(m, "");
      assert Message(m) + "" == Message(m) && "." + CRLF + "" == "." + CRLF;
      var lines := Heading(m) + [m.body];
      assert "." !in lines[1..];
      forall i ensures MatchesAt(Message(m), BODY_FINISHED, i) <==> i == |Message(m)| - 5 {
        EndOnlyLast(lines, i);
      }
    }
  }
}
