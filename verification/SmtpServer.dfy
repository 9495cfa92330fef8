/** What a server makes of everything the client writes: the commands of RFC 5321
    and RFC 4954 read off the connection line by line. */
module SmtpServer {
  import opened Octets
  import opened Sequences
  import opened SmtpText
  import opened Smtp
  import Base64
  import SmtpData

  datatype Command =
    | Hello(name: string)
    | PlainAuth(credentials: bytes)
    | LoginAuth(user: bytes, pass: bytes)
    | From(path: string)
    | To(path: string)
    | Data(text: string)
    | Quit
    | Unknown(line: string)

  /** The first line and what follows it; nothing without a line end. */
  function Split(s: string): (r: (string, string))
    ensures |r.1| <= |s|
    ensures Find(s, "\r\n", 0) != -1 ==> |r.1| < |s|
  {
    var n := Find(s, "\r\n", 0);
    if n == -1 then ("", "") else (s[..n], s[n + 2..])
  }

  /** What stands between a beginning and an end. */
  predicate Between(line: string, head: string, tail: string) {
    |head| + |tail| <= |line| && head <= line && line[|line| - |tail|..] == tail
  }

  function Middle(line: string, head: string, tail: string): string
    requires Between(line, head, tail)
  {
    line[|head|..|line| - |tail|]
  }

  function Heard(s: string): seq<Command>
    decreases |s|, 1
  {
    if Find(s, "\r\n", 0) == -1 then [] else Hear(Split(s).0, Split(s).1)
  }

  /** One command, and what follows it. */
  function Hear(line: string, rest: string): seq<Command>
    decreases |rest|, 2
  {
    if Between(line, "EHLO [", "]") then [Hello(Middle(line, "EHLO [", "]"))] + Heard(rest)
    else if Between(line, "AUTH PLAIN ", "") then [PlainAuth(Base64.Decode(Middle(line, "AUTH PLAIN ", "")))] + Heard(rest)
    else if line == "AUTH LOGIN" then
      var (user, more) := Split(rest);
      var (pass, end) := Split(more);
      [LoginAuth(Base64.Decode(user), Base64.Decode(pass))] + Heard(end)
    else if Between(line, "MAIL FROM: <", ">") then [From(Middle(line, "MAIL FROM: <", ">"))] + Heard(rest)
    else if Between(line, "RCPT TO: <", ">") then [To(Middle(line, "RCPT TO: <", ">"))] + Heard(rest)
    else if line == "DATA" then
      (match SmtpData.Receive(rest)
       case Unfinished => []
       case Got(text, after) => [Data(text)] + if |after| < |rest| then Heard(after) else [])
    else if line == "QUIT" then [Quit] + Heard(rest)
    else [Unknown(line)] + Heard(rest)
  }

  /** The codes of a server that agrees. */
  function Codes(c: Command): seq<nat> {
    match c
    case Hello(_) => [250]
    case PlainAuth(_) => [235]
    case LoginAuth(_, _) => [334, 334, 235]
    case From(_) => [250]
    case To(_) => [250]
    case Data(_) => [354, 250]
    case Quit => [221]
    case Unknown(_) => [500]
  }

  function AllCodes(cs: seq<Command>): seq<nat> {
    if cs == [] then [] else Codes(cs[0]) + AllCodes(cs[1..])
  }

  // ----- one line

  lemma SplitLine(line: string, rest: string)
    requires '\r' !in line
    ensures Find(line + "\r\n" + rest, "\r\n", 0) != -1
    ensures Split(line + "\r\n" + rest) == (line, rest)
  {
    var s := line + "\r\n" + rest;
    assert "" + line + CRLF + rest == s;
    LineBreak("", line, rest);
    assert s[..|line|] == line && s[|line| + 2..] == rest;
  }

  lemma Framed(head: string, text: string, tail: string)
    ensures Between(head + text + tail, head, tail) && Middle(head + text + tail, head, tail) == text
  {
    var line := head + text + tail;
    assert line[..|head|] == head;
  }

  lemma HeardLine(line: string, rest: string)
    requires '\r' !in line
    ensures Heard(line + "\r\n" + rest) == Hear(line, rest)
  {
    hide Hear, Find, Split;
    SplitLine(line, rest);
  }

  lemma OtherStart(line: string, head: string, tail: string)
    requires head != "" && (line == "" || line[0] != head[0])
    ensures !Between(line, head, tail) && line != head
  {
  }

  lemma HearHello(name: string, rest: string)
    ensures Hear("EHLO [" + name + "]", rest) == [Hello(name)] + Heard(rest)
  {
    hide Heard, Between, Middle, Split;
    Framed("EHLO [", name, "]");
  }

  lemma HearPlain(text: string, rest: string)
    ensures Hear("AUTH PLAIN " + text, rest) == [PlainAuth(Base64.Decode(text))] + Heard(rest)
  {
    hide Heard, Between, Middle, Split;
    var line := "AUTH PLAIN " + text;
    assert line + "" == line;
    Framed("AUTH PLAIN ", text, "");
    OtherStart(line, "EHLO [", "]");
  }

  lemma HearLogin(user: string, pass: string, rest: string)
    requires '\r' !in user && '\r' !in pass
    ensures Hear("AUTH LOGIN", user + "\r\n" + (pass + "\r\n" + rest))
      == [LoginAuth(Base64.Decode(user), Base64.Decode(pass))] + Heard(rest)
  {
    SplitLine(user, pass + "\r\n" + rest);
    SplitLine(pass, rest);
    hide Heard, Middle, Split;
    OtherStart("AUTH LOGIN", "EHLO [", "]");
    assert "AUTH LOGIN"[5] != "AUTH PLAIN "[5];
    assert !("AUTH PLAIN " <= "AUTH LOGIN");
  }

  lemma HearFrom(path: string, rest: string)
    ensures Hear("MAIL FROM: <" + path + ">", rest) == [From(path)] + Heard(rest)
  {
    hide Heard, Between, Middle, Split;
    var line := "MAIL FROM: <" + path + ">";
    Framed("MAIL FROM: <", path, ">");
    OtherStart(line, "EHLO [", "]");
    OtherStart(line, "AUTH PLAIN ", "");
  }

  lemma HearTo(path: string, rest: string)
    ensures Hear("RCPT TO: <" + path + ">", rest) == [To(path)] + Heard(rest)
  {
    hide Heard, Between, Middle, Split;
    var line := "RCPT TO: <" + path + ">";
    Framed("RCPT TO: <", path, ">");
    OtherStart(line, "EHLO [", "]");
    OtherStart(line, "AUTH PLAIN ", "");
    OtherStart(line, "MAIL FROM: <", ">");
  }

  lemma HearShort(rest: string)
    ensures Hear("QUIT", rest) == [Quit] + Heard(rest)
    ensures Hear(".", rest) == [Unknown(".")] + Heard(rest)
    ensures SmtpData.Receive(rest).Got? ==>
      var r := SmtpData.Receive(rest);
      Hear("DATA", rest) == [Data(r.mail)] + if |r.rest| < |rest| then Heard(r.rest) else []
  {
    hide Heard, Between, Middle, Split, SmtpData.Receive;
    forall line | line in {"QUIT", "DATA", "."}
      ensures !Between(line, "EHLO [", "]") && !Between(line, "AUTH PLAIN ", "")
      ensures !Between(line, "MAIL FROM: <", ">") && !Between(line, "RCPT TO: <", ">")
    {
      OtherStart(line, "EHLO [", "]");
      OtherStart(line, "AUTH PLAIN ", "");
      OtherStart(line, "MAIL FROM: <", ">");
      OtherStart(line, "RCPT TO: <", ">");
    }
  }

  lemma HeardNothing()
    ensures Heard("") == []
  {
  }

  lemma {:induction false} Base64Plain(s: bytes)
    ensures '\r' !in Base64.Encode(s)
    decreases |s|
  {
    if |s| >= 3 { Base64Plain(s[3..]); }
  }

  // ----- everything the client writes

  lemma Glue(head: string, text: string, tail: string, rest: string)
    ensures head + text + (tail + "\r\n") + rest == head + text + tail + "\r\n" + rest
  {
  }

  /** How the client said who it is. */
  function Login(m: Mail, a: Auth): seq<Command> {
    match a
    case None => []
    case Plain => [PlainAuth([0] + m.user + [0] + m.pass)]
    case Login => [LoginAuth(m.user, m.pass)]
  }

  /** A session that hands over a mail with this text. */
  function Session(m: Mail, a: Auth, text: string): seq<Command> {
    [Hello(m.address)] + Login(m, a) + [From(m.from), To(m.to), Data(text), Quit]
  }

  function MailText(m: Mail): string {
    "From: <" + m.from + ">\r\nTo: <" + m.to + ">\r\nSubject: " + m.subject + "\r\n\r\n" + (m.body + "\r\n")
  }

  lemma HeardQuit()
    ensures Heard("QUIT\r\n") == [Quit]
  {
    hide Heard, Hear;
    assert "QUIT" + "\r\n" + "" == "QUIT\r\n";
    HeardLine("QUIT", "");
    HearShort("");
    HeardNothing();
  }

  lemma HeardDot()
    ensures Heard(".\r\nQUIT\r\n") == [Unknown("."), Quit]
  {
    hide Heard, Hear;
    assert "." + "\r\n" + "QUIT\r\n" == ".\r\nQUIT\r\n";
    HeardLine(".", "QUIT\r\n");
    HearShort("QUIT\r\n");
    HeardQuit();
  }

  lemma HeardData(m: Mail)
    requires SmtpData.Sendable(m)
    ensures Heard("DATA\r\n" + (SmtpData.Message(m) + QUIT)) ==
      if m.body == "." then [Data(Header(m)), Unknown("."), Quit]
      else [Data(Header(m) + (SmtpData.Undotted(m.body) + CRLF)), Quit]
  {
    hide Heard, Hear, Header, SmtpData.Receive, SmtpData.Undotted, SmtpData.Message;
    var t := SmtpData.Message(m) + QUIT;
    assert "DATA" + "\r\n" + t == "DATA\r\n" + t;
    HeardLine("DATA", t);
    HearShort(t);
    SmtpData.MessageReceived(m, QUIT);
    MessageLong(m);
    HeardQuit();
    HeardDot();
    assert ".\r\n" + QUIT == ".\r\nQUIT\r\n";
  }

  lemma MessageLong(m: Mail)
    ensures |SmtpData.Message(m)| > 4
  {
  }

  lemma HeardPath(m: Mail, rest: string)
    requires SmtpData.Sendable(m)
    ensures Heard(MailFrom(m) + (RcptTo(m) + rest)) == [From(m.from), To(m.to)] + Heard(rest)
  {
    hide Heard, Hear;
    var from, to := "MAIL FROM: <" + m.from + ">", "RCPT TO: <" + m.to + ">";
    assert ">" + "\r\n" == ">\r\n";
    Glue("MAIL FROM: <", m.from, ">", RcptTo(m) + rest);
    Glue("RCPT TO: <", m.to, ">", rest);
    HeardLine(from, RcptTo(m) + rest);
    HearFrom(m.from, RcptTo(m) + rest);
    HeardLine(to, rest);
    HearTo(m.to, rest);
    Assoc([From(m.from)], [To(m.to)], Heard(rest));
  }

  lemma HeardLogin(m: Mail, a: Auth, rest: string)
    ensures Heard(AuthExchange(m, a) + rest) == Login(m, a) + Heard(rest)
  {
    hide Heard, Hear, Base64.Encode, Base64.Decode;
    match a
    case None => assert "" + rest == rest;
    case Plain =>
      var text := Base64.Encode(Credentials(m));
      Base64Plain(Credentials(m));
      Base64.DecodeEncode(Credentials(m));
      HeardLine("AUTH PLAIN " + text, rest);
      HearPlain(text, rest);
    case Login =>
      var user, pass := Base64.Encode(m.user), Base64.Encode(m.pass);
      Base64Plain(m.user);
      Base64Plain(m.pass);
      Base64.DecodeEncode(m.user);
      Base64.DecodeEncode(m.pass);
      LoginText(user, pass, rest);
      HeardLine("AUTH LOGIN", user + "\r\n" + (pass + "\r\n" + rest));
      HearLogin(user, pass, rest);
  }

  lemma LoginText(user: string, pass: string, rest: string)
    ensures AUTH_LOGIN + (user + CRLF) + (pass + CRLF) + rest
      == "AUTH LOGIN" + "\r\n" + (user + "\r\n" + (pass + "\r\n" + rest))
  {
    assert AUTH_LOGIN == "AUTH LOGIN" + "\r\n";
  }

  lemma ScriptText(m: Mail, a: Auth)
    ensures Script(m, a) ==
      Ehlo(m) + (AuthExchange(m, a) + (MailFrom(m) + (RcptTo(m) + (DATA + (SmtpData.Message(m) + QUIT)))))
  {
    hide *;
    ScriptIs(m, a);
    Eight(Ehlo(m), AuthExchange(m, a), MailFrom(m), RcptTo(m), DATA, SmtpData.Message(m), QUIT);
  }

  lemma ScriptIs(m: Mail, a: Auth)
    ensures Script(m, a) == Ehlo(m) + AuthExchange(m, a) + MailFrom(m) + RcptTo(m) + DATA + SmtpData.Message(m) + QUIT
  {
    hide Ehlo, AuthExchange, MailFrom, RcptTo, Header;
    var e := Envelope(m, a);
    assert e + Header(m) + m.body + BODY_FINISHED == e + (Header(m) + m.body + BODY_FINISHED);
  }

  lemma Eight(a: string, b: string, c: string, d: string, e: string, f: string, g: string)
    ensures a + b + c + d + e + f + g == a + (b + (c + (d + (e + (f + g)))))
  {
  }

  lemma HeardScript(m: Mail, a: Auth)
    requires SmtpData.Sendable(m) && '\r' !in m.address
    ensures Heard(Script(m, a)) == [Hello(m.address)] + Login(m, a) + ([From(m.from), To(m.to)] +
      if m.body == "." then [Data(Header(m)), Unknown("."), Quit]
      else [Data(Header(m) + (SmtpData.Undotted(m.body) + CRLF)), Quit])
  {
    hide Heard, Hear, Header, AuthExchange, MailFrom, RcptTo, SmtpData.Message, SmtpData.Undotted, SmtpData.Sendable, Script, Login;
    ScriptText(m, a);
    var data := DATA + (SmtpData.Message(m) + QUIT);
    var path := MailFrom(m) + (RcptTo(m) + data);
    var auth := AuthExchange(m, a) + path;
    HeardData(m);
    HeardPath(m, data);
    HeardLogin(m, a, path);
    assert "]" + "\r\n" == "]\r\n";
    Glue("EHLO [", m.address, "]", auth);
    HeardLine("EHLO [" + m.address + "]", auth);
    HearHello(m.address, auth);
  }

  /** The server hears who the client is, its credentials, sender, recipient and
      the mail, and nothing else, exactly when the body does not start with a dot. */
  lemma ServerHears(m: Mail, a: Auth)
    requires SmtpData.Sendable(m) && '\r' !in m.address
    ensures Heard(Script(m, a)) == Session(m, a, MailText(m)) <==> m.body == "" || m.body[0] != '.'
  {
    HeardScript(m, a);
    assert MailText(m) == Header(m) + (m.body + CRLF);
    hide Heard, Header, Login, Script, MailText, SmtpData.Sendable;
    var h, front := Heard(Script(m, a)), [Hello(m.address)] + Login(m, a);
    var k := |front| + 2;
    var s := Session(m, a, MailText(m));
    assert s[k] == Data(MailText(m));
    if m.body == "." {
      assert |h| == |s| + 1;
    } else {
      assert h[k] == Data(Header(m) + (SmtpData.Undotted(m.body) + CRLF));
      if m.body != "" && m.body[0] == '.' {
        assert |Header(m) + (SmtpData.Undotted(m.body) + CRLF)| < |Header(m) + (m.body + CRLF)|;
      } else {
        assert h == s;
      }
    }
  }

  lemma TailCodes(m: Mail, text: string)
    ensures AllCodes([From(m.from), To(m.to), Data(text), Quit]) == [250, 250, 354, 250, 221]
  {
    var tail := [From(m.from), To(m.to), Data(text), Quit];
    assert tail[1..] == [To(m.to), Data(text), Quit] && tail[1..][1..] == [Data(text), Quit] && tail[1..][1..][1..] == [Quit];
    assert AllCodes([Quit]) == [221] + AllCodes([]) by { assert [Quit][1..] == []; }
    assert AllCodes([Data(text), Quit]) == [354, 250, 221];
  }

  /** The codes the client goes on are those a server gives to these commands. */
  lemma CodesAgree(m: Mail, a: Auth, text: string)
    ensures [220] + AllCodes(Session(m, a, text)) == Accepted(Closed, a) + [221]
  {
    var tail := [From(m.from), To(m.to), Data(text), Quit];
    TailCodes(m, text);
    var s := Session(m, a, text);
    assert s[1..] == Login(m, a) + tail;
    match a
    case None => assert s[1..] == tail;
    case Plain => assert s[1..][1..] == tail;
    case Login => assert s[1..][1..] == tail;
  }
}
