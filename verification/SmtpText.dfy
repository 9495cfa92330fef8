/** The texts of an SMTP dialogue: what the client looks for in a reply, what it
    writes, and when it accepts the fields of a mail. */
module SmtpText {
  import opened Octets
  import Base64

  const CRLF := "\r\n"

  // ----- searching

  predicate MatchesAt(s: string, pat: string, i: int) {
    0 <= i && i + |pat| <= |s| && s[i..i + |pat|] == pat
  }

  /** The first place from `from` on where pat stands in s; -1 when there is none. */
  function Find(s: string, pat: string, from: nat): (r: int)
    ensures r == -1 || (from <= r && MatchesAt(s, pat, r))
    ensures forall i :: from <= i && (r == -1 || i < r) ==> !MatchesAt(s, pat, i)
    decreases |s| - from
  {
    if from + |pat| > |s| then -1
    else if MatchesAt(s, pat, from) then from
    else if from == |s| then -1
    else Find(s, pat, from + 1)
  }

  // ----- replies

  predicate Blank(c: char) { c == ' ' || '\t' <= c <= '\r' }

  predicate Digit(c: char) { '0' <= c <= '9' }

  function DigitValue(c: char): nat
    requires Digit(c)
  {
    c as int - '0' as int
  }

  function Decimal(s: string, acc: nat): nat {
    if s == "" || !Digit(s[0]) then acc else Decimal(s[1..], 10 * acc + DigitValue(s[0]))
  }

  /** strtol: blanks, a sign, then as many digits as follow. */
  function Number(s: string): int {
    if s != "" && Blank(s[0]) then Number(s[1..])
    else if s != "" && s[0] == '-' then 0 - Decimal(s[1..], 0) as int
    else if s != "" && s[0] == '+' then Decimal(s[1..], 0)
    else Decimal(s, 0)
  }

  /** The reply code at the start of what was received; 0 when there is none. */
  function Code(rx: string): (n: nat)
    ensures n < 1000
  {
    if |rx| < 3 then 0
    else
      var n := Number(rx[..3]);
      if n <= 0 || n >= 1000 then 0 else n
  }

  /** Whether the line at off, or one its hyphens lead to, ends the reply. */
  predicate Finished(rx: string, off: nat)
    decreases |rx| - off
  {
    var crlf := Find(rx, CRLF, off + 4);
    if crlf == -1 then false
    else if rx[off + 3] == '-' then Finished(rx, crlf + 2)
    else rx[off + 3] == ' '
  }

  /** A reply as section 4.2.1 of RFC 5321 lays it out. */
  function Reply(code: string, texts: seq<string>): string
    requires texts != []
  {
    if |texts| == 1 then Line(code, ' ', texts[0])
    else Line(code, '-', texts[0]) + Reply(code, texts[1..])
  }

  function Line(code: string, sep: char, text: string): string { code + [sep] + text + CRLF }

  ghost predicate Printable(texts: seq<string>) {
    forall i :: 0 <= i < |texts| ==> '\r' !in texts[i]
  }

  lemma MatchHead(s: string, i: int)
    ensures MatchesAt(s, CRLF, i) <==> 0 <= i < |s| - 1 && s[i] == '\r' && s[i + 1] == '\n'
  {
    if 0 <= i < |s| - 1 { assert s[i..i + 2] == [s[i], s[i + 1]]; }
  }

  lemma LineBreak(before: string, text: string, after: string)
    requires '\r' !in text
    ensures Find(before + text + CRLF + after, CRLF, |before|) == |before| + |text|
  {
    var s, n := before + text + CRLF + after, |before| + |text|;
    MatchHead(s, n);
    forall i | |before| <= i < n ensures !MatchesAt(s, CRLF, i) {
      MatchHead(s, i);
      assert s[i] == text[i - |before|];
    }
  }

  lemma NoLineBreak(before: string, text: string, k: nat, from: nat)
    requires '\r' !in text && k < |text| + 2 && from >= |before|
    ensures Find(before + (text + CRLF)[..k], CRLF, from) == -1
  {
    var t := (text + CRLF)[..k];
    var s := before + t;
    forall i | from <= i ensures !MatchesAt(s, CRLF, i) {
      MatchHead(s, i);
      if i < |s| - 1 { assert s[i] == text[i - |before|]; }
    }
  }

  lemma Regroup(a: string, b: string, c: string, d: string, e: string, f: string)
    ensures a + (b + c + d + e) + f == (a + b + c) + d + e + f
    ensures b + c + d + e == (b + c) + (d + e)
  {
  }

  lemma Cut(a: string, x: string, t: string, k: nat)
    requires |x| <= k <= |x + t|
    ensures (x + t)[..k] == x + t[..k - |x|]
    ensures a + (x + t[..k - |x|]) == (a + x) + t[..k - |x|]
  {
  }

  lemma LineFound(before: string, code: string, sep: char, text: string, after: string)
    requires |code| == 3 && '\r' !in text
    ensures var s := before + Line(code, sep, text) + after;
      && Find(s, CRLF, |before| + 4) == |before| + 4 + |text|
      && s[|before| + 3] == sep
  {
    hide Find;
    Regroup(before, code, [sep], text, CRLF, after);
    LineBreak(before + code + [sep], text, after);
    assert (before + code + [sep])[|before| + 3] == sep;
  }

  lemma LineCut(before: string, code: string, sep: char, text: string, k: nat)
    requires |code| == 3 && '\r' !in text && k < |Line(code, sep, text)|
    ensures Find(before + Line(code, sep, text)[..k], CRLF, |before| + 4) == -1
  {
    if k >= 4 {
      hide Find;
      Regroup(before, code, [sep], text, CRLF, "");
      Cut(before, code + [sep], text + CRLF, k);
      assert (before + code) + [sep] == before + (code + [sep]);
      NoLineBreak(before + (code + [sep]), text, k - 4, |before| + 4);
    }
  }

  lemma FinishedAt(s: string, off: nat, crlf: nat)
    requires Find(s, CRLF, off + 4) == crlf
    ensures off + 3 < |s| && crlf + 2 <= |s|
    ensures Finished(s, off) <==> if s[off + 3] == '-' then Finished(s, crlf + 2) else s[off + 3] == ' '
  {
  }

  /** The client takes a reply for complete as soon as all of it is there, and not before. */
  lemma {:induction false} ReplyComplete(before: string, code: string, texts: seq<string>)
    requires |code| == 3 && texts != [] && Printable(texts)
    ensures Finished(before + Reply(code, texts), |before|)
    decreases |texts|
  {
    hide Finished, Find;
    var s := before + Reply(code, texts);
    var sep := if |texts| == 1 then ' ' else '-';
    var line, after := Line(code, sep, texts[0]), if |texts| == 1 then "" else Reply(code, texts[1..]);
    hide Line, Reply;
    assert s == before + line + after by { ReplySplit(before, code, texts); }
    assert |line| == 4 + |texts[0]| + 2 by { LineLength(code, sep, texts[0]); }
    LineFound(before, code, sep, texts[0], after);
    FinishedAt(s, |before|, |before| + 4 + |texts[0]|);
    if |texts| > 1 {
      ReplyComplete(before + line, code, texts[1..]);
    }
  }

  lemma LineLength(code: string, sep: char, text: string)
    ensures |Line(code, sep, text)| == |code| + 1 + |text| + 2
  {
  }

  lemma ReplySplit(before: string, code: string, texts: seq<string>)
    requires texts != []
    ensures Reply(code, texts) == Line(code, if |texts| == 1 then ' ' else '-', texts[0]) +
      (if |texts| == 1 then "" else Reply(code, texts[1..]))
    ensures before + Reply(code, texts) == before + Line(code, if |texts| == 1 then ' ' else '-', texts[0]) +
      (if |texts| == 1 then "" else Reply(code, texts[1..]))
  {
    hide Line;
  }

  lemma {:induction false} ReplyIncomplete(before: string, code: string, texts: seq<string>, k: nat)
    requires |code| == 3 && texts != [] && Printable(texts) && k < |Reply(code, texts)|
    ensures !Finished(before + Reply(code, texts)[..k], |before|)
    decreases |texts|
  {
    hide Finished, Find;
    var r := Reply(code, texts);
    var s := before + r[..k];
    var sep := if |texts| == 1 then ' ' else '-';
    var line, after := Line(code, sep, texts[0]), if |texts| == 1 then "" else Reply(code, texts[1..]);
    hide Line, Reply;
    assert r == line + after by { ReplySplit(before, code, texts); }
    assert |line| == 4 + |texts[0]| + 2 by { LineLength(code, sep, texts[0]); }
    if k < |line| {
      assert r[..k] == line[..k];
      LineCut(before, code, sep, texts[0], k);
      NotFinished(s, |before|);
    } else {
      var rest := after[..k - |line|];
      assert r[..k] == line + rest;
      assert s == before + line + rest;
      LineFound(before, code, sep, texts[0], rest);
      FinishedAt(s, |before|, |before| + 4 + |texts[0]|);
      ReplyIncomplete(before + line, code, texts[1..], k - |line|);
    }
  }

  lemma NotFinished(s: string, off: nat)
    requires Find(s, CRLF, off + 4) == -1
    ensures !Finished(s, off)
  {
  }

  function Three(n: nat): (s: string)
    requires n < 1000
    ensures |s| == 3
  {
    [Figure(n / 100), Figure(n / 10 % 10), Figure(n % 10)]
  }

  function Figure(d: nat): char
    requires d < 10
  {
    ('0' as int + d) as char
  }

  lemma DecimalOfThree(a: nat, b: nat, c: nat)
    requires a < 10 && b < 10 && c < 10
    ensures Number([Figure(a), Figure(b), Figure(c)]) == 100 * a + 10 * b + c
  {
    var d := [Figure(a), Figure(b), Figure(c)];
    assert Decimal(d, 0) == Decimal(d[1..], a);
    assert d[1..] == [Figure(b), Figure(c)] && d[1..][1..] == [Figure(c)];
    assert Decimal(d[1..], a) == Decimal(d[1..][1..], 10 * a + b);
    assert Decimal([Figure(c)], 10 * a + b) == Decimal([Figure(c)][1..], 100 * a + 10 * b + c);
    assert Number(d) == Decimal(d, 0);
  }

  lemma CodeOfReply(n: nat, rest: string)
    requires 0 < n < 1000
    ensures Code(Three(n) + rest) == n
  {
    hide Number, Figure;
    var a, b, c := n / 100, n / 10 % 10, n % 10;
    assert n == 100 * a + 10 * b + c;
    DecimalOfThree(a, b, c);
    assert (Three(n) + rest)[..3] == [Figure(a), Figure(b), Figure(c)];
  }

  lemma CodeStable(rx: string, more: string)
    requires |rx| >= 3
    ensures Code(rx + more) == Code(rx)
  {
    assert (rx + more)[..3] == rx[..3];
  }

  // ----- the mail and the commands

  /** What the caller hands over, with the text form of the local address. */
  datatype Mail = Mail(from: string, to: string, subject: string, body: string, address: string,
                       user: seq<byte>, pass: seq<byte>, notify: bool)

  const TX_BUF_LEN := 255

  /** The lengths the source asserts. */
  predicate Fits(m: Mail) {
    && |m.address| + 9 <= TX_BUF_LEN
    && |m.from| + |m.to| + |m.subject| + 31 <= TX_BUF_LEN
    && |m.user| <= 32 && |m.pass| <= 32
    && |m.body| < 0x1_0000
  }

  function Ehlo(m: Mail): string { "EHLO [" + m.address + "]\r\n" }

  function Credentials(m: Mail): seq<byte> { [0] + m.user + [0] + m.pass }

  function AuthPlain(m: Mail): string { "AUTH PLAIN " + Base64.Encode(Credentials(m)) + CRLF }

  const AUTH_LOGIN := "AUTH LOGIN\r\n"

  function UserLine(m: Mail): string { Base64.Encode(m.user) + CRLF }

  function PassLine(m: Mail): string { Base64.Encode(m.pass) + CRLF }

  function MailFrom(m: Mail): string { "MAIL FROM: <" + m.from + ">\r\n" }

  function RcptTo(m: Mail): string { "RCPT TO: <" + m.to + ">\r\n" }

  const DATA := "DATA\r\n"

  function Header(m: Mail): string {
    "From: <" + m.from + ">\r\nTo: <" + m.to + ">\r\nSubject: " + m.subject + "\r\n\r\n"
  }

  const BODY_FINISHED := "\r\n.\r\n"
  const QUIT := "QUIT\r\n"

  // ----- the choice of authentication

  datatype Auth = None | Plain | Login

  predicate Contains(s: string, pat: string) { Find(s, pat, 0) != -1 }

  /** Where the word before the mechanisms stands, or -1. */
  function AuthAt(rx: string): int {
    var sp := Find(rx, "AUTH ", 0);
    if sp == -1 then Find(rx, "AUTH=", 0) else sp
  }

  /** From that word to the end of its line; empty without a word or an end. */
  function AuthSpan(rx: string): string {
    var auth := AuthAt(rx);
    if auth == -1 then ""
    else
      var crlf := Find(rx, CRLF, auth);
      if crlf <= auth then "" else rx[auth..crlf]
  }

  /** The parameters on the reply's AUTH line, if it has one. */
  function AuthLine(rx: string): string {
    if |AuthSpan(rx)| <= 5 then "" else UpToNul(AuthSpan(rx)[5..], 0 as char)
  }

  lemma Differs(s: string, pat: string, i: nat)
    requires i < |s| && pat != "" && s[i] != pat[0]
    ensures !MatchesAt(s, pat, i)
  {
    assert i + |pat| <= |s| ==> s[i..i + |pat|][0] == s[i];
  }

  /** The word itself is on the line. */
  lemma SpanHasWord(rx: string)
    ensures AuthSpan(rx) == "" || |AuthSpan(rx)| >= 5
  {
    var auth := AuthAt(rx);
    if auth != -1 {
      var word := rx[auth..auth + 5];
      assert word == "AUTH " || word == "AUTH=";
      forall i | auth <= i < auth + 5 ensures !MatchesAt(rx, CRLF, i) {
        assert rx[i] == word[i - auth];
        Differs(rx, CRLF, i);
      }
    }
  }

  function AuthChoice(rx: string): Auth {
    if Contains(AuthLine(rx), "PLAIN") then Plain
    else if Contains(AuthLine(rx), "LOGIN") then Login
    else None
  }

  /** What is first in a beginning of the text is first in the text. */
  lemma FirstStays(before: string, key: string, rest: string)
    requires Find(before + key, key, 0) == |before|
    ensures Find(before + key + rest, key, 0) == |before|
  {
    var s, t := before + key, before + key + rest;
    assert MatchesAt(t, key, |before|) by { assert t[|before|..|before| + |key|] == key; }
    forall i | 0 <= i < |before| ensures !MatchesAt(t, key, i) {
      assert !MatchesAt(s, key, i);
      if i + |key| <= |s| { assert s[i..i + |key|] == t[i..i + |key|]; }
    }
  }

  /** The mechanisms are what follows the first "AUTH " or, without one, the
      first "AUTH=", up to the end of that line. */
  lemma AuthOffered(before: string, key: string, params: string, after: string)
    requires key == "AUTH " || (key == "AUTH=" && Find(before + key + (params + CRLF + after), "AUTH ", 0) == -1)
    requires Find(before + key, key, 0) == |before| && '\r' !in params && 0 as char !in params
    ensures AuthLine(before + key + (params + CRLF + after)) == params
  {
    hide Find;
    var rest := params + CRLF + after;
    var rx, n := before + key + rest, |before|;
    FirstStays(before, key, rest);
    assert Find(rx, CRLF, n) == n + 5 + |params| by { CrlfAfter(before, key, params, after); }
    assert AuthSpan(rx) == rx[n..n + 5 + |params|];
    assert AuthSpan(rx)[5..] == params;
    UpToNulWhole(params, 0 as char);
  }

  lemma CrlfAfter(before: string, key: string, params: string, after: string)
    requires '\r' !in key && '\r' !in params
    ensures Find(before + key + (params + CRLF + after), CRLF, |before|) == |before| + |key| + |params|
  {
    hide Find;
    Shift(before, key, params, CRLF, after);
    LineBreak(before, key + params, after);
  }

  lemma Shift(a: string, b: string, c: string, d: string, e: string)
    ensures a + b + (c + d + e) == a + (b + c) + d + e
  {
  }

  /** Without either word the client does not authenticate. */
  lemma AuthNotOffered(rx: string)
    requires Find(rx, "AUTH ", 0) == Find(rx, "AUTH=", 0) == -1
    ensures AuthChoice(rx) == None
  {
  }
}
