/** When the SMTP client gets somewhere: replies in fragments, silence, and a
    server that says yes. */
module SmtpProgress {
  import opened Sequences
  import opened SmtpText
  import opened Smtp
  import opened SmtpSafety

  // ----- replies in fragments

  function Receipts(chunks: seq<string>, env: Env): seq<(Event, Env)> {
    seq(|chunks|, i requires 0 <= i < |chunks| => (Recv(chunks[i]), env))
  }

  ghost predicate IsReply(r: string) {
    exists n, texts :: 0 < n < 1000 && texts != [] && Printable(texts) && r == Reply(Three(n), texts)
  }

  lemma ReplyPrefix(r: string, k: nat)
    requires IsReply(r) && k <= |r|
    ensures Finished(r[..k], 0) <==> k == |r|
    ensures k >= 3 ==> Code(r[..k]) != 0
  {
    var n, texts :| 0 < n < 1000 && texts != [] && Printable(texts) && r == Reply(Three(n), texts);
    hide Finished, Code, Three;
    assert "" + r == r && "" + r[..k] == r[..k];
    ReplyComplete("", Three(n), texts);
    if k < |r| { ReplyIncomplete("", Three(n), texts, k); } else { assert r[..k] == r; }
    if k >= 3 {
      CodeStable(r[..k], r[k..]);
      assert r[..k] + r[k..] == r;
      ReplyStart(n, texts);
    }
  }

  lemma ReplyStart(n: nat, texts: seq<string>)
    requires 0 < n < 1000 && texts != []
    ensures |Reply(Three(n), texts)| >= 3 && Code(Reply(Three(n), texts)) == n
  {
    hide Code, Three;
    var r := Reply(Three(n), texts);
    assert r == Three(n) + r[3..];
    CodeOfReply(n, r[3..]);
  }

  lemma ConcatNonempty(chunks: seq<string>)
    requires chunks != [] && forall i :: 0 <= i < |chunks| ==> chunks[i] != ""
    ensures Flatten(chunks) != ""
  {
  }

  lemma {:induction false} Assemble(m: Mail, v: View, got: string, chunks: seq<string>, r: string, env: Env)
    requires !v.freed && v.phase != Closed && IsReply(r) && got + Flatten(chunks) == r
    requires chunks != [] && forall i :: 0 <= i < |chunks| ==> chunks[i] != ""
    requires |got + chunks[0]| >= 3
    ensures Run(m, v.(rx := got), Receipts(chunks, env)) == Answer(m, v.(rx := r), env)
    decreases |chunks|
  {
    hide Answer, Finished, Code, IsReply;
    var es := Receipts(chunks, env);
    assert es[1..] == Receipts(chunks[1..], env);
    var w := v.(rx := got + chunks[0]);
    assert Next(m, v.(rx := got), es[0].0, es[0].1) == Answer(m, w, env);
    assert (got + chunks[0]) + Flatten(chunks[1..]) == r;
    if |chunks| == 1 {
      assert got + chunks[0] == r;
    } else {
      ConcatNonempty(chunks[1..]);
      ReplyPrefix(r, |got + chunks[0]|);
      assert r[..|got + chunks[0]|] == got + chunks[0];
      Waits(m, w, env);
      Assemble(m, v, got + chunks[0], chunks[1..], r, env);
    }
  }

  lemma Waits(m: Mail, v: View, env: Env)
    requires Code(v.rx) != 0 && !Finished(v.rx, 0)
    ensures Answer(m, v, env) == v
  {
  }

  /** However a reply is cut, as long as the first piece holds the whole code,
      the client acts as if it had come in one piece. */
  lemma FragmentsDoNotMatter(m: Mail, v: View, chunks: seq<string>, env: Env)
    requires !v.freed && v.phase != Closed && v.rx == "" && IsReply(Flatten(chunks))
    requires chunks != [] && |chunks[0]| >= 3 && forall i :: 0 <= i < |chunks| ==> chunks[i] != ""
    ensures Run(m, v, Receipts(chunks, env)) == Next(m, v, Recv(Flatten(chunks)), env)
  {
    hide Answer;
    assert v.(rx := "") == v;
    assert "" + Flatten(chunks) == Flatten(chunks) && "" + chunks[0] == chunks[0];
    Assemble(m, v, "", chunks, Flatten(chunks), env);
  }

  /** A first piece shorter than the code is thrown away. */
  lemma ShortPieceLost(m: Mail, v: View, piece: string, env: Env)
    requires !v.freed && v.rx == "" && |piece| < 3
    ensures Next(m, v, Recv(piece), env) == v
  {
    assert v.(rx := "") == v && "" + piece == piece;
  }

  // ----- a reply cut inside its code

  lemma ReplyShape(r: string)
    requires IsReply(r)
    ensures |r| >= 6 && Digit(r[0]) && Digit(r[1]) && Digit(r[2]) && (r[3] == ' ' || r[3] == '-')
  {
    var n, texts :| 0 < n < 1000 && texts != [] && Printable(texts) && r == Reply(Three(n), texts);
    var c := Three(n);
    assert Digit(c[0]) && Digit(c[1]) && Digit(c[2]);
    var sep := if |texts| == 1 then ' ' else '-';
    assert Line(c, sep, texts[0]) <= r;
    assert Line(c, sep, texts[0])[3] == sep && |Line(c, sep, texts[0])| >= 6;
  }

  lemma ShortNumbers(a: char, b: char, c: char)
    requires Digit(a)
    ensures Digit(b) && !Digit(c) ==> Number([a, b, c]) == 10 * DigitValue(a) + DigitValue(b)
    ensures !Digit(b) ==> Number([a, b, c]) == DigitValue(a)
  {
    var d := [a, b, c];
    assert d[1..] == [b, c] && d[1..][1..] == [c];
    assert Number(d) == Decimal(d, 0) == Decimal(d[1..], DigitValue(a));
    if Digit(b) { assert Decimal(d[1..], DigitValue(a)) == Decimal([c], 10 * DigitValue(a) + DigitValue(b)); }
  }

  /** What is left of a reply without the start of its code has no code a phase accepts. */
  lemma CutCode(a: string, b: string)
    requires IsReply(a + b) && 0 < |a| < 3
    ensures Code(b) < 100
  {
    var r := a + b;
    ReplyShape(r);
    hide IsReply, Number;
    if |a| == 1 {
      assert b[..3] == [r[1], r[2], r[3]];
      ShortNumbers(r[1], r[2], r[3]);
    } else {
      assert b[..3] == [r[2], r[3], r[4]];
      ShortNumbers(r[2], r[3], r[4]);
    }
  }

  lemma NoSuchCode(m: Mail, v: View, env: Env)
    requires Code(v.rx) < 100
    ensures Answer(m, v, env).phase == v.phase
  {
    hide Code, Finished, AuthChoice, Contains;
    assert React(m, v.phase, Code(v.rx), v.rx).0 == v.phase;
  }

  lemma Moves(m: Mail, v: View, r: string, env: Env)
    requires !v.freed && v.rx == "" && v.phase != Closed && Code(r) != 0 && Finished(r, 0) && env.cmdOk
    requires React(m, v.phase, Code(r), r).0 != v.phase
    ensures Next(m, v, Recv(r), env).phase != v.phase
  {
    var (p, text) := React(m, v.phase, Code(r), r);
    assert p == Body ==> v.phase == DataSent by { hide Code, Finished, AuthChoice, Contains; }
    hide React, Code, Finished, Next;
    MovesOn(m, v, r, env);
  }

  /** A reply the client would accept, cut in two, is accepted all the same
      exactly when the first piece holds the whole code. */
  lemma TwoPieces(m: Mail, v: View, a: string, b: string, env: Env)
    requires !v.freed && v.phase != Closed && v.rx == "" && IsReply(a + b) && a != "" && b != "" && env.cmdOk
    requires React(m, v.phase, Code(a + b), a + b).0 != v.phase
    ensures Run(m, v, Receipts([a, b], env)) == Next(m, v, Recv(a + b), env) <==> |a| >= 3
  {
    assert Flatten([a, b]) == a + b by {
      assert [a, b][1..] == [b] && [b][1..] == [];
      assert Flatten([b]) == b + Flatten([]) == b;
    }
    if |a| >= 3 {
      FragmentsDoNotMatter(m, v, [a, b], env);
    } else {
      CutInCode(m, v, a, b, env);
      ReplyPrefix(a + b, |a + b|);
      assert (a + b)[..|a + b|] == a + b;
      Moves(m, v, a + b, env);
    }
  }

  lemma CutInCode(m: Mail, v: View, a: string, b: string, env: Env)
    requires !v.freed && v.rx == "" && IsReply(a + b) && 0 < |a| < 3
    ensures Run(m, v, Receipts([a, b], env)).phase == v.phase
  {
    hide IsReply, Answer, Code;
    ShortPieceLost(m, v, a, env);
    var es := Receipts([a, b], env);
    assert es == [(Recv(a), env), (Recv(b), env)] && es[1..] == [(Recv(b), env)];
    CutCode(a, b);
    assert "" + b == b;
    assert Next(m, v, Recv(b), env) == Answer(m, v.(rx := b), env);
    NoSuchCode(m, v.(rx := b), env);
    hide Next;
    assert Run(m, v, es) == Run(m, v, es[1..]);
    RunOne(m, v, Recv(b), env);
  }

  /** The greeting in one piece, and in two. */
  lemma GreetingCut(m: Mail, env: Env)
    requires env.cmdOk
    ensures Next(m, Init(), Recv("2" + "20 ok\r\n"), env).phase == Helo
    ensures Run(m, Init(), Receipts(["2", "20 ok\r\n"], env)).phase == Greeting
  {
    var r := "2" + "20 ok\r\n";
    GreetingIsReply();
    CutInCode(m, Init(), "2", "20 ok\r\n", env);
    ReplyPrefix(r, |r|);
    assert r[..|r|] == r;
    assert Code(r) == 220 by { ReplyStart(220, ["ok"]); GreetingText(); }
    hide IsReply, Code, Finished;
    MovesOn(m, Init(), r, env);
  }

  lemma GreetingText()
    ensures "2" + "20 ok\r\n" == Reply(Three(220), ["ok"])
  {
    assert Three(220) == "220";
    assert Reply("220", ["ok"]) == Line("220", ' ', "ok");
  }

  lemma GreetingIsReply()
    ensures IsReply("2" + "20 ok\r\n")
  {
    GreetingText();
    var texts := ["ok"];
    assert '\r' !in texts[0];
    assert Printable(texts);
  }

  // ----- silence

  function Polls(envs: seq<Env>): seq<(Event, Env)> {
    seq(|envs|, i requires 0 <= i < |envs| => (Poll, envs[i]))
  }

  ghost predicate Silent(v: View, envs: seq<Env>) {
    && !v.freed && v.phase != Closed && v.rx == "" && v.timer > 0
    && (v.phase == Body ==> forall i :: 0 <= i < |envs| ==> !envs[i].bodyOk && !envs[i].endOk)
  }

  lemma QuietPoll(m: Mail, v: View, env: Env)
    requires Silent(v, [env])
    ensures v.timer > 1 ==> Next(m, v, Poll, env) == v.(timer := v.timer - 1)
    ensures v.timer == 1 ==> Next(m, v, Poll, env) == Close(m, v.(timer := 0), TimedOut, env)
  {
    assert [env][0] == env;
    var w := v.(timer := v.timer - 1);
    assert w.(rx := "") == w;
  }

  /** With nothing received and nothing written, the timer's last tick, and no
      earlier one, ends the session with a timeout. */
  lemma {:induction false} TimesOut(m: Mail, v: View, envs: seq<Env>)
    requires Silent(v, envs) && |envs| <= v.timer
    ensures |envs| < v.timer ==> Run(m, v, Polls(envs)) == v.(timer := v.timer - |envs|)
    ensures |envs| == v.timer ==>
      Run(m, v, Polls(envs)) == Close(m, v.(timer := 0), TimedOut, envs[|envs| - 1])
    decreases |envs|
  {
    hide Next, Close;
    if envs == [] {
      assert v.(timer := v.timer - 0) == v;
    } else {
      var es := Polls(envs);
      assert es[1..] == Polls(envs[1..]);
      QuietPoll(m, v, envs[0]);
      if v.timer > 1 {
        TimesOut(m, v.(timer := v.timer - 1), envs[1..]);
      }
    }
  }

  // ----- a server that says yes

  function Expected(a: Auth): seq<nat> { Accepted(Closed, a) }

  /** The phase after k accepted replies, up to the message. */
  function PhaseAfter(a: Auth, k: nat): Phase
    requires k < |Expected(a)|
  {
    if k == 0 then Greeting
    else if k == 1 then Helo
    else if k == |Expected(a)| - 1 then Body
    else if k == |Expected(a)| - 2 then DataSent
    else if k == |Expected(a)| - 3 then RcptSent
    else if k == |Expected(a)| - 4 then MailSent
    else if a == Plain then AuthPlainSent
    else if k == 2 then LoginUname
    else if k == 3 then LoginPass
    else LoginSent
  }

  /** The replies that let a mail through, with authentication a. */
  ghost predicate Agreeable(a: Auth, rs: seq<string>) {
    && |rs| == |Expected(a)|
    && (forall i :: 0 <= i < |rs| ==> Code(rs[i]) == Expected(a)[i] && Finished(rs[i], 0))
    && AuthChoice(rs[1]) == a
    && (a == Login ==> Contains(rs[2], "VXNlcm5hbWU6") && Contains(rs[3], "UGFzc3dvcmQ6"))
  }

  /** Any well-formed replies with the right codes are such replies, as long as
      the second offers a and the prompts ask for name and password in Base64. */
  lemma RepliesAgree(a: Auth, texts: seq<seq<string>>, rs: seq<string>)
    requires |texts| == |rs| == |Expected(a)|
    requires forall i :: 0 <= i < |rs| ==>
      texts[i] != [] && Printable(texts[i]) && rs[i] == Reply(Three(Expected(a)[i]), texts[i])
    requires AuthChoice(rs[1]) == a
    requires a == Login ==> Contains(rs[2], "VXNlcm5hbWU6") && Contains(rs[3], "UGFzc3dvcmQ6")
    ensures Agreeable(a, rs)
  {
    hide Code, Finished, Three, Reply, AuthChoice, Contains;
    forall i | 0 <= i < |rs| ensures Code(rs[i]) == Expected(a)[i] && Finished(rs[i], 0) {
      assert 0 < Expected(a)[i] < 1000;
      ReplyStart(Expected(a)[i], texts[i]);
      ReplyComplete("", Three(Expected(a)[i]), texts[i]);
      assert "" + rs[i] == rs[i];
    }
  }

  ghost predicate Waiting(v: View, phase: Phase) {
    v.phase == phase && !v.freed && v.rx == "" && v.timer > 0
  }

  lemma MovesOn(m: Mail, v: View, r: string, env: Env)
    requires !v.freed && v.rx == "" && v.phase != Closed && Code(r) != 0 && Finished(r, 0) && env.cmdOk
    requires React(m, v.phase, Code(r), r).0 != v.phase
    ensures var (p, text) := React(m, v.phase, Code(r), r);
      Next(m, v, Recv(r), env) == Advance(m, v.(rx := r), p, text, Code(r), env)
  {
    hide React, Code, Finished, Advance;
    assert "" + r == r;
  }

  lemma StepReacts(m: Mail, a: Auth, rs: seq<string>, k: nat)
    requires Agreeable(a, rs) && k < |rs| - 2
    ensures React(m, PhaseAfter(a, k), Code(rs[k]), rs[k]).0 == PhaseAfter(a, k + 1)
    ensures PhaseAfter(a, k) != Closed
    ensures PhaseAfter(a, k + 1) !in {PhaseAfter(a, k), Body, Closed}
    ensures PhaseAfter(a, k + 1) == AuthPlainSent ==> a == Plain
    ensures PhaseAfter(a, k + 1) == LoginUname ==> a == Login
    ensures k == 1 ==> PhaseAfter(a, 2) == (match a case None => MailSent case Plain => AuthPlainSent case Login => LoginUname)
  {
    hide AuthChoice, Contains, Code, Finished;
    assert Code(rs[k]) == Expected(a)[k];
  }

  lemma AgreedCode(a: Auth, rs: seq<string>, k: nat)
    requires Agreeable(a, rs) && k < |rs|
    ensures Code(rs[k]) != 0 && Finished(rs[k], 0)
  {
    hide Code, Finished, AuthChoice, Contains;
    assert Code(rs[k]) == Expected(a)[k];
  }

  function AuthAfter(a: Auth, k: nat): Auth { if k < 2 then None else a }

  lemma AgreeableLength(a: Auth, rs: seq<string>)
    requires Agreeable(a, rs)
    ensures |rs| == |Expected(a)| >= 6
  {
  }

  lemma RunOne(m: Mail, v: View, e: Event, env: Env)
    ensures Run(m, v, [(e, env)]) == Next(m, v, e, env)
  {
    hide Next;
    assert [(e, env)][1..] == [];
  }

  lemma LastReplies(a: Auth, rs: seq<string>)
    requires Agreeable(a, rs)
    ensures |rs| >= 6 && Code(rs[|rs| - 2]) == 354 && Finished(rs[|rs| - 2], 0)
    ensures Code(rs[|rs| - 1]) == 250 && Finished(rs[|rs| - 1], 0)
  {
    hide AuthChoice, Contains, Code, Finished;
    assert Code(rs[|rs| - 2]) == Expected(a)[|rs| - 2] && Code(rs[|rs| - 1]) == Expected(a)[|rs| - 1];
  }

  // ----- the message in pieces

  function Sents(envs: seq<Env>): seq<(Event, Env)> {
    seq(|envs|, i requires 0 <= i < |envs| => (Event.Sent, envs[i]))
  }

  /** What the body, and its end once it is out, look like on the wire. */
  function Out(m: Mail, v: View, w: View): string
    requires v.bodySent <= w.bodySent <= |m.body|
  {
    m.body[v.bodySent..w.bodySent] + if w.phase == Finishing then BODY_FINISHED else ""
  }

  ghost predicate InMessage(m: Mail, v: View) {
    (Waiting(v, Body) && v.bodySent <= |m.body|) || (Waiting(v, Finishing) && v.bodySent == |m.body|)
  }

  lemma SentPiece(m: Mail, v: View, env: Env)
    requires Waiting(v, Body) && InMessage(m, v)
    ensures var w := Next(m, v, Event.Sent, env);
      InMessage(m, w) && v.bodySent <= w.bodySent && w.wire == v.wire + Out(m, v, w)
  {
    var w := SendChunk(m, v, env);
    var x := SendEnd(m, w, env);
    assert Next(m, v, Event.Sent, env) == x;
    assert m.body[v.bodySent..v.bodySent] == "";
    assert w.wire == v.wire + m.body[v.bodySent..w.bodySent];
    assert m.body[v.bodySent..w.bodySent] + "" == m.body[v.bodySent..w.bodySent];
    Shift(v.wire, m.body[v.bodySent..w.bodySent], BODY_FINISHED);
  }

  lemma Shift(a: string, b: string, c: string)
    ensures (a + b) + c == a + (b + c)
  {
  }

  lemma Stays(m: Mail, v: View, env: Env)
    requires Waiting(v, Finishing)
    ensures Next(m, v, Event.Sent, env) == v
  {
    assert v.(rx := "") == v;
  }

  lemma {:induction false} AllStays(m: Mail, v: View, envs: seq<Env>)
    requires Waiting(v, Finishing)
    ensures Run(m, v, Sents(envs)) == v
    decreases |envs|
  {
    hide Next;
    if envs != [] {
      assert Sents(envs)[1..] == Sents(envs[1..]);
      Stays(m, v, envs[0]);
      AllStays(m, v, envs[1..]);
    }
  }

  /** Whatever fails and however little room there is, the body leaves byte after
      byte, each once, and its end right behind the last. */
  lemma {:induction false} BytesInOrder(m: Mail, v: View, envs: seq<Env>)
    requires Waiting(v, Body) && InMessage(m, v)
    ensures var w := Run(m, v, Sents(envs));
      InMessage(m, w) && v.bodySent <= w.bodySent && w.wire == v.wire + Out(m, v, w)
    decreases |envs|
  {
    hide Next, InMessage;
    MessageWaits(m, v);
    if envs == [] {
      assert m.body[v.bodySent..v.bodySent] == "" && v.wire + "" == v.wire;
      assert InMessage(m, v);
    } else {
      assert Sents(envs)[1..] == Sents(envs[1..]);
      SentPiece(m, v, envs[0]);
      var u := Next(m, v, Event.Sent, envs[0]);
      MessageWaits(m, u);
      if u.phase == Finishing {
        AllStays(m, u, envs[1..]);
      } else {
        BytesInOrder(m, u, envs[1..]);
        var w := Run(m, u, Sents(envs[1..]));
        MessageWaits(m, w);
        JoinOut(m, v, u, w);
      }
    }
  }

  lemma MessageWaits(m: Mail, v: View)
    ensures InMessage(m, v) ==> v.bodySent <= |m.body| && (Waiting(v, Body) || Waiting(v, Finishing))
  {
  }

  lemma JoinOut(m: Mail, v: View, u: View, w: View)
    requires v.bodySent <= u.bodySent <= w.bodySent <= |m.body| && u.phase != Finishing
    ensures v.wire + Out(m, v, u) + Out(m, u, w) == v.wire + Out(m, v, w)
  {
    var a, b := m.body[v.bodySent..u.bodySent], m.body[u.bodySent..w.bodySent];
    var e := if w.phase == Finishing then BODY_FINISHED else "";
    assert a + b == m.body[v.bodySent..w.bodySent];
    assert a + "" == a;
    assert v.wire + a + (b + e) == v.wire + ((a + b) + e);
  }

  lemma InitInv(m: Mail)
    ensures Inv(m, Init())
  {
  }

  lemma ClosedInv(m: Mail, v: View)
    requires Inv(m, v) && v.phase == Closed
    ensures v.wire == Script(m, v.auth) && v.freed && v.codes == Expected(v.auth)
    ensures m.notify ==> v.results == [Success]
  {
  }
}
