/** What holds over every run of the SMTP client. */
module SmtpSafety {
  import opened SmtpText
  import opened Smtp

  lemma FirstApart(a: string, b: string, c: string, d: string)
    ensures a + b + c + d == a + (b + c + d)
  {
  }

  // ----- each part of a callback keeps the invariant

  lemma FreeInv(m: Mail, v: View, o: Outcome)
    requires Inv(m, v) && !v.freed && o != Success
    ensures Inv(m, Free(m, v, o))
  {
    hide Written, Accepted, AuthFits;
  }

  lemma ChunkInv(m: Mail, v: View, env: Env)
    requires Inv(m, v) && v.phase == Body
    ensures Inv(m, SendChunk(m, v, env)) && SendChunk(m, v, env).phase == Body
  {
    hide Envelope, Header, Accepted, AuthFits;
    Extend(Envelope(m, v.auth) + Header(m), m.body, v.bodySent, Min(|m.body| - v.bodySent, env.sndbuf));
  }

  lemma Extend(e: string, body: string, k: nat, n: nat)
    requires k + n <= |body|
    ensures (e + body[..k]) + body[k..k + n] == e + body[..k + n]
  {
    assert body[..k] + body[k..k + n] == body[..k + n];
  }

  lemma EndInv(m: Mail, v: View, env: Env)
    requires Inv(m, v) && v.phase == Body
    ensures Inv(m, SendEnd(m, v, env))
  {
    hide Envelope, Header;
    assert m.body[..|m.body|] == m.body;
  }

  lemma BodyInv(m: Mail, v: View, env: Env)
    requires Inv(m, v)
    ensures Inv(m, SendBody(m, v, env))
  {
    hide Inv;
    if v.phase == Body {
      ChunkInv(m, v, env);
      EndInv(m, SendChunk(m, v, env), env);
    }
  }

  /** A reply that moves the client on appends exactly the next piece. */
  lemma ReactWritten(m: Mail, v: View, code: nat, rx: string)
    requires Inv(m, v) && !v.freed
    ensures var (p, text) := React(m, v.phase, code, rx);
      var a := ChosenAuth(v, p);
      p != v.phase ==>
        && v.wire + text == Written(m, p, a, if p == Closed then |m.body| else 0)
        && v.codes + [code] == Accepted(p, a)
        && AuthFits(p, a)
        && v.bodySent == (if p == Closed then |m.body| else 0)
  {
    hide Ehlo, AuthPlain, UserLine, PassLine, MailFrom, RcptTo, Header, AuthChoice, Contains;
    var (p, text) := React(m, v.phase, code, rx);
    var a := ChosenAuth(v, p);
    if v.phase == LoginSent {
      FirstApart(Ehlo(m), AUTH_LOGIN, UserLine(m), PassLine(m));
    } else if v.phase == DataSent {
      assert m.body[..0] == "";
      assert Envelope(m, a) + Header(m) + "" == Envelope(m, a) + Header(m);
    } else if v.phase == Helo {
      assert Ehlo(m) + "" == Ehlo(m);
    }
  }

  lemma AdvanceInv(m: Mail, v: View, p: Phase, text: string, code: nat, env: Env)
    requires Inv(m, v) && !v.freed && p != v.phase && (p, text) == React(m, v.phase, code, v.rx)
    ensures Inv(m, Advance(m, v, p, text, code, env))
  {
    ReactWritten(m, v, code, v.rx);
    hide React, Written, Accepted, AuthFits, ChosenAuth;
    var w := v.(timer := TIMEOUT, rx := "", phase := p, auth := ChosenAuth(v, p),
                wire := v.wire + text, codes := v.codes + [code]);
    if p == Body {
      BodyInv(m, w, env);
    }
  }

  lemma AnswerInv(m: Mail, v: View, env: Env)
    requires Inv(m, v) && !v.freed
    ensures Inv(m, Answer(m, v, env))
  {
    hide React, Written, Accepted, AuthFits, Advance, Code, Finished;
    var code := Code(v.rx);
    if code != 0 && Finished(v.rx, 0) {
      var (p, text) := React(m, v.phase, code, v.rx);
      if p == v.phase {
        FreeInv(m, v, BadReply(code));
      } else {
        AdvanceInv(m, v, p, text, code, env);
      }
    }
  }

  lemma NextInv(m: Mail, v: View, e: Event, env: Env)
    requires Inv(m, v)
    ensures Inv(m, Next(m, v, e, env))
  {
    hide Written, Accepted, AuthFits, Answer, SendBody;
    if !v.freed {
      match e
      case Recv(text) => AnswerInv(m, v.(rx := v.rx + text), env);
      case RecvClosed => FreeInv(m, v, ClosedByPeer);
      case Error => FreeInv(m, v, ClosedByPeer);
      case ConnectFailed => FreeInv(m, v, ConnectError);
      case Sent => IdleInv(m, v, env);
      case Poll => IdleInv(m, if v.timer == 0 then v else v.(timer := v.timer - 1), env);
    }
  }

  lemma IdleInv(m: Mail, v: View, env: Env)
    requires Inv(m, v) && !v.freed
    ensures Inv(m, Idle(m, v, env))
  {
    hide Inv, Answer, SendBody;
    FreeInv(m, v, TimedOut);
    BodyInv(m, v, env);
    AnswerInv(m, v, env);
  }

  lemma {:induction false} RunInv(m: Mail, v: View, es: seq<(Event, Env)>)
    requires Inv(m, v)
    ensures Inv(m, Run(m, v, es))
    decreases |es|
  {
    hide Inv, Next;
    if es != [] {
      NextInv(m, v, es[0].0, es[0].1);
      RunInv(m, Next(m, v, es[0].0, es[0].1), es[1..]);
    }
  }

  // ----- what the invariant says of a session

  lemma WrittenPrefix(m: Mail, phase: Phase, a: Auth, bodySent: nat)
    requires bodySent <= |m.body| && AuthFits(phase, a)
    ensures Written(m, phase, a, bodySent) <= Script(m, a)
    ensures phase != Closed ==> |Written(m, phase, a, bodySent)| < |Script(m, a)|
  {
    hide Ehlo, AuthPlain, UserLine, PassLine, MailFrom, RcptTo, Header;
    FirstApart(Ehlo(m), AUTH_LOGIN, UserLine(m), PassLine(m));
    assert m.body[..bodySent] + m.body[bodySent..] == m.body;
  }

  /** Whatever the server, the network and the stack do: the client writes a
      prefix of its script, reports at most once, and reports success exactly
      when the script is written to its end. */
  lemma Safety(m: Mail, es: seq<(Event, Env)>)
    ensures var v := Run(m, Init(), es);
      && v.wire <= Script(m, v.auth)
      && |v.results| <= 1
      && (v.freed && m.notify <==> |v.results| == 1)
      && (Success in v.results <==> m.notify && v.wire == Script(m, v.auth))
  {
    assert Inv(m, Init());
    RunInv(m, Init(), es);
    var v := Run(m, Init(), es);
    hide Run, Init, Written, Accepted, Script;
    WrittenPrefix(m, v.phase, v.auth, v.bodySent);
    WrittenClosed(m, v.auth);
  }

  lemma WrittenClosed(m: Mail, a: Auth)
    ensures Written(m, Closed, a, |m.body|) == Script(m, a)
  {
  }

  /** Success was never reported without the server's consent to every step. */
  lemma SuccessAccepted(m: Mail, es: seq<(Event, Env)>)
    ensures var v := Run(m, Init(), es);
      Success in v.results ==> v.codes == [220, 250] + AuthCodes(v.auth) + [250, 250, 354, 250]
  {
    assert Inv(m, Init());
    RunInv(m, Init(), es);
  }

  /** Nothing of the message is written before the 354 that asks for it. */
  lemma HeaderAfterConsent(m: Mail, es: seq<(Event, Env)>)
    ensures var v := Run(m, Init(), es);
      |v.wire| > |Envelope(m, v.auth)| ==> [220, 250] + AuthCodes(v.auth) + [250, 250, 354] <= v.codes
  {
    assert Inv(m, Init());
    RunInv(m, Init(), es);
    var v := Run(m, Init(), es);
    hide Run, Init, Ehlo, AuthPlain, UserLine, PassLine, MailFrom, RcptTo, Header;
    FirstApart(Ehlo(m), AUTH_LOGIN, UserLine(m), PassLine(m));
  }

  // ----- order

  ghost predicate Grows(v: View, w: View) {
    v.wire <= w.wire && v.results <= w.results && v.codes <= w.codes
  }

  lemma BodyGrows(m: Mail, v: View, env: Env)
    ensures Grows(v, SendBody(m, v, env))
  {
    var w := SendChunk(m, v, env);
    assert Grows(v, w);
    assert Grows(w, SendEnd(m, w, env));
  }

  lemma AnswerGrows(m: Mail, v: View, env: Env)
    ensures Grows(v, Answer(m, v, env))
  {
    hide React, Code, Finished, ChosenAuth, SendBody;
    var code := Code(v.rx);
    var (p, text) := React(m, v.phase, code, v.rx);
    var w := v.(timer := TIMEOUT, rx := "", phase := p, auth := ChosenAuth(v, p),
                wire := v.wire + text, codes := v.codes + [code]);
    BodyGrows(m, w, env);
  }

  /** Nothing written, reported or accepted is ever taken back, and a freed
      session does nothing any more. */
  lemma NextMonotone(m: Mail, v: View, e: Event, env: Env)
    ensures Grows(v, Next(m, v, e, env))
    ensures v.freed ==> Next(m, v, e, env) == v
  {
    hide Answer, SendBody;
    var w := if v.timer == 0 then v else v.(timer := v.timer - 1);
    BodyGrows(m, v, env);
    BodyGrows(m, w, env);
    AnswerGrows(m, v, env);
    AnswerGrows(m, w, env);
    if e.Recv? { AnswerGrows(m, v.(rx := v.rx + e.text), env); }
  }

  lemma {:induction false} RunMonotone(m: Mail, v: View, es: seq<(Event, Env)>)
    ensures Grows(v, Run(m, v, es))
    ensures v.freed ==> Run(m, v, es) == v
    decreases |es|
  {
    hide Next;
    if es != [] {
      NextMonotone(m, v, es[0].0, es[0].1);
      RunMonotone(m, Next(m, v, es[0].0, es[0].1), es[1..]);
    }
  }

  lemma {:induction false} RunAppend(m: Mail, v: View, es: seq<(Event, Env)>, fs: seq<(Event, Env)>)
    ensures Run(m, v, es + fs) == Run(m, Run(m, v, es), fs)
    decreases |es|
  {
    hide Next;
    if es == [] {
      assert es + fs == fs;
    } else {
      RunAppend(m, Next(m, v, es[0].0, es[0].1), es[1..], fs);
      assert (es + fs)[1..] == es[1..] + fs;
    }
  }
}
