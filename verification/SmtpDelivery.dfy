/** Sessions that go through although replies come in pieces, writes fail and the
    stack calls back at any time in between. */
module SmtpDelivery {
  import opened Sequences
  import opened SmtpText
  import opened Smtp
  import opened SmtpSafety
  import opened SmtpProgress
  import SmtpData
  import S = SmtpServer

  type Callback = (Event, Env)

  // ----- one reply, however it arrives

  /** The callbacks bring exactly the text left, or nothing. */
  predicate Feeds(es: seq<Callback>, left: string) {
    if es == [] then left == ""
    else match es[0].0
      case Recv(t) => t != "" && t <= left && Feeds(es[1..], left[|t|..])
      case Poll => Feeds(es[1..], left)
      case Sent => Feeds(es[1..], left)
      case _ => false
  }

  /** What is left of the text after one callback. */
  function Left(e: Event, left: string): string {
    if e.Recv? && e.text <= left then left[|e.text|..] else left
  }

  /** The first callback, once the text is there, in which the write succeeds. */
  function Served(es: seq<Callback>, left: string): (i: nat)
    ensures i <= |es|
    ensures i < |es| ==> es[i].1.cmdOk
  {
    if es == [] then 0
    else if Left(es[0].0, left) == "" && es[0].1.cmdOk then 0
    else 1 + Served(es[1..], Left(es[0].0, left))
  }

  function Ticks(es: seq<Callback>): nat {
    if es == [] then 0 else Tick(es[0].0) + Ticks(es[1..])
  }

  function Tick(e: Event): nat { if e.Poll? then 1 else 0 }

  lemma {:induction false} TicksFrom(es: seq<Callback>, i: nat)
    requires i <= |es|
    ensures Ticks(es[i..]) <= Ticks(es)
    decreases i
  {
    if i == 0 { assert es[0..] == es; } else { assert es[1..][i - 1..] == es[i..]; TicksFrom(es[1..], i - 1); }
  }

  lemma {:induction false} FeedsFrom(es: seq<Callback>, left: string)
    requires Feeds(es, left) && Served(es, left) < |es|
    ensures Feeds(es[Served(es, left) + 1..], "")
    decreases |es|
  {
    var next := Left(es[0].0, left);
    if !(next == "" && es[0].1.cmdOk) {
      FeedsFrom(es[1..], next);
      assert es[1..][Served(es[1..], next) + 1..] == es[Served(es, left) + 1..];
    }
  }

  /** Nothing to answer: only the timer moves. */
  lemma {:induction false} Quiet(m: Mail, v: View, es: seq<Callback>)
    requires !v.freed && v.rx == "" && v.phase != Body && v.phase != Closed
    requires Feeds(es, "") && Ticks(es) < v.timer
    ensures Run(m, v, es) == v.(timer := v.timer - Ticks(es))
    decreases |es|
  {
    if es == [] {
      assert v.(timer := v.timer - 0) == v;
    } else {
      QuietStep(m, v, es[0].0, es[0].1);
      hide Next;
      Quiet(m, v.(timer := v.timer - Tick(es[0].0)), es[1..]);
    }
  }

  lemma QuietStep(m: Mail, v: View, e: Event, env: Env)
    requires !v.freed && v.rx == "" && v.phase != Body && v.timer > Tick(e) && (e.Poll? || e.Sent?)
    ensures Next(m, v, e, env) == v.(timer := v.timer - Tick(e))
  {
  }

  /** The session once the callback has brought what it brings. */
  function Brought(v: View, e: Event): View
    requires v.timer >= Tick(e)
  {
    v.(rx := if e.Recv? then v.rx + e.text else v.rx, timer := v.timer - Tick(e))
  }

  lemma Brings(m: Mail, v: View, e: Event, env: Env)
    requires !v.freed && v.phase != Body && v.timer > Tick(e) && (e.Recv? || e.Poll? || e.Sent?)
    ensures Next(m, v, e, env) == Answer(m, Brought(v, e), env)
  {
    hide Answer, SendBody, Free;
  }

  /** What an answer does with a whole reply that moves the client on. */
  lemma Answers(m: Mail, v: View, env: Env)
    requires v.phase != Closed && Code(v.rx) != 0 && Finished(v.rx, 0)
    requires React(m, v.phase, Code(v.rx), v.rx).0 != v.phase
    ensures var (p, text) := React(m, v.phase, Code(v.rx), v.rx);
      Answer(m, v, env) == if env.cmdOk then Advance(m, v, p, text, Code(v.rx), env) else v
  {
    hide React, Advance, Code, Finished;
  }

  lemma AdvanceForgets(m: Mail, v: View, w: View, p: Phase, text: string, code: nat, env: Env)
    requires w == v.(rx := w.rx, timer := w.timer)
    ensures Advance(m, w, p, text, code, env) == Advance(m, v, p, text, code, env)
  {
    hide SendBody, Free;
  }

  /** One callback of a reply: the answer, if the reply is there and the write
      succeeds, and otherwise nothing but what it brought. */
  lemma Comes(m: Mail, v: View, r: string, left: string, e: Event, env: Env)
    requires !v.freed && v.phase != Body && v.phase != Closed && IsReply(r) && v.rx + left == r
    requires if e.Recv? then e.text <= left && |v.rx + e.text| >= 3 else (e.Poll? || e.Sent?) && |v.rx| >= 3
    requires v.timer > Tick(e) && React(m, v.phase, Code(r), r).0 != v.phase
    ensures Brought(v, e).rx + Left(e, left) == r
    ensures
      var (p, text) := React(m, v.phase, Code(r), r);
      Next(m, v, e, env) ==
        if Left(e, left) == "" && env.cmdOk then Advance(m, v, p, text, Code(r), env) else Brought(v, e)
  {
    hide React, Advance, Code, Finished, IsReply, Answer, Next;
    var w, next := Brought(v, e), Left(e, left);
    Brings(m, v, e, env);
    assert w.rx + next == r;
    ReplyPrefix(r, |w.rx|);
    assert r[..|w.rx|] == w.rx;
    var (p, text) := React(m, v.phase, Code(r), r);
    if next == "" {
      assert w.rx == r;
      Answers(m, w, env);
      AdvanceForgets(m, v, w, p, text, Code(r), env);
    } else {
      Waits(m, w, env);
    }
  }

  /** A reply that moves the client on, in any pieces of which the first holds the
      code, with any polls and sent callbacks in between and after it and any
      number of failed writes: the first callback whose write succeeds once the
      reply is there writes the command and moves the client on, and nothing
      before it does anything. */
  lemma {:induction false} Retried(m: Mail, v: View, r: string, left: string, es: seq<Callback>)
    requires !v.freed && v.phase != Body && v.phase != Closed && IsReply(r) && v.rx + left == r
    requires if v.rx == "" then es != [] && es[0].0.Recv? && |es[0].0.text| >= 3 else |v.rx| >= 3
    requires Feeds(es, left) && Served(es, left) < |es| && Ticks(es) < v.timer
    requires React(m, v.phase, Code(r), r).0 != v.phase
    ensures
      var i, (p, text) := Served(es, left), React(m, v.phase, Code(r), r);
      Run(m, v, es) == Run(m, Advance(m, v, p, text, Code(r), es[i].1), es[i + 1..])
    decreases |es|
  {
    hide React, Advance, Code, IsReply, Next;
    var e, env, next := es[0].0, es[0].1, Left(es[0].0, left);
    Comes(m, v, r, left, e, env);
    if !(next == "" && env.cmdOk) {
      var w := Brought(v, e);
      Retried(m, w, r, next, es[1..]);
      hide Feeds, Ticks;
      var i := Served(es[1..], next);
      var (p, text) := React(m, v.phase, Code(r), r);
      AdvanceForgets(m, v, w, p, text, Code(r), es[1..][i].1);
      assert es[1..][i + 1..] == es[i + 2..];
    }
  }

  // ----- the message

  /** How much of the body a callback can take. */
  function Gives(env: Env): nat { if env.bodyOk then env.sndbuf else 0 }

  function Supply(es: seq<Callback>): nat {
    if es == [] then 0 else Gives(es[0].1) + Supply(es[1..])
  }

  /** In the message with at least k bytes of it out, or past its end. */
  ghost predicate Underway(m: Mail, v: View, k: nat) {
    && !v.freed && v.rx == "" && v.bodySent <= |m.body|
    && (v.phase == Finishing || (v.phase == Body && (v.bodySent >= k || v.bodySent == |m.body|)))
  }

  lemma Piece(m: Mail, v: View, k: nat, env: Env)
    requires Underway(m, v, k) && v.phase == Body
    ensures var w := SendBody(m, v, env);
      && Underway(m, w, k + Gives(env)) && w.auth == v.auth && w.timer >= (if v.timer < 240 then v.timer else 240)
      && (env.endOk && k + Gives(env) >= |m.body| ==> w.phase == Finishing)
  {
  }

  lemma PieceStep(m: Mail, v: View, k: nat, e: Event, env: Env)
    requires Underway(m, v, k) && (e.Poll? || e.Sent?) && v.timer > Tick(e)
    ensures var w := Next(m, v, e, env);
      && Underway(m, w, k + Gives(env)) && w.auth == v.auth
      && w.timer >= (if v.timer < 240 then v.timer else 240) - Tick(e)
      && (env.endOk && k + Gives(env) >= |m.body| ==> w.phase == Finishing)
      && (v.phase == Finishing ==> w.phase == Finishing)
  {
    var u := v.(timer := v.timer - Tick(e));
    if v.phase == Body {
      assert Next(m, v, e, env) == SendBody(m, u, env);
      hide Next, SendBody;
      Piece(m, u, k, env);
    } else {
      QuietStep(m, v, e, env);
    }
  }

  /** Whatever fails in between, the message is out once the connection has taken
      enough of it and, last, its end. */
  lemma {:induction false} MessageOut(m: Mail, v: View, k: nat, es: seq<Callback>, b: nat)
    requires Underway(m, v, k) && Feeds(es, "") && v.timer >= b && 240 >= b > Ticks(es)
    requires k + Supply(es) >= |m.body| && if es == [] then v.phase == Finishing else es[|es| - 1].1.endOk
    ensures var w := Run(m, v, es); Waiting(w, Finishing) && w.auth == v.auth && w.timer >= b - Ticks(es)
    decreases |es|
  {
    hide Next;
    if es != [] {
      var e, env := es[0].0, es[0].1;
      PieceStep(m, v, k, e, env);
      var w := Next(m, v, e, env);
      hide Underway;
      MessageOut(m, w, k + Gives(env), es[1..], b - Tick(e));
    }
  }

  // ----- a whole session

  /** The callbacks between one reply and the next: they bring the reply, its code
      in the first piece, and the answer to it is written in one of them. */
  ghost predicate Exchange(es: seq<Callback>, r: string) {
    && es != [] && es[0].0.Recv? && |es[0].0.text| >= 3
    && IsReply(r) && Feeds(es, r) && Served(es, r) < |es|
  }

  /** The server agrees to everything, and the stack calls poll fewer than 240
      times in any two consecutive exchanges. */
  ghost predicate Willing(a: Auth, rs: seq<string>, talks: seq<seq<Callback>>) {
    && Agreeable(a, rs) && |talks| == |rs|
    && (forall k :: 0 <= k < |rs| ==> Exchange(talks[k], rs[k]) && Ticks(talks[k]) < 240)
    && (forall k :: 0 < k < |rs| ==> Ticks(talks[k - 1]) + Ticks(talks[k]) < 240)
  }

  /** From the callback that writes the header on, the connection takes the body
      and in the last callback its end. */
  predicate Carries(m: Mail, r: string, talk: seq<Callback>) {
    var i := Served(talk, r);
    i < |talk| && Supply(talk[i..]) >= |m.body| && talk[|talk| - 1].1.endOk
  }

  ghost predicate Reached(v: View, a: Auth, k: nat, slack: nat)
    requires k < |Expected(a)|
  {
    Waiting(v, PhaseAfter(a, k)) && v.auth == AuthAfter(a, k) && v.timer + slack >= 240
  }

  /** The callbacks of an exchange, up to the one that answers. */
  lemma Replied(m: Mail, v: View, r: string, talk: seq<Callback>, p: Phase, text: string) returns (env: Env, rest: seq<Callback>)
    requires !v.freed && v.rx == "" && v.phase != Body && v.phase != Closed && Exchange(talk, r) && Ticks(talk) < v.timer
    requires React(m, v.phase, Code(r), r) == (p, text) && p != v.phase
    ensures Served(talk, r) < |talk| && env == talk[Served(talk, r)].1 && rest == talk[Served(talk, r) + 1..]
    ensures Run(m, v, talk) == Run(m, Advance(m, v, p, text, Code(r), env), rest)
    ensures Feeds(rest, "") && Ticks(rest) <= Ticks(talk)
  {
    hide React, Advance, Code, IsReply, Run, Feeds, Served, Ticks;
    assert "" + r == r;
    Retried(m, v, r, r, talk);
    var i := Served(talk, r);
    env, rest := talk[i].1, talk[i + 1..];
    FeedsFrom(talk, r);
    TicksFrom(talk, i + 1);
  }

  lemma Talk(m: Mail, a: Auth, rs: seq<string>, talk: seq<Callback>, k: nat, v: View, slack: nat)
    requires Agreeable(a, rs) && k < |rs| - 2 && Exchange(talk, rs[k])
    requires Reached(v, a, k, slack) && slack + Ticks(talk) < 240
    ensures Reached(Run(m, v, talk), a, k + 1, Ticks(talk))
  {
    AgreedCode(a, rs, k);
    StepReacts(m, a, rs, k);
    NotMessage(a, k);
    NotMessage(a, k + 1);
    hide React, Agreeable, PhaseAfter, IsReply, Code, Next, Run, Expected, Feeds, Served, Ticks, AuthAfter, Exchange, Advance, ChosenAuth;
    var r := rs[k];
    var (p, text) := React(m, v.phase, Code(r), r);
    var env, rest := Replied(m, v, r, talk, p, text);
    Moved(m, v, p, text, Code(r), env);
    Quiet(m, Advance(m, v, p, text, Code(r), env), rest);
    AuthNext(a, k, v, p);
  }

  lemma NotMessage(a: Auth, k: nat)
    requires k < |Expected(a)| - 1
    ensures PhaseAfter(a, k) !in {Body, Closed}
  {
  }

  lemma Moved(m: Mail, v: View, p: Phase, text: string, code: nat, env: Env)
    requires p != Body && p != Closed
    ensures var w := Advance(m, v, p, text, code, env);
      w.phase == p && w.freed == v.freed && w.rx == "" && w.timer == 240 && w.auth == ChosenAuth(v, p)
  {
  }

  lemma AuthNext(a: Auth, k: nat, v: View, p: Phase)
    requires k < |Expected(a)| - 2 && v.auth == AuthAfter(a, k) && p == PhaseAfter(a, k + 1)
    ensures ChosenAuth(v, p) == AuthAfter(a, k + 1)
  {
  }

  lemma NextRun(m: Mail, talks: seq<seq<Callback>>, k: nat)
    requires k < |talks|
    ensures Run(m, Init(), Flatten(talks[..k + 1])) == Run(m, Run(m, Init(), Flatten(talks[..k])), talks[k])
  {
    hide Run, Flatten;
    assert talks[..k + 1] == talks[..k] + [talks[k]];
    FlattenSnoc(talks[..k], talks[k]);
    RunAppend(m, Init(), Flatten(talks[..k]), talks[k]);
  }

  lemma {:induction false} Dialogue(m: Mail, a: Auth, rs: seq<string>, talks: seq<seq<Callback>>, k: nat)
    requires Willing(a, rs, talks) && k <= |rs| - 2
    ensures k < |Expected(a)|
    ensures Reached(Run(m, Init(), Flatten(talks[..k])), a, k, if k == 0 then 0 else Ticks(talks[k - 1]))
    decreases k
  {
    hide *;
    WillingIs(a, rs, talks);
    if k == 0 {
      Begins(m, a);
      assert talks[..0] == [];
    } else {
      Dialogue(m, a, rs, talks, k - 1);
      NextRun(m, talks, k - 1);
      var slack := if k == 1 then 0 else Ticks(talks[k - 2]);
      Talk(m, a, rs, talks[k - 1], k - 1, Run(m, Init(), Flatten(talks[..k - 1])), slack);
    }
  }

  lemma Begins(m: Mail, a: Auth)
    ensures |Expected(a)| >= 6 && Reached(Run(m, Init(), Flatten<Callback>([])), a, 0, 0)
  {
  }

  lemma WillingIs(a: Auth, rs: seq<string>, talks: seq<seq<Callback>>)
    requires Willing(a, rs, talks)
    ensures Agreeable(a, rs) && |talks| == |rs| == |Expected(a)| >= 6
    ensures forall k :: 0 <= k < |rs| ==> Exchange(talks[k], rs[k]) && Ticks(talks[k]) < 240
    ensures forall k :: 0 < k < |rs| ==> Ticks(talks[k - 1]) + Ticks(talks[k]) < 240
  {
    AgreeableLength(a, rs);
    hide Agreeable, Exchange, Ticks;
  }

  /** The header is written and the message begun. */
  lemma HeaderOut(m: Mail, v: View, env: Env)
    requires Waiting(v, DataSent) && v.bodySent == 0
    ensures var w := Advance(m, v, Body, Header(m), 354, env);
      && Underway(m, w, Gives(env)) && w.auth == v.auth && w.timer >= 240
      && (env.endOk && Gives(env) >= |m.body| ==> w.phase == Finishing)
  {
    hide Header, SendBody;
    var u := v.(timer := 240, rx := "", phase := Body, auth := v.auth, wire := v.wire + Header(m), codes := v.codes + [354]);
    assert Advance(m, v, Body, Header(m), 354, env) == SendBody(m, u, env);
    hide Advance;
    Piece(m, u, 0, env);
  }

  lemma DataReacts(m: Mail, v: View, r: string)
    requires Waiting(v, DataSent) && Inv(m, v)
    ensures v.bodySent == 0 && React(m, DataSent, 354, r) == (Body, Header(m))
  {
  }

  lemma TheMessage(m: Mail, a: Auth, v: View, r: string, talk: seq<Callback>, slack: nat)
    requires Waiting(v, DataSent) && Inv(m, v) && v.timer + slack >= 240 && slack + Ticks(talk) < 240
    requires Exchange(talk, r) && Code(r) == 354 && Carries(m, r, talk)
    ensures var w := Run(m, v, talk); Waiting(w, Finishing) && w.auth == v.auth && w.timer + Ticks(talk) >= 240
  {
    hide React, Inv, Code, Run, Feeds, Served, Ticks, Header, Supply, Exchange, Advance, Underway;
    DataReacts(m, v, r);
    var env, rest := Replied(m, v, r, talk, Body, Header(m));
    HeaderOut(m, v, env);
    SupplyNext(talk, Served(talk, r));
    if rest == [] { NoSupply(); } else { assert rest[|rest| - 1] == talk[|talk| - 1]; }
    MessageOut(m, Advance(m, v, Body, Header(m), 354, env), Gives(env), rest, 240);
  }

  lemma NoSupply()
    ensures Supply([]) == 0
  {
  }

  lemma SupplyNext(es: seq<Callback>, i: nat)
    requires i < |es|
    ensures Supply(es[i..]) == Gives(es[i].1) + Supply(es[i + 1..])
  {
    assert es[i..][1..] == es[i + 1..];
  }

  lemma TheEnd(m: Mail, v: View, r: string, talk: seq<Callback>)
    requires Waiting(v, Finishing) && Exchange(talk, r) && Code(r) == 250 && Ticks(talk) < v.timer
    ensures var w := Run(m, v, talk); w.phase == Closed && w.auth == v.auth
  {
    assert React(m, Finishing, 250, r) == (Closed, QUIT);
    hide React, IsReply, Code, Next, Run, Feeds, Served, Ticks, Advance, Exchange;
    var env, rest := Replied(m, v, r, talk, Closed, QUIT);
    Quits(m, v, env);
    Gone(m, Advance(m, v, Closed, QUIT, 250, env), rest);
  }

  lemma Quits(m: Mail, v: View, env: Env)
    ensures var w := Advance(m, v, Closed, QUIT, 250, env); w.freed && w.phase == Closed && w.auth == v.auth
  {
  }

  lemma {:induction false} Gone(m: Mail, v: View, es: seq<Callback>)
    requires v.freed
    ensures Run(m, v, es) == v
    decreases |es|
  {
    if es != [] { Gone(m, v, es[1..]); }
  }

  /** For every such session, whichever way it authenticates: the whole script is
      written, in order and nothing else, and success is reported. */
  lemma Delivered(m: Mail, a: Auth, rs: seq<string>, talks: seq<seq<Callback>>)
    requires Willing(a, rs, talks) && |rs| >= 2 && |talks| == |rs|
    requires Carries(m, rs[|rs| - 2], talks[|rs| - 2])
    ensures var v := Run(m, Init(), Flatten(talks));
      && v.wire == Script(m, a) && v.freed && v.codes == Expected(a)
      && (m.notify ==> v.results == [Success])
  {
    WillingIs(a, rs, talks);
    LastReplies(a, rs);
    var n := |rs|;
    hide Willing, Agreeable, Run, Ticks, Exchange, Inv, Code, Finished, Script, Expected, Carries, Flatten;
    Dialogue(m, a, rs, talks, n - 2);
    var front := Flatten(talks[..n - 2]);
    var v := Run(m, Init(), front);
    LastPhase(a);
    InitInv(m);
    RunInv(m, Init(), front);
    TheMessage(m, a, v, rs[n - 2], talks[n - 2], Ticks(talks[n - 3]));
    var w := Run(m, v, talks[n - 2]);
    TheEnd(m, w, rs[n - 1], talks[n - 1]);
    LastTwo(talks);
    RunAppend(m, Init(), front, talks[n - 2]);
    RunAppend(m, Init(), front + talks[n - 2], talks[n - 1]);
    RunInv(m, Init(), Flatten(talks));
    ClosedInv(m, Run(m, Init(), Flatten(talks)));
  }

  lemma LastPhase(a: Auth)
    ensures |Expected(a)| >= 6
    ensures PhaseAfter(a, |Expected(a)| - 2) == DataSent && AuthAfter(a, |Expected(a)| - 2) == a
  {
  }

  lemma LastTwo<T>(parts: seq<seq<T>>)
    requires |parts| >= 2
    ensures var n := |parts|; Flatten(parts) == Flatten(parts[..n - 2]) + parts[n - 2] + parts[n - 1]
  {
    var n := |parts|;
    hide Flatten;
    assert parts == parts[..n - 1] + [parts[n - 1]];
    assert parts[..n - 1] == parts[..n - 2] + [parts[n - 2]];
    FlattenSnoc(parts[..n - 1], parts[n - 1]);
    FlattenSnoc(parts[..n - 2], parts[n - 2]);
  }

  /** And a server that reads commands and data as the standards say hears who the
      client is and the whole mail, and nothing else, exactly when the body does
      not start with a dot; the replies were the ones it gives to that. */
  lemma DeliveredIntact(m: Mail, a: Auth, rs: seq<string>, talks: seq<seq<Callback>>)
    requires Willing(a, rs, talks) && |rs| >= 2 && |talks| == |rs|
    requires Carries(m, rs[|rs| - 2], talks[|rs| - 2]) && SmtpData.Sendable(m) && '\r' !in m.address
    ensures
      var v, said := Run(m, Init(), Flatten(talks)), S.Session(m, a, S.MailText(m));
      && (S.Heard(v.wire) == said <==> m.body == "" || m.body[0] != '.')
      && v.codes + [221] == [220] + S.AllCodes(said)
  {
    Delivered(m, a, rs, talks);
    hide Willing, Carries, Run, Flatten, Script, SmtpData.Sendable, S.Heard, S.AllCodes, S.Session;
    S.ServerHears(m, a);
    S.CodesAgree(m, a, S.MailText(m));
  }
}
