/** The SMTP client as a state machine over the callbacks the stack makes. */
module Smtp {
  import opened SmtpText

  /** What the client waits for; the source's states in their order. */
  datatype Phase =
    | Greeting | Helo | AuthPlainSent | LoginUname | LoginPass | LoginSent
    | MailSent | RcptSent | DataSent | Body | Finishing | Closed

  datatype Outcome = Success | ConnectError | ClosedByPeer | TimedOut | BadReply(code: nat)

  /** A session: its fields, what went to the connection, what the callback was
      told, and the reply codes that moved it on. */
  datatype View = View(phase: Phase, timer: nat, rx: string, bodySent: nat, freed: bool, auth: Auth,
                       wire: string, results: seq<Outcome>, codes: seq<nat>)

  /** How the connection behaves during one callback. */
  datatype Env = Env(cmdOk: bool, bodyOk: bool, endOk: bool, closeOk: bool, sndbuf: nat)

  datatype Event =
    | Recv(text: string) | RecvClosed | Sent | Poll | Error | ConnectFailed

  const TIMEOUT := 240
  const TIMEOUT_DATABLOCK := 360
  const TIMEOUT_DATATERM := 1200

  function Init(): View { View(Greeting, TIMEOUT, "", 0, false, None, "", [], []) }

  // ----- one callback

  function Free(m: Mail, v: View, o: Outcome): View {
    v.(freed := true, rx := "", results := if m.notify then v.results + [o] else v.results)
  }

  function Close(m: Mail, v: View, o: Outcome, env: Env): View {
    if env.closeOk then Free(m, v, o) else v
  }

  function Min(a: nat, b: nat): nat { if a < b then a else b }

  function SendChunk(m: Mail, v: View, env: Env): View {
    if |m.body| <= v.bodySent then v
    else
      var n := Min(|m.body| - v.bodySent, env.sndbuf);
      if n == 0 || !env.bodyOk then v
      else v.(timer := TIMEOUT_DATABLOCK, bodySent := v.bodySent + n,
              wire := v.wire + m.body[v.bodySent..v.bodySent + n])
  }

  function SendEnd(m: Mail, v: View, env: Env): View {
    if v.bodySent == |m.body| && env.endOk
    then v.(timer := TIMEOUT_DATATERM, wire := v.wire + BODY_FINISHED, phase := Finishing)
    else v
  }

  function SendBody(m: Mail, v: View, env: Env): View {
    if v.phase == Body then SendEnd(m, SendChunk(m, v, env), env) else v
  }

  /** Where a complete reply leads, and with which command. */
  function React(m: Mail, phase: Phase, code: nat, rx: string): (Phase, string) {
    match phase
    case Greeting => if code == 220 then (Helo, Ehlo(m)) else (phase, "")
    case Helo =>
      if code != 250 then (phase, "") else
      (match AuthChoice(rx)
       case Plain => (AuthPlainSent, AuthPlain(m))
       case Login => (LoginUname, AUTH_LOGIN)
       case None => (MailSent, MailFrom(m)))
    case AuthPlainSent => if code == 235 then (MailSent, MailFrom(m)) else (phase, "")
    case LoginSent => if code == 235 then (MailSent, MailFrom(m)) else (phase, "")
    case LoginUname => if code == 334 && Contains(rx, "VXNlcm5hbWU6") then (LoginPass, UserLine(m)) else (phase, "")
    case LoginPass => if code == 334 && Contains(rx, "UGFzc3dvcmQ6") then (LoginSent, PassLine(m)) else (phase, "")
    case MailSent => if code == 250 then (RcptSent, RcptTo(m)) else (phase, "")
    case RcptSent => if code == 250 then (DataSent, DATA) else (phase, "")
    case DataSent => if code == 354 then (Body, Header(m)) else (phase, "")
    case Body => (phase, "")
    case Finishing => if code == 250 then (Closed, QUIT) else (phase, "")
    case Closed => (phase, "")
  }

  function ChosenAuth(v: View, phase: Phase): Auth {
    if phase == AuthPlainSent then Plain else if phase == LoginUname then Login else v.auth
  }

  /** The command was taken by the connection. */
  function Advance(m: Mail, v: View, phase: Phase, text: string, code: nat, env: Env): View {
    var w := v.(timer := TIMEOUT, rx := "", phase := phase, auth := ChosenAuth(v, phase),
                wire := v.wire + text, codes := v.codes + [code]);
    if phase == Body then SendBody(m, w, env)
    else if phase == Closed then Free(m, w, Success)
    else w
  }

  function Answer(m: Mail, v: View, env: Env): View {
    var code := Code(v.rx);
    if code == 0 then v.(rx := "")
    else if !Finished(v.rx, 0) || v.phase == Closed then v
    else
      var (phase, text) := React(m, v.phase, code, v.rx);
      if phase == v.phase then Close(m, v, BadReply(code), env)
      else if env.cmdOk then Advance(m, v, phase, text, code, env)
      else v
  }

  function Idle(m: Mail, v: View, env: Env): View {
    if v.timer == 0 then Close(m, v, TimedOut, env)
    else if v.phase == Body then SendBody(m, v, env)
    else Answer(m, v, env)
  }

  function Next(m: Mail, v: View, e: Event, env: Env): View {
    if v.freed then v else
    match e
    case Recv(text) => Answer(m, v.(rx := v.rx + text), env)
    case RecvClosed => Close(m, v, ClosedByPeer, env)
    case Sent => Idle(m, v, env)
    case Poll => Idle(m, if v.timer == 0 then v else v.(timer := v.timer - 1), env)
    case Error => Free(m, v, ClosedByPeer)
    case ConnectFailed => Close(m, v, ConnectError, env)
  }

  function Run(m: Mail, v: View, es: seq<(Event, Env)>): View
    decreases |es|
  {
    if es == [] then v else Run(m, Next(m, v, es[0].0, es[0].1), es[1..])
  }

  // ----- the script of a whole session

  function AuthExchange(m: Mail, a: Auth): string {
    match a
    case None => ""
    case Plain => AuthPlain(m)
    case Login => AUTH_LOGIN + UserLine(m) + PassLine(m)
  }

  function Envelope(m: Mail, a: Auth): string {
    Ehlo(m) + AuthExchange(m, a) + MailFrom(m) + RcptTo(m) + DATA
  }

  function Script(m: Mail, a: Auth): string {
    Envelope(m, a) + Header(m) + m.body + BODY_FINISHED + QUIT
  }

  /** What has been written when the client waits in a phase. */
  function Written(m: Mail, phase: Phase, a: Auth, bodySent: nat): string
    requires bodySent <= |m.body|
  {
    match phase
    case Greeting => ""
    case Helo => Ehlo(m)
    case AuthPlainSent => Ehlo(m) + AuthPlain(m)
    case LoginUname => Ehlo(m) + AUTH_LOGIN
    case LoginPass => Ehlo(m) + AUTH_LOGIN + UserLine(m)
    case LoginSent => Ehlo(m) + AUTH_LOGIN + UserLine(m) + PassLine(m)
    case MailSent => Ehlo(m) + AuthExchange(m, a) + MailFrom(m)
    case RcptSent => Ehlo(m) + AuthExchange(m, a) + MailFrom(m) + RcptTo(m)
    case DataSent => Envelope(m, a)
    case Body => Envelope(m, a) + Header(m) + m.body[..bodySent]
    case Finishing => Envelope(m, a) + Header(m) + m.body + BODY_FINISHED
    case Closed => Script(m, a)
  }

  function AuthCodes(a: Auth): seq<nat> {
    match a
    case None => []
    case Plain => [235]
    case Login => [334, 334, 235]
  }

  /** The replies that lead to a phase. */
  function Accepted(phase: Phase, a: Auth): seq<nat> {
    match phase
    case Greeting => []
    case Helo => [220]
    case AuthPlainSent => [220, 250]
    case LoginUname => [220, 250]
    case LoginPass => [220, 250, 334]
    case LoginSent => [220, 250, 334, 334]
    case MailSent => [220, 250] + AuthCodes(a)
    case RcptSent => [220, 250] + AuthCodes(a) + [250]
    case DataSent => [220, 250] + AuthCodes(a) + [250, 250]
    case Body => [220, 250] + AuthCodes(a) + [250, 250, 354]
    case Finishing => [220, 250] + AuthCodes(a) + [250, 250, 354]
    case Closed => [220, 250] + AuthCodes(a) + [250, 250, 354, 250]
  }

  predicate AuthFits(phase: Phase, a: Auth) {
    match phase
    case Greeting => a == None
    case Helo => a == None
    case AuthPlainSent => a == Plain
    case LoginUname => a == Login
    case LoginPass => a == Login
    case LoginSent => a == Login
    case _ => true
  }

  /** What every reachable session satisfies. */
  ghost predicate Inv(m: Mail, v: View) {
    && v.bodySent <= |m.body|
    && (v.phase !in {Body, Finishing, Closed} ==> v.bodySent == 0)
    && (v.phase in {Finishing, Closed} ==> v.bodySent == |m.body|)
    && AuthFits(v.phase, v.auth)
    && v.wire == Written(m, v.phase, v.auth, v.bodySent)
    && v.codes == Accepted(v.phase, v.auth)
    && (v.phase == Closed ==> v.freed)
    && (v.freed ==> v.rx == "")
    && Told(m, v)
  }

  /** The callback hears once, when the session is freed, and hears of success
      exactly when the whole script was written. */
  ghost predicate Told(m: Mail, v: View) {
    && |v.results| == (if v.freed && m.notify then 1 else 0)
    && (v.results != [] ==> (v.results[0] == Success <==> v.phase == Closed))
  }
}
