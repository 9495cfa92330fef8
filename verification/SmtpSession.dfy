/** The session structure and the callbacks that work on it, against the state
    machine of module Smtp. */
module SmtpSession {
  import opened Octets
  import opened SmtpText
  import opened Smtp
  import Base64
  import Base64Bits

  class Session {
    const mail: Mail
    const tx: array<char>
    var phase: Phase
    var timer: nat
    var rx: string
    var bodySent: nat
    var freed: bool
    // what the connection and the callback have seen
    ghost var auth: Auth
    ghost var wire: string
    ghost var results: seq<Outcome>
    ghost var codes: seq<nat>

    ghost predicate Valid()
      reads this
    {
      Fits(mail) && tx.Length == TX_BUF_LEN + 1 && bodySent <= |mail.body|
    }

    ghost function State(): View
      reads this
    {
      View(phase, timer, rx, bodySent, freed, auth, wire, results, codes)
    }

    constructor (m: Mail)
      requires Fits(m)
      ensures Valid() && mail == m && State() == Init() && fresh(tx)
    {
      mail := m;
      tx := new char[TX_BUF_LEN + 1];
      phase, timer, rx, bodySent, freed := Greeting, TIMEOUT, "", 0, false;
      auth, wire, results, codes := None, "", [], [];
    }

    // ----- the transmit buffer

    method Put(at: nat, s: string) returns (end: nat)
      requires at + |s| <= tx.Length
      modifies tx
      ensures end == at + |s| && tx[..end] == old(tx[..at]) + s
      ensures at == 0 ==> tx[..end] == s
    {
      forall i | 0 <= i < |s| { tx[at + i] := s[i]; }
      end := at + |s|;
    }

    method PutBase64(at: nat, data: seq<byte>) returns (end: nat)
      requires |data| <= 66 && at + 88 <= tx.Length
      modifies tx
      ensures at <= end <= at + 88 && tx[..end] == old(tx[..at]) + Base64.Encode(data)
    {
      var t := new char[88];
      var n := Base64Bits.EncodeBits(t, data);
      end := Put(at, t[..n]);
    }

    method PrepareHelo() returns (len: nat)
      requires Valid()
      modifies tx
      ensures 0 < len <= TX_BUF_LEN && tx[..len] == Ehlo(mail)
    {
      len := Put(0, "EHLO [");
      len := Put(len, mail.address);
      len := Put(len, "]\r\n");
    }

    method PrepareAuthPlain() returns (len: nat)
      requires Valid()
      modifies tx
      ensures 0 < len <= TX_BUF_LEN && tx[..len] == AuthPlain(mail)
    {
      len := Put(0, "AUTH PLAIN ");
      len := PutBase64(len, [0] + mail.user + [0] + mail.pass);
      len := Put(len, CRLF);
    }

    method PrepareAuthLogin() returns (len: nat)
      requires Valid()
      modifies tx
      ensures 0 < len <= TX_BUF_LEN && tx[..len] == AUTH_LOGIN
    {
      len := Put(0, AUTH_LOGIN);
    }

    method PrepareUname() returns (len: nat)
      requires Valid()
      modifies tx
      ensures 0 < len <= TX_BUF_LEN && tx[..len] == UserLine(mail)
    {
      len := PutBase64(0, mail.user);
      len := Put(len, CRLF);
    }

    method PreparePass() returns (len: nat)
      requires Valid()
      modifies tx
      ensures 0 < len <= TX_BUF_LEN && tx[..len] == PassLine(mail)
    {
      len := PutBase64(0, mail.pass);
      len := Put(len, CRLF);
    }

    method PrepareMail() returns (len: nat)
      requires Valid()
      modifies tx
      ensures 0 < len <= TX_BUF_LEN && tx[..len] == MailFrom(mail)
    {
      len := Put(0, "MAIL FROM: <");
      len := Put(len, mail.from);
      len := Put(len, ">\r\n");
    }

    method PrepareRcpt() returns (len: nat)
      requires Valid()
      modifies tx
      ensures 0 < len <= TX_BUF_LEN && tx[..len] == RcptTo(mail)
    {
      len := Put(0, "RCPT TO: <");
      len := Put(len, mail.to);
      len := Put(len, ">\r\n");
    }

    method PrepareHeader() returns (len: nat)
      requires Valid()
      modifies tx
      ensures 0 < len <= TX_BUF_LEN && tx[..len] == Header(mail)
    {
      len := Put(0, "From: <");
      len := Put(len, mail.from);
      len := Put(len, ">\r\nTo: <");
      len := Put(len, mail.to);
      len := Put(len, ">\r\nSubject: ");
      len := Put(len, mail.subject);
      len := Put(len, "\r\n\r\n");
    }

    // ----- replies

    method IsResponseFinished() returns (done: bool)
      ensures done == Finished(rx, 0)
    {
      var offset := 0;
      while true
        invariant 0 <= offset && Finished(rx, 0) == Finished(rx, offset)
        decreases |rx| - offset
      {
        var crlf := Find(rx, CRLF, offset + 4);
        if crlf == -1 { return false; }
        var sp := rx[offset + 3];
        if sp == '-' {
          offset := crlf + 2;
        } else {
          return sp == ' ';
        }
      }
    }

    /** The switch over the states: the next one and what to write. */
    method Prepare(code: nat) returns (next: Phase, len: nat, overrun: bool)
      requires Valid()
      modifies tx
      ensures len <= TX_BUF_LEN && (len > 0 <==> next != phase)
      ensures (next, tx[..len]) == React(mail, phase, code, rx)
      ensures overrun <==> phase == Helo && code == 250 && |AuthSpan(rx)| > TX_BUF_LEN
    {
      hide Ehlo, AuthPlain, UserLine, PassLine, MailFrom, RcptTo, Header, AuthChoice, Contains;
      next, len, overrun := phase, 0, false;
      assert tx[..0] == "";
      match phase
      case Greeting =>
        if code == 220 { len := PrepareHelo(); next := Helo; }
      case Helo =>
        if code == 250 { next, len, overrun := PrepareAuthOrMail(); }
      case AuthPlainSent =>
        if code == 235 { len := PrepareMail(); next := MailSent; }
      case LoginSent =>
        if code == 235 { len := PrepareMail(); next := MailSent; }
      case LoginUname =>
        if code == 334 && Contains(rx, "VXNlcm5hbWU6") { len := PrepareUname(); next := LoginPass; }
      case LoginPass =>
        if code == 334 && Contains(rx, "UGFzc3dvcmQ6") { len := PreparePass(); next := LoginSent; }
      case MailSent =>
        if code == 250 { len := PrepareRcpt(); next := RcptSent; }
      case RcptSent =>
        if code == 250 { len := Put(0, DATA); next := DataSent; }
      case DataSent =>
        if code == 354 { len := PrepareHeader(); next := Body; }
      case Body =>
      case Finishing =>
        if code == 250 { len := Put(0, QUIT); next := Closed; }
      case Closed =>
    }

    /** What strstr reads behind the keyword of a line in memory. */
    static lemma Behind(memory: string, line: string)
      requires 5 <= |line| < |memory| && memory[..|line| + 1] == line + [0 as char]
      ensures UpToNul(memory[5..], 0 as char) == UpToNul(line[5..], 0 as char)
    {
      var m, s := memory[5..], line[5..];
      assert m[..|s| + 1] == memory[..|line| + 1][5..] == s + [0 as char];
      assert m[..|s|] == m[..|s| + 1][..|s|] == s;
      UpToNulTerminated(m, s, 0 as char);
    }

    /** The transmit buffer holds the AUTH line for a while.  The copy leaves the
        buffer exactly when the line, from its keyword to its CRLF, is longer
        than 255 bytes; the parameters are then taken from where they came. */
    method CopyAuthLine() returns (params: string, overrun: bool)
      requires Valid()
      modifies tx
      ensures params == AuthLine(rx)
      ensures overrun <==> |AuthSpan(rx)| > TX_BUF_LEN
      ensures !overrun && AuthSpan(rx) != "" ==>
        tx[..|AuthSpan(rx)| + 1] == AuthSpan(rx) + [0 as char]
    {
      hide AuthSpan, UpToNul;
      params, overrun := "", false;
      var line := AuthSpan(rx);
      SpanHasWord(rx);
      if line == "" { return; }
      if |line| > TX_BUF_LEN {
        return AuthLine(rx), true;
      }
      var end := Put(0, line);
      end := Put(end, [0 as char]);
      params := UpToNul(tx[..][5..], 0 as char);
      assert tx[..][..|line| + 1] == tx[..|line| + 1];
      Behind(tx[..], line);
      if |line| == 5 { assert line[5..] == "" && UpToNul("", 0 as char) <= ""; }
    }

    method PrepareAuthOrMail() returns (next: Phase, len: nat, overrun: bool)
      requires Valid() && phase == Helo
      modifies tx
      ensures 0 < len <= TX_BUF_LEN && next != phase
      ensures (next, tx[..len]) == React(mail, Helo, 250, rx)
      ensures overrun <==> |AuthSpan(rx)| > TX_BUF_LEN
    {
      hide Ehlo, AuthPlain, UserLine, PassLine, MailFrom, RcptTo, Header, AuthLine, AuthSpan, Contains;
      var params;
      params, overrun := CopyAuthLine();
      if Contains(params, "PLAIN") {
        len := PrepareAuthPlain();
        next := AuthPlainSent;
      } else if Contains(params, "LOGIN") {
        len := PrepareAuthLogin();
        next := LoginUname;
      } else {
        len := PrepareMail();
        next := MailSent;
      }
    }

    // ----- the end of a session

    method FreeSession(o: Outcome)
      requires Valid()
      modifies this
      ensures Valid() && State() == Smtp.Free(mail, old(State()), o)
    {
      freed, rx := true, "";
      if mail.notify { results := results + [o]; }
    }

    method CloseSession(o: Outcome, env: Env)
      requires Valid()
      modifies this
      ensures Valid() && State() == Smtp.Close(mail, old(State()), o, env)
    {
      if env.closeOk { FreeSession(o); }
    }

    // ----- writing

    method SendBody(env: Env)
      requires Valid()
      modifies this
      ensures Valid() && State() == Smtp.SendBody(mail, old(State()), env)
    {
      if phase == Body {
        var sendLen := |mail.body| - bodySent;
        if sendLen > 0 {
          if sendLen > env.sndbuf { sendLen := env.sndbuf; }
          if sendLen > 0 && env.bodyOk {
            wire := wire + mail.body[bodySent..bodySent + sendLen];
            timer := TIMEOUT_DATABLOCK;
            bodySent := bodySent + sendLen;
          }
        }
        if bodySent == |mail.body| && env.endOk {
          wire := wire + BODY_FINISHED;
          timer := TIMEOUT_DATATERM;
          phase := Finishing;
        }
      }
    }

    method Respond(env: Env)
      requires Valid()
      modifies this, tx
      ensures Valid() && State() == Answer(mail, old(State()), env)
    {
      hide React, Code, Finished;
      var code := Code(rx);
      if code == 0 {
        rx := "";
        return;
      }
      var done := IsResponseFinished();
      if !done || phase == Closed { return; }
      var next, len, _ := Prepare(code);
      if next == phase {
        CloseSession(BadReply(code), env);
      } else if len > 0 && env.cmdOk {
        wire, codes := wire + tx[..len], codes + [code];
        auth := if next == AuthPlainSent then Plain else if next == LoginUname then Login else auth;
        timer, rx, phase := TIMEOUT, "", next;
        if next == Body {
          SendBody(env);
        } else if next == Closed {
          FreeSession(Success);
        }
      }
    }

    method Process(received: bool, text: string, env: Env)
      requires Valid()
      modifies this, tx
      ensures Valid()
      ensures State() == if old(freed) then old(State())
        else if received then Answer(mail, old(State()).(rx := old(rx) + text), env)
        else Idle(mail, old(State()), env)
    {
      hide Answer, Smtp.SendBody, Close;
      if freed { return; }
      if received {
        rx := rx + text;
      } else {
        if timer == 0 {
          CloseSession(TimedOut, env);
          return;
        }
        if phase == Body {
          SendBody(env);
          return;
        }
      }
      Respond(env);
    }

    // ----- the callbacks

    method TcpPoll(env: Env)
      requires Valid()
      modifies this, tx
      ensures Valid() && State() == Next(mail, old(State()), Poll, env)
    {
      hide Idle;
      if !freed && timer != 0 { timer := timer - 1; }
      Process(false, "", env);
    }

    method TcpSent(env: Env)
      requires Valid()
      modifies this, tx
      ensures Valid() && State() == Next(mail, old(State()), Sent, env)
    {
      hide Idle;
      Process(false, "", env);
    }

    method TcpRecv(text: string, env: Env)
      requires Valid()
      modifies this, tx
      ensures Valid() && State() == Next(mail, old(State()), Recv(text), env)
    {
      hide Answer;
      Process(true, text, env);
    }

    method TcpRecvClosed(env: Env)
      requires Valid()
      modifies this
      ensures Valid() && State() == Next(mail, old(State()), RecvClosed, env)
    {
      if !freed { CloseSession(ClosedByPeer, env); }
    }

    method TcpErr(env: Env)
      requires Valid()
      modifies this
      ensures Valid() && State() == Next(mail, old(State()), Error, env)
    {
      if !freed { FreeSession(ClosedByPeer); }
    }

    method TcpConnected(ok: bool, env: Env)
      requires Valid()
      modifies this
      ensures Valid() && State() == if ok then old(State()) else Next(mail, old(State()), ConnectFailed, env)
    {
      if !ok && !freed { CloseSession(ConnectError, env); }
    }
  }
}
