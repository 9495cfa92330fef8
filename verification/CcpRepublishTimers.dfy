/** The republish list's timers do not stay in order: a sequence of steps in
    which the sweep resends an entry before its own deadline. */
module CcpRepublishTimers {
  import opened CcpQueue
  import opened CcpRepublish

  lemma {:induction false} RunAppend(s: State, es: seq<Event>, e: Event, timeout: nat)
    ensures Run(s, es + [e], timeout) == Next(Run(s, es, timeout), e, timeout)
    decreases |es|
  {
    hide Next;
    if es == [] {
      assert Run(s, [e], timeout) == Run(Next(s, e, timeout), [e][1..], timeout);
      assert [] + [e] == [e];
    } else {
      assert (es + [e])[1..] == es[1..] + [e];
      RunAppend(Next(s, es[0], timeout), es[1..], e, timeout);
    }
  }

  ghost predicate Reachable(s: State, timeout: nat) {
    exists es :: Run(Init(), es, timeout) == s
  }

  lemma Reach(s: State, e: Event, timeout: nat)
    requires Reachable(s, timeout)
    ensures Reachable(Next(s, e, timeout), timeout)
  {
    hide Next;
    var es :| Run(Init(), es, timeout) == s;
    RunAppend(Init(), es, e, timeout);
  }

  function Log(resent: seq<nat>, visits: seq<nat>, outcomes: seq<Outcome>): Trace {
    Trace({}, resent, visits, outcomes, 2, {})
  }

  function Two(a: nat, b: nat): seq<Entry<nat>> {
    [Entry(0, 7, a, false), Entry(1, 8, b, false)]
  }

  /** Two publishes, both due at time 3 with a timeout of 1. */
  lemma TwoDue()
    ensures Reachable(State(Two(2, 3), 3, 2, Looking(To(1), Null, false), Log([], [], [])), 1)
  {
    assert Run(Init(), [], 1) == Init();
    var s1 := State([Entry(0, 7, 2, false)], 0, 1, Idle, Trace({}, [], [], [], 0, {}));
    assert Next(Init(), Push(7, true), 1) == s1;
    Reach(Init(), Push(7, true), 1);
    var s2 := s1.(now := 1);
    assert Next(s1, Tick(1), 1) == s2;
    Reach(s1, Tick(1), 1);
    var s3 := s2.(list := Two(2, 3), pushed := 2);
    assert Next(s2, Push(8, true), 1) == s3;
    Reach(s2, Push(8, true), 1);
    var s4 := s3.(now := 3);
    assert Next(s3, Tick(2), 1) == s4;
    Reach(s3, Tick(2), 1);
    assert Next(s4, StartSweep, 1) == State(Two(2, 3), 3, 2, Looking(To(1), Null, false), Log([], [], []));
    Reach(s4, StartSweep, 1);
  }

  lemma TwoIndex(a: nat, b: nat)
    ensures Index(Two(a, b), 1) == 1 && Index(Two(a, b), 0) == 0
    ensures Pred(Two(a, b), 1) == To(0) && Pred(Two(a, b), 0) == Null
  {
    assert Two(a, b)[..1] == [Entry(0, 7, a, false)];
  }

  lemma TwoVisit(a: nat, b: nat, now: nat, flag: bool, resent: seq<nat>)
    requires b <= now
    ensures Next(State(Two(a, b), now, 2, Looking(To(1), Null, flag), Log(resent, [], [])), Visit(true, true), 1)
      == State(Two(a, b), now, 2, Resending(1, To(0), true), Log(resent + [1], [1], [Sent]))
  {
    TwoIndex(a, b);
    hide Index, Pred;
  }

  lemma TwoVisitHead(a: nat, b: nat, now: nat, resent: seq<nat>)
    ensures Next(State(Two(a, b), now, 2, Looking(To(0), Null, true), Log(resent, [1], [Sent])), Visit(true, true), 1)
      == State(Two(a, b), now, 2, Resending(0, Null, true), Log(resent + [0], [1, 0], [Sent, Sent]))
  {
    TwoIndex(a, b);
    hide Index, Pred;
  }

  lemma TwoResume(a: nat, b: nat, now: nat, tr: Trace)
    ensures Next(State(Two(a, b), now, 2, Resending(1, To(0), true), tr), Resent, 1)
      == State(Two(a, now + 2), now, 2, Looking(To(0), Null, true), tr)
    ensures Next(State(Two(a, b), now, 2, Resending(0, Null, true), tr), Resent, 1)
      == State(Two(now + 2, b), now, 2, Looking(Null, Null, true), tr)
  {
    TwoIndex(a, b);
    hide Index, Pred;
  }

  /** A whole sweep later the head's timer stands behind the tail's. */
  lemma TwoDisordered()
    ensures Reachable(State(Two(11, 10), 10, 2, Looking(To(1), Null, false), Log([1, 0], [], [])), 1)
  {
    TwoDue();
    var s0 := State(Two(2, 3), 3, 2, Looking(To(1), Null, false), Log([], [], []));
    TwoVisit(2, 3, 3, false, []);
    Reach(s0, Visit(true, true), 1);
    var s1 := Next(s0, Visit(true, true), 1);
    Reach(s1, Tick(5), 1);
    var s2 := Next(s1, Tick(5), 1);
    TwoResume(2, 3, 8, s2.trace);
    Reach(s2, Resent, 1);
    var s3 := Next(s2, Resent, 1);
    TwoVisitHead(2, 10, 8, [1]);
    Reach(s3, Visit(true, true), 1);
    var s4 := Next(s3, Visit(true, true), 1);
    Reach(s4, Tick(1), 1);
    var s5 := Next(s4, Tick(1), 1);
    TwoResume(2, 10, 9, s5.trace);
    Reach(s5, Resent, 1);
    var s6 := Next(s5, Resent, 1);
    assert s6 == State(Two(11, 10), 9, 2, Looking(Null, Null, true), Log([1, 0], [1, 0], [Sent, Sent]));
    TwoAgain(s6);
  }

  lemma TwoAgain(s6: State)
    requires s6 == State(Two(11, 10), 9, 2, Looking(Null, Null, true), Log([1, 0], [1, 0], [Sent, Sent]))
    requires Reachable(s6, 1)
    ensures Reachable(State(Two(11, 10), 10, 2, Looking(To(1), Null, false), Log([1, 0], [], [])), 1)
  {
    Reach(s6, Visit(true, true), 1);
    var s7 := s6.(sweep := Idle);
    assert Next(s6, Visit(true, true), 1) == s7;
    Reach(s7, Tick(1), 1);
    var s8 := s7.(now := 10);
    assert Next(s7, Tick(1), 1) == s8;
    Reach(s8, StartSweep, 1);
    assert Next(s8, StartSweep, 1) == State(Two(11, 10), 10, 2, Looking(To(1), Null, false), Log([1, 0], [], []));
  }

  /** So the flag makes the sweep resend an entry before its own time. */
  lemma ResentEarly()
    ensures exists s :: Reachable(s, 1) && s.sweep == Resending(0, Null, true) && s.list == Two(11, 12) && s.now == 10
  {
    TwoDisordered();
    var s0 := State(Two(11, 10), 10, 2, Looking(To(1), Null, false), Log([1, 0], [], []));
    TwoVisit(11, 10, 10, false, [1, 0]);
    Reach(s0, Visit(true, true), 1);
    var s1 := Next(s0, Visit(true, true), 1);
    TwoResume(11, 10, 10, s1.trace);
    Reach(s1, Resent, 1);
    var s2 := Next(s1, Resent, 1);
    TwoVisitHead(11, 12, 10, [1, 0, 1]);
    Reach(s2, Visit(true, true), 1);
  }
}
