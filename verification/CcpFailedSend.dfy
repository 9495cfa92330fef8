/** The thread whose send fails marks the node it pushed, through a pointer it
    kept while others used the queue.  When that node is still linked. */
module CcpFailedSend {
  import opened CcpQueue
  import R = CcpRepublish
  import RS = CcpRepublishSafety
  import U = CcpUnack
  import US = CcpUnackSafety

  /** Linked as long as no acknowledgement came, and until the sweep unlinks it. */
  lemma RepublishLinked(es: seq<R.Event>, timeout: nat, id: nat)
    ensures
      var s := R.Run(R.Init(), es, timeout);
      id < s.pushed ==> id !in s.trace.marked ==> Has(s.list, id)
  {
    RS.Safety(es, timeout);
  }

  /** Linked as long as it was neither answered nor reported as timed out. */
  lemma UnackLinked(es: seq<U.Event>, timeout: nat, id: nat)
    ensures
      var s := U.Run(U.Init(), es, timeout, true);
      id < s.pushed ==> id !in s.trace.marked && id !in s.trace.reported ==> Has(s.list, id)
  {
    US.Safety(es, timeout);
  }

  // ----- where it is not

  lemma RStep(s: R.State, e: R.Event, es: seq<R.Event>, timeout: nat)
    ensures R.Run(s, [e] + es, timeout) == R.Run(R.Next(s, e, timeout), es, timeout)
  {
    assert ([e] + es)[1..] == es;
  }

  lemma UStep(s: U.State, e: U.Event, es: seq<U.Event>, timeout: nat)
    ensures U.Run(s, [e] + es, timeout, true) == U.Run(U.Next(s, e, timeout, true), es, timeout, true)
  {
    assert ([e] + es)[1..] == es;
  }

  /** Marking, by key, the only entry there is. */
  lemma MarkOnly<K>(e: Entry<K>)
    ensures Mark([e], (x: Entry<K>) => x.key == e.key) == [e.(marked := true)]
  {
  }

  const R_EVENTS := [R.Push(7, true), R.Ack(7), R.StartSweep, R.Visit(true, true), R.Visit(true, true)]

  lemma RepublishAcked(e: Entry<nat>, tr: R.Trace)
    ensures
      var s := R.State([e], 0, 1, R.Idle, tr);
      R.Next(s, R.Ack(e.key), 0) == s.(list := [e.(marked := true)], trace := tr.(marked := tr.marked + {e.id}))
  {
    var hit := (x: Entry<nat>) => x.key == e.key;
    MarkOnly(e);
    assert [e][0] == e;
    assert R.Hits([e], hit) == {e.id};
  }

  /** Published, acknowledged, swept: the sender's node is gone before its send failed. */
  lemma RepublishFreed(timeout: nat)
    ensures
      var s := R.Run(R.Init(), R_EVENTS, timeout);
      s.pushed == 1 && !Has(s.list, 0) && R.Enabled(s, R.SendFailed(0))
  {
    var es, e := R_EVENTS, Entry(0, 7, 2 * timeout, false);
    var s1 := R.State([e], 0, 1, R.Idle, R.Trace({}, [], [], [], 0, {}));
    var s2 := R.State([e.(marked := true)], 0, 1, R.Idle, R.Trace({0}, [], [], [], 0, {}));
    var s3 := s2.(sweep := R.Looking(To(0), Null, false), trace := R.Trace({0}, [], [], [], 1, {0}));
    var s4 := s2.(sweep := R.Looking(Null, To(0), false), trace := R.Trace({0}, [], [0], [R.Marked], 1, {0}));
    assert R.Next(R.Init(), es[0], timeout) == s1;
    assert R.Next(s1, es[1], timeout) == s2 by { RepublishAcked(e, s1.trace); }
    assert R.Next(s2, es[2], timeout) == s3;
    assert R.Next(s3, es[3], timeout) == s4;
    assert R.Next(s4, es[4], timeout) == s4.(list := [], sweep := R.Idle);
    hide R.Next;
    RFive(R.Init(), es, timeout);
  }

  lemma RFive(s: R.State, es: seq<R.Event>, timeout: nat)
    requires |es| == 5
    ensures
      var t := R.Next(R.Next(R.Next(s, es[0], timeout), es[1], timeout), es[2], timeout);
      R.Run(s, es, timeout) == R.Next(R.Next(t, es[3], timeout), es[4], timeout)
  {
    hide R.Next;
    var t1 := R.Next(s, es[0], timeout);
    var t2 := R.Next(t1, es[1], timeout);
    var t3 := R.Next(t2, es[2], timeout);
    assert es == [es[0]] + ([es[1]] + ([es[2]] + ([es[3]] + ([es[4]] + []))));
    RStep(s, es[0], [es[1]] + ([es[2]] + ([es[3]] + ([es[4]] + []))), timeout);
    RStep(t1, es[1], [es[2]] + ([es[3]] + ([es[4]] + [])), timeout);
    RStep(t2, es[2], [es[3]] + ([es[4]] + []), timeout);
    RStep(t3, es[3], [es[4]] + [], timeout);
    RStep(R.Next(t3, es[3], timeout), es[4], [], timeout);
  }

  const KEY := U.Key(U.Rpc, 7)

  const U_EVENTS := [U.Push(KEY, true), U.Ack(KEY), U.StartSweep, U.Visit(true), U.Visit(true)]

  lemma UnackAcked(e: U.Item, tr: U.Trace)
    ensures
      var s := U.State([e], 0, 1, U.Idle, tr);
      U.Next(s, U.Ack(e.key), 0, true) == s.(list := [e.(marked := true)], trace := tr.(marked := tr.marked + {e.id}))
  {
    var hit := (x: U.Item) => x.key == e.key;
    MarkOnly(e);
    assert [e][0] == e;
    assert U.Hits([e], hit) == {e.id};
  }

  /** Sent, answered, swept. */
  lemma UnackFreed(timeout: nat)
    ensures
      var s := U.Run(U.Init(), U_EVENTS, timeout, true);
      s.pushed == 1 && !Has(s.list, 0) && U.Enabled(s, U.SendFailed(0))
  {
    var es, e := U_EVENTS, Entry(0, KEY, 2 * timeout, false);
    var s1 := U.State([e], 0, 1, U.Idle, U.Trace({}, [], [], {}, 0, 0));
    var s2 := U.State([e.(marked := true)], 0, 1, U.Idle, U.Trace({0}, [], [], {}, 0, 0));
    var s3 := s2.(sweep := U.Looking(To(0), Null, false), trace := U.Trace({0}, [], [], {}, 1, 0));
    var s4 := s2.(sweep := U.Looking(Null, To(0), false), trace := U.Trace({0}, [], [0], {}, 1, 0));
    assert U.Next(U.Init(), es[0], timeout, true) == s1;
    assert U.Next(s1, es[1], timeout, true) == s2 by { UnackAcked(e, s1.trace); }
    assert U.Next(s2, es[2], timeout, true) == s3;
    assert U.Next(s3, es[3], timeout, true) == s4;
    assert U.Next(s4, es[4], timeout, true) == s4.(list := [], sweep := U.Idle);
    hide U.Next;
    UFive(U.Init(), es, timeout);
  }

  lemma UFive(s: U.State, es: seq<U.Event>, timeout: nat)
    requires |es| == 5
    ensures
      var t := U.Next(U.Next(U.Next(s, es[0], timeout, true), es[1], timeout, true), es[2], timeout, true);
      U.Run(s, es, timeout, true) == U.Next(U.Next(t, es[3], timeout, true), es[4], timeout, true)
  {
    hide U.Next;
    var t1 := U.Next(s, es[0], timeout, true);
    var t2 := U.Next(t1, es[1], timeout, true);
    var t3 := U.Next(t2, es[2], timeout, true);
    assert es == [es[0]] + ([es[1]] + ([es[2]] + ([es[3]] + ([es[4]] + []))));
    UStep(s, es[0], [es[1]] + ([es[2]] + ([es[3]] + ([es[4]] + []))), timeout);
    UStep(t1, es[1], [es[2]] + ([es[3]] + ([es[4]] + [])), timeout);
    UStep(t2, es[2], [es[3]] + ([es[4]] + []), timeout);
    UStep(t3, es[3], [es[4]] + [], timeout);
    UStep(U.Next(t3, es[3], timeout, true), es[4], [], timeout);
  }
}
