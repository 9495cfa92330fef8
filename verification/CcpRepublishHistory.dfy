/** The republish list told from the events alone: which publish each entry came
    from, when its timer was last started, and which acknowledgement or failed
    send took it out. */
module CcpRepublishHistory {
  import opened CcpQueue
  import opened CcpRepublish
  import opened CcpRepublishSafety
  import T = CcpRepublishTimers

  // ----- one step, entry by entry

  /** The publish is taken into the list. */
  predicate Accepts(s: State, e: Event) {
    e.Push? && e.memOk && !s.sweep.Looking? && |s.list| < 20
  }

  /** The step is the entry's own failed send or an acknowledgement of its key. */
  predicate Settles(s: State, e: Event, id: nat) {
    && !s.sweep.Looking? && Has(s.list, id)
    && (e == SendFailed(id) || e == Ack(Get(s.list, id).key))
  }

  predicate Restarts(s: State, e: Event, id: nat) {
    e.Resent? && s.sweep.Resending? && s.sweep.cur == id
  }

  ghost predicate StepTells(s: State, e: Event, timeout: nat, t: State, id: nat) {
    && t.pushed == s.pushed + (if Accepts(s, e) then 1 else 0)
    && t.now == s.now + (if e.Tick? then e.d else 0)
    && (id in t.trace.marked <==> id in s.trace.marked || Settles(s, e, id))
    && (Has(t.list, id) ==>
          if Has(s.list, id) then
            && Get(t.list, id).key == Get(s.list, id).key
            && Get(t.list, id).deadline == if Restarts(s, e, id) then s.now + 2 * timeout else Get(s.list, id).deadline
          else
            && Accepts(s, e) && id == s.pushed
            && Get(t.list, id) == Entry(id, e.seqId, s.now + 2 * timeout, false))
  }

  lemma MarkTells(s: State, e: Event, timeout: nat, hit: Entry<nat> -> bool, id: nat)
    requires Inv(s) && !e.Push? && !e.Tick? && !e.Resent?
    requires Settles(s, e, id) <==> Has(s.list, id) && hit(Get(s.list, id))
    ensures StepTells(s, e, timeout, MarkAll(s, hit), id)
  {
    hide Pointers, Order, Covered, Pred, Index;
    var t := MarkAll(s, hit);
    MarkSame(s.list, hit);
    SameIndex(s.list, t.list, id);
    HitsAre(s.list, hit, id);
  }

  lemma HitsAre(list: seq<Entry<nat>>, hit: Entry<nat> -> bool, id: nat)
    requires Increasing(list)
    ensures id in Hits(list, hit) <==> Has(list, id) && hit(Get(list, id))
  {
    hide Index;
    if id in Hits(list, hit) {
      var i :| 0 <= i < |list| && hit(list[i]) && list[i].id == id;
      IndexAt(list, i);
    }
  }

  lemma PushTells(s: State, e: Event, timeout: nat, id: nat)
    requires Inv(s) && e.Push? && Enabled(s, e)
    ensures StepTells(s, e, timeout, Next(s, e, timeout), id)
  {
    hide Pointers, Order, Covered, Pred, Index;
    if Accepts(s, e) {
      IndexAppend(s.list, Entry(s.pushed, e.seqId, s.now + 2 * timeout, false), id);
    }
  }

  lemma ResentTells(s: State, timeout: nat, id: nat)
    requires Inv(s) && s.sweep.Resending?
    ensures StepTells(s, Resent, timeout, Next(s, Resent, timeout), id)
  {
    hide Marks, Order, Covered, Pred, Index;
    var d := s.now + 2 * timeout;
    RearmSame(s.list, s.sweep.cur, d);
    SameIndex(s.list, Rearm(s.list, s.sweep.cur, d), id);
    if Has(s.list, id) && id != s.sweep.cur { assert Index(s.list, id) != Index(s.list, s.sweep.cur); }
  }

  lemma VisitTells(s: State, e: Event, timeout: nat, id: nat)
    requires Inv(s) && s.sweep.Looking? && e.Visit?
    ensures StepTells(s, e, timeout, Next(s, e, timeout), id)
  {
    hide Marks, Order, Covered, Pred, Index;
    if s.sweep.temp != Null { RemoveAt(s.list, s.sweep.temp.id, id); }
    TurnLeaves(s, e.connected, e.memOk);
    hide Turn, Remove;
  }

  lemma TurnLeaves(s: State, connected: bool, memOk: bool)
    requires s.sweep.Looking?
    ensures var t := Turn(s, connected, memOk);
      t.list == Drop(s).list && t.pushed == s.pushed && t.now == s.now && t.trace.marked == s.trace.marked
  {
    hide Index, Pred, Remove;
  }

  lemma NextTells(s: State, e: Event, timeout: nat, id: nat)
    requires Inv(s)
    ensures StepTells(s, e, timeout, Next(s, e, timeout), id)
  {
    hide Pointers, Order, Covered, Index, Pred, Turn, Resume;
    match e
    case Push(_, _) => if Enabled(s, e) { PushTells(s, e, timeout, id); }
    case SendFailed(x) => if Enabled(s, e) { MarkTells(s, e, timeout, (y: Entry<nat>) => y.id == x, id); }
    case Ack(k) => if Enabled(s, e) { MarkTells(s, e, timeout, (y: Entry<nat>) => y.key == k, id); }
    case Visit(_, _) => if Enabled(s, e) { VisitTells(s, e, timeout, id); }
    case Resent => if Enabled(s, e) { ResentTells(s, timeout, id); }
    case _ =>
  }

  // ----- the history of a run

  ghost function After(es: seq<Event>, timeout: nat): State {
    Run(Init(), es, timeout)
  }

  /** Time passes only in ticks. */
  function Elapsed(es: seq<Event>): nat {
    if es == [] then 0 else
    var e := es[|es| - 1];
    Elapsed(es[..|es| - 1]) + if e.Tick? then e.d else 0
  }

  /** The sequence ids of the publishes taken into the list, oldest first. */
  ghost function Published(es: seq<Event>, timeout: nat): seq<nat> {
    if es == [] then [] else
    var front, e := es[..|es| - 1], es[|es| - 1];
    Published(front, timeout) + if Accepts(After(front, timeout), e) then [e.seqId] else []
  }

  /** When the id-th of them was taken in or last resent. */
  ghost function Started(es: seq<Event>, timeout: nat, id: nat): nat {
    if es == [] then 0 else
    var front, e := es[..|es| - 1], es[|es| - 1];
    if (Accepts(After(front, timeout), e) && id == |Published(front, timeout)|) || Restarts(After(front, timeout), e, id)
    then Elapsed(front) else Started(front, timeout, id)
  }

  /** The i-th event is the failed send of the id-th publish or an
      acknowledgement of its sequence id, while it was in the list. */
  ghost predicate SettledBy(es: seq<Event>, timeout: nat, i: nat, id: nat)
    requires i < |es|
  {
    var s, keys := After(es[..i], timeout), Published(es[..i], timeout);
    !s.sweep.Looking? && Has(s.list, id) && id < |keys| && (es[i] == SendFailed(id) || es[i] == Ack(keys[id]))
  }

  ghost predicate Settled(es: seq<Event>, timeout: nat, id: nat) {
    exists i :: 0 <= i < |es| && SettledBy(es, timeout, i, id)
  }

  lemma AfterNext(es: seq<Event>, timeout: nat)
    requires es != []
    ensures After(es, timeout) == Next(After(es[..|es| - 1], timeout), es[|es| - 1], timeout)
    ensures Inv(After(es[..|es| - 1], timeout))
  {
    hide Next, Inv;
    var front, e := es[..|es| - 1], es[|es| - 1];
    assert es == front + [e];
    T.RunAppend(Init(), front, e, timeout);
    InitInv();
    RunInv(Init(), front, timeout);
  }

  lemma InitInv()
    ensures Inv(Init())
  {
  }

  lemma SettledNext(es: seq<Event>, timeout: nat, id: nat)
    requires es != []
    ensures Settled(es, timeout, id) <==>
      Settled(es[..|es| - 1], timeout, id) || SettledBy(es, timeout, |es| - 1, id)
  {
    hide After, Published, Has;
    var front := es[..|es| - 1];
    forall i | 0 <= i < |front|
      ensures SettledBy(front, timeout, i, id) <==> SettledBy(es, timeout, i, id)
    {
      assert front[..i] == es[..i];
    }
    hide SettledBy;
    if Settled(front, timeout, id) {
      var i :| 0 <= i < |front| && SettledBy(front, timeout, i, id);
      assert SettledBy(es, timeout, i, id);
    }
  }

  /** For every interleaving: the clock tells the ticks; the entries ever made are
      the publishes taken in, each with its sequence id and a deadline of twice
      the timeout after it was taken in or last resent; and an entry is marked
      exactly when its own send failed or its own sequence id was acknowledged. */
  lemma {:induction false} History(es: seq<Event>, timeout: nat, id: nat)
    ensures
      var s, keys := After(es, timeout), Published(es, timeout);
      && s.now == Elapsed(es) && s.pushed == |keys|
      && (id in s.trace.marked <==> Settled(es, timeout, id))
      && (Has(s.list, id) ==>
            && id < |keys| && Get(s.list, id).key == keys[id]
            && Get(s.list, id).deadline == Started(es, timeout, id) + 2 * timeout)
    decreases |es|
  {
    if es != [] {
      hide Next, Inv, Index, Has, Run, Accepts, Restarts;
      var front, e := es[..|es| - 1], es[|es| - 1];
      History(front, timeout, id);
      AfterNext(es, timeout);
      SettledNext(es, timeout, id);
      NextTells(After(front, timeout), e, timeout, id);
      hide Settled;
    }
  }

  /** An entry leaves the list only after its own acknowledgement or its own
      failed send. */
  lemma LeavesSettled(es: seq<Event>, timeout: nat, id: nat)
    requires id < |Published(es, timeout)|
    ensures Has(After(es, timeout).list, id) || Settled(es, timeout, id)
  {
    hide Run, Published, Settled, Has;
    History(es, timeout, id);
    Safety(es, timeout);
  }

  /** And from then on it is not resent, whatever follows. */
  lemma SettledNotResent(es: seq<Event>, fs: seq<Event>, timeout: nat, id: nat)
    requires Settled(es, timeout, id)
    ensures var r, s := After(es, timeout).trace.resent, Run(After(es, timeout), fs, timeout).trace.resent;
      r <= s && id !in s[|r|..]
  {
    hide Run, Inv, Settled, Has;
    History(es, timeout, id);
    InitInv();
    RunInv(Init(), es, timeout);
    NeverAgain(After(es, timeout), fs, timeout, id);
  }

  /** What a visit resends has neither been acknowledged nor failed, and twice the
      timeout has passed since it was published or last resent, unless a newer
      one was due in the same sweep; while disconnected nothing is resent. */
  lemma ResentInTime(es: seq<Event>, connected: bool, memOk: bool, timeout: nat)
    requires After(es, timeout).sweep.Looking? && After(es, timeout).sweep.next != Null
    ensures
      var s, n := After(es, timeout), After(es, timeout).sweep.next.id;
      Turn(s, connected, memOk).trace.resent ==
        if connected && memOk && !Settled(es, timeout, n)
           && (Elapsed(es) >= Started(es, timeout, n) + 2 * timeout || NewerDue(s, n))
        then s.trace.resent + [n] else s.trace.resent
  {
    var s := After(es, timeout);
    var n := s.sweep.next.id;
    InitInv();
    RunInv(Init(), es, timeout);
    hide Run, Published, Settled, Started, Elapsed, NewerDue;
    History(es, timeout, n);
    Ahead(s);
    if connected {
      hide Turn, Inv, Drop, Index;
      ResendsDue(s, memOk);
    }
  }

  /** The node ahead is the same before and after the one behind is dropped. */
  lemma Ahead(s: State)
    requires Inv(s) && s.sweep.Looking? && s.sweep.next != Null
    ensures Has(s.list, s.sweep.next.id) && Has(Dropped(s).list, s.sweep.next.id)
    ensures Get(Dropped(s).list, s.sweep.next.id) == Get(s.list, s.sweep.next.id)
    ensures Get(s.list, s.sweep.next.id).marked <==> s.sweep.next.id in s.trace.marked
  {
    NodeAhead(s);
    MarkedSays(s, s.sweep.next.id);
    hide Marks, Order, Covered, Pred, Index;
    if s.sweep.temp != Null { RemoveAt(s.list, s.sweep.temp.id, s.sweep.next.id); }
  }
}
