/** The unacknowledged requests told from the events alone: which request each
    entry came from and when, and what took it out. */
module CcpUnackHistory {
  import opened CcpQueue
  import opened CcpUnack
  import opened CcpUnackSafety

  // ----- one step, entry by entry

  /** The request is taken into the list. */
  predicate Accepts(s: State, e: Event) {
    e.Push? && e.memOk && !s.sweep.Looking? && |s.list| < 10
  }

  /** The step is the entry's own failed send or the answer of its kind to its
      sequence id. */
  predicate Settles(s: State, e: Event, id: nat) {
    && !s.sweep.Looking? && Has(s.list, id)
    && (e == SendFailed(id) || e == Ack(Key(Get(s.list, id).key.kind, Get(s.list, id).key.seqId)))
  }

  ghost predicate StepTells(s: State, e: Event, timeout: nat, t: State, id: nat) {
    && t.pushed == s.pushed + (if Accepts(s, e) then 1 else 0)
    && t.now == s.now + (if e.Tick? then e.d else 0)
    && (id in t.trace.marked <==> id in s.trace.marked || Settles(s, e, id))
    && (Has(t.list, id) ==>
          if Has(s.list, id) then
            && Get(t.list, id).key == Get(s.list, id).key && Get(t.list, id).deadline == Get(s.list, id).deadline
            && (Get(t.list, id).marked <==> Get(s.list, id).marked || Settles(s, e, id))
          else
            Accepts(s, e) && id == s.pushed && Get(t.list, id) == Entry(id, e.key, s.now + 2 * timeout, false))
  }

  lemma MarkTells(s: State, e: Event, timeout: nat, hit: Item -> bool, id: nat)
    requires Increasing(s.list) && !e.Push? && !e.Tick?
    requires Settles(s, e, id) <==> Has(s.list, id) && hit(Get(s.list, id))
    ensures StepTells(s, e, timeout, MarkAll(s, hit), id)
  {
    hide Pred, Index;
    var t := MarkAll(s, hit);
    MarkSame(s.list, hit);
    SameIndex(s.list, t.list, id);
    HitsAre(s.list, hit, id);
  }

  lemma HitsAre(list: seq<Item>, hit: Item -> bool, id: nat)
    requires Increasing(list)
    ensures id in Hits(list, hit) <==> Has(list, id) && hit(Get(list, id))
  {
    hide Index;
    if id in Hits(list, hit) {
      var i :| 0 <= i < |list| && hit(list[i]) && list[i].id == id;
      IndexAt(list, i);
    }
  }

  lemma PushTells(s: State, e: Event, timeout: nat, id: nat)
    requires Shape(s) && e.Push? && Enabled(s, e) && (id in s.trace.marked ==> id < s.pushed)
    ensures StepTells(s, e, timeout, Next(s, e, timeout, true), id)
  {
    hide Pred, Index;
    if Accepts(s, e) { IndexAppend(s.list, Entry(s.pushed, e.key, s.now + 2 * timeout, false), id); }
  }

  lemma VisitTells(s: State, e: Event, timeout: nat, id: nat)
    requires Inv(s, timeout) && s.sweep.Looking? && e.Visit?
    ensures StepTells(s, e, timeout, Next(s, e, timeout, true), id)
  {
    hide Accounted, Timers, FlagMeans, Covered, Pred, Index, Turn;
    TurnLeaves(s, e.memOk);
    if s.sweep.temp != Null { RemoveAt(s.list, s.sweep.temp.id, id); }
    hide Remove;
  }

  lemma TurnLeaves(s: State, memOk: bool)
    requires s.sweep.Looking?
    ensures var t := Turn(s, memOk, true);
      t.list == Drop(s).list && t.pushed == s.pushed && t.now == s.now && t.trace.marked == s.trace.marked
  {
    hide Index, Pred, Remove;
  }

  lemma NextTells(s: State, e: Event, timeout: nat, id: nat)
    requires Inv(s, timeout) && (id in s.trace.marked ==> id < s.pushed)
    ensures StepTells(s, e, timeout, Next(s, e, timeout, true), id)
  {
    hide Accounted, Pointers, Timers, FlagMeans, Covered, Index, Pred, Turn;
    match e
    case Push(_, _) => if Enabled(s, e) { PushTells(s, e, timeout, id); }
    case SendFailed(x) => if Enabled(s, e) { MarkTells(s, e, timeout, (y: Item) => y.id == x, id); }
    case Ack(k) => if Enabled(s, e) { MarkTells(s, e, timeout, (y: Item) => y.key == k, id); }
    case Visit(_) => if Enabled(s, e) { VisitTells(s, e, timeout, id); }
    case _ =>
  }

  // ----- the history of a run

  ghost function After(es: seq<Event>, timeout: nat): State {
    Run(Init(), es, timeout, true)
  }

  /** Time passes only in ticks. */
  function Elapsed(es: seq<Event>): nat {
    if es == [] then 0 else
    var e := es[|es| - 1];
    Elapsed(es[..|es| - 1]) + if e.Tick? then e.d else 0
  }

  /** The requests taken into the list, oldest first, each with its time. */
  ghost function Requested(es: seq<Event>, timeout: nat): seq<(Key, nat)> {
    if es == [] then [] else
    var front, e := es[..|es| - 1], es[|es| - 1];
    Requested(front, timeout) + if Accepts(After(front, timeout), e) then [(e.key, Elapsed(front))] else []
  }

  /** The i-th event is the failed send of the id-th request or the answer to it,
      while it was in the list. */
  ghost predicate SettledBy(es: seq<Event>, timeout: nat, i: nat, id: nat)
    requires i < |es|
  {
    var s, made := After(es[..i], timeout), Requested(es[..i], timeout);
    && !s.sweep.Looking? && Has(s.list, id) && id < |made|
    && (es[i] == SendFailed(id) || es[i] == Ack(Key(made[id].0.kind, made[id].0.seqId)))
  }

  ghost predicate Settled(es: seq<Event>, timeout: nat, id: nat) {
    exists i :: 0 <= i < |es| && SettledBy(es, timeout, i, id)
  }

  lemma {:induction false} RunAppend(s: State, es: seq<Event>, e: Event, timeout: nat)
    ensures Run(s, es + [e], timeout, true) == Next(Run(s, es, timeout, true), e, timeout, true)
    decreases |es|
  {
    hide Next;
    if es == [] {
      assert [] + [e] == [e] && [e][1..] == [];
    } else {
      assert (es + [e])[1..] == es[1..] + [e];
      RunAppend(Next(s, es[0], timeout, true), es[1..], e, timeout);
    }
  }

  lemma AfterNext(es: seq<Event>, timeout: nat)
    requires es != []
    ensures After(es, timeout) == Next(After(es[..|es| - 1], timeout), es[|es| - 1], timeout, true)
    ensures Inv(After(es[..|es| - 1], timeout), timeout)
  {
    hide Next, Inv;
    var front, e := es[..|es| - 1], es[|es| - 1];
    assert es == front + [e];
    RunAppend(Init(), front, e, timeout);
    InitInv(timeout);
    RunInv(Init(), front, timeout, true);
  }

  lemma InitInv(timeout: nat)
    ensures Inv(Init(), timeout)
  {
  }

  lemma SettledNext(es: seq<Event>, timeout: nat, id: nat)
    requires es != []
    ensures Settled(es, timeout, id) <==>
      Settled(es[..|es| - 1], timeout, id) || SettledBy(es, timeout, |es| - 1, id)
  {
    hide After, Requested, Has;
    var front := es[..|es| - 1];
    forall i | 0 <= i < |front|
      ensures SettledBy(front, timeout, i, id) <==> SettledBy(es, timeout, i, id)
    {
      assert front[..i] == es[..i];
    }
    hide SettledBy;
    if Settled(front, timeout, id) {
      var i :| 0 <= i < |front| && SettledBy(front, timeout, i, id);
      assert SettledBy(es, timeout, i, id);
    }
  }

  /** For every interleaving: the entries ever made are the requests taken in, each
      with its kind, its sequence id and a deadline of twice the timeout after it
      was taken in; and an entry is marked exactly when its own send failed or
      the answer of its kind to its sequence id came. */
  lemma {:induction false} History(es: seq<Event>, timeout: nat, id: nat)
    ensures
      var s, made := After(es, timeout), Requested(es, timeout);
      && s.now == Elapsed(es) && s.pushed == |made|
      && (id in s.trace.marked <==> Settled(es, timeout, id))
      && (id in s.trace.marked ==> id < s.pushed)
      && (Has(s.list, id) ==>
            && id < |made| && Get(s.list, id).key == made[id].0
            && Get(s.list, id).deadline == made[id].1 + 2 * timeout
            && (Get(s.list, id).marked <==> Settled(es, timeout, id)))
    decreases |es|
  {
    if es != [] {
      hide Next, Inv, Index, Has, Run, Accepts;
      var front, e := es[..|es| - 1], es[|es| - 1];
      History(front, timeout, id);
      AfterNext(es, timeout);
      SettledNext(es, timeout, id);
      NextTells(After(front, timeout), e, timeout, id);
      hide Settled;
    }
  }

  /** An entry leaves the list only after its own answer, its own failed send, or
      a report of its timeout. */
  lemma LeavesSettled(es: seq<Event>, timeout: nat, id: nat)
    requires id < |Requested(es, timeout)|
    ensures Has(After(es, timeout).list, id) || Settled(es, timeout, id) || id in After(es, timeout).trace.reported
  {
    hide Run, Requested, Settled, Has;
    History(es, timeout, id);
    Safety(es, timeout);
  }

  /** And a visit reports exactly a request that was neither answered nor failed
      and was made at least twice the timeout ago, memory being there. */
  lemma ReportedInTime(es: seq<Event>, memOk: bool, timeout: nat)
    requires After(es, timeout).sweep.Looking? && After(es, timeout).sweep.next != Null
    ensures
      var s, n, made := After(es, timeout), After(es, timeout).sweep.next.id, Requested(es, timeout);
      && n < |made|
      && Turn(s, memOk, true).trace.reported ==
        if memOk && !Settled(es, timeout, n) && Elapsed(es) >= made[n].1 + 2 * timeout
        then s.trace.reported + [n] else s.trace.reported
  {
    var s := After(es, timeout);
    var n := s.sweep.next.id;
    InitInv(timeout);
    RunInv(Init(), es, timeout, true);
    hide Run, Requested, Settled, Elapsed;
    History(es, timeout, n);
    Ahead(s, timeout);
    hide Turn, Inv, Drop, Index;
    ReportsExpired(s, timeout, memOk);
  }

  /** The node ahead is the same before and after the one behind is dropped. */
  lemma Ahead(s: State, timeout: nat)
    requires Inv(s, timeout) && s.sweep.Looking? && s.sweep.next != Null
    ensures Has(s.list, s.sweep.next.id) && Has(Dropped(s).list, s.sweep.next.id)
    ensures Get(Dropped(s).list, s.sweep.next.id) == Get(s.list, s.sweep.next.id)
  {
    NodeAhead(s, timeout);
    hide Accounted, Timers, FlagMeans, Covered, Pred, Index;
    if s.sweep.temp != Null { RemoveAt(s.list, s.sweep.temp.id, s.sweep.next.id); }
  }
}
