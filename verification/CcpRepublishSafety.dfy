/** What holds of the republish list under every interleaving. */
module CcpRepublishSafety {
  import opened CcpQueue
  import opened CcpRepublish

  // ----- steps that leave the nodes where they are

  /** The same nodes, seen by the same sweep. */
  ghost predicate SameView(s: State, t: State) {
    && SameIds(s.list, t.list) && t.sweep == s.sweep && t.pushed == s.pushed
    && t.trace.visits == s.trace.visits && t.trace.outcomes == s.trace.outcomes
    && t.trace.limit == s.trace.limit && t.trace.startMarks == s.trace.startMarks
    && s.trace.marked <= t.trace.marked
  }

  lemma SameInv(s: State, t: State)
    requires Inv(s) && SameView(s, t) && Marks(t)
    ensures Inv(t)
  {
    hide Marks, Pred, Index;
    assert Pointers(t) by { SamePointers(s, t); }
    assert Covered(t) by {
      if !t.sweep.Idle? {
        forall i | 0 <= i < |t.list| ensures CoveredAt(t, t.list[i].id) { assert CoveredAt(s, s.list[i].id); }
      }
    }
  }

  lemma SamePointers(s: State, t: State)
    requires Pointers(s) && SameView(s, t)
    ensures Pointers(t)
  {
    hide Index;
    forall id: nat ensures Index(t.list, id) == Index(s.list, id) && Pred(t.list, id) == Pred(s.list, id) {
      SameIndex(s.list, t.list, id);
    }
  }

  lemma MarkInv(s: State, hit: Entry<nat> -> bool)
    requires Inv(s)
    ensures Inv(MarkAll(s, hit))
  {
    hide Inv, Marks;
    MarkMarks(s, hit);
    MarkSame(s.list, hit);
    SameInv(s, MarkAll(s, hit));
  }

  lemma MarkMarks(s: State, hit: Entry<nat> -> bool)
    requires Inv(s)
    ensures Marks(MarkAll(s, hit))
  {
    hide Pointers, Order, Covered;
    var t := MarkAll(s, hit);
    MarkSame(s.list, hit);
    forall i | 0 <= i < |t.list| ensures t.list[i].marked <==> t.list[i].id in t.trace.marked {
      if t.list[i].id in Hits(s.list, hit) {
        var j :| 0 <= j < |s.list| && hit(s.list[j]) && s.list[j].id == t.list[i].id;
        assert j == i;
      }
    }
    forall id: nat | 0 <= id < t.pushed ensures Has(t.list, id) || id in t.trace.marked {
      SameIndex(s.list, t.list, id);
    }
  }

  // ----- appending

  ghost predicate Appended(s: State, t: State) {
    && |t.list| == |s.list| + 1 && t.list[..|s.list|] == s.list && t.list[|s.list|].id == s.pushed
    && !t.list[|s.list|].marked && t.pushed == s.pushed + 1 && t.sweep == s.sweep && t.trace == s.trace
  }

  lemma AppendInv(s: State, t: State)
    requires Inv(s) && Appended(s, t) && |t.list| <= MAX_LEN
    ensures Inv(t)
  {
    assert t.list == s.list + [t.list[|s.list|]];
    AppendMarks(s, t);
    AppendPointers(s, t);
    hide Marks, Pointers;
    assert Covered(t) by {
      if !t.sweep.Idle? {
        forall i | 0 <= i < |t.list| ensures CoveredAt(t, t.list[i].id) {
          if i < |s.list| { assert CoveredAt(s, s.list[i].id); }
        }
      }
    }
  }

  lemma AppendMarks(s: State, t: State)
    requires Inv(s) && Appended(s, t)
    ensures Marks(t)
  {
    hide Pointers, Order, Covered;
    var e := t.list[|s.list|];
    assert t.list == s.list + [e];
    forall id: nat | 0 <= id < t.pushed ensures Has(t.list, id) || id in t.trace.marked {
      AppendIndex(s.list, e, id);
    }
    assert s.pushed !in s.trace.marked;
  }

  lemma AppendPointers(s: State, t: State)
    requires Inv(s) && Appended(s, t)
    ensures Pointers(t)
  {
    hide Marks, Order, Covered, Index, Has, Pred, Increasing;
    var e := t.list[|s.list|];
    assert t.list == s.list + [e];
    forall id: nat | Has(s.list, id) ensures Has(t.list, id) && Pred(t.list, id) == Pred(s.list, id) {
      AppendIndex(s.list, e, id);
    }
  }

  // ----- the sweep

  lemma StartInv(s: State)
    requires Inv(s) && s.sweep.Idle?
    ensures Inv(Start(s))
  {
    if s.list != [] { HasAt(s.list, |s.list| - 1); }
    hide Index, Has, Pred;
  }

  lemma ResumeInv(s: State, timeout: nat)
    requires Inv(s) && s.sweep.Resending?
    ensures Inv(Resume(s, timeout))
  {
    hide Inv, Marks, Rearm, Index;
    CurLinked(s);
    var u := s.(list := Rearm(s.list, s.sweep.cur, s.now + 2 * timeout));
    RearmSame(s.list, s.sweep.cur, s.now + 2 * timeout);
    RearmMarks(s, timeout);
    SameInv(s, u);
    RelockInv(u);
  }

  lemma CurLinked(s: State)
    requires Inv(s) && s.sweep.Resending?
    ensures Has(s.list, s.sweep.cur)
  {
  }

  lemma RelockInv(u: State)
    requires Inv(u) && u.sweep.Resending?
    ensures Inv(u.(sweep := Looking(u.sweep.next, Null, u.sweep.flag)))
  {
    hide Index, Has, Pred;
    var t := u.(sweep := Looking(u.sweep.next, Null, u.sweep.flag));
    forall i | 0 <= i < |t.list| ensures CoveredAt(t, t.list[i].id) { assert CoveredAt(u, u.list[i].id); }
  }

  lemma RearmMarks(s: State, timeout: nat)
    requires Inv(s) && s.sweep.Resending?
    ensures Has(s.list, s.sweep.cur)
    ensures Marks(s.(list := Rearm(s.list, s.sweep.cur, s.now + 2 * timeout)))
  {
    hide Order, Covered;
    var l := Rearm(s.list, s.sweep.cur, s.now + 2 * timeout);
    RearmSame(s.list, s.sweep.cur, s.now + 2 * timeout);
    forall id: nat | 0 <= id < s.pushed ensures Has(l, id) || id in s.trace.marked {
      SameIndex(s.list, l, id);
    }
  }

  // ----- one turn of the loop

  function Dropped(s: State): State
    requires s.sweep.Looking?
  {
    Drop(s).(sweep := Looking(s.sweep.next, Null, s.sweep.flag))
  }

  lemma DropInv(s: State)
    requires Inv(s) && s.sweep.Looking?
    ensures Inv(Dropped(s))
    ensures s.sweep.next != Null ==> Pred(Dropped(s).list, s.sweep.next.id) == Pred(s.list, s.sweep.next.id)
    ensures s.sweep.temp != Null ==> !Has(Dropped(s).list, s.sweep.temp.id)
  {
    if s.sweep.temp != Null {
      DropRemoves(s);
    } else {
      hide Index, Has, Pred;
      assert Dropped(s) == s;
    }
  }

  lemma DropRemoves(s: State)
    requires Inv(s) && s.sweep.Looking? && s.sweep.temp != Null
    ensures Inv(Dropped(s))
    ensures s.sweep.next != Null ==> Pred(Dropped(s).list, s.sweep.next.id) == Pred(s.list, s.sweep.next.id)
    ensures !Has(Dropped(s).list, s.sweep.temp.id)
  {
    DropMarks(s);
    DropCovered(s);
    DropShape(s);
    hide Shape, Marks, Covered, Pointers, Drop;
    assert Order(Dropped(s));
  }

  lemma DropShape(s: State)
    requires Inv(s) && s.sweep.Looking? && s.sweep.temp != Null
    ensures Shape(Dropped(s)) && Pointers(Dropped(s)) && Dropped(s).trace == s.trace
    ensures s.sweep.next != Null ==> Pred(Dropped(s).list, s.sweep.next.id) == Pred(s.list, s.sweep.next.id)
    ensures !Has(Dropped(s).list, s.sweep.temp.id)
  {
    hide Marks, Covered, Order, FlagLog;
    var t, x := Dropped(s), s.sweep.temp.id;
    assert t.list == Remove(s.list, x);
    RemoveAt(s.list, x, x);
    RemoveElements(s.list, x);
    PredBelow(s.list, x);
    hide Index, Pred, Has, Remove, Dropped, Increasing;
    if s.sweep.next != Null { RemoveAt(s.list, x, s.sweep.next.id); }
    assert Pointers(t);
  }

  lemma DropMarks(s: State)
    requires Inv(s) && s.sweep.Looking? && s.sweep.temp != Null
    ensures Marks(Dropped(s))
  {
    hide Order, Covered, Index, Pred;
    var t, x := Dropped(s), s.sweep.temp.id;
    assert t.list == Remove(s.list, x);
    hide Remove, Dropped, Has;
    RemoveElements(s.list, x);
    forall id: nat | 0 <= id < t.pushed ensures Has(t.list, id) || id in t.trace.marked {
      RemoveAt(s.list, x, id);
    }
  }

  lemma DropCovered(s: State)
    requires Inv(s) && s.sweep.Looking? && s.sweep.temp != Null
    ensures Covered(Dropped(s))
  {
    hide Order, Marks;
    var t, x := Dropped(s), s.sweep.temp.id;
    var k := Index(s.list, x);
    assert forall i :: 0 <= i < |t.list| ==> t.list[i] == s.list[if i < k then i else i + 1];
    forall i | 0 <= i < |t.list| ensures CoveredAt(t, t.list[i].id) {
      assert CoveredAt(s, s.list[if i < k then i else i + 1].id);
    }
  }

  /** Looking at the node ahead, from a state with nothing left to drop. */
  lemma LookInv(t: State, u: State)
    requires Inv(t) && t.sweep.Looking? && t.sweep.temp == Null && t.sweep.next != Null
    requires u.list == t.list && u.pushed == t.pushed && !u.sweep.Idle? && u.sweep.next == Pred(t.list, t.sweep.next.id)
    requires u.trace == t.trace.(visits := t.trace.visits + [t.sweep.next.id], resent := u.trace.resent, outcomes := u.trace.outcomes)
    requires FlagLog(u)
    requires u.sweep.Looking? ==> u.sweep.temp == (if Get(t.list, t.sweep.next.id).marked then t.sweep.next else Null)
    requires u.sweep.Resending? ==> u.sweep.cur == t.sweep.next.id && !Get(t.list, t.sweep.next.id).marked
    ensures Inv(u)
  {
    hide Index, Has, Pred, Get;
    var n := t.sweep.next.id;
    assert Has(t.list, n);
    PredBelow(t.list, n);
    MarkedSays(t, n);
    assert Covered(u) by {
      forall i | 0 <= i < |u.list| ensures CoveredAt(u, u.list[i].id) {
        assert CoveredAt(t, t.list[i].id);
      }
    }
    assert Order(u);
    hide Covered, Order;
    assert Marks(u) && Shape(u);
  }

  lemma TurnLooks(s: State, connected: bool, memOk: bool)
    requires Inv(s) && s.sweep.Looking? && !Turn(s, connected, memOk).sweep.Idle?
    requires s.sweep.next != Null && Has(Dropped(s).list, s.sweep.next.id)
    ensures var t, u := Dropped(s), Turn(s, connected, memOk);
      && u.list == t.list && u.pushed == t.pushed && u.sweep.next == Pred(s.list, s.sweep.next.id)
      && u.trace == t.trace.(visits := t.trace.visits + [s.sweep.next.id], resent := u.trace.resent, outcomes := u.trace.outcomes)
      && FlagLog(u)
      && u.trace.resent == (if u.sweep.Resending? then t.trace.resent + [u.sweep.cur] else t.trace.resent)
      && (u.sweep.Looking? ==> u.sweep.temp == if Get(t.list, s.sweep.next.id).marked then s.sweep.next else Null)
      && (u.sweep.Resending? ==> u.sweep.cur == s.sweep.next.id && !Get(t.list, s.sweep.next.id).marked)
  {
    var e := Get(Dropped(s).list, s.sweep.next.id);
    assert e.id == s.sweep.next.id;
    LogStep(s, Judge(e, s.sweep.flag, s.now, memOk));
    hide Inv, Index, Pred, Remove, Judge, FlagLog;
  }

  lemma LogStep(s: State, o: Outcome)
    requires FlagLog(s) && !s.sweep.Idle? && (s.sweep.flag ==> !o.LetBe?)
    ensures OnceDue(s.trace.outcomes + [o])
    ensures (exists i :: 0 <= i < |s.trace.outcomes + [o]| && Due((s.trace.outcomes + [o])[i])) <==> s.sweep.flag || Due(o)
  {
    var os := s.trace.outcomes + [o];
    if s.sweep.flag {
      var i :| 0 <= i < |s.trace.outcomes| && Due(s.trace.outcomes[i]);
      assert Due(os[i]);
    }
    if Due(o) { assert Due(os[|os| - 1]); }
  }

  lemma TurnInv(s: State, connected: bool, memOk: bool)
    requires Inv(s) && s.sweep.Looking?
    ensures Inv(Turn(s, connected, memOk))
  {
    DropInv(s);
    var t := Dropped(s);
    var u := Turn(s, connected, memOk);
    if u.sweep.Idle? {
      IdleInv(t);
      hide Inv, Index, Has, Pred;
      assert u == t.(sweep := Idle);
    } else {
      assert s.sweep.next != Null && Has(t.list, s.sweep.next.id);
      hide Inv, Turn, Dropped, Index, Has, Pred, Get;
      TurnLooks(s, connected, memOk);
      LookInv(t, u);
    }
  }

  lemma IdleInv(t: State)
    requires Inv(t)
    ensures Inv(t.(sweep := Idle))
  {
    hide Index, Has, Pred;
  }

  // ----- every run

  lemma NextInv(s: State, e: Event, timeout: nat)
    requires Inv(s)
    ensures Inv(Next(s, e, timeout))
  {
    if Enabled(s, e) {
      match e
      case Tick(d) => TickInv(s, d);
      case Push(seqId, memOk) =>
        if |s.list| != MAX_LEN && memOk {
          assert |s.list| < MAX_LEN;
          AppendInv(s, Append(s, seqId, memOk, timeout));
        }
      case SendFailed(id) => MarkInv(s, (x: Entry<nat>) => x.id == id);
      case Ack(seqId) => MarkInv(s, (x: Entry<nat>) => x.key == seqId);
      case StartSweep => StartInv(s);
      case Visit(connected, memOk) => TurnInv(s, connected, memOk);
      case Resent => ResumeInv(s, timeout);
    }
  }

  lemma TickInv(s: State, d: nat)
    requires Inv(s)
    ensures Inv(s.(now := s.now + d))
  {
    var t := s.(now := s.now + d);
    assert Marks(t) by { hide Index, Has; assert t.list == s.list; }
    SameInv(s, t);
  }

  lemma {:induction false} RunInv(s: State, es: seq<Event>, timeout: nat)
    requires Inv(s)
    ensures Inv(Run(s, es, timeout))
    decreases |es|
  {
    hide Inv, Next;
    if es != [] {
      NextInv(s, es[0], timeout);
      RunInv(Next(s, es[0], timeout), es[1..], timeout);
    }
  }

  /** In every reachable state: at most twenty entries, in publish order, none
      gone that was not marked, and every node the sweep holds still linked. */
  lemma Safety(es: seq<Event>, timeout: nat)
    ensures var s := Run(Init(), es, timeout);
      && |s.list| <= 20 && Increasing(s.list)
      && (forall id :: 0 <= id < s.pushed && !Has(s.list, id) ==> id in s.trace.marked)
      && (!s.sweep.Idle? && s.sweep.next != Null ==> Has(s.list, s.sweep.next.id))
      && (s.sweep.Looking? && s.sweep.temp != Null ==> Has(s.list, s.sweep.temp.id))
      && (s.sweep.Resending? ==> Has(s.list, s.sweep.cur))
  {
    assert Inv(Init());
    RunInv(Init(), es, timeout);
    hide Run, Index, Has, Pred, Order, Covered;
  }

  ghost predicate Unlinks(s: State, e: Event, id: nat) {
    e.Visit? && s.sweep.Looking? && s.sweep.temp == To(id) && id in s.trace.marked
  }

  /** Only the sweep unlinks, and only a node it found marked. */
  lemma LeavesMarked(s: State, e: Event, timeout: nat, id: nat)
    requires Inv(s) && Has(s.list, id)
    ensures Has(Next(s, e, timeout).list, id) || Unlinks(s, e, id)
  {
    if Enabled(s, e) {
      hide Index, Pred, Has;
      match e
      case Tick(_) =>
      case StartSweep =>
      case Push(seqId, memOk) =>
        AppendIndex(s.list, Entry(s.pushed, seqId, s.now + 2 * timeout, false), id);
      case SendFailed(x) => MarkKeeps(s, (x: Entry<nat>) => x.id == e.id, id);
      case Ack(k) => MarkKeeps(s, (x: Entry<nat>) => x.key == e.seqId, id);
      case Resent => ResumeKeeps(s, timeout, id);
      case Visit(connected, memOk) => TurnKeeps(s, connected, memOk, id);
    }
  }

  lemma MarkKeeps(s: State, hit: Entry<nat> -> bool, id: nat)
    ensures Has(MarkAll(s, hit).list, id) <==> Has(s.list, id)
  {
    MarkSame(s.list, hit);
    SameIndex(s.list, Mark(s.list, hit), id);
  }

  lemma ResumeKeeps(s: State, timeout: nat, id: nat)
    requires Inv(s) && s.sweep.Resending?
    ensures Has(Resume(s, timeout).list, id) <==> Has(s.list, id)
  {
    hide Index, Pred, Marks, Order, Covered;
    RearmSame(s.list, s.sweep.cur, s.now + 2 * timeout);
    SameIndex(s.list, Rearm(s.list, s.sweep.cur, s.now + 2 * timeout), id);
  }

  lemma TurnKeeps(s: State, connected: bool, memOk: bool, id: nat)
    requires Inv(s) && s.sweep.Looking? && Has(s.list, id)
    ensures Has(Turn(s, connected, memOk).list, id) || (s.sweep.temp == To(id) && id in s.trace.marked)
  {
    hide Index, Pred, Marks, Order, Covered;
    if s.sweep.temp != Null { RemoveAt(s.list, s.sweep.temp.id, id); }
    assert Turn(s, connected, memOk).list == Drop(s).list;
    hide Turn;
  }

  lemma TurnResends(s: State, connected: bool, memOk: bool)
    requires Inv(s) && s.sweep.Looking?
    ensures var t := Turn(s, connected, memOk);
      && s.trace.marked == t.trace.marked
      && (t.trace.resent == s.trace.resent
          || (t.sweep.Resending? && t.sweep.cur !in s.trace.marked && t.trace.resent == s.trace.resent + [t.sweep.cur]))
  {
    DropInv(s);
    var d, t := Dropped(s), Turn(s, connected, memOk);
    assert d.trace == s.trace;
    if t.sweep.Idle? {
      assert t.trace == s.trace;
    } else {
      assert s.sweep.next != Null && Has(d.list, s.sweep.next.id);
      hide Inv, Turn, Dropped, Index, Pred, Get;
      MarkedSays(d, s.sweep.next.id);
      TurnLooks(s, connected, memOk);
    }
  }

  lemma MarkedSays(t: State, id: nat)
    requires Inv(t)
    ensures Has(t.list, id) ==> (Get(t.list, id).marked <==> id in t.trace.marked)
  {
    hide Pointers, Order, Covered;
  }

  /** A node is resent only when a visit finds it unmarked. */
  lemma ResendsUnmarked(s: State, e: Event, timeout: nat)
    requires Inv(s)
    ensures var t := Next(s, e, timeout);
      && s.trace.marked <= t.trace.marked
      && (t.trace.resent == s.trace.resent
          || (t.sweep.Resending? && t.sweep.cur !in s.trace.marked && t.trace.resent == s.trace.resent + [t.sweep.cur]))
  {
    hide Inv, Index, Has, Pred, Turn;
    if e.Visit? && s.sweep.Looking? {
      TurnResends(s, e.connected, e.memOk);
    }
  }

  /** So nothing marked, by its acknowledgement or by a failed send, is resent later. */
  lemma {:induction false} NeverAgain(s: State, es: seq<Event>, timeout: nat, id: nat)
    requires Inv(s) && id in s.trace.marked
    ensures s.trace.resent <= Run(s, es, timeout).trace.resent
    ensures id !in Run(s, es, timeout).trace.resent[|s.trace.resent|..]
    decreases |es|
  {
    hide Inv, Next;
    if es != [] {
      var t := Next(s, es[0], timeout);
      NextInv(s, es[0], timeout);
      ResendsUnmarked(s, es[0], timeout);
      NeverAgain(t, es[1..], timeout, id);
      var r := Run(s, es, timeout).trace.resent;
      assert r[|s.trace.resent|..] == t.trace.resent[|s.trace.resent|..] + r[|t.trace.resent|..];
    }
  }

  /** A sweep that reaches the head has visited, once and from the tail on, every
      entry it started with that is still linked, and has unlinked all of them
      that were marked when it started. */
  lemma SweepCompletes(s: State, connected: bool, memOk: bool)
    requires Inv(s) && s.sweep.Looking? && s.sweep.next == Null
    ensures var t := Turn(s, connected, memOk);
      && t.sweep.Idle? && Decreasing(t.trace.visits)
      && forall i :: 0 <= i < |t.list| && t.list[i].id < t.trace.limit ==>
           t.list[i].id in t.trace.visits && t.list[i].id !in t.trace.startMarks
  {
    DropInv(s);
    var d, t := Dropped(s), Turn(s, connected, memOk);
    hide Index, Has, Pred;
    assert t == d.(sweep := Idle);
    forall i | 0 <= i < |t.list| && t.list[i].id < t.trace.limit
      ensures t.list[i].id in t.trace.visits && t.list[i].id !in t.trace.startMarks
    {
      assert CoveredAt(d, d.list[i].id);
    }
  }

  /** Within one sweep, once an entry was due every older one visited after it is
      treated as due, whatever its own timer says. */
  lemma OlderAlsoDue(es: seq<Event>, timeout: nat)
    ensures var s := Run(Init(), es, timeout);
      && |s.trace.outcomes| == |s.trace.visits| && Decreasing(s.trace.visits)
      && OnceDue(s.trace.outcomes)
  {
    assert Inv(Init());
    RunInv(Init(), es, timeout);
    hide Run;
  }

  /** A newer entry this sweep has visited was due. */
  ghost predicate NewerDue(s: State, id: nat) {
    exists i :: 0 <= i < |s.trace.outcomes| == |s.trace.visits| && Due(s.trace.outcomes[i]) && s.trace.visits[i] > id
  }

  lemma FlagIsNewerDue(s: State)
    requires Inv(s) && s.sweep.Looking? && s.sweep.next != Null
    ensures s.sweep.flag <==> NewerDue(s, s.sweep.next.id)
  {
    hide Shape, Marks, Pointers, Covered;
    if s.sweep.flag {
      var i :| 0 <= i < |s.trace.outcomes| && Due(s.trace.outcomes[i]);
      assert s.trace.visits[i] > s.sweep.next.id;
    }
  }

  /** Exactly when a visit resends: the entry is unmarked, memory is there, and
      its own timer has expired or a newer entry of this sweep was due. */
  lemma ResendsDue(s: State, memOk: bool)
    requires Inv(s) && s.sweep.Looking? && s.sweep.next != Null
    ensures var n := s.sweep.next.id;
      && Has(Dropped(s).list, n)
      && var e := Get(Dropped(s).list, n);
      Turn(s, true, memOk).trace.resent ==
        if !e.marked && memOk && (e.deadline <= s.now || NewerDue(s, n)) then s.trace.resent + [n] else s.trace.resent
  {
    hide Inv, Index, Pred, Drop, Dropped, NewerDue;
    NodeAhead(s);
    FlagIsNewerDue(s);
  }

  lemma NodeAhead(s: State)
    requires Inv(s) && s.sweep.Looking? && s.sweep.next != Null
    ensures Has(Dropped(s).list, s.sweep.next.id) && Get(Dropped(s).list, s.sweep.next.id).id == s.sweep.next.id
    ensures Drop(s) == s.(list := Dropped(s).list)
  {
    DropInv(s);
    hide Index, Pred, Remove;
  }

  /** So an entry goes out before its own time exactly when a newer one was due. */
  lemma ResentBeforeTime(s: State, memOk: bool)
    requires Inv(s) && s.sweep.Looking? && s.sweep.next != Null
    ensures var n := s.sweep.next.id;
      && Has(Dropped(s).list, n)
      && var e := Get(Dropped(s).list, n);
      s.now < e.deadline ==>
        (Turn(s, true, memOk).trace.resent == s.trace.resent + [n] <==> !e.marked && memOk && NewerDue(s, n))
  {
    hide Inv, Turn, Dropped, Index, NewerDue;
    ResendsDue(s, memOk);
    assert |s.trace.resent + [s.sweep.next.id]| != |s.trace.resent|;
  }
}
