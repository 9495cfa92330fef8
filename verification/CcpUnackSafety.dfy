/** What holds of the unacknowledged requests under every interleaving. */
module CcpUnackSafety {
  import opened CcpQueue
  import opened CcpUnack

  // ----- steps that leave the nodes where they are

  ghost predicate SameView(s: State, t: State) {
    && SameIds(s.list, t.list) && t.sweep == s.sweep && t.pushed == s.pushed && s.now <= t.now
    && (forall i :: 0 <= i < |s.list| ==> t.list[i].deadline == s.list[i].deadline)
    && t.trace == s.trace.(marked := t.trace.marked) && s.trace.marked <= t.trace.marked
  }

  lemma SameIndices(s: State, t: State)
    requires SameIds(s.list, t.list)
    ensures forall id :: Index(t.list, id) == Index(s.list, id) && Pred(t.list, id) == Pred(s.list, id)
  {
    forall id: nat ensures Index(t.list, id) == Index(s.list, id) && Pred(t.list, id) == Pred(s.list, id) {
      SameIndex(s.list, t.list, id);
    }
  }

  lemma SameInv(s: State, t: State, timeout: nat)
    requires Inv(s, timeout) && SameView(s, t) && Flags(t)
    ensures Inv(t, timeout)
  {
    hide Index, Pred, Flags;
    SamePointers(s, t);
    hide Pointers, Accounted;
    assert Covered(t) by {
      if !t.sweep.Idle? {
        forall i | 0 <= i < |t.list| ensures CoveredAt(t, t.list[i]) { assert CoveredAt(s, s.list[i]); }
      }
    }
    hide Covered;
    assert Timers(t, timeout) && FlagMeans(t) && Shape(t);
  }

  lemma SamePointers(s: State, t: State)
    requires Pointers(s) && Accounted(s) && SameView(s, t)
    ensures Pointers(t) && Accounted(t)
  {
    SameIndices(s, t);
    hide Index;
  }

  lemma MarkInv(s: State, hit: Item -> bool, timeout: nat)
    requires Inv(s, timeout)
    ensures Inv(MarkAll(s, hit), timeout)
  {
    MarkFlags(s, hit);
    MarkSame(s.list, hit);
    var t := MarkAll(s, hit);
    assert forall i :: 0 <= i < |s.list| ==> t.list[i].deadline == s.list[i].deadline;
    hide Inv, Flags, MarkAll, Mark;
    SameInv(s, t, timeout);
  }

  lemma MarkFlags(s: State, hit: Item -> bool)
    requires Flags(s)
    ensures Flags(MarkAll(s, hit))
  {
    var t := MarkAll(s, hit);
    forall i | 0 <= i < |t.list| && t.list[i].marked ensures t.list[i].id in t.trace.marked {
      if hit(s.list[i]) { assert s.list[i].id in Hits(s.list, hit); }
    }
  }

  // ----- appending

  function Appended(s: State, e: Item): State {
    s.(list := s.list + [e], pushed := s.pushed + 1)
  }

  lemma AppendInv(s: State, e: Item, timeout: nat)
    requires Inv(s, timeout) && |s.list| < MAX_LEN
    requires e.id == s.pushed && !e.marked && e.deadline == s.now + 2 * timeout
    ensures Inv(Appended(s, e), timeout)
  {
    var t := Appended(s, e);
    AppendPointers(s, e);
    hide Pointers, Accounted, Index, Pred;
    assert Covered(t) by {
      if !t.sweep.Idle? {
        forall i | 0 <= i < |t.list| ensures CoveredAt(t, t.list[i]) {
          if i < |s.list| { assert CoveredAt(s, s.list[i]); }
        }
      }
    }
    hide Covered;
    assert Timers(t, timeout) && Shape(t) && Flags(t);
  }

  lemma AppendPointers(s: State, e: Item)
    requires Shape(s) && Pointers(s) && Accounted(s) && FlagMeans(s) && e.id == s.pushed
    ensures Pointers(Appended(s, e)) && Accounted(Appended(s, e)) && FlagMeans(Appended(s, e))
  {
    var t := Appended(s, e);
    forall id: nat
      ensures Has(t.list, id) <==> Has(s.list, id) || id == e.id
      ensures Has(s.list, id) ==> id < s.pushed && Pred(t.list, id) == Pred(s.list, id)
    {
      AppendIndex(s.list, e, id);
    }
    hide Index, Has, Pred;
  }

  // ----- the sweep

  lemma StartInv(s: State, timeout: nat)
    requires Inv(s, timeout) && s.sweep.Idle?
    ensures Inv(Start(s), timeout)
  {
    if s.list != [] { HasAt(s.list, |s.list| - 1); }
    hide Index, Has, Pred;
  }

  lemma ResumeInv(s: State, timeout: nat)
    requires Inv(s, timeout) && s.sweep.Notifying?
    ensures Inv(Resume(s), timeout)
  {
    hide Index, Has, Pred;
    var t := Resume(s);
    forall i | 0 <= i < |t.list| ensures CoveredAt(t, t.list[i]) { assert CoveredAt(s, s.list[i]); }
    hide CoveredAt;
  }

  function Dropped(s: State): State
    requires s.sweep.Looking?
  {
    Drop(s).(sweep := Looking(s.sweep.next, Null, s.sweep.flag))
  }

  lemma DropInv(s: State, timeout: nat)
    requires Inv(s, timeout) && s.sweep.Looking?
    ensures Inv(Dropped(s), timeout)
    ensures s.sweep.next != Null ==> Pred(Dropped(s).list, s.sweep.next.id) == Pred(s.list, s.sweep.next.id)
  {
    if s.sweep.temp == Null {
      hide Inv, Index, Has, Pred;
      assert Dropped(s) == s;
    } else {
      assert Dropped(s).list == Remove(s.list, s.sweep.temp.id);
      DropLinks(s);
      DropTimers(s, timeout);
      DropCovered(s);
      hide Shape, Pointers, Accounted, Flags, Timers, Covered, FlagMeans, Index, Has, Pred, Remove;
    }
  }

  lemma DropLinks(s: State)
    requires Shape(s) && Pointers(s) && Accounted(s) && s.sweep.Looking? && s.sweep.temp != Null
    ensures Shape(Dropped(s)) && Pointers(Dropped(s)) && Accounted(Dropped(s))
    ensures s.sweep.next != Null ==> Pred(Dropped(s).list, s.sweep.next.id) == Pred(s.list, s.sweep.next.id)
  {
    var t, x := Dropped(s), s.sweep.temp.id;
    assert t.list == Remove(s.list, x);
    PredBelow(s.list, x);
    RemoveElements(s.list, x);
    forall id: nat
      ensures Has(t.list, id) <==> Has(s.list, id) && id != x
      ensures id < x && Has(s.list, id) ==> Pred(t.list, id) == Pred(s.list, id)
    {
      RemoveAt(s.list, x, id);
    }
    RemoveMap(s.list, x);
    hide Index, Has, Pred, Remove, Dropped, Increasing;
    assert Accounted(t);
  }

  lemma DropTimers(s: State, timeout: nat)
    requires Pointers(s) && Flags(s) && Timers(s, timeout) && FlagMeans(s) && s.sweep.Looking? && s.sweep.temp != Null
    ensures Flags(Dropped(s)) && Timers(Dropped(s), timeout) && FlagMeans(Dropped(s))
  {
    hide Index, Pred;
    var t, x := Dropped(s), s.sweep.temp.id;
    RemoveMap(s.list, x);
    assert t.list == Remove(s.list, x);
    hide Remove;
  }

  lemma DropCovered(s: State)
    requires Pointers(s) && Covered(s) && s.sweep.Looking? && s.sweep.temp != Null && Shape(s)
    ensures Covered(Dropped(s))
  {
    hide Index, Pred;
    var t, x := Dropped(s), s.sweep.temp.id;
    var k := Index(s.list, x);
    RemoveMap(s.list, x);
    assert t.list == Remove(s.list, x);
    hide Remove;
    forall i | 0 <= i < |t.list| ensures CoveredAt(t, t.list[i]) {
      assert CoveredAt(s, s.list[if i < k then i else i + 1]);
    }
  }

  // ----- looking at a node

  ghost predicate AtNode(t: State, timeout: nat) {
    Inv(t, timeout) && t.sweep.Looking? && t.sweep.temp == Null && t.sweep.next != Null
  }

  function Looked(t: State, memOk: bool, shortcut: bool): State
    requires t.sweep.Looking? && t.sweep.next != Null && Has(t.list, t.sweep.next.id)
  {
    Look(t, Get(t.list, t.sweep.next.id), Pred(t.list, t.sweep.next.id), t.sweep.flag, memOk, shortcut)
  }

  /** What is known of the node the sweep looks at. */
  lemma NodeFacts(t: State, timeout: nat)
    requires AtNode(t, timeout)
    ensures var n := t.sweep.next.id;
      && Has(t.list, n)
      && var e := Get(t.list, n);
      && e.id == n && e in t.list
      && (e.marked ==> n in t.trace.marked)
      && (t.sweep.flag ==> e.deadline <= t.now)
      && (forall i :: 0 <= i < |t.list| && t.list[i].id <= n ==> t.list[i].deadline <= e.deadline)
      && (forall i :: 0 <= i < |t.list| && t.list[i].id == n ==> t.list[i] == e)
  {
    hide Accounted, Covered;
  }

  lemma LookInv(t: State, timeout: nat, memOk: bool, shortcut: bool)
    requires AtNode(t, timeout)
    ensures Has(t.list, t.sweep.next.id) && Inv(Looked(t, memOk, shortcut), timeout)
  {
    NodeFacts(t, timeout);
    var n := t.sweep.next.id;
    var e, it := Get(t.list, n), Pred(t.list, n);
    PredBelow(t.list, n);
    hide Index, Has, Pred, Get;
    var u := Looked(t, memOk, shortcut);
    assert Covered(u) by { LookCovered(t, e, it, memOk, shortcut); }
    hide Covered;
    assert Accounted(u) && Pointers(u);
    hide Accounted, Pointers;
    assert FlagMeans(u);
  }

  lemma LookCovered(t: State, e: Item, it: Ptr, memOk: bool, shortcut: bool)
    requires Covered(t) && t.sweep.Looking? && t.sweep.temp == Null && t.sweep.next == To(e.id)
    requires forall i :: 0 <= i < |t.list| && (it == Null || t.list[i].id > it.id) ==> t.list[i].id >= e.id
    requires forall i :: 0 <= i < |t.list| && t.list[i].id == e.id ==> t.list[i] == e
    ensures Covered(Look(t, e, it, t.sweep.flag, memOk, shortcut))
  {
    var u := Look(t, e, it, t.sweep.flag, memOk, shortcut);
    forall i | 0 <= i < |u.list| ensures CoveredAt(u, u.list[i]) { assert CoveredAt(t, t.list[i]); }
  }

  lemma TurnSplit(s: State, timeout: nat, memOk: bool, shortcut: bool)
    requires Inv(s, timeout) && s.sweep.Looking?
    ensures s.sweep.next == Null ==> Turn(s, memOk, shortcut) == Dropped(s).(sweep := Idle)
    ensures s.sweep.next != Null ==> Has(Dropped(s).list, s.sweep.next.id)
    ensures s.sweep.next != Null ==> Turn(s, memOk, shortcut) == Looked(Dropped(s), memOk, shortcut)
  {
    DropInv(s, timeout);
    var t := Dropped(s);
    if s.sweep.next != Null { NodeFacts(t, timeout); }
    hide Inv, Index, Has, Pred, Remove, Get;
    assert forall u: State, v: State, e: Item, it: Ptr :: u == v.(sweep := u.sweep) ==>
      Look(u, e, it, s.sweep.flag, memOk, shortcut) == Look(v, e, it, s.sweep.flag, memOk, shortcut);
  }

  lemma TurnInv(s: State, timeout: nat, memOk: bool, shortcut: bool)
    requires Inv(s, timeout) && s.sweep.Looking?
    ensures Inv(Turn(s, memOk, shortcut), timeout)
  {
    hide Turn, Looked, Index, Has, Pred;
    DropInv(s, timeout);
    TurnSplit(s, timeout, memOk, shortcut);
    if s.sweep.next != Null {
      LookInv(Dropped(s), timeout, memOk, shortcut);
    } else {
      IdleInv(Dropped(s), timeout);
    }
  }

  lemma IdleInv(t: State, timeout: nat)
    requires Inv(t, timeout)
    ensures Inv(t.(sweep := Idle), timeout)
  {
    hide Index, Has, Pred;
  }

  // ----- every run

  lemma NextInv(s: State, e: Event, timeout: nat, shortcut: bool)
    requires Inv(s, timeout)
    ensures Inv(Next(s, e, timeout, shortcut), timeout)
  {
    hide Inv, MarkAll, Start, Turn, Resume;
    LengthInv(s, timeout);
    if Enabled(s, e) {
      match e
      case Tick(d) => TickInv(s, d, timeout);
      case Push(key, memOk) =>
        if |s.list| != MAX_LEN && memOk {
          AppendInv(s, Entry(s.pushed, key, s.now + 2 * timeout, false), timeout);
        }
      case SendFailed(id) => MarkInv(s, (x: Item) => x.id == id, timeout);
      case Ack(key) => MarkInv(s, (x: Item) => x.key == key, timeout);
      case StartSweep => StartInv(s, timeout);
      case Visit(memOk) => TurnInv(s, timeout, memOk, shortcut);
      case Notified => ResumeInv(s, timeout);
    }
  }

  lemma LengthInv(s: State, timeout: nat)
    requires Inv(s, timeout)
    ensures |s.list| <= MAX_LEN
  {
  }

  lemma TickInv(s: State, d: nat, timeout: nat)
    requires Inv(s, timeout)
    ensures Inv(s.(now := s.now + d), timeout)
  {
    var t := s.(now := s.now + d);
    assert Flags(t);
    SameInv(s, t, timeout);
  }

  lemma {:induction false} RunInv(s: State, es: seq<Event>, timeout: nat, shortcut: bool)
    requires Inv(s, timeout)
    ensures Inv(Run(s, es, timeout, shortcut), timeout)
    decreases |es|
  {
    hide Inv, Next;
    if es != [] {
      NextInv(s, es[0], timeout, shortcut);
      RunInv(Next(s, es[0], timeout, shortcut), es[1..], timeout, shortcut);
    }
  }

  /** In every reachable state: at most ten entries in the order they were sent,
      deadlines in order, nothing gone that was neither marked nor reported, and
      every node the sweep holds still linked. */
  lemma Safety(es: seq<Event>, timeout: nat)
    ensures var s := Run(Init(), es, timeout, true);
      && |s.list| <= 10 && Increasing(s.list)
      && (forall i, j :: 0 <= i < j < |s.list| ==> s.list[i].deadline <= s.list[j].deadline)
      && (forall id :: 0 <= id < s.pushed && !Has(s.list, id) ==> id in s.trace.marked || id in s.trace.reported)
      && (!s.sweep.Idle? && s.sweep.next != Null ==> Has(s.list, s.sweep.next.id))
      && (s.sweep.Looking? && s.sweep.temp != Null ==> Has(s.list, s.sweep.temp.id))
      && (s.sweep.Notifying? ==> Has(s.list, s.sweep.cur))
  {
    assert Inv(Init(), timeout);
    RunInv(Init(), es, timeout, true);
    hide Run, Index, Has, Pred, Covered, FlagMeans;
  }

  // ----- the shortcut

  /** The state without the flag. */
  function Erase(s: State): State {
    match s.sweep
    case Idle => s
    case Looking(next, temp, _) => s.(sweep := Looking(next, temp, false))
    case Notifying(cur, next, _) => s.(sweep := Notifying(cur, next, false))
  }

  lemma TurnExact(s: State, timeout: nat, memOk: bool)
    requires Inv(s, timeout) && s.sweep.Looking?
    ensures Erase(Turn(s, memOk, true)) == Turn(Erase(s), memOk, false)
  {
    hide Inv, Index, Has, Pred, Remove, Get, Drop, Dropped;
    if s.sweep.next != Null { NodeAhead(s, timeout); }
    EraseDrop(s);
  }

  lemma NodeAhead(s: State, timeout: nat)
    requires Inv(s, timeout) && s.sweep.Looking? && s.sweep.next != Null
    ensures Has(Drop(s).list, s.sweep.next.id) && Drop(s).now == s.now
    ensures s.sweep.flag ==> Get(Drop(s).list, s.sweep.next.id).deadline <= s.now
  {
    DropInv(s, timeout);
    NodeFacts(Dropped(s), timeout);
    hide Inv, Index, Has, Pred, Remove, Get;
    assert Dropped(s).list == Drop(s).list;
  }

  lemma EraseDrop(s: State)
    requires s.sweep.Looking?
    ensures Drop(Erase(s)) == Erase(Drop(s)) && Drop(s).sweep == s.sweep
  {
  }

  lemma NextExact(s: State, e: Event, timeout: nat)
    requires Inv(s, timeout)
    ensures Erase(Next(s, e, timeout, true)) == Next(Erase(s), e, timeout, false)
  {
    if Enabled(s, e) && e.Visit? { TurnExact(s, timeout, e.memOk); }
    hide Turn, Inv, Index, Has, Pred, Mark, Hits;
  }

  /** In every run the flagged sweep does exactly what asking every timer would do. */
  lemma {:induction false} ShortcutExact(s: State, es: seq<Event>, timeout: nat)
    requires Inv(s, timeout)
    ensures Erase(Run(s, es, timeout, true)) == Run(Erase(s), es, timeout, false)
    decreases |es|
  {
    hide Inv, Next, Erase;
    if es != [] {
      NextInv(s, es[0], timeout, true);
      NextExact(s, es[0], timeout);
      ShortcutExact(Next(s, es[0], timeout, true), es[1..], timeout);
    }
  }

  /** A visit reports an entry exactly when it is unmarked, its own timer has
      expired and there is memory to do so. */
  lemma ReportsExpired(s: State, timeout: nat, memOk: bool)
    requires Inv(s, timeout) && s.sweep.Looking? && s.sweep.next != Null
    ensures var n := s.sweep.next.id;
      && Has(Dropped(s).list, n)
      && var e := Get(Dropped(s).list, n);
      Turn(s, memOk, true).trace.reported ==
        if !e.marked && e.deadline <= s.now && memOk then s.trace.reported + [n] else s.trace.reported
  {
    TurnSplit(s, timeout, memOk, true);
    DropInv(s, timeout);
    NodeFacts(Dropped(s), timeout);
    assert Dropped(s).now == s.now && Dropped(s).trace == s.trace;
    hide Turn, Inv, Index, Has, Pred, Get, Dropped;
  }

  /** A sweep that reaches the head leaves, of the entries it started with, none
      that had expired when it started, unless memory ran out at its visit. */
  lemma SweepCompletes(s: State, timeout: nat, memOk: bool)
    requires Inv(s, timeout) && s.sweep.Looking? && s.sweep.next == Null
    ensures var t := Turn(s, memOk, true);
      && t.sweep.Idle?
      && forall i :: 0 <= i < |t.list| && t.list[i].id < t.trace.limit ==>
           t.list[i].id in t.trace.visits
           && (t.list[i].deadline <= t.trace.since ==> t.list[i].id in t.trace.starved)
  {
    TurnSplit(s, timeout, memOk, true);
    DropInv(s, timeout);
    var d, t := Dropped(s), Turn(s, memOk, true);
    hide Turn, Dropped, Index, Has, Pred;
    forall i | 0 <= i < |t.list| && t.list[i].id < t.trace.limit
      ensures t.list[i].id in t.trace.visits && (t.list[i].deadline <= t.trace.since ==> t.list[i].id in t.trace.starved)
    {
      assert CoveredAt(d, d.list[i]);
    }
  }
}
