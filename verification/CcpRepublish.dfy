/** Publishes waiting for their acknowledgement: the publishing threads, the
    receiving thread and the retransmitting thread on one list. */
module CcpRepublish {
  import opened CcpQueue

  const MAX_LEN := 20

  /** Where the retransmitting thread stands. It owns the list's mutex while
      Looking and has released it while Idle or Resending. */
  datatype Sweep =
    | Idle
    | Looking(next: Ptr, temp: Ptr, flag: bool)
    | Resending(cur: nat, next: Ptr, flag: bool)

  /** What has happened: every entry ever marked, the ids resent, and of the
      current sweep the ids visited and what became of each visit, the entries
      it started with and those of them that were already marked. */
  datatype Trace = Trace(marked: set<nat>, resent: seq<nat>, visits: seq<nat>, outcomes: seq<Outcome>,
                         limit: nat, startMarks: set<nat>)

  /** A visited entry was found marked, let be, resent, or due without memory to resend it. */
  datatype Outcome = Marked | LetBe | Sent | Starved

  datatype State = State(list: seq<Entry<nat>>, now: nat, pushed: nat, sweep: Sweep, trace: Trace)

  datatype Event =
    | Tick(d: nat)
    | Push(seqId: nat, memOk: bool)
    | SendFailed(id: nat)
    | Ack(seqId: nat)
    | StartSweep
    | Visit(connected: bool, memOk: bool)
    | Resent

  function Init(): State { State([], 0, 0, Idle, Trace({}, [], [], [], 0, {})) }

  // ----- the steps

  predicate Enabled(s: State, e: Event) {
    match e
    case Tick(_) => true
    case Push(_, _) => !s.sweep.Looking?
    case SendFailed(_) => !s.sweep.Looking?
    case Ack(_) => !s.sweep.Looking?
    case StartSweep => s.sweep.Idle?
    case Visit(_, _) => s.sweep.Looking?
    case Resent => s.sweep.Resending?
  }

  function Hits(list: seq<Entry<nat>>, hit: Entry<nat> -> bool): set<nat> {
    set i | 0 <= i < |list| && hit(list[i]) :: list[i].id
  }

  function MarkAll(s: State, hit: Entry<nat> -> bool): State {
    s.(list := Mark(s.list, hit), trace := s.trace.(marked := s.trace.marked + Hits(s.list, hit)))
  }

  function Append(s: State, seqId: nat, memOk: bool, timeout: nat): State {
    if |s.list| == MAX_LEN || !memOk then s
    else s.(list := s.list + [Entry(s.pushed, seqId, s.now + 2 * timeout, false)], pushed := s.pushed + 1)
  }

  function Start(s: State): State {
    if s.list == [] then s
    else s.(sweep := Looking(Last(s.list), Null, false),
            trace := s.trace.(visits := [], outcomes := [], limit := s.pushed, startMarks := s.trace.marked))
  }

  /** The node just passed leaves the list. */
  function Drop(s: State): State
    requires s.sweep.Looking?
  {
    if s.sweep.temp == Null || !Has(s.list, s.sweep.temp.id) then s
    else s.(list := Remove(s.list, s.sweep.temp.id))
  }

  /** One turn of the loop: step on, drop the node behind, look at this one. */
  function Turn(s: State, connected: bool, memOk: bool): State
    requires s.sweep.Looking?
  {
    var t := Drop(s);
    var next, flag := s.sweep.next, s.sweep.flag;
    if next == Null || !connected || !Has(t.list, next.id) then t.(sweep := Idle)
    else
      var it := Pred(s.list, next.id);
      var e := Get(t.list, next.id);
      var o := Judge(e, flag, s.now, memOk);
      var u := t.(trace := t.trace.(visits := t.trace.visits + [e.id], outcomes := t.trace.outcomes + [o]));
      match o
      case Marked => u.(sweep := Looking(it, next, flag))
      case LetBe => u.(sweep := Looking(it, Null, flag))
      case Starved => u.(sweep := Looking(it, Null, true))
      case Sent => u.(sweep := Resending(e.id, it, true), trace := u.trace.(resent := u.trace.resent + [e.id]))
  }

  function Judge(e: Entry<nat>, flag: bool, now: nat, memOk: bool): Outcome {
    if e.marked then Marked
    else if !flag && now < e.deadline then LetBe
    else if !memOk then Starved
    else Sent
  }

  /** The mutex is taken again and the timer restarted. */
  function Resume(s: State, timeout: nat): State
    requires s.sweep.Resending?
  {
    var t := s.(sweep := Looking(s.sweep.next, Null, s.sweep.flag));
    if Has(s.list, s.sweep.cur) then t.(list := Rearm(s.list, s.sweep.cur, s.now + 2 * timeout)) else t
  }

  function Next(s: State, e: Event, timeout: nat): State {
    if !Enabled(s, e) then s else
    match e
    case Tick(d) => s.(now := s.now + d)
    case Push(seqId, memOk) => Append(s, seqId, memOk, timeout)
    case SendFailed(id) => MarkAll(s, (x: Entry<nat>) => x.id == id)
    case Ack(seqId) => MarkAll(s, (x: Entry<nat>) => x.key == seqId)
    case StartSweep => Start(s)
    case Visit(connected, memOk) => Turn(s, connected, memOk)
    case Resent => Resume(s, timeout)
  }

  function Run(s: State, es: seq<Event>, timeout: nat): State
    decreases |es|
  {
    if es == [] then s else Run(Next(s, es[0], timeout), es[1..], timeout)
  }

  // ----- the invariant

  ghost predicate Shape(s: State) {
    && |s.list| <= MAX_LEN
    && Increasing(s.list)
    && (forall i :: 0 <= i < |s.list| ==> s.list[i].id < s.pushed)
    && s.trace.limit <= s.pushed
  }

  /** Flags tell exactly what was marked, and what left was marked. */
  ghost predicate Marks(s: State) {
    && (forall i :: 0 <= i < |s.list| ==> (s.list[i].marked <==> s.list[i].id in s.trace.marked))
    && (forall id :: 0 <= id < s.pushed ==> Has(s.list, id) || id in s.trace.marked)
    && (forall id :: id in s.trace.marked ==> id < s.pushed)
    && s.trace.startMarks <= s.trace.marked
  }

  /** The nodes the sweep holds are linked, and the saved one precedes the current one. */
  ghost predicate Pointers(s: State) {
    match s.sweep
    case Idle => true
    case Looking(next, temp, _) =>
      && (next != Null ==> Has(s.list, next.id))
      && (temp != Null ==> Has(s.list, temp.id) && temp.id in s.trace.marked && next == Pred(s.list, temp.id))
    case Resending(cur, next, _) =>
      && Has(s.list, cur) && next == Pred(s.list, cur)
      && (next != Null ==> Has(s.list, next.id))
  }

  /** Visits go from the tail towards the head, none twice. */
  ghost predicate Order(s: State) {
    && Decreasing(s.trace.visits)
    && (forall i :: 0 <= i < |s.trace.visits| ==> s.trace.visits[i] < s.trace.limit)
    && (!s.sweep.Idle? && s.sweep.next != Null ==>
          && s.sweep.next.id < s.trace.limit
          && forall i :: 0 <= i < |s.trace.visits| ==> s.trace.visits[i] > s.sweep.next.id)
  }

  /** Of the entries the sweep started with, each one linked behind the saved
      node was visited, and if it was marked from the start is about to go. */
  ghost predicate Covered(s: State) {
    !s.sweep.Idle? ==> forall i :: 0 <= i < |s.list| ==> CoveredAt(s, s.list[i].id)
  }

  ghost predicate CoveredAt(s: State, id: nat)
    requires !s.sweep.Idle?
  {
    id < s.trace.limit && (s.sweep.next == Null || id > s.sweep.next.id) ==>
      && id in s.trace.visits
      && (id in s.trace.startMarks ==> s.sweep.Looking? && s.sweep.temp == To(id))
  }

  /** The flag is up exactly once an entry was due, and from then on none is let be. */
  ghost predicate FlagLog(s: State) {
    && |s.trace.outcomes| == |s.trace.visits|
    && OnceDue(s.trace.outcomes)
    && (!s.sweep.Idle? ==> (s.sweep.flag <==> exists i :: 0 <= i < |s.trace.outcomes| && Due(s.trace.outcomes[i])))
  }

  predicate Due(o: Outcome) { o.Sent? || o.Starved? }

  ghost predicate OnceDue(os: seq<Outcome>) {
    forall i, j :: 0 <= i < j < |os| && Due(os[i]) ==> !os[j].LetBe?
  }

  ghost predicate Decreasing(v: seq<nat>) {
    forall i, j :: 0 <= i < j < |v| ==> v[i] > v[j]
  }

  ghost predicate Inv(s: State) {
    Shape(s) && Marks(s) && Pointers(s) && Order(s) && Covered(s) && FlagLog(s)
  }
}
