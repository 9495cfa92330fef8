/** Requests waiting for their response: the sending threads, the receiving
    thread and the thread that reports timeouts on one list. */
module CcpUnack {
  import opened CcpQueue

  const MAX_LEN := 10

  datatype Kind = Rpc | Subscribe | Unsubscribe

  datatype Key = Key(kind: Kind, seqId: nat)

  type Item = Entry<Key>

  /** Where the reporting thread stands; it owns the mutex while Looking and has
      released it while Idle or inside the application's callback. */
  datatype Sweep =
    | Idle
    | Looking(next: Ptr, temp: Ptr, flag: bool)
    | Notifying(cur: nat, next: Ptr, flag: bool)

  /** Every entry ever marked, every entry ever reported, and of the current
      sweep the ids visited, those it could get no memory for, the entries it
      started with and when it started. */
  datatype Trace = Trace(marked: set<nat>, reported: seq<nat>, visits: seq<nat>, starved: set<nat>, limit: nat, since: nat)

  datatype State = State(list: seq<Item>, now: nat, pushed: nat, sweep: Sweep, trace: Trace)

  datatype Event =
    | Tick(d: nat)
    | Push(key: Key, memOk: bool)
    | SendFailed(id: nat)
    | Ack(key: Key)
    | StartSweep
    | Visit(memOk: bool)
    | Notified

  function Init(): State { State([], 0, 0, Idle, Trace({}, [], [], {}, 0, 0)) }

  // ----- the steps

  predicate Enabled(s: State, e: Event) {
    match e
    case Tick(_) => true
    case Push(_, _) => !s.sweep.Looking?
    case SendFailed(_) => !s.sweep.Looking?
    case Ack(_) => !s.sweep.Looking?
    case StartSweep => s.sweep.Idle?
    case Visit(_) => s.sweep.Looking?
    case Notified => s.sweep.Notifying?
  }

  function Hits(list: seq<Item>, hit: Item -> bool): set<nat> {
    set i | 0 <= i < |list| && hit(list[i]) :: list[i].id
  }

  function MarkAll(s: State, hit: Item -> bool): State {
    s.(list := Mark(s.list, hit), trace := s.trace.(marked := s.trace.marked + Hits(s.list, hit)))
  }

  function Append(s: State, key: Key, memOk: bool, timeout: nat): State {
    if |s.list| == MAX_LEN || !memOk then s
    else s.(list := s.list + [Entry(s.pushed, key, s.now + 2 * timeout, false)], pushed := s.pushed + 1)
  }

  function Start(s: State): State {
    if s.list == [] then s
    else s.(sweep := Looking(Last(s.list), Null, false),
            trace := s.trace.(visits := [], starved := {}, limit := s.pushed, since := s.now))
  }

  function Drop(s: State): State
    requires s.sweep.Looking?
  {
    if s.sweep.temp == Null || !Has(s.list, s.sweep.temp.id) then s
    else s.(list := Remove(s.list, s.sweep.temp.id))
  }

  /** One turn of the loop. With the shortcut, one expired entry makes every
      older one count as expired; without it each timer is asked. */
  function Turn(s: State, memOk: bool, shortcut: bool): State
    requires s.sweep.Looking?
  {
    var t := Drop(s);
    var next, flag := s.sweep.next, s.sweep.flag;
    if next == Null || !Has(t.list, next.id) then t.(sweep := Idle)
    else Look(t, Get(t.list, next.id), Pred(s.list, next.id), flag, memOk, shortcut)
  }

  function Look(t: State, e: Item, it: Ptr, flag: bool, memOk: bool, shortcut: bool): State {
    var u := t.(trace := t.trace.(visits := t.trace.visits + [e.id]));
    if e.marked then u.(sweep := Looking(it, To(e.id), flag))
    else if !flag && t.now < e.deadline then u.(sweep := Looking(it, Null, flag))
    else if !memOk then u.(sweep := Looking(it, Null, shortcut), trace := u.trace.(starved := u.trace.starved + {e.id}))
    else u.(sweep := Notifying(e.id, it, shortcut), trace := u.trace.(reported := u.trace.reported + [e.id]))
  }

  function Resume(s: State): State
    requires s.sweep.Notifying?
  {
    s.(sweep := Looking(s.sweep.next, To(s.sweep.cur), s.sweep.flag))
  }

  function Next(s: State, e: Event, timeout: nat, shortcut: bool): State {
    if !Enabled(s, e) then s else
    match e
    case Tick(d) => s.(now := s.now + d)
    case Push(key, memOk) => Append(s, key, memOk, timeout)
    case SendFailed(id) => MarkAll(s, (x: Item) => x.id == id)
    case Ack(key) => MarkAll(s, (x: Item) => x.key == key)
    case StartSweep => Start(s)
    case Visit(memOk) => Turn(s, memOk, shortcut)
    case Notified => Resume(s)
  }

  function Run(s: State, es: seq<Event>, timeout: nat, shortcut: bool): State
    decreases |es|
  {
    if es == [] then s else Run(Next(s, es[0], timeout, shortcut), es[1..], timeout, shortcut)
  }

  // ----- the invariant

  ghost predicate Shape(s: State) {
    && |s.list| <= MAX_LEN
    && Increasing(s.list)
    && (forall i :: 0 <= i < |s.list| ==> s.list[i].id < s.pushed)
    && s.trace.limit <= s.pushed
  }

  /** What left was marked or reported. */
  ghost predicate Accounted(s: State) {
    forall id :: 0 <= id < s.pushed ==> Has(s.list, id) || id in s.trace.marked || id in s.trace.reported
  }

  ghost predicate Flags(s: State) {
    forall i :: 0 <= i < |s.list| ==> (s.list[i].marked ==> s.list[i].id in s.trace.marked)
  }

  ghost predicate Pointers(s: State) {
    match s.sweep
    case Idle => true
    case Looking(next, temp, _) =>
      && (next != Null ==> Has(s.list, next.id))
      && (temp != Null ==> Has(s.list, temp.id) && next == Pred(s.list, temp.id)
                           && (temp.id in s.trace.marked || temp.id in s.trace.reported))
    case Notifying(cur, next, _) =>
      && Has(s.list, cur) && next == Pred(s.list, cur) && cur in s.trace.reported
      && (next != Null ==> Has(s.list, next.id))
  }

  /** Deadlines never decrease from head to tail, and none lies further ahead
      than a new one would. */
  ghost predicate Timers(s: State, timeout: nat) {
    && (forall i, j :: 0 <= i < j < |s.list| ==> s.list[i].deadline <= s.list[j].deadline)
    && (forall i :: 0 <= i < |s.list| ==> s.list[i].deadline <= s.now + 2 * timeout)
  }

  /** Once the flag is up, everything still ahead has expired. */
  ghost predicate FlagMeans(s: State) {
    !s.sweep.Idle? && s.sweep.flag && s.sweep.next != Null ==>
      forall i :: 0 <= i < |s.list| && s.list[i].id <= s.sweep.next.id ==> s.list[i].deadline <= s.now
  }

  /** Every entry behind the sweep was visited, and if it had expired when the
      sweep started it is on its way out or was out of memory's reach. */
  ghost predicate Covered(s: State) {
    && s.trace.since <= s.now
    && (!s.sweep.Idle? ==> forall i :: 0 <= i < |s.list| ==> CoveredAt(s, s.list[i]))
  }

  ghost predicate CoveredAt(s: State, e: Item)
    requires !s.sweep.Idle?
  {
    e.id < s.trace.limit && (s.sweep.next == Null || e.id > s.sweep.next.id) ==>
      && e.id in s.trace.visits
      && (e.deadline <= s.trace.since ==>
            || e.id in s.trace.starved
            || (s.sweep.Looking? && s.sweep.temp == To(e.id))
            || (s.sweep.Notifying? && s.sweep.cur == e.id))
  }

  ghost predicate Inv(s: State, timeout: nat) {
    Shape(s) && Accounted(s) && Flags(s) && Pointers(s) && Timers(s, timeout) && FlagMeans(s) && Covered(s)
  }
}
