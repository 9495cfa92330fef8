/** The operations of the CCP client on its two queues: linked lists of entries,
    swept through an iterator that outlives the release of the mutex. Each method
    is one stretch of code between taking a list's mutex and giving it back, and
    is proved to take the step of the state machine. */
module CcpClient {
  import opened LinkedList
  import opened CcpQueue
  import opened CcpNodes
  import R = CcpRepublish
  import RS = CcpRepublishSafety
  import U = CcpUnack
  import US = CcpUnackSafety

  /** Between sweeps, in a sweep, or in one with the mutex given back. */
  datatype Mode = Resting | Walking | Away

  class RepublishList {
    const list: List<Entry<nat>>
    var iter: Iterator<Entry<nat>>
    var mode: Mode
    var temp: Node?<Entry<nat>>
    var cur: Node?<Entry<nat>>
    var flag: bool
    var now: nat
    var pushed: nat
    ghost var trace: R.Trace

    ghost predicate Linked()
      reads this, list, list.nodes, iter
    {
      && Held(list, iter, temp)
      && (mode != Walking ==> temp == null)
      && (mode == Away ==> cur != null && cur in list.nodes)
    }

    /** Where the sweep stands, in terms of the nodes it holds. */
    ghost function Sweep(): R.Sweep
      requires Linked()
      reads this, list, list.nodes, iter
    {
      match mode
      case Resting => R.Idle
      case Walking => R.Looking(PtrTo(iter.next), PtrTo(temp), flag)
      case Away => R.Resending(cur.val.id, PtrTo(iter.next), flag)
    }

    ghost function State(): R.State
      requires Linked()
      reads this, list, list.nodes, iter
    {
      R.State(Values(list.nodes), now, pushed, Sweep(), trace)
    }

    ghost predicate Valid()
      reads this, list, list.nodes, iter
    {
      Linked() && R.Inv(State())
    }

    constructor ()
      ensures Valid() && State() == R.Init() && fresh(list) && fresh(iter)
    {
      var l := new List<Entry<nat>>();
      var it := new Iterator(l, false);
      list, iter := l, it;
      mode, temp, cur, flag, now, pushed := Resting, null, null, false, 0, 0;
      trace := R.Trace({}, [], [], [], 0, {});
    }

    /** The clock moves on. */
    method Tick(d: nat, ghost timeout: nat)
      requires Valid()
      modifies this`now
      ensures Valid() && State() == R.Next(old(State()), R.Tick(d), timeout)
    {
      hide R.Inv, R.Next, LinkedList.Linked, Values;
      RS.NextInv(State(), R.Tick(d), timeout);
      RTick(State(), d, timeout);
      now := now + d;
    }

    method PushPubReq(seqId: nat, memOk: bool, timeout: nat) returns (full: bool, node: Node?<Entry<nat>>)
      requires Valid() && mode != Walking
      modifies this, list, list.nodes
      ensures Valid() && State() == R.Next(old(State()), R.Push(seqId, memOk), timeout)
      ensures full <==> |old(list.nodes)| == 20
      ensures node != null <==> !full && memOk
      ensures list.nodes == if node == null then old(list.nodes) else old(list.nodes) + [node]
    {
      hide R.Inv, R.Next, LinkedList.Linked, Values;
      RS.NextInv(State(), R.Push(seqId, memOk), timeout);
      RPush(State(), seqId, memOk, timeout);
      full, node := list.len == R.MAX_LEN, null;
      if full || !memOk { return; }
      node := PushNode(list, Entry(pushed, seqId, now + 2 * timeout, false));
      pushed := pushed + 1;
    }

    method MarkWhere(hit: Entry<nat> -> bool, ghost e: R.Event, ghost timeout: nat)
      requires Valid() && mode != Walking && R.Next(State(), e, timeout) == R.MarkAll(State(), hit)
      modifies this`trace, list.nodes
      ensures Valid() && State() == R.Next(old(State()), e, timeout)
      ensures list.nodes == old(list.nodes)
    {
      hide R.Inv, R.Next, LinkedList.Linked, Values, Mark, R.Hits;
      ghost var s, nodes := State(), list.nodes;
      RS.NextInv(s, e, timeout);
      trace := trace.(marked := trace.marked + R.Hits(s.list, hit));
      MarkNodes(list, hit);
      MarkSame(s.list, hit);
      SameNodes(nodes);
    }

    /** An acknowledgement arrived. */
    method RemoveRepublishListNode(seqId: nat, ghost timeout: nat)
      requires Valid() && mode != Walking
      modifies this`trace, list.nodes
      ensures Valid() && State() == R.Next(old(State()), R.Ack(seqId), timeout)
      ensures list.nodes == old(list.nodes)
    {
      hide R.Inv, LinkedList.Linked, Values;
      MarkWhere((x: Entry<nat>) => x.key == seqId, R.Ack(seqId), timeout);
    }

    /** The send this node was pushed for failed.  Nobody asks whether the sweep
        has meanwhile freed it; then the write goes nowhere near the queue. */
    method MarkFailed(node: Node<Entry<nat>>, ghost timeout: nat)
      requires Valid() && mode != Walking
      modifies this`trace, node`val
      ensures Valid() && list.nodes == old(list.nodes)
      ensures State() ==
        if node in list.nodes then R.Next(old(State()), R.SendFailed(old(node.val.id)), timeout) else old(State())
    {
      hide R.Inv, R.Next, LinkedList.Linked, R.Hits, Values, Mark, Index;
      ghost var s, id := State(), node.val.id;
      RS.NextInv(s, R.SendFailed(id), timeout);
      RFail(s, id, timeout);
      ROrdered(s);
      if node in list.nodes { trace := R.Next(s, R.SendFailed(id), timeout).trace; }
      MarkCell(list, node);
    }

    method StartSweep(ghost timeout: nat)
      requires Valid() && mode == Resting
      modifies this
      ensures Valid() && State() == R.Next(old(State()), R.StartSweep, timeout)
      ensures list.nodes == old(list.nodes) && (iter == old(iter) || fresh(iter))
    {
      hide R.Inv, R.Next, LinkedList.Linked, Values;
      RS.NextInv(State(), R.StartSweep, timeout);
      RStart(State(), timeout);
      if list.len > 0 {
        iter := new Iterator(list, false);
        flag, mode := false, Walking;
        trace := trace.(visits := [], outcomes := [], limit := pushed, startMarks := trace.marked);
      }
    }

    /** One turn of the retransmitting thread's loop. */
    method Turn(connected: bool, memOk: bool, ghost timeout: nat)
      requires Valid() && mode == Walking
      modifies this, list, list.nodes, iter
      ensures Valid() && State() == R.Next(old(State()), R.Visit(connected, memOk), timeout)
      ensures iter == old(iter)
    {
      hide R.Inv, R.Next, Held, Values, Pred, Dropped, R.Judge;
      ghost var s := State();
      RS.NextInv(s, R.Visit(connected, memOk), timeout);
      RTurn(s, connected, memOk, timeout);
      var node := Pass();
      if node == null || !connected {
        mode := Resting;
      } else {
        Look(node, memOk);
      }
    }

    /** The iterator steps on and the node behind is unlinked. */
    method Pass() returns (node: Node?<Entry<nat>>)
      requires Valid() && mode == Walking
      modifies this`temp, list, list.nodes, iter
      ensures Linked() && temp == null
      ensures var s := old(State());
        && (node == null <==> s.sweep.next == Null)
        && State() == s.(list := Dropped(s.list, s.sweep.temp), sweep := R.Looking(PtrTo(iter.next), Null, s.sweep.flag))
      ensures node != null ==>
        var s := old(State());
        && node in list.nodes && To(node.val.id) == s.sweep.next
        && Has(State().list, node.val.id) && node.val == Get(State().list, node.val.id)
        && PtrTo(iter.next) == Pred(s.list, node.val.id)
    {
      hide R.Inv, LinkedList.Linked, Values, Index, Pred, Dropped;
      ghost var s := State();
      ROrdered(s);
      if temp != null { RBehind(s); }
      node := CcpNodes.Pass(list, iter, temp);
      temp := null;
    }

    /** What to do with the node the sweep is on, the iterator being past it. */
    method Look(node: Node<Entry<nat>>, memOk: bool)
      requires Linked() && mode == Walking && temp == null && node in list.nodes
      modifies this
      ensures Linked() && iter == old(iter)
      ensures var e, s, it := node.val, old(State()), old(PtrTo(iter.next));
        && var o := R.Judge(e, s.sweep.flag, s.now, memOk);
        && State() == s.(sweep := (match o
                                   case Marked => R.Looking(it, To(e.id), s.sweep.flag)
                                   case LetBe => R.Looking(it, Null, s.sweep.flag)
                                   case Starved => R.Looking(it, Null, true)
                                   case Sent => R.Resending(e.id, it, true)),
                         trace := s.trace.(visits := s.trace.visits + [e.id], outcomes := s.trace.outcomes + [o],
                                           resent := if o.Sent? then s.trace.resent + [e.id] else s.trace.resent))
    {
      hide LinkedList.Linked, Values;
      var e := node.val;
      trace := trace.(visits := trace.visits + [e.id], outcomes := trace.outcomes + [R.Judge(e, flag, now, memOk)]);
      if e.marked {
        temp := node;
      } else if flag || e.deadline <= now {
        flag := true;
        if memOk {
          trace := trace.(resent := trace.resent + [e.id]);
          mode, cur := Away, node;
        }
      }
    }

    /** The mutex is taken again and the node's timer restarted. */
    method Resume(timeout: nat)
      requires Valid() && mode == Away
      modifies this, list.nodes
      ensures Valid() && State() == R.Next(old(State()), R.Resent, timeout)
      ensures list.nodes == old(list.nodes) && iter == old(iter)
    {
      hide R.Inv, R.Next, LinkedList.Linked, Values, Index;
      ghost var s, nodes, k := State(), list.nodes, Place(list.nodes, cur);
      RS.NextInv(s, R.Resent, timeout);
      ROrdered(s);
      PlaceAt(nodes, cur);
      RResume(s, timeout);
      SetEntry(list, cur, cur.val.(deadline := now + 2 * timeout), k);
      SameNodes(nodes);
      mode := Walking;
    }
  }

  class UnackList {
    const list: List<U.Item>
    var iter: Iterator<U.Item>
    var mode: Mode
    var temp: Node?<U.Item>
    var cur: Node?<U.Item>
    var flag: bool
    var now: nat
    var pushed: nat
    ghost var trace: U.Trace
    ghost const timeout: nat

    ghost predicate Linked()
      reads this, list, list.nodes, iter
    {
      && Held(list, iter, temp)
      && (mode != Walking ==> temp == null)
      && (mode == Away ==> cur != null && cur in list.nodes)
    }

    ghost function Sweep(): U.Sweep
      requires Linked()
      reads this, list, list.nodes, iter
    {
      match mode
      case Resting => U.Idle
      case Walking => U.Looking(PtrTo(iter.next), PtrTo(temp), flag)
      case Away => U.Notifying(cur.val.id, PtrTo(iter.next), flag)
    }

    ghost function State(): U.State
      requires Linked()
      reads this, list, list.nodes, iter
    {
      U.State(Values(list.nodes), now, pushed, Sweep(), trace)
    }

    ghost predicate Valid()
      reads this, list, list.nodes, iter
    {
      Linked() && U.Inv(State(), timeout)
    }

    constructor (ghost commandTimeout: nat)
      ensures Valid() && State() == U.Init() && fresh(list) && fresh(iter) && timeout == commandTimeout
    {
      var l := new List<U.Item>();
      var it := new Iterator(l, false);
      list, iter := l, it;
      mode, temp, cur, flag, now, pushed := Resting, null, null, false, 0, 0;
      trace := U.Trace({}, [], [], {}, 0, 0);
      timeout := commandTimeout;
    }

    method Tick(d: nat)
      requires Valid()
      modifies this`now
      ensures Valid() && State() == U.Next(old(State()), U.Tick(d), timeout, true)
    {
      hide U.Inv, U.Next, LinkedList.Linked, Values;
      US.NextInv(State(), U.Tick(d), timeout, true);
      UTick(State(), d, timeout);
      now := now + d;
    }

    method PushReq(key: U.Key, memOk: bool, commandTimeout: nat) returns (full: bool, node: Node?<U.Item>)
      requires Valid() && mode != Walking && commandTimeout == timeout
      modifies this, list, list.nodes
      ensures Valid() && State() == U.Next(old(State()), U.Push(key, memOk), timeout, true)
      ensures full <==> |old(list.nodes)| == 10
      ensures node != null <==> !full && memOk
      ensures list.nodes == if node == null then old(list.nodes) else old(list.nodes) + [node]
    {
      hide U.Inv, U.Next, LinkedList.Linked, Values;
      US.NextInv(State(), U.Push(key, memOk), timeout, true);
      UPush(State(), key, memOk, timeout);
      full, node := list.len == U.MAX_LEN, null;
      if full || !memOk { return; }
      node := PushNode(list, Entry(pushed, key, now + 2 * commandTimeout, false));
      pushed := pushed + 1;
    }

    method MarkWhere(hit: U.Item -> bool, ghost e: U.Event)
      requires Valid() && mode != Walking && U.Next(State(), e, timeout, true) == U.MarkAll(State(), hit)
      modifies this`trace, list.nodes
      ensures Valid() && State() == U.Next(old(State()), e, timeout, true)
      ensures list.nodes == old(list.nodes)
    {
      hide U.Inv, U.Next, LinkedList.Linked, Values, Mark, U.Hits;
      ghost var s, nodes := State(), list.nodes;
      US.NextInv(s, e, timeout, true);
      trace := trace.(marked := trace.marked + U.Hits(s.list, hit));
      MarkNodes(list, hit);
      MarkSame(s.list, hit);
      SameNodes(nodes);
    }

    /** A response arrived. */
    method RemoveUnackListNode(key: U.Key)
      requires Valid() && mode != Walking
      modifies this`trace, list.nodes
      ensures Valid() && State() == U.Next(old(State()), U.Ack(key), timeout, true)
      ensures list.nodes == old(list.nodes)
    {
      hide U.Inv, LinkedList.Linked, Values;
      MarkWhere((x: U.Item) => x.key == key, U.Ack(key));
    }

    /** The send this node was pushed for failed; as above nobody asks. */
    method MarkFailed(node: Node<U.Item>)
      requires Valid() && mode != Walking
      modifies this`trace, node`val
      ensures Valid() && list.nodes == old(list.nodes)
      ensures State() ==
        if node in list.nodes then U.Next(old(State()), U.SendFailed(old(node.val.id)), timeout, true) else old(State())
    {
      hide U.Inv, U.Next, LinkedList.Linked, U.Hits, Values, Mark, Index;
      ghost var s, id := State(), node.val.id;
      US.NextInv(s, U.SendFailed(id), timeout, true);
      UFail(s, id, timeout);
      UOrdered(s, timeout);
      if node in list.nodes { trace := U.Next(s, U.SendFailed(id), timeout, true).trace; }
      MarkCell(list, node);
    }

    method StartSweep()
      requires Valid() && mode == Resting
      modifies this
      ensures Valid() && State() == U.Next(old(State()), U.StartSweep, timeout, true)
      ensures list.nodes == old(list.nodes) && (iter == old(iter) || fresh(iter))
    {
      hide U.Inv, U.Next, LinkedList.Linked, Values;
      US.NextInv(State(), U.StartSweep, timeout, true);
      UStart(State(), timeout);
      if list.len > 0 {
        iter := new Iterator(list, false);
        flag, mode := false, Walking;
        trace := trace.(visits := [], starved := {}, limit := pushed, since := now);
      }
    }

    /** One turn of the reporting thread's loop. */
    method Turn(memOk: bool)
      requires Valid() && mode == Walking
      modifies this, list, list.nodes, iter
      ensures Valid() && State() == U.Next(old(State()), U.Visit(memOk), timeout, true)
      ensures iter == old(iter)
    {
      hide U.Inv, U.Next, Held, Values, Pred, Dropped, U.Look;
      ghost var s := State();
      US.NextInv(s, U.Visit(memOk), timeout, true);
      UTurn(s, memOk, timeout);
      var node := Pass();
      if node == null {
        mode := Resting;
      } else {
        Look(node, memOk);
      }
    }

    /** The iterator steps on and the node behind is unlinked. */
    method Pass() returns (node: Node?<U.Item>)
      requires Valid() && mode == Walking
      modifies this`temp, list, list.nodes, iter
      ensures Linked() && temp == null
      ensures var s := old(State());
        && (node == null <==> s.sweep.next == Null)
        && State() == s.(list := Dropped(s.list, s.sweep.temp), sweep := U.Looking(PtrTo(iter.next), Null, s.sweep.flag))
      ensures node != null ==>
        var s := old(State());
        && node in list.nodes && To(node.val.id) == s.sweep.next
        && Has(State().list, node.val.id) && node.val == Get(State().list, node.val.id)
        && PtrTo(iter.next) == Pred(s.list, node.val.id)
    {
      hide U.Inv, LinkedList.Linked, Values, Index, Pred, Dropped;
      ghost var s := State();
      UOrdered(s, timeout);
      if temp != null { UBehind(s, timeout); }
      node := CcpNodes.Pass(list, iter, temp);
      temp := null;
    }

    /** What to do with the node the sweep is on, the iterator being past it. */
    method Look(node: Node<U.Item>, memOk: bool)
      requires Linked() && mode == Walking && temp == null && node in list.nodes
      modifies this
      ensures Linked() && iter == old(iter)
      ensures State() == U.Look(old(State()), node.val, old(PtrTo(iter.next)), old(flag), memOk, true)
    {
      hide LinkedList.Linked, Values;
      var e := node.val;
      trace := trace.(visits := trace.visits + [e.id]);
      if e.marked {
        temp := node;
      } else if flag || e.deadline <= now {
        flag := true;
        if memOk {
          trace := trace.(reported := trace.reported + [e.id]);
          mode, cur := Away, node;
        } else {
          trace := trace.(starved := trace.starved + {e.id});
        }
      }
    }

    /** The application was told; the mutex is taken again and the node is to go. */
    method Resume()
      requires Valid() && mode == Away
      modifies this
      ensures Valid() && State() == U.Next(old(State()), U.Notified, timeout, true)
      ensures list.nodes == old(list.nodes) && iter == old(iter)
    {
      hide U.Inv, U.Next, LinkedList.Linked, Values;
      US.NextInv(State(), U.Notified, timeout, true);
      UResume(State(), timeout);
      mode, temp := Walking, cur;
    }
  }

  // ----- the steps, spelled out

  lemma RTick(s: R.State, d: nat, timeout: nat)
    ensures R.Next(s, R.Tick(d), timeout) == s.(now := s.now + d)
  {
  }

  lemma RPush(s: R.State, seqId: nat, memOk: bool, timeout: nat)
    requires !s.sweep.Looking?
    ensures R.Next(s, R.Push(seqId, memOk), timeout) ==
      if |s.list| == R.MAX_LEN || !memOk then s
      else s.(list := s.list + [Entry(s.pushed, seqId, s.now + 2 * timeout, false)], pushed := s.pushed + 1)
  {
  }

  lemma RFail(s: R.State, id: nat, timeout: nat)
    requires !s.sweep.Looking?
    ensures R.Next(s, R.SendFailed(id), timeout) == R.MarkAll(s, (x: Entry<nat>) => x.id == id)
  {
  }

  lemma ROrdered(s: R.State)
    requires R.Inv(s)
    ensures Increasing(s.list)
  {
  }

  lemma RStart(s: R.State, timeout: nat)
    requires s.sweep.Idle?
    ensures R.Next(s, R.StartSweep, timeout) ==
      if s.list == [] then s
      else s.(sweep := R.Looking(To(s.list[|s.list| - 1].id), Null, false),
              trace := s.trace.(visits := [], outcomes := [], limit := s.pushed, startMarks := s.trace.marked))
  {
  }

  /** The node to drop stands behind the one the sweep is on. */
  lemma RBehind(s: R.State)
    requires R.Inv(s) && s.sweep.Looking? && s.sweep.temp != Null
    ensures s.sweep.next == Pred(s.list, s.sweep.temp.id)
  {
  }

  lemma RTurn(s: R.State, connected: bool, memOk: bool, timeout: nat)
    requires R.Inv(s) && s.sweep.Looking?
    ensures var l, t := Dropped(s.list, s.sweep.temp), R.Next(s, R.Visit(connected, memOk), timeout);
      if s.sweep.next == Null || !connected then t == s.(list := l, sweep := R.Idle)
      else
        && Has(l, s.sweep.next.id)
        && var e, it := Get(l, s.sweep.next.id), Pred(s.list, s.sweep.next.id);
        && var o := R.Judge(e, s.sweep.flag, s.now, memOk);
        && t == s.(list := l,
                   sweep := (match o
                             case Marked => R.Looking(it, s.sweep.next, s.sweep.flag)
                             case LetBe => R.Looking(it, Null, s.sweep.flag)
                             case Starved => R.Looking(it, Null, true)
                             case Sent => R.Resending(e.id, it, true)),
                   trace := s.trace.(visits := s.trace.visits + [e.id], outcomes := s.trace.outcomes + [o],
                                     resent := if o.Sent? then s.trace.resent + [e.id] else s.trace.resent))
  {
    hide R.Inv, Index, Pred, Remove, R.Judge;
    RAhead(s);
  }

  lemma RAhead(s: R.State)
    requires R.Inv(s) && s.sweep.Looking?
    ensures R.Drop(s) == s.(list := Dropped(s.list, s.sweep.temp))
    ensures s.sweep.next != Null ==> Has(Dropped(s.list, s.sweep.temp), s.sweep.next.id)
  {
    RS.DropInv(s);
    hide Index, Pred, Remove;
    assert RS.Dropped(s).list == Dropped(s.list, s.sweep.temp);
  }

  lemma RResume(s: R.State, timeout: nat)
    requires R.Inv(s) && s.sweep.Resending?
    ensures var k := Index(s.list, s.sweep.cur);
      && k >= 0
      && R.Next(s, R.Resent, timeout) ==
           s.(list := s.list[k := s.list[k].(deadline := s.now + 2 * timeout)],
              sweep := R.Looking(s.sweep.next, Null, s.sweep.flag))
  {
    RS.CurLinked(s);
    hide R.Inv, Index;
  }

  lemma UTick(s: U.State, d: nat, timeout: nat)
    ensures U.Next(s, U.Tick(d), timeout, true) == s.(now := s.now + d)
  {
  }

  lemma UPush(s: U.State, key: U.Key, memOk: bool, timeout: nat)
    requires !s.sweep.Looking?
    ensures U.Next(s, U.Push(key, memOk), timeout, true) ==
      if |s.list| == U.MAX_LEN || !memOk then s
      else s.(list := s.list + [Entry(s.pushed, key, s.now + 2 * timeout, false)], pushed := s.pushed + 1)
  {
  }

  lemma UFail(s: U.State, id: nat, timeout: nat)
    requires !s.sweep.Looking?
    ensures U.Next(s, U.SendFailed(id), timeout, true) == U.MarkAll(s, (x: U.Item) => x.id == id)
  {
  }

  lemma UOrdered(s: U.State, timeout: nat)
    requires U.Inv(s, timeout)
    ensures Increasing(s.list)
  {
  }

  lemma UStart(s: U.State, timeout: nat)
    requires s.sweep.Idle?
    ensures U.Next(s, U.StartSweep, timeout, true) ==
      if s.list == [] then s
      else s.(sweep := U.Looking(To(s.list[|s.list| - 1].id), Null, false),
              trace := s.trace.(visits := [], starved := {}, limit := s.pushed, since := s.now))
  {
  }

  lemma UBehind(s: U.State, timeout: nat)
    requires U.Inv(s, timeout) && s.sweep.Looking? && s.sweep.temp != Null
    ensures s.sweep.next == Pred(s.list, s.sweep.temp.id)
  {
  }

  lemma UTurn(s: U.State, memOk: bool, timeout: nat)
    requires U.Inv(s, timeout) && s.sweep.Looking?
    ensures var l, t := Dropped(s.list, s.sweep.temp), U.Next(s, U.Visit(memOk), timeout, true);
      if s.sweep.next == Null then t == s.(list := l, sweep := U.Idle)
      else
        && Has(l, s.sweep.next.id)
        && var e, it := Get(l, s.sweep.next.id), Pred(s.list, s.sweep.next.id);
        forall before :: t == U.Look(s.(list := l, sweep := before), e, it, s.sweep.flag, memOk, true)
  {
    hide U.Inv, Index, Pred, Remove;
    UAhead(s, timeout);
  }

  lemma UAhead(s: U.State, timeout: nat)
    requires U.Inv(s, timeout) && s.sweep.Looking?
    ensures U.Drop(s) == s.(list := Dropped(s.list, s.sweep.temp))
    ensures s.sweep.next != Null ==> Has(Dropped(s.list, s.sweep.temp), s.sweep.next.id)
  {
    US.DropInv(s, timeout);
    hide Index, Pred, Remove;
    assert US.Dropped(s).list == Dropped(s.list, s.sweep.temp);
  }

  lemma UResume(s: U.State, timeout: nat)
    requires s.sweep.Notifying?
    ensures U.Next(s, U.Notified, timeout, true) == s.(sweep := U.Looking(s.sweep.next, To(s.sweep.cur), s.sweep.flag))
  {
  }
}
