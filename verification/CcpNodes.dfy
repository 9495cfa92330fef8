/** The shared queues as the linked lists they are: entries held by nodes, and
    what the list operations mean for the sequence of entries. */
module CcpNodes {
  import opened LinkedList
  import opened CcpQueue

  type Cell<K> = Node<Entry<K>>

  /** The entries the nodes hold, head first. */
  ghost function Values<K>(nodes: seq<Cell<K>>): (r: seq<Entry<K>>)
    reads nodes
    ensures |r| == |nodes| && forall i :: 0 <= i < |r| ==> r[i] == nodes[i].val
  {
    seq(|nodes|, i requires 0 <= i < |nodes| reads nodes => nodes[i].val)
  }

  ghost function PtrTo<K>(n: Node?<Entry<K>>): Ptr
    reads n
  {
    if n == null then Null else To(n.val.id)
  }

  lemma NodeAt<K>(nodes: seq<Cell<K>>, i: nat)
    requires i < |nodes| && Increasing(Values(nodes))
    ensures Index(Values(nodes), nodes[i].val.id) == i
    ensures Has(Values(nodes), nodes[i].val.id) && Get(Values(nodes), nodes[i].val.id) == nodes[i].val
    ensures Pred(Values(nodes), nodes[i].val.id) == PtrTo(At(nodes, i - 1))
  {
    var vals := Values(nodes);
    hide Values, Index;
    IndexAt(vals, i);
    assert vals[i] == nodes[i].val;
    if i > 0 { assert vals[i - 1] == nodes[i - 1].val; }
  }

  lemma WithoutNode<K>(nodes: seq<Cell<K>>, k: nat)
    requires k < |nodes| && Increasing(Values(nodes))
    ensures Has(Values(nodes), nodes[k].val.id)
    ensures Values(Without(nodes, k)) == Remove(Values(nodes), nodes[k].val.id)
  {
    hide Index, Remove;
    NodeAt(nodes, k);
    var vals, rest, id := Values(nodes), Values(Without(nodes, k)), nodes[k].val.id;
    RemoveMap(vals, id);
    hide Values;
    assert forall i :: 0 <= i < |rest| ==> rest[i] == vals[if i < k then i else i + 1];
  }

  /** Allocate a node and append it. */
  method PushNode<K(==)>(list: List<Entry<K>>, e: Entry<K>) returns (node: Cell<K>)
    requires list.Valid()
    modifies list, list.nodes
    ensures list.Valid() && fresh(node) && list.nodes == old(list.nodes) + [node]
    ensures Values(list.nodes) == old(Values(list.nodes)) + [e]
    ensures forall n :: n in old(list.nodes) ==> n.val == old(n.val)
  {
    node := new Node(e);
    var _ := list.RPush(node);
  }

  /** Change what one node holds.  Through a pointer to a node that has left the
      list nothing in the list changes. */
  method SetEntry<K(==)>(list: List<Entry<K>>, node: Cell<K>, e: Entry<K>, ghost k: int)
    requires list.Valid() && (node in list.nodes ==> 0 <= k < |list.nodes| && list.nodes[k] == node)
    modifies node`val
    ensures list.Valid() && list.nodes == old(list.nodes)
    ensures node in list.nodes ==> Values(list.nodes) == old(Values(list.nodes))[k := e]
    ensures node !in list.nodes ==> Values(list.nodes) == old(Values(list.nodes))
  {
    node.val := e;
    forall i | 0 <= i < |list.nodes| ensures LinkedAt(list.nodes, i) {
      assert old(LinkedAt(list.nodes, i));
    }
  }

  /** Where the walk stands: the nodes from i on are done. */
  ghost predicate Walked<K>(was: seq<Entry<K>>, now: seq<Entry<K>>, hit: Entry<K> -> bool, i: nat) {
    && i <= |was| == |now|
    && now[..i] == was[..i]
    && forall k :: i <= k < |was| ==> now[k] == if hit(was[k]) then was[k].(marked := true) else was[k]
  }

  lemma WalkStep<K>(was: seq<Entry<K>>, now: seq<Entry<K>>, hit: Entry<K> -> bool, i: nat)
    requires Walked(was, now, hit, i) && 0 < i
    ensures now[i - 1] == was[i - 1]
    ensures hit(now[i - 1]) ==> Walked(was, now[i - 1 := now[i - 1].(marked := true)], hit, i - 1)
    ensures !hit(now[i - 1]) ==> Walked(was, now, hit, i - 1)
  {
    assert now[..i][i - 1] == was[..i][i - 1];
    assert now[..i][..i - 1] == was[..i][..i - 1];
  }

  method Back<K(==)>(list: List<Entry<K>>, it: Iterator<Entry<K>>, ghost i: int) returns (node: Node?<Entry<K>>)
    requires list.Valid() && -1 <= i < |list.nodes| && !it.fromHead && it.next == At(list.nodes, i)
    modifies it
    ensures node == old(it.next) && !it.fromHead && it.next == At(list.nodes, i - 1)
  {
    if i >= 0 { assert LinkedAt(list.nodes, i); }
    node := it.Next();
  }

  /** Walk from tail to head and set the flag in every node the test picks. */
  method MarkNodes<K(==)>(list: List<Entry<K>>, hit: Entry<K> -> bool)
    requires list.Valid()
    modifies list.nodes
    ensures list.Valid() && list.nodes == old(list.nodes)
    ensures Values(list.nodes) == Mark(old(Values(list.nodes)), hit)
  {
    ghost var nodes := list.nodes;
    ghost var was := Values(nodes);
    ghost var i := |nodes|;
    var it := new Iterator(list, false);
    assert Walked(was, Values(nodes), hit, i);
    hide Values, Walked, Mark, LinkedList.Linked;
    while true
      invariant 0 <= i <= |nodes|
      invariant fresh(it) && !it.fromHead && it.next == At(nodes, i - 1)
      invariant list.nodes == nodes && list.Valid()
      invariant Walked(was, Values(nodes), hit, i)
      decreases i
    {
      var node := Back(list, it, i - 1);
      if node == null {
        WalkEnds(was, Values(nodes), hit);
        return;
      }
      MarkNode(list, node, hit, i - 1, was);
      i := i - 1;
    }
  }

  lemma WalkEnds<K>(was: seq<Entry<K>>, now: seq<Entry<K>>, hit: Entry<K> -> bool)
    requires Walked(was, now, hit, 0)
    ensures now == Mark(was, hit)
  {
  }

  method MarkNode<K(==)>(list: List<Entry<K>>, node: Cell<K>, hit: Entry<K> -> bool, ghost k: nat, ghost was: seq<Entry<K>>)
    requires list.Valid() && k < |list.nodes| && list.nodes[k] == node && Walked(was, Values(list.nodes), hit, k + 1)
    modifies node`val
    ensures list.Valid() && list.nodes == old(list.nodes) && Walked(was, Values(list.nodes), hit, k)
  {
    WalkStep(was, Values(list.nodes), hit, k + 1);
    if hit(node.val) { SetEntry(list, node, node.val.(marked := true), k); }
  }

  /** Step on, then unlink the node just passed. */
  method StepPast<K(==)>(list: List<Entry<K>>, it: Iterator<Entry<K>>, temp: Node?<Entry<K>>, ghost i: int)
    returns (node: Node?<Entry<K>>)
    requires list.Valid() && -1 <= i < |list.nodes| && !it.fromHead && it.next == At(list.nodes, i)
    requires temp != null ==> i + 1 < |list.nodes| && list.nodes[i + 1] == temp
    modifies list, list.nodes, it
    ensures node == old(it.next) && !it.fromHead && it.next == At(old(list.nodes), i - 1)
    ensures list.Valid() && list.nodes == if temp == null then old(list.nodes) else Without(old(list.nodes), i + 1)
    ensures forall n :: n in old(list.nodes) ==> n.val == old(n.val)
  {
    node := Back(list, it, i);
    if temp != null {
      assert LinkedAt(list.nodes, i + 1);
      list.Remove(temp, i + 1);
    }
  }

  // ----- where a sweep stands

  /** The iterator, the node to drop and the node in hand are nodes of the list. */
  ghost predicate Held<K>(list: List<Entry<K>>, it: Iterator<Entry<K>>, temp: Node?<Entry<K>>)
    reads list, list.nodes, it
  {
    && list.Valid() && !it.fromHead
    && (it.next == null || it.next in list.nodes)
    && (temp == null || temp in list.nodes)
  }

  /** A node's place. */
  ghost function Place<K>(nodes: seq<Cell<K>>, n: Node?<Entry<K>>): (i: int)
    reads nodes, n
    ensures -1 <= i < |nodes|
  {
    if n == null then -1 else Index(Values(nodes), n.val.id)
  }

  lemma PlaceAt<K>(nodes: seq<Cell<K>>, n: Node?<Entry<K>>)
    requires Increasing(Values(nodes)) && (n == null || n in nodes)
    ensures At(nodes, Place(nodes, n)) == n
    ensures n != null ==> Has(Values(nodes), n.val.id) && Get(Values(nodes), n.val.id) == n.val
    ensures n != null ==> Pred(Values(nodes), n.val.id) == PtrTo(At(nodes, Place(nodes, n) - 1))
  {
    if n != null {
      var j :| 0 <= j < |nodes| && nodes[j] == n;
      NodeAt(nodes, j);
    }
  }

  /** The node before the one to drop is the one the iterator is on. */
  lemma PlaceBefore<K>(nodes: seq<Cell<K>>, next: Node?<Entry<K>>, temp: Cell<K>)
    requires Increasing(Values(nodes)) && (next == null || next in nodes) && temp in nodes
    requires PtrTo(next) == Pred(Values(nodes), temp.val.id)
    ensures Place(nodes, temp) == Place(nodes, next) + 1
  {
    PlaceAt(nodes, next);
    PlaceAt(nodes, temp);
    var k := Place(nodes, temp);
    if k > 0 { NodeAt(nodes, k - 1); }
  }

  /** The queue without the node passed. */
  ghost function Dropped<K>(vals: seq<Entry<K>>, temp: Ptr): seq<Entry<K>> {
    if temp == Null || !Has(vals, temp.id) then vals else Remove(vals, temp.id)
  }

  lemma DroppedIncreasing<K>(vals: seq<Entry<K>>, temp: Ptr)
    requires Increasing(vals)
    ensures Increasing(Dropped(vals, temp))
  {
    if temp != Null && Has(vals, temp.id) { RemoveMap(vals, temp.id); }
  }

  /** Step on, drop the node behind: the list and the iterator afterwards. */
  method StepAndDrop<K(==)>(list: List<Entry<K>>, it: Iterator<Entry<K>>, temp: Node?<Entry<K>>)
    returns (node: Node?<Entry<K>>)
    requires Held(list, it, temp) && Increasing(Values(list.nodes))
    requires temp != null ==> PtrTo(it.next) == Pred(Values(list.nodes), temp.val.id)
    modifies list, list.nodes, it
    ensures Held(list, it, null) && node == old(it.next) && (node == null || node in list.nodes)
    ensures Values(list.nodes) == Dropped(old(Values(list.nodes)), old(PtrTo(temp)))
    ensures forall n :: n in old(list.nodes) ==> n.val == old(n.val)
    ensures node != null ==> it.next == At(old(list.nodes), Place(old(list.nodes), node) - 1)
  {
    hide Values, Index, Pred, Remove;
    ghost var nodes := list.nodes;
    ghost var i := Place(nodes, it.next);
    PlaceAt(nodes, it.next);
    if temp != null {
      PlaceAt(nodes, temp);
      PlaceBefore(nodes, it.next, temp);
      WithoutNode(nodes, i + 1);
    }
    node := StepPast(list, it, temp, i);
    SameValues(nodes);
    if temp != null { SameValues(Without(nodes, i + 1)); }
  }

  /** The start of a turn, and what it leaves to look at. */
  method Pass<K(==)>(list: List<Entry<K>>, it: Iterator<Entry<K>>, temp: Node?<Entry<K>>)
    returns (node: Node?<Entry<K>>)
    requires Held(list, it, temp) && Increasing(Values(list.nodes))
    requires temp != null ==> PtrTo(it.next) == Pred(Values(list.nodes), temp.val.id)
    modifies list, list.nodes, it
    ensures Held(list, it, null) && node == old(it.next) && (node == null || node in list.nodes)
    ensures Values(list.nodes) == Dropped(old(Values(list.nodes)), old(PtrTo(temp)))
    ensures node != null ==>
      && To(node.val.id) == old(PtrTo(it.next)) && PtrTo(it.next) == Pred(old(Values(list.nodes)), node.val.id)
      && Has(Values(list.nodes), node.val.id) && node.val == Get(Values(list.nodes), node.val.id)
  {
    hide Values, Index, Pred, LinkedList.Linked, Dropped;
    ghost var nodes, vals := list.nodes, Values(list.nodes);
    PlaceAt(nodes, it.next);
    DroppedIncreasing(vals, PtrTo(temp));
    node := StepAndDrop(list, it, temp);
    PlaceAt(list.nodes, node);
  }

  twostate lemma SameValues<K>(nodes: seq<Cell<K>>)
    requires forall i :: 0 <= i < |nodes| ==> nodes[i].val == old(nodes[i].val)
    ensures Values(nodes) == old(Values(nodes))
  {
  }

  /** Changing what nodes hold does not change which nodes they are. */
  twostate lemma SameNodes<K>(nodes: seq<Cell<K>>)
    requires SameIds(old(Values(nodes)), Values(nodes))
    ensures forall n :: n in nodes ==> n.val.id == old(n.val.id)
  {
    forall n | n in nodes ensures n.val.id == old(n.val.id) {
      var j :| 0 <= j < |nodes| && nodes[j] == n;
      assert old(Values(nodes))[j].id == Values(nodes)[j].id;
    }
  }

  lemma MarkOne<K>(list: seq<Entry<K>>, k: nat)
    requires k < |list| && Increasing(list)
    ensures Mark(list, (x: Entry<K>) => x.id == list[k].id) == list[k := list[k].(marked := true)]
  {
  }

  /** Set one node's flag through a pointer to it. */
  method MarkCell<K(==)>(list: List<Entry<K>>, node: Cell<K>)
    requires list.Valid() && Increasing(Values(list.nodes))
    modifies node`val
    ensures list.Valid() && list.nodes == old(list.nodes)
    ensures forall n :: n in list.nodes ==> n.val.id == old(n.val.id)
    ensures Values(list.nodes) ==
      if node in list.nodes then Mark(old(Values(list.nodes)), (x: Entry<K>) => x.id == old(node.val.id))
      else old(Values(list.nodes))
  {
    hide Values, Mark, Index, LinkedList.Linked;
    ghost var nodes, vals, k := list.nodes, Values(list.nodes), Place(list.nodes, node);
    if node in nodes {
      PlaceAt(nodes, node);
      MarkOne(vals, k);
      MarkSame(vals, (x: Entry<K>) => x.id == vals[k].id);
    }
    SetEntry(list, node, node.val.(marked := true), k);
    if node in nodes { SameNodes(nodes); }
  }
}
