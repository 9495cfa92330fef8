/** The doubly linked list and its iterator, refining a sequence of nodes. */
module LinkedList {

  class Node<T> {
    var prev: Node?<T>
    var next: Node?<T>
    var val: T

    constructor (v: T)
      ensures prev == null && next == null && val == v
    {
      prev, next, val := null, null, v;
    }
  }

  /** The i-th node, or NULL past either end. */
  ghost function At<T>(nodes: seq<Node<T>>, i: int): Node?<T> {
    if 0 <= i < |nodes| then nodes[i] else null
  }

  ghost predicate Distinct<T>(nodes: seq<Node<T>>) {
    forall i, j :: 0 <= i < j < |nodes| ==> nodes[i] != nodes[j]
  }

  ghost predicate LinkedAt<T>(nodes: seq<Node<T>>, i: int)
    requires 0 <= i < |nodes|
    reads nodes
  {
    nodes[i].next == At(nodes, i + 1) && nodes[i].prev == At(nodes, i - 1)
  }

  ghost predicate Linked<T>(nodes: seq<Node<T>>)
    reads nodes
  {
    forall i :: 0 <= i < |nodes| ==> LinkedAt(nodes, i)
  }

  ghost function Without<T>(nodes: seq<Node<T>>, k: nat): seq<Node<T>>
    requires k < |nodes|
  {
    nodes[..k] + nodes[k + 1..]
  }

  lemma WithoutAt<T>(nodes: seq<Node<T>>, k: nat, i: int)
    requires k < |nodes|
    ensures At(Without(nodes, k), i) == At(nodes, if i < k then i else i + 1)
  {
  }

  lemma WithoutDistinct<T>(nodes: seq<Node<T>>, k: nat)
    requires k < |nodes| && Distinct(nodes)
    ensures Distinct(Without(nodes, k)) && nodes[k] !in Without(nodes, k)
  {
    var w := Without(nodes, k);
    forall i | 0 <= i < |w| ensures w[i] == nodes[if i < k then i else i + 1] {}
  }

  class List<T(==)> {
    var head: Node?<T>
    var tail: Node?<T>
    var len: nat
    ghost var nodes: seq<Node<T>>

    ghost predicate Valid()
      reads this, nodes
    {
      && len == |nodes|
      && Distinct(nodes)
      && head == At(nodes, 0) && tail == At(nodes, |nodes| - 1)
      && Linked(nodes)
    }

    constructor ()
      ensures Valid() && nodes == []
    {
      head, tail, len, nodes := null, null, 0, [];
    }

    method RPush(node: Node?<T>) returns (r: Node?<T>)
      requires Valid() && (node != null ==> node !in nodes)
      modifies this, nodes, node
      ensures Valid() && r == node
      ensures nodes == if node == null then old(nodes) else old(nodes) + [node]
      ensures forall n :: n in nodes ==> n.val == old(n.val)
    {
      if node == null { return null; }
      ghost var was := nodes;
      ghost var n := |was|;
      if len > 0 {
        assert LinkedAt(was, n - 1);
        node.prev := tail;
        node.next := null;
        tail.next := node;
        tail := node;
      } else {
        head, tail := node, node;
        node.prev, node.next := null, null;
      }
      len := len + 1;
      nodes := nodes + [node];
      forall i | 0 <= i < |nodes| ensures LinkedAt(nodes, i) {
        if i < n { assert old(LinkedAt(was, i)); }
      }
      return node;
    }

    method LPush(node: Node?<T>) returns (r: Node?<T>)
      requires Valid() && (node != null ==> node !in nodes)
      modifies this, nodes, node
      ensures Valid() && r == node
      ensures nodes == if node == null then old(nodes) else [node] + old(nodes)
      ensures forall n :: n in nodes ==> n.val == old(n.val)
    {
      if node == null { return null; }
      ghost var was := nodes;
      if len > 0 {
        node.next := head;
        node.prev := null;
        head.prev := node;
        head := node;
      } else {
        head, tail := node, node;
        node.prev, node.next := null, null;
      }
      len := len + 1;
      nodes := [node] + nodes;
      forall i | 0 <= i < |nodes| ensures LinkedAt(nodes, i) {
        if i > 0 { assert old(LinkedAt(was, i - 1)) && nodes[i] == was[i - 1]; }
      }
      return node;
    }

    method RPop() returns (node: Node?<T>)
      requires Valid()
      modifies this, nodes
      ensures Valid()
      ensures old(nodes) == [] ==> node == null && nodes == []
      ensures old(nodes) != [] ==> node != null && old(nodes) == nodes + [node] && node.prev == null && node.next == null
      ensures forall n :: n in old(nodes) ==> n.val == old(n.val)
    {
      if len == 0 { return null; }
      ghost var was := nodes;
      assert LinkedAt(was, |was| - 1);
      node := tail;
      len := len - 1;
      if len > 0 {
        tail := node.prev;
        tail.next := null;
      } else {
        tail, head := null, null;
      }
      node.next, node.prev := null, null;
      nodes := was[..|was| - 1];
      forall i | 0 <= i < |nodes| ensures LinkedAt(nodes, i) {
        assert old(LinkedAt(was, i));
      }
    }

    method LPop() returns (node: Node?<T>)
      requires Valid()
      modifies this, nodes
      ensures Valid()
      ensures old(nodes) == [] ==> node == null && nodes == []
      ensures old(nodes) != [] ==> node != null && old(nodes) == [node] + nodes && node.prev == null && node.next == null
      ensures forall n :: n in old(nodes) ==> n.val == old(n.val)
    {
      if len == 0 { return null; }
      ghost var was := nodes;
      assert LinkedAt(was, 0);
      node := head;
      len := len - 1;
      if len > 0 {
        head := node.next;
        head.prev := null;
      } else {
        head, tail := null, null;
      }
      node.next, node.prev := null, null;
      nodes := was[1..];
      forall i | 0 <= i < |nodes| ensures LinkedAt(nodes, i) {
        assert old(LinkedAt(was, i + 1)) && nodes[i] == was[i + 1];
      }
    }

    method Remove(node: Node<T>, ghost k: nat)
      requires Valid() && k < |nodes| && nodes[k] == node
      modifies this, node.prev, node.next
      ensures Valid() && nodes == Without(old(nodes), k)
      ensures forall n :: n in old(nodes) ==> n.val == old(n.val)
    {
      ghost var was := nodes;
      assert LinkedAt(was, k);
      if node.prev != null {
        node.prev.next := node.next;
      } else {
        head := node.next;
      }
      if node.next != null {
        node.next.prev := node.prev;
      } else {
        tail := node.prev;
      }
      len := len - 1;
      nodes := Without(was, k);
      WithoutDistinct(was, k);
      forall i | 0 <= i < |nodes| ensures LinkedAt(nodes, i) {
        WithoutAt(was, k, i);
        WithoutAt(was, k, i + 1);
        WithoutAt(was, k, i - 1);
        assert old(LinkedAt(was, if i < k then i else i + 1));
      }
    }

    /** The node at an index from the head or, below zero, from the tail. */
    method ListAt(index: int) returns (node: Node?<T>)
      requires Valid()
      ensures node == At(nodes, if index >= 0 then index else |nodes| + index)
    {
      var fromHead := index >= 0;
      var n := if index < 0 then -index - 1 else index;
      if n >= len { return null; }
      var it := new Iterator(this, fromHead);
      node := it.Next();
      ghost var k := 0;
      assert LinkedAt(nodes, Place(fromHead, 0));
      while n > 0
        invariant n >= 0 && k + n < len && k + n == if fromHead then index else -index - 1
        invariant node == nodes[Place(fromHead, k)]
        invariant it.fromHead == fromHead && it.next == At(nodes, Place(fromHead, k + 1))
        invariant fresh(it) && unchanged(this) && Valid()
      {
        node := it.Next();
        k, n := k + 1, n - 1;
        assert LinkedAt(nodes, Place(fromHead, k));
      }
    }

    /** Where the k-th node in a direction stands. */
    ghost function Place(fromHead: bool, k: int): int
      reads this
    {
      if fromHead then k else |nodes| - 1 - k
    }

    ghost predicate FoundAt(node: Node<T>, i: int)
      reads this
    {
      0 <= i < |nodes| && nodes[i] == node
    }

    method Find(val: T, match_: (T, T) -> bool) returns (node: Node?<T>)
      requires Valid()
      ensures node == null ==> forall i :: 0 <= i < |nodes| ==> !match_(val, nodes[i].val)
      ensures node != null ==>
        match_(val, node.val) && exists i :: FoundAt(node, i) && forall j :: 0 <= j < i ==> !match_(val, nodes[j].val)
    {
      var it := new Iterator(this, true);
      node := it.Next();
      ghost var i := 0;
      if |nodes| > 0 { assert LinkedAt(nodes, 0); }
      while node != null
        invariant 0 <= i <= |nodes| && node == At(nodes, i)
        invariant it.fromHead && it.next == At(nodes, i + 1)
        invariant forall j :: 0 <= j < i ==> !match_(val, nodes[j].val)
        invariant fresh(it) && Valid()
        decreases |nodes| - i
      {
        if match_(val, node.val) {
          assert FoundAt(node, i);
          return;
        }
        node := it.Next();
        i := i + 1;
        if i < |nodes| { assert LinkedAt(nodes, i); }
      }
    }
  }

  class Iterator<T(==)> {
    var next: Node?<T>
    var fromHead: bool

    constructor (list: List<T>, fromHead: bool)
      ensures this.fromHead == fromHead && next == if fromHead then list.head else list.tail
    {
      this.fromHead := fromHead;
      next := if fromHead then list.head else list.tail;
    }

    method Next() returns (curr: Node?<T>)
      modifies this
      ensures curr == old(next) && fromHead == old(fromHead)
      ensures next == if curr == null then null else if fromHead then curr.next else curr.prev
    {
      curr := next;
      if curr != null {
        next := if fromHead then curr.next else curr.prev;
      }
    }
  }

  // ----- the sweep that removes a node after stepping past it

  ghost function Kept<T>(nodes: seq<Node<T>>, gone: set<Node<T>>): seq<Node<T>> {
    if nodes == [] then [] else (if nodes[0] in gone then [] else [nodes[0]]) + Kept(nodes[1..], gone)
  }

  lemma {:induction false} KeptMembers<T>(nodes: seq<Node<T>>, gone: set<Node<T>>)
    ensures forall n :: n in Kept(nodes, gone) <==> n in nodes && n !in gone
  {
    if nodes != [] {
      KeptMembers(nodes[1..], gone);
      assert nodes == [nodes[0]] + nodes[1..];
    }
  }

  lemma KeptStep<T>(nodes: seq<Node<T>>, gone: set<Node<T>>, i: nat)
    requires i < |nodes|
    ensures Kept(nodes[i..], gone) == (if nodes[i] in gone then [] else [nodes[i]]) + Kept(nodes[i + 1..], gone)
  {
    assert nodes[i..][1..] == nodes[i + 1..];
  }

  /** Where the sweep stands: i nodes to go, the one behind it still to remove. */
  ghost function Swept<T>(nodes: seq<Node<T>>, gone: set<Node<T>>, i: nat, pending: bool): seq<Node<T>>
    requires i <= |nodes| && (pending ==> i < |nodes|)
  {
    if pending then nodes[..i] + [nodes[i]] + Kept(nodes[i + 1..], gone) else nodes[..i] + Kept(nodes[i..], gone)
  }

  lemma SweptRemove<T>(nodes: seq<Node<T>>, gone: set<Node<T>>, i: nat)
    requires i < |nodes| && nodes[i] in gone
    ensures |Swept(nodes, gone, i, true)| > i && Swept(nodes, gone, i, true)[i] == nodes[i]
    ensures Without(Swept(nodes, gone, i, true), i) == Swept(nodes, gone, i, false)
  {
    hide Kept;
    KeptStep(nodes, gone, i);
    var rest := Kept(nodes[i + 1..], gone);
    assert Kept(nodes[i..], gone) == rest;
    Drop(nodes[..i], nodes[i], rest);
  }

  lemma Drop<T>(before: seq<Node<T>>, node: Node<T>, after: seq<Node<T>>)
    ensures (before + [node] + after)[|before|] == node
    ensures Without(before + [node] + after, |before|) == before + after
  {
  }

  lemma SweptVisit<T>(nodes: seq<Node<T>>, gone: set<Node<T>>, i: nat)
    requires 0 < i <= |nodes|
    ensures Swept(nodes, gone, i, false) == Swept(nodes, gone, i - 1, nodes[i - 1] in gone)
  {
    hide Kept;
    KeptStep(nodes, gone, i - 1);
    assert nodes[..i] == nodes[..i - 1] + [nodes[i - 1]];
  }

  ghost predicate SweepAt<T>(list: List<T>, it: Iterator<T>, was: seq<Node<T>>, gone: set<Node<T>>, i: nat, temp: Node?<T>)
    reads list, list.nodes, it
  {
    && i <= |was|
    && (temp == null || (i < |was| && temp == was[i] && temp in gone))
    && list.Valid() && list.nodes == Swept(was, gone, i, temp != null)
    && !it.fromHead && it.next == At(was, i - 1)
  }

  lemma Neighbours<T>(list: List<T>, was: seq<Node<T>>, gone: set<Node<T>>, i: nat)
    requires i < |was| && list.Valid() && list.nodes == Swept(was, gone, i, true)
    ensures was[i].prev == null || was[i].prev in list.nodes
    ensures was[i].next == null || was[i].next in list.nodes
    ensures forall n :: n in list.nodes ==> n in was
  {
    hide Kept;
    KeptMembers(was[i + 1..], gone);
    assert list.nodes[i] == was[i] && LinkedAt(list.nodes, i);
    if i + 1 < |list.nodes| { assert list.nodes[i + 1] in list.nodes; }
    if i > 0 { assert list.nodes[i - 1] in list.nodes; }
  }

  /** Advance the iterator, then remove the node just passed. */
  method Advance<T>(list: List<T>, it: Iterator<T>, temp: Node?<T>, ghost was: seq<Node<T>>, ghost gone: set<Node<T>>, ghost i: nat)
    returns (node: Node?<T>)
    requires SweepAt(list, it, was, gone, i, temp)
    modifies list, it, was
    ensures node == At(was, i - 1)
    ensures list.Valid() && list.nodes == Swept(was, gone, i, false)
    ensures !it.fromHead && (i > 0 ==> it.next == At(was, i - 2))
    ensures forall n :: n in was ==> n.val == old(n.val)
  {
    hide Kept;
    if i > 0 {
      assert list.nodes[i - 1] == was[i - 1] && LinkedAt(list.nodes, i - 1);
      if i > 1 { assert list.nodes[i - 2] == was[i - 2]; }
    }
    node := it.Next();
    if temp != null {
      SweptRemove(was, gone, i);
      Neighbours(list, was, gone, i);
      list.Remove(temp, i);
    }
  }

  method Sweep<T>(list: List<T>, selected: T -> bool) returns (ghost visited: seq<Node<T>>)
    requires list.Valid()
    modifies list, list.nodes
    ensures list.Valid()
    ensures list.nodes == Kept(old(list.nodes), set n | n in old(list.nodes) && selected(old(n.val)))
    ensures |visited| == |old(list.nodes)| && forall i :: 0 <= i < |visited| ==> visited[i] == old(list.nodes)[|visited| - 1 - i]
    ensures forall n :: n in old(list.nodes) ==> n.val == old(n.val)
  {
    hide Kept, Swept;
    ghost var was := list.nodes;
    ghost var gone := set n | n in was && selected(n.val);
    var it := new Iterator(list, false);
    var temp: Node?<T> := null;
    ghost var i := |was|;
    visited := [];
    SweptEnds(was, gone);
    while true
      invariant 0 <= i <= |was| && |visited| == |was| - i
      invariant forall j :: 0 <= j < |visited| ==> visited[j] == was[|was| - 1 - j]
      invariant SweepAt(list, it, was, gone, i, temp) && fresh(it)
      invariant forall n :: n in was ==> n.val == old(n.val)
      decreases i
    {
      var node := Advance(list, it, temp, was, gone, i);
      temp := null;
      if node == null { break; }
      visited := visited + [node];
      SweptVisit(was, gone, i);
      i := i - 1;
      if selected(node.val) { temp := node; }
    }
  }

  lemma SweptEnds<T>(nodes: seq<Node<T>>, gone: set<Node<T>>)
    ensures Swept(nodes, gone, |nodes|, false) == nodes
    ensures Swept(nodes, gone, 0, false) == Kept(nodes, gone)
  {
    KeptNone(gone);
    assert nodes[|nodes|..] == [] && nodes[0..] == nodes;
  }

  lemma KeptNone<T>(gone: set<Node<T>>)
    ensures Kept([], gone) == []
  {
  }
}
