/** The queues the CCP client's threads share: entries in the order they were
    appended, referred to by identity as the source refers to list nodes. */
module CcpQueue {

  datatype Entry<K> = Entry(id: nat, key: K, deadline: nat, marked: bool)

  /** A node pointer: NULL or a node. */
  datatype Ptr = Null | To(id: nat)

  function Index<K>(list: seq<Entry<K>>, id: nat): (r: int)
    ensures -1 <= r < |list|
    ensures r >= 0 ==> list[r].id == id
    ensures r < 0 ==> forall i :: 0 <= i < |list| ==> list[i].id != id
  {
    if list == [] then -1
    else if list[|list| - 1].id == id then |list| - 1
    else Index(list[..|list| - 1], id)
  }

  predicate Has<K>(list: seq<Entry<K>>, id: nat) { Index(list, id) >= 0 }

  ghost predicate Increasing<K>(list: seq<Entry<K>>) {
    forall i, j :: 0 <= i < j < |list| ==> list[i].id < list[j].id
  }

  lemma IndexAt<K>(list: seq<Entry<K>>, i: nat)
    requires Increasing(list) && i < |list|
    ensures Index(list, list[i].id) == i
  {
  }

  lemma HasAt<K>(list: seq<Entry<K>>, i: nat)
    requires i < |list|
    ensures Has(list, list[i].id)
  {
  }

  function Get<K>(list: seq<Entry<K>>, id: nat): Entry<K>
    requires Has(list, id)
  {
    list[Index(list, id)]
  }

  /** The node before this one, towards the head. */
  function Pred<K>(list: seq<Entry<K>>, id: nat): Ptr {
    var k := Index(list, id);
    if k <= 0 then Null else To(list[k - 1].id)
  }

  function Last<K>(list: seq<Entry<K>>): Ptr {
    if list == [] then Null else To(list[|list| - 1].id)
  }

  function Remove<K>(list: seq<Entry<K>>, id: nat): (r: seq<Entry<K>>)
    requires Has(list, id)
    ensures |r| == |list| - 1
  {
    var k := Index(list, id);
    list[..k] + list[k + 1..]
  }

  function Mark<K>(list: seq<Entry<K>>, hit: Entry<K> -> bool): (r: seq<Entry<K>>)
    ensures |r| == |list|
  {
    seq(|list|, i requires 0 <= i < |list| => if hit(list[i]) then list[i].(marked := true) else list[i])
  }

  function Rearm<K>(list: seq<Entry<K>>, id: nat, deadline: nat): (r: seq<Entry<K>>)
    requires Has(list, id)
    ensures |r| == |list|
  {
    list[Index(list, id) := Get(list, id).(deadline := deadline)]
  }

  /** Two lists of the same nodes, whatever the nodes hold. */
  ghost predicate SameIds<K>(a: seq<Entry<K>>, b: seq<Entry<K>>) {
    |a| == |b| && forall i :: 0 <= i < |a| ==> a[i].id == b[i].id
  }

  lemma {:induction false} SameIndex<K>(a: seq<Entry<K>>, b: seq<Entry<K>>, id: nat)
    requires SameIds(a, b)
    ensures Index(a, id) == Index(b, id) && Pred(a, id) == Pred(b, id)
    decreases |a|
  {
    if a != [] { SameIndex(a[..|a| - 1], b[..|b| - 1], id); }
  }

  lemma MarkSame<K>(list: seq<Entry<K>>, hit: Entry<K> -> bool)
    ensures SameIds(list, Mark(list, hit))
  {
  }

  lemma RearmSame<K>(list: seq<Entry<K>>, id: nat, deadline: nat)
    requires Has(list, id)
    ensures SameIds(list, Rearm(list, id, deadline))
  {
  }

  lemma AppendIndex<K>(list: seq<Entry<K>>, e: Entry<K>, id: nat)
    requires forall i :: 0 <= i < |list| ==> list[i].id < e.id
    ensures Increasing(list) ==> Increasing(list + [e])
    ensures Has(list + [e], id) <==> Has(list, id) || id == e.id
    ensures Has(list, id) ==> Index(list + [e], id) == Index(list, id) && Pred(list + [e], id) == Pred(list, id)
  {
    IndexAppend(list, e, id);
    hide Index;
    if Has(list, id) {
      var k := Index(list, id);
      if k > 0 { assert (list + [e])[k - 1] == list[k - 1]; }
    }
  }

  lemma IndexAppend<K>(list: seq<Entry<K>>, e: Entry<K>, id: nat)
    requires forall i :: 0 <= i < |list| ==> list[i].id < e.id
    ensures Index(list + [e], id) == if id == e.id then |list| else Index(list, id)
    ensures Has(list, id) ==> id != e.id
  {
    assert (list + [e])[..|list|] == list;
  }

  lemma RemoveMap<K>(list: seq<Entry<K>>, t: nat)
    requires Has(list, t)
    ensures forall i :: 0 <= i < |list| - 1 ==> Remove(list, t)[i] == list[if i < Index(list, t) then i else i + 1]
    ensures Increasing(list) ==> Increasing(Remove(list, t))
  {
    hide Index;
  }

  lemma RemoveOther<K>(list: seq<Entry<K>>, t: nat, id: nat)
    requires Increasing(list) && Has(list, t) && Has(list, id) && id != t
    ensures Index(Remove(list, t), id) == if id < t then Index(list, id) else Index(list, id) - 1
    ensures Has(Remove(list, t), id) && Get(Remove(list, t), id) == Get(list, id)
    ensures id < t ==> Pred(Remove(list, t), id) == Pred(list, id)
  {
    RemoveMap(list, t);
    hide Remove, Index;
    var r, i, k := Remove(list, t), Index(list, id), Index(list, t);
    var j := if i < k then i else i - 1;
    assert i != k && (i < k <==> id < t);
    assert r[j] == list[i];
    if 0 < i < k { assert r[i - 1] == list[i - 1]; }
    IndexAt(r, j);
  }

  lemma RemoveAt<K>(list: seq<Entry<K>>, t: nat, id: nat)
    requires Increasing(list) && Has(list, t)
    ensures Increasing(Remove(list, t))
    ensures Has(Remove(list, t), id) <==> Has(list, id) && id != t
    ensures id < t && Has(list, id) ==>
      Index(Remove(list, t), id) == Index(list, id) && Pred(Remove(list, t), id) == Pred(list, id)
    ensures Has(Remove(list, t), id) ==> Get(Remove(list, t), id) == Get(list, id)
  {
    RemoveMap(list, t);
    hide Remove, Index, Pred;
    if Has(list, id) && id != t { RemoveOther(list, t, id); }
    var r, k := Remove(list, t), Index(list, t);
    if Has(r, id) {
      var j := Index(r, id);
      HasAt(list, if j < k then j else j + 1);
    }
  }

  lemma RemoveElements<K>(list: seq<Entry<K>>, t: nat)
    requires Has(list, t)
    ensures forall i :: 0 <= i < |Remove(list, t)| ==> Remove(list, t)[i] in list
  {
    var r, k := Remove(list, t), Index(list, t);
    forall i | 0 <= i < |r| ensures r[i] in list { assert r[i] == list[if i < k then i else i + 1]; }
  }

  lemma PredBelow<K>(list: seq<Entry<K>>, id: nat)
    requires Increasing(list) && Has(list, id)
    ensures Pred(list, id) != Null ==> Pred(list, id).id < id && Has(list, Pred(list, id).id)
    ensures forall i :: 0 <= i < |list| && (Pred(list, id) == Null || list[i].id > Pred(list, id).id) ==> list[i].id >= id
  {
    var k := Index(list, id);
    if k > 0 { HasAt(list, k - 1); }
  }
}
