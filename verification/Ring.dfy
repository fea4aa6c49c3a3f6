/** The circular doubly linked list that threads all entries of a linked hash table
    (c-hacks/src/linked-hashtbl.c). */
module Ring {
  import opened Sequences
  import opened RecencyList
  import opened Chains

  function Succ(i: nat, n: nat): nat { if i + 1 < n then i + 1 else 0 }

  function Pred(i: nat, n: nat): nat { if i > 0 then i - 1 else if n > 0 then n - 1 else 0 }

  /** The nodes of `ring`, in this order, form one circular doubly linked list. */
  ghost predicate RingOk(ring: seq<Entry>)
    reads ring`lnext, ring`lprev
  {
    && Distinct(ring)
    && (forall i {:trigger ring[i].lnext} :: 0 <= i < |ring| ==> ring[i].lnext == ring[Succ(i, |ring|)])
    && (forall i {:trigger ring[i].lprev} :: 0 <= i < |ring| ==> ring[i].lprev == ring[Pred(i, |ring|)])
  }

  lemma RingDistinct(head: Entry, all: seq<Entry>)
    requires RingOk([head] + all)
    ensures Distinct(all)
  {
    assert forall i :: 0 <= i < |all| ==> ([head] + all)[i + 1] == all[i];
  }

  lemma RingDistinctAt(head: Entry, all: seq<Entry>)
    requires RingOk([head] + all)
    ensures forall i :: 0 <= i < |all| ==> all[i] != head
  {
    var ring := [head] + all;
    assert ring[0] == head && forall i :: 0 <= i < |all| ==> ring[i + 1] == all[i];
  }

  lemma RingEnd(ring: seq<Entry>, m: nat)
    requires RingOk(ring) && m < |ring| && ring[Succ(m, |ring|)] == ring[0]
    ensures m == |ring| - 1
  {}

  lemma NotInPrefix(head: Entry, all: seq<Entry>, m: nat)
    requires RingOk([head] + all) && m < |all|
    ensures all[m] !in all[..m]
  {
    RingDistinct(head, all);
  }

  lemma RingClosed(ring: seq<Entry>, i: nat)
    requires Distinct(ring) && 0 < i < |ring|
    requires forall j {:trigger ring[j].lnext} :: 0 <= j < |ring| ==>
      ring[j].lnext == ring[if j == i - 1 then Succ(i, |ring|) else Succ(j, |ring|)]
    requires forall j {:trigger ring[j].lprev} :: 0 <= j < |ring| ==>
      ring[j].lprev == ring[if j == Succ(i, |ring|) then i - 1 else Pred(j, |ring|)]
    ensures RingOk(Without(ring, i))
  {
    hide Without;
    WithoutIndex(ring, i);
    NextClosed(ring, i, Without(ring, i));
    PrevClosed(ring, i, Without(ring, i));
  }

  lemma NextClosed(ring: seq<Entry>, i: nat, r: seq<Entry>)
    requires Distinct(ring) && 0 < i < |ring| && |r| == |ring| - 1
    requires forall j :: 0 <= j < |r| ==> r[j] == ring[if j < i then j else j + 1]
    requires forall j {:trigger ring[j].lnext} :: 0 <= j < |ring| ==>
      ring[j].lnext == ring[if j == i - 1 then Succ(i, |ring|) else Succ(j, |ring|)]
    ensures Distinct(r)
    ensures forall j {:trigger r[j].lnext} :: 0 <= j < |r| ==> r[j].lnext == r[Succ(j, |r|)]
  {}

  lemma PrevClosed(ring: seq<Entry>, i: nat, r: seq<Entry>)
    requires Distinct(ring) && 0 < i < |ring| && |r| == |ring| - 1
    requires forall j :: 0 <= j < |r| ==> r[j] == ring[if j < i then j else j + 1]
    requires forall j {:trigger ring[j].lprev} :: 0 <= j < |ring| ==>
      ring[j].lprev == ring[if j == Succ(i, |ring|) then i - 1 else Pred(j, |ring|)]
    ensures forall j {:trigger r[j].lprev} :: 0 <= j < |r| ==> r[j].lprev == r[Pred(j, |r|)]
  {}

  /** list_add_before(node, head): the node comes right after the head. */
  method ListAdd(node: Entry, head: Entry, ghost ring: seq<Entry>)
    requires ring != [] && RingOk(ring) && head == ring[0] && node !in ring
    modifies node`lnext, node`lprev, ring`lnext, ring`lprev
    ensures RingOk([head, node] + ring[1..])
  {
    var prev, next := head, head.lnext;
    assert next == ring[Succ(0, |ring|)];
    node.lnext := next;
    node.lprev := prev;
    prev.lnext := node;
    next.lprev := node;
    NextOpened(ring, node, [head, node] + ring[1..]);
    PrevOpened(ring, node, [head, node] + ring[1..]);
  }

  lemma NextOpened(ring: seq<Entry>, node: Entry, r: seq<Entry>)
    requires ring != [] && Distinct(ring) && node !in ring && r == [ring[0], node] + ring[1..]
    requires node.lnext == ring[Succ(0, |ring|)] && ring[0].lnext == node
    requires forall j {:trigger ring[j].lnext} :: 1 <= j < |ring| ==> ring[j].lnext == ring[Succ(j, |ring|)]
    ensures Distinct(r)
    ensures forall j {:trigger r[j].lnext} :: 0 <= j < |r| ==> r[j].lnext == r[Succ(j, |r|)]
  {
    assert forall j :: 2 <= j < |r| ==> r[j] == ring[j - 1];
  }

  lemma PrevOpened(ring: seq<Entry>, node: Entry, r: seq<Entry>)
    requires ring != [] && Distinct(ring) && node !in ring && r == [ring[0], node] + ring[1..]
    requires node.lprev == ring[0] && ring[Succ(0, |ring|)].lprev == node
    requires forall j {:trigger ring[j].lprev} :: 0 <= j < |ring| && j != Succ(0, |ring|) ==>
      ring[j].lprev == ring[Pred(j, |ring|)]
    ensures forall j {:trigger r[j].lprev} :: 0 <= j < |r| ==> r[j].lprev == r[Pred(j, |r|)]
  {
    assert forall j :: 2 <= j < |r| ==> r[j] == ring[j - 1];
  }

  /** list_remove(node): the ring closes over its i-th node. */
  method ListRemove(node: Entry, ghost ring: seq<Entry>, ghost i: nat)
    requires RingOk(ring) && 0 < i < |ring| && ring[i] == node
    modifies ring`lnext, ring`lprev
    ensures RingOk(Without(ring, i))
  {
    ghost var p, q := Pred(i, |ring|), Succ(i, |ring|);
    assert node.lprev == ring[p] && node.lnext == ring[q];
    node.lprev.lnext := node.lnext;
    node.lnext.lprev := node.lprev;
    RingClosed(ring, i);
  }

  /** Take the i-th entry out of the ring of `head` and `all`. */
  method ListTake(e: Entry, ghost head: Entry, ghost all: seq<Entry>, ghost i: nat)
    requires RingOk([head] + all) && i < |all| && all[i] == e
    modifies head`lnext, head`lprev, all`lnext, all`lprev
    ensures RingOk([head] + Without(all, i)) && e !in [head] + Without(all, i)
  {
    ghost var ring := [head] + all;
    assert ring[i + 1] == e;
    ListRemove(e, ring, i + 1);
    assert Without(ring, i + 1) == [head] + Without(all, i);
    WithoutIndex(ring, i + 1);
  }

  /** Put an entry at the front of the ring of `head` and `all`. */
  method ListPut(e: Entry, head: Entry, ghost all: seq<Entry>)
    requires RingOk([head] + all) && e !in [head] + all
    modifies e`lnext, e`lprev, head`lnext, head`lprev, all`lnext, all`lprev
    ensures RingOk([head] + ([e] + all))
  {
    ghost var ring := [head] + all;
    ListAdd(e, head, ring);
    assert [head, e] + ring[1..] == [head] + ([e] + all);
  }

  /** The two list calls of record_access. */
  method MoveToFront(e: Entry, head: Entry, ghost all: seq<Entry>, ghost i: nat)
    requires RingOk([head] + all) && i < |all| && all[i] == e
    modifies head`lnext, head`lprev, all`lnext, all`lprev
    ensures RingOk([head] + ToFront(all, i))
  {
    hide RingOk;
    ListTake(e, head, all, i);
    ListPut(e, head, Without(all, i));
  }
}
