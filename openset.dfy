/** The search's priority queue of (f, count, node) entries. */
module OpenSet {

  datatype Entry<T> = Entry(f: nat, count: nat, node: T)

  /** The queue's ordering: lexicographic on (f, count). */
  predicate KeyLe<T>(a: Entry<T>, b: Entry<T>) {
    a.f < b.f || (a.f == b.f && a.count <= b.count)
  }

  /** KeyLe is a total preorder, as tuple comparison on (f, count) is; two
      entries are equivalent under it only when both f and count agree. */
  lemma KeyOrder<T>(a: Entry<T>, b: Entry<T>, c: Entry<T>)
    ensures KeyLe(a, a)
    ensures KeyLe(a, b) || KeyLe(b, a)
    ensures KeyLe(a, b) && KeyLe(b, c) ==> KeyLe(a, c)
    ensures KeyLe(a, b) && KeyLe(b, a) <==> a.f == b.f && a.count == b.count
  {
  }

  /** Position of an entry with the smallest (f, count) key. */
  function MinAt<T>(q: seq<Entry<T>>): (k: nat)
    requires q != []
    ensures k < |q|
    ensures forall i :: 0 <= i < |q| ==> KeyLe(q[k], q[i])
  {
    if |q| == 1 then 0
    else
      var k := MinAt(q[1..]) + 1;
      if KeyLe(q[0], q[k]) then 0 else k
  }

  /** With counts that are pairwise distinct, the minimum is the only entry
      that is below every other one. */
  lemma MinUnique<T>(q: seq<Entry<T>>, k: nat)
    requires q != [] && k < |q|
    requires forall i, j :: 0 <= i < j < |q| ==> q[i].count != q[j].count
    requires forall i :: 0 <= i < |q| ==> KeyLe(q[k], q[i])
    ensures k == MinAt(q)
  {
  }

  /** The nodes that have an entry in the queue. */
  function Pending<T>(q: seq<Entry<T>>): set<T> {
    set i | 0 <= i < |q| :: q[i].node
  }

  class PriorityQueue<T> {
    var entries: seq<Entry<T>>

    constructor ()
      ensures entries == []
    {
      entries := [];
    }

    predicate Empty()
      reads this
    {
      entries == []
    }

    method Put(e: Entry<T>)
      modifies this
      ensures entries == old(entries) + [e]
    {
      entries := entries + [e];
    }

    /** Removes and returns an entry with the smallest (f, count) key; k is where it was. */
    method Get() returns (e: Entry<T>, ghost k: nat)
      requires entries != []
      modifies this
      ensures k < |old(entries)| && e == old(entries)[k]
      ensures forall i :: 0 <= i < |old(entries)| ==> KeyLe(e, old(entries)[i])
      ensures entries == old(entries)[..k] + old(entries)[k + 1..]
    {
      var at := MinAt(entries);
      k := at;
      e := entries[at];
      entries := entries[..at] + entries[at + 1..];
    }
  }
}
