/**
 * The min-priority queue the A* solver searches with. The solver is written
 * against a priority-queue interface (insert, contains, peek, poll, size,
 * changePriority); this module states that interface's contract on a value
 * that maps each key to its priority.
 *
 * The keys are also kept in arrival order, which makes the minimum a
 * function of the queue: `Peek` and `Poll` agree on which of several
 * equally urgent keys comes first (the one that arrived earliest).
 */
module MinPriorityQueue {

  /** No element occurs twice in `s`. */
  ghost predicate Distinct<V>(s: seq<V>) {
    forall i, j :: 0 <= i < j < |s| ==> s[i] != s[j]
  }

  /**
   * The position of the earliest key of `order` whose priority is minimal
   * among the keys of `order`.
   */
  function MinIndex<V>(order: seq<V>, prio: map<V, real>): (i: nat)
    requires order != []
    requires forall v :: v in order ==> v in prio
    ensures i < |order|
    ensures forall j :: 0 <= j < |order| ==> prio[order[i]] <= prio[order[j]]
    ensures forall j :: 0 <= j < i ==> prio[order[i]] < prio[order[j]]
  {
    if |order| == 1 then 0
    else
      var k := MinIndex(order[..|order| - 1], prio);
      assert order[k] == order[..|order| - 1][k];
      if prio[order[|order| - 1]] < prio[order[k]] then |order| - 1 else k
  }

  /** Removing the element at position `i` of a list without repeats removes exactly that key. */
  lemma RemoveAt<V>(order: seq<V>, i: nat)
    requires Distinct(order) && i < |order|
    ensures Distinct(order[..i] + order[i + 1..])
    ensures forall u :: u in order[..i] + order[i + 1..] <==> u in order && u != order[i]
  {
    var r := order[..i] + order[i + 1..];
    forall u
      ensures u in r <==> u in order && u != order[i]
    {
      if u in order && u != order[i] {
        var j :| 0 <= j < |order| && order[j] == u;
        if j < i {
          assert r[j] == u;
        } else {
          assert r[j - 1] == u;
        }
      }
    }
  }

  /**
   * A queue: `order` lists the keys in arrival order, `prio` gives each
   * key its priority.
   */
  datatype MinPQ<V(!new)> = MinPQ(order: seq<V>, prio: map<V, real>) {

    /** `order` lists each key of `prio` exactly once. */
    ghost predicate Valid() {
      && (forall v :: v in order <==> v in prio)
      && Distinct(order)
      && |order| == |prio|
    }

    /** The number of keys. */
    function Size(): (n: nat)
      requires Valid()
      ensures n == |prio|
      ensures n == 0 <==> prio == map[]
    {
      |order|
    }

    /** Whether `v` is a key. */
    function Contains(v: V): (b: bool)
      requires Valid()
      ensures b <==> v in prio
    {
      v in order
    }

    /** A key of minimal priority; the queue must not be empty. */
    function Peek(): (v: V)
      requires Valid() && prio != map[]
      ensures v in prio
      ensures forall u :: u in prio ==> prio[v] <= prio[u]
    {
      assert order != [] by {
        var u :| u in prio;
        assert u in order;
      }
      var i := MinIndex(order, prio);
      assert forall u :: u in prio ==> exists j :: 0 <= j < |order| && order[j] == u;
      order[i]
    }

    /** The key `Peek` names, and the queue without it. */
    function Poll(): (r: (V, MinPQ<V>))
      requires Valid() && prio != map[]
      ensures r.0 == Peek()
      ensures r.1.Valid() && r.1.prio == prio - {r.0}
    {
      var v := Peek();
      var i := MinIndex(order, prio);
      RemoveAt(order, i);
      (v, MinPQ(order[..i] + order[i + 1..], prio - {v}))
    }

    /** The queue with `v` added at priority `p`; `v` must not be a key yet. */
    function Insert(v: V, p: real): (q: MinPQ<V>)
      requires Valid() && v !in prio
      ensures q.Valid()
      ensures q.prio == prio[v := p]
    {
      MinPQ(order + [v], prio[v := p])
    }

    /** The queue with the key `v` given priority `p`. */
    function ChangePriority(v: V, p: real): (q: MinPQ<V>)
      requires Valid() && v in prio
      ensures q.Valid()
      ensures q.prio == prio[v := p]
    {
      MinPQ(order, prio[v := p])
    }
  }

  /** The empty queue. */
  function Empty<V(!new)>(): (q: MinPQ<V>)
    ensures q.Valid() && q.prio == map[]
  {
    MinPQ([], map[])
  }
}
