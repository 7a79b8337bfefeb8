/** The simulator's event queue (crates/mycelium-sim/src/scheduler.rs).

The heap is modelled by the order in which it gives up its events. The sequence counter is
unbounded: its wrap-around after 2^64 events is not modelled.
*/
module Scheduler {
  import opened Words

  datatype Scheduled<T> = Scheduled(at: u64, number: nat, payload: T)

  predicate Before<T>(a: Scheduled<T>, b: Scheduled<T>) {
    a.at < b.at || (a.at == b.at && a.number < b.number)
  }

  ghost predicate Sorted<T>(q: seq<Scheduled<T>>) {
    forall i, j :: 0 <= i < j < |q| ==> Before(q[i], q[j])
  }

  ghost predicate NumberedUpTo<T>(q: seq<Scheduled<T>>, n: nat) {
    forall i :: 0 <= i < |q| ==> q[i].number <= n
  }

  /** The queue with `e` at its place. */
  function Insert<T>(q: seq<Scheduled<T>>, e: Scheduled<T>): (r: seq<Scheduled<T>>)
    ensures |r| == |q| + 1
  {
    if q == [] || Before(q[|q| - 1], e) then q + [e] else Insert(q[..|q| - 1], e) + [q[|q| - 1]]
  }

  lemma {:induction false} InsertMembers<T>(q: seq<Scheduled<T>>, e: Scheduled<T>)
    ensures forall i :: 0 <= i < |Insert(q, e)| ==> Insert(q, e)[i] == e || Insert(q, e)[i] in q
    ensures multiset(Insert(q, e)) == multiset(q) + multiset{e}
    decreases |q|
  {
    if q != [] && !Before(q[|q| - 1], e) {
      assert q == q[..|q| - 1] + [q[|q| - 1]];
      InsertMembers(q[..|q| - 1], e);
    }
  }

  lemma {:induction false} InsertSorted<T>(q: seq<Scheduled<T>>, e: Scheduled<T>)
    requires Sorted(q) && forall i :: 0 <= i < |q| ==> q[i].number != e.number
    ensures Sorted(Insert(q, e))
    decreases |q|
  {
    if q != [] && !Before(q[|q| - 1], e) {
      var earlier, last := q[..|q| - 1], q[|q| - 1];
      InsertSorted(earlier, e);
      InsertMembers(earlier, e);
      var r := Insert(earlier, e);
      forall i | 0 <= i < |r|
        ensures Before(r[i], last)
      {
        if r[i] != e {
          var k :| 0 <= k < |earlier| && earlier[k] == r[i];
          assert q[k] == r[i];
        }
      }
    }
  }

  class EventScheduler<T> {
    var nextSeq: nat
    var queue: seq<Scheduled<T>>

    ghost predicate Valid()
      reads this
    {
      Sorted(queue) && NumberedUpTo(queue, nextSeq)
    }

    constructor ()
      ensures Valid() && queue == [] && nextSeq == 0
    {
      nextSeq, queue := 0, [];
    }

    method Push(at: u64, payload: T)
      requires Valid()
      modifies this
      ensures Valid()
      ensures nextSeq == old(nextSeq) + 1
      ensures queue == Insert(old(queue), Scheduled(at, nextSeq, payload))
    {
      nextSeq := nextSeq + 1;
      var e := Scheduled(at, nextSeq, payload);
      InsertSorted(queue, e);
      InsertNumbered(queue, e, nextSeq);
      queue := Insert(queue, e);
    }

    /** Gives up the first event in (time, number) order if its time has come. */
    method PopReady(now: u64) returns (r: Option<Scheduled<T>>)
      requires Valid()
      modifies this`queue
      ensures Valid()
      ensures r.Some? <==> old(queue) != [] && old(queue)[0].at <= now
      ensures r.Some? ==> r.value == old(queue)[0] && queue == old(queue)[1..]
      ensures r.Some? ==> forall i :: 0 <= i < |queue| ==> Before(r.value, queue[i])
      ensures r.None? ==> queue == old(queue) && forall i :: 0 <= i < |queue| ==> queue[i].at > now
    {
      if queue != [] && queue[0].at <= now {
        r := Some(queue[0]);
        queue := queue[1..];
      } else {
        r := None;
      }
    }

    /** The earliest time of any event. */
    method NextTimestamp() returns (r: Option<u64>)
      requires Valid()
      ensures r.None? <==> queue == []
      ensures r.Some? ==> r.value == queue[0].at && forall i :: 0 <= i < |queue| ==> r.value <= queue[i].at
    {
      r := if queue == [] then None else Some(queue[0].at);
    }
  }

  lemma InsertNumbered<T>(q: seq<Scheduled<T>>, e: Scheduled<T>, n: nat)
    requires NumberedUpTo(q, n) && e.number <= n
    ensures NumberedUpTo(Insert(q, e), n)
  {
    InsertMembers(q, e);
    var r := Insert(q, e);
    forall i | 0 <= i < |r|
      ensures r[i].number <= n
    {
      assert r[i] == e || r[i] in q;
    }
  }
}
