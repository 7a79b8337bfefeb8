/** The bounded sending queue of a node (crates/mycelium-node/src/node.rs, `enqueue` and `evict_one`). */
module PendingQueue {
  import opened Words
  import opened Mesh
  import opened Sequences

  datatype Pending = Pending(to: Peer, m: Message)

  function Rank(p: Priority): nat {
    match p case Low => 0 case Normal => 1 case High => 2
  }

  /** The items that have not expired, in order. */
  function Alive(q: seq<Pending>, now: u64): seq<Pending> {
    if q == [] then [] else
      var last := q[|q| - 1];
      Alive(q[..|q| - 1], now) + (if last.m.Expired(now) then [] else [last])
  }

  /** The item to give up: the earliest among those of lowest priority. */
  function Victim(q: seq<Pending>): (v: nat)
    requires q != []
    ensures v < |q|
  {
    if |q| == 1 then 0 else
      var v := Victim(q[..|q| - 1]);
      if Rank(q[|q| - 1].m.priority) < Rank(q[v].m.priority) then |q| - 1 else v
  }

  lemma {:induction false} VictimIsEarliestLowest(q: seq<Pending>)
    requires q != []
    ensures forall j :: 0 <= j < |q| ==> Rank(q[Victim(q)].m.priority) <= Rank(q[j].m.priority)
    ensures forall j :: 0 <= j < Victim(q) ==> Rank(q[Victim(q)].m.priority) < Rank(q[j].m.priority)
    decreases |q|
  {
    if |q| > 1 {
      VictimIsEarliestLowest(q[..|q| - 1]);
    }
  }

  function Evicted(q: seq<Pending>, cap: nat, now: u64): seq<Pending> {
    var alive := Alive(q, now);
    if |alive| < cap || alive == [] then alive else alive[..Victim(alive)] + alive[Victim(alive) + 1..]
  }

  /** The queue after a request to send at `now`; `evictNow` is the clock when room is made. */
  function Enqueued(q: seq<Pending>, cap: nat, item: Pending, now: u64, evictNow: u64): seq<Pending> {
    if item.m.Expired(now) then q
    else
      var room := if |q| >= cap then Evicted(q, cap, evictNow) else q;
      if |room| >= cap then room else room + [item]
  }

  lemma {:induction false} AliveIsSelect(q: seq<Pending>, now: u64, keep: Pending -> bool)
    requires forall item :: keep(item) <==> now < item.m.Expiry()
    ensures Alive(q, now) == Select(q, keep)
    decreases |q|
  {
    if q != [] {
      AliveIsSelect(q[..|q| - 1], now, keep);
    }
  }

  /** Exactly the live items survive, each as often as before and in order. */
  lemma AliveSelects(q: seq<Pending>, now: u64, keep: Pending -> bool)
    requires forall item :: keep(item) <==> now < item.m.Expiry()
    ensures IsSelection(Alive(q, now), q, keep) && |Alive(q, now)| <= |q|
  {
    AliveIsSelect(q, now, keep);
    SelectIsSelection(q, keep, Alive(q, now));
  }

  lemma AliveSurvive(q: seq<Pending>, now: u64)
    ensures Subsequence(Alive(q, now), q) && |Alive(q, now)| <= |q|
  {
    AliveSelects(q, now, (item: Pending) => now < item.m.Expiry());
  }

  ghost predicate AllLive(q: seq<Pending>, now: u64) {
    forall i :: 0 <= i < |q| ==> now < q[i].m.Expiry()
  }

  lemma {:induction false} AliveAll(q: seq<Pending>, now: u64)
    requires AllLive(q, now)
    ensures Alive(q, now) == q
    decreases |q|
  {
    if q != [] {
      AliveAll(q[..|q| - 1], now);
    }
  }

  /** Making room keeps the survivors in order and leaves room whenever the capacity is not zero;
  a live item goes only if every item is live and the queue is still full. */
  lemma EvictionMakesRoom(q: seq<Pending>, cap: nat, now: u64)
    requires |q| <= cap
    ensures Subsequence(Evicted(q, cap, now), q)
    ensures cap > 0 ==> |Evicted(q, cap, now)| < cap
    ensures |Alive(q, now)| < |q| ==> Evicted(q, cap, now) == Alive(q, now)
  {
    var alive := Alive(q, now);
    AliveSurvive(q, now);
    if |alive| >= cap && alive != [] {
      RemoveOneSurvives(alive, Victim(alive));
      SubsequenceTransitive(Evicted(q, cap, now), alive, q);
    }
  }

  /** The queue never exceeds its capacity, and with room to spare a live item simply goes last. */
  lemma EnqueueBounded(q: seq<Pending>, cap: nat, item: Pending, now: u64, evictNow: u64)
    requires |q| <= cap
    ensures |Enqueued(q, cap, item, now, evictNow)| <= cap
    ensures |q| < cap && !item.m.Expired(now) ==> Enqueued(q, cap, item, now, evictNow) == q + [item]
  {
    EvictionMakesRoom(q, cap, evictNow);
  }

  /** With a capacity of at least one a live item is always queued, behind survivors in their old order. */
  lemma EnqueueKeepsOrder(q: seq<Pending>, cap: nat, item: Pending, now: u64, evictNow: u64)
    requires |q| <= cap && cap > 0 && !item.m.Expired(now)
    ensures var q' := Enqueued(q, cap, item, now, evictNow);
            q' != [] && q'[|q'| - 1] == item && Subsequence(q'[..|q'| - 1], q)
  {
    EvictionMakesRoom(q, cap, evictNow);
    SubsequenceSelf(q);
    var room := if |q| >= cap then Evicted(q, cap, evictNow) else q;
    assert (room + [item])[..|room|] == room;
  }

  /** `a` is of lower priority than `b`. */
  predicate Below(a: Priority, b: Priority) {
    (a == Low && b != Low) || (a == Normal && b == High)
  }

  /** Item `v` is the earliest of those than which none is of lower priority. */
  ghost predicate IsEarliestLowest(q: seq<Pending>, v: nat) {
    && v < |q|
    && (forall j :: 0 <= j < |q| ==> !Below(q[j].m.priority, q[v].m.priority))
    && (forall j :: 0 <= j < v ==> Below(q[v].m.priority, q[j].m.priority))
  }

  lemma VictimIsIt(q: seq<Pending>, v: nat)
    requires q != []
    ensures IsEarliestLowest(q, v) <==> v == Victim(q)
  {
    VictimIsEarliestLowest(q);
    var lowest := q[Victim(q)].m.priority;
    assert v < |q| ==> (Below(lowest, q[v].m.priority) <==> Rank(lowest) < Rank(q[v].m.priority));
  }

  /** A live item that meets a queue full of live items takes the last place, and precisely the
  earliest item of lowest priority leaves. */
  lemma FullQueueGivesUpLowest(q: seq<Pending>, cap: nat, item: Pending, now: u64, evictNow: u64, v: nat)
    requires |q| == cap > 0 && now < item.m.Expiry() && AllLive(q, evictNow)
    requires IsEarliestLowest(q, v)
    ensures Enqueued(q, cap, item, now, evictNow) == q[..v] + q[v + 1..] + [item]
  {
    var rest := q[..v] + q[v + 1..];
    assert Evicted(q, cap, evictNow) == rest by {
      EvictsLowest(q, cap, evictNow);
    }
    assert |rest| < cap;
  }

  /** A live item that meets a full queue with expired items takes the last place behind exactly the
  live ones, in order. */
  lemma FullQueueGivesUpExpired(q: seq<Pending>, cap: nat, item: Pending, now: u64, evictNow: u64, keep: Pending -> bool)
    requires |q| == cap > 0 && now < item.m.Expiry() && exists i :: 0 <= i < |q| && evictNow >= q[i].m.Expiry()
    requires forall x :: keep(x) <==> evictNow < x.m.Expiry()
    ensures var q' := Enqueued(q, cap, item, now, evictNow);
            q' != [] && q'[|q'| - 1] == item && IsSelection(q'[..|q'| - 1], q, keep)
  {
    var alive := Alive(q, evictNow);
    AliveSelects(q, evictNow, keep);
    var i :| 0 <= i < |q| && evictNow >= q[i].m.Expiry();
    SelectionShorter(alive, q, keep, i);
    assert (alive + [item])[..|alive|] == alive;
  }

  /** An expired item changes nothing, and with room to spare a live one simply goes last. */
  lemma EnqueueOtherwise(q: seq<Pending>, cap: nat, item: Pending, now: u64, evictNow: u64)
    ensures now >= item.m.Expiry() ==> Enqueued(q, cap, item, now, evictNow) == q
    ensures now < item.m.Expiry() && |q| < cap ==> Enqueued(q, cap, item, now, evictNow) == q + [item]
  {}

  /** The scan of `evict_one`, which stops at the first item of the lowest rank. Only an empty queue has no victim. */
  method FindVictim(q: seq<Pending>) returns (candidate: Option<nat>)
    ensures candidate == if q == [] then None else Some(Victim(q))
  {
    var rank, i := 3, 0;
    candidate := None;
    while i < |q| && rank != 0
      invariant 0 <= i <= |q|
      invariant i == 0 ==> candidate == None && rank == 3
      invariant i > 0 ==> candidate == Some(Victim(q[..i])) && rank == Rank(q[Victim(q[..i])].m.priority)
    {
      assert q[..i + 1][..i] == q[..i];
      var r := Rank(q[i].m.priority);
      if r < rank {
        rank, candidate := r, Some(i);
      }
      i := i + 1;
    }
    if q != [] {
      LowestRankIsFinal(q, i);
    }
  }

  class PendingQueue {
    const cap: nat
    var pending: seq<Pending>

    ghost predicate Valid()
      reads this
    {
      |pending| <= cap
    }

    constructor (cap: nat)
      ensures Valid() && this.cap == cap && pending == []
    {
      this.cap, pending := cap, [];
    }

    method EvictExpired(now: u64)
      modifies this
      ensures pending == Alive(old(pending), now)
    {
      var kept := [];
      for i := 0 to |pending|
        invariant pending == old(pending) && kept == Alive(pending[..i], now)
      {
        assert pending[..i + 1][..i] == pending[..i];
        if !pending[i].m.Expired(now) {
          kept := kept + [pending[i]];
        }
      }
      assert pending[..|pending|] == pending;
      pending := kept;
    }

    method EvictOne(now: u64)
      modifies this
      ensures pending == Evicted(old(pending), cap, now)
    {
      EvictExpired(now);
      if |pending| < cap {
        return;
      }
      var candidate := FindVictim(pending);
      if candidate.Some? {
        pending := pending[..candidate.value] + pending[candidate.value + 1..];
      }
    }

    /** `ok` is false exactly for the source's "pending queue is full". */
    method Enqueue(item: Pending, now: u64, evictNow: u64) returns (ok: bool)
      requires Valid()
      modifies this
      ensures Valid()
      ensures pending == Enqueued(old(pending), cap, item, now, evictNow)
      ensures ok <==> item.m.Expired(now) || cap > 0
      ensures now < item.m.Expiry() && |old(pending)| == cap && AllLive(old(pending), evictNow) ==>
                forall v: nat :: IsEarliestLowest(old(pending), v) ==> pending == old(pending)[..v] + old(pending)[v + 1..] + [item]
    {
      if |pending| == cap && AllLive(pending, evictNow) {
        EvictsLowest(pending, cap, evictNow);
      }
      EnqueueBounded(pending, cap, item, now, evictNow);
      EvictionMakesRoom(pending, cap, evictNow);
      if item.m.Expired(now) {
        return true;
      }
      if |pending| >= cap {
        EvictOne(evictNow);
      }
      if |pending| >= cap {
        return false;
      }
      pending := pending + [item];
      return true;
    }
  }

  lemma EvictsLowest(q: seq<Pending>, cap: nat, now: u64)
    requires |q| == cap && AllLive(q, now)
    ensures forall v: nat :: IsEarliestLowest(q, v) ==> Evicted(q, cap, now) == q[..v] + q[v + 1..]
  {
    AliveAll(q, now);
    forall v: nat | IsEarliestLowest(q, v)
      ensures Evicted(q, cap, now) == q[..v] + q[v + 1..]
    {
      VictimIsIt(q, v);
    }
  }

  /** Once an item of the lowest rank is found, nothing later can replace it. */
  lemma {:induction false} LowestRankIsFinal(q: seq<Pending>, i: nat)
    requires 0 < i <= |q| && (i < |q| ==> Rank(q[Victim(q[..i])].m.priority) == 0)
    ensures Victim(q) == Victim(q[..i])
    decreases |q|
  {
    if i == |q| {
      assert q[..i] == q;
    } else {
      var earlier := q[..|q| - 1];
      assert earlier[..i] == q[..i];
      LowestRankIsFinal(earlier, i);
    }
  }
}
