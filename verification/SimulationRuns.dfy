/** What every run of the simulator keeps: order, punctuality, bandwidth and the fate of every send. */
module SimulationRuns {
  import opened Words
  import opened Mesh
  import opened Scheduler
  import opened Simulation

  // ----------------------------------------------------------------- the books

  function Deliveries(q: seq<Scheduled<Action>>): nat {
    if q == [] then 0 else Deliveries(q[..|q| - 1]) + (if q[|q| - 1].payload.Deliver? then 1 else 0)
  }

  function CountOutcome(h: seq<Done>, o: Outcome): nat {
    if h == [] then 0 else CountOutcome(h[..|h| - 1], o) + (if h[|h| - 1].outcome == o then 1 else 0)
  }

  function BytesOf(d: Done): nat {
    if d.outcome == Handed && d.event.payload.Deliver? then d.event.payload.bytes else 0
  }

  function TotalBytes(h: seq<Done>): nat {
    if h == [] then 0 else TotalBytes(h[..|h| - 1]) + BytesOf(h[|h| - 1])
  }

  predicate IsArrival(d: Done) {
    d.outcome == Handed && d.event.payload.Deliver? && Tracked(d.event.payload.to, d.event.payload.packet).Some?
  }

  function Arrivals(h: seq<Done>): nat {
    if h == [] then 0 else Arrivals(h[..|h| - 1]) + (if IsArrival(h[|h| - 1]) then 1 else 0)
  }

  /** Bytes handed to one peer within one second of simulated time. */
  function BytesIn(h: seq<Done>, p: Peer, second: nat): nat {
    if h == [] then 0 else
      var d := h[|h| - 1];
      BytesIn(h[..|h| - 1], p, second) +
      (if d.event.payload.Deliver? && d.event.payload.to == p && d.now / 1000 == second then BytesOf(d) else 0)
  }

  lemma HistoryPush(h: seq<Done>, d: Done, o: Outcome, p: Peer, second: nat)
    ensures CountOutcome(h + [d], o) == CountOutcome(h, o) + (if d.outcome == o then 1 else 0)
    ensures TotalBytes(h + [d]) == TotalBytes(h) + BytesOf(d)
    ensures Arrivals(h + [d]) == Arrivals(h) + (if IsArrival(d) then 1 else 0)
    ensures BytesIn(h + [d], p, second) == BytesIn(h, p, second) +
              (if d.event.payload.Deliver? && d.event.payload.to == p && d.now / 1000 == second then BytesOf(d) else 0)
  {
    assert (h + [d])[..|h|] == h;
  }

  lemma {:induction false} DeliveriesInsert(q: seq<Scheduled<Action>>, e: Scheduled<Action>)
    ensures Deliveries(Insert(q, e)) == Deliveries(q) + (if e.payload.Deliver? then 1 else 0)
    decreases |q|
  {
    if q == [] || Before(q[|q| - 1], e) {
      assert (q + [e])[..|q|] == q;
    } else {
      DeliveriesInsert(q[..|q| - 1], e);
      var r := Insert(q[..|q| - 1], e);
      assert (r + [q[|q| - 1]])[..|r|] == r;
    }
  }

  lemma {:induction false} DeliveriesPop(q: seq<Scheduled<Action>>)
    requires q != []
    ensures Deliveries(q) == Deliveries(q[1..]) + (if q[0].payload.Deliver? then 1 else 0)
    decreases |q|
  {
    if |q| == 1 {
      assert q[1..] == [] && q[..0] == [];
    } else {
      DeliveriesPop(q[..|q| - 1]);
      assert q[1..][..|q| - 2] == q[..|q| - 1][1..];
    }
  }

  // -------------------------------------------------------------- invariants

  ghost predicate QueueSound(s: Sim) {
    Sorted(s.queue) && NumberedUpTo(s.queue, s.nextSeq)
  }

  /** Every attempt to send is accounted for exactly once. */
  ghost predicate Balanced(s: Sim) {
    && s.offered == s.metrics.droppedOffline + s.metrics.droppedLoss + s.unlinked
                    + CountOutcome(s.history, OverBudget) + CountOutcome(s.history, Handed) + Deliveries(s.queue)
    && s.metrics.droppedBandwidth == CountOutcome(s.history, OverBudget)
  }

  /** The metrics say what the history says. */
  ghost predicate Recorded(s: Sim) {
    && s.metrics.sentBytes == TotalBytes(s.history)
    && s.metrics.delivered == |s.deliveredIds| == |s.metrics.latencies|
    && s.metrics.delivered + s.metrics.duplicates == Arrivals(s.history)
  }

  /** Peer by peer and second by second, usage is what was handed over (up to saturation) and
  stays within any budget short of the largest word. */
  ghost predicate BudgetKept(s: Sim, p: Peer, second: nat) {
    && Used(s.usage, p, second) == Min(U64_MAX, BytesIn(s.history, p, second))
    && (Budget(s.nodes, p) < U64_MAX ==> BytesIn(s.history, p, second) <= Budget(s.nodes, p))
  }

  ghost predicate WithinBudget(s: Sim) {
    forall p, second: nat :: BudgetKept(s, p, second)
  }

  ghost predicate Sound(s: Sim) {
    QueueSound(s) && Balanced(s) && Recorded(s) && WithinBudget(s)
  }

  /** Nothing is overdue, every event was executed exactly at its time, and in (time, number) order. */
  ghost predicate Timely(s: Sim) {
    && (forall k :: 0 <= k < |s.queue| ==> s.now <= s.queue[k].at)
    && (forall i :: 0 <= i < |s.history| ==> var d := s.history[i]; d.now == d.event.at <= s.now && d.event.number <= s.nextSeq)
    && (forall i, j :: 0 <= i < j < |s.history| ==> Before(s.history[i].event, s.history[j].event))
    && (forall i, k :: 0 <= i < |s.history| && 0 <= k < |s.queue| ==> Before(s.history[i].event, s.queue[k]))
  }

  ghost predicate Keeps(s: Sim, s': Sim) {
    Sound(s) ==> Sound(s') && (Timely(s) ==> Timely(s'))
  }

  // --------------------------------------------------------------- scheduling

  /** The queue after a push at `at`. */
  lemma PushQueue(s: Sim, at: u64, a: Action)
    requires QueueSound(s)
    ensures QueueSound(Pushed(s, at, a))
    ensures Timely(s) && at >= s.now ==> Timely(Pushed(s, at, a))
  {
    var e := Scheduled(at, s.nextSeq + 1, a);
    InsertSorted(s.queue, e);
    InsertNumbered(s.queue, e, s.nextSeq + 1);
    InsertMembers(s.queue, e);
    if Timely(s) && at >= s.now {
      var q := Insert(s.queue, e);
      forall k | 0 <= k < |q|
        ensures s.now <= q[k].at
        ensures forall i :: 0 <= i < |s.history| ==> Before(s.history[i].event, q[k])
      {
        if q[k] != e {
          var j :| 0 <= j < |s.queue| && s.queue[j] == q[k];
        }
      }
    }
  }

  /** Scheduling is timely exactly when it does not reach into the past. */
  lemma LatePush(s: Sim, at: u64, a: Action)
    requires QueueSound(s) && Timely(s)
    ensures Timely(Pushed(s, at, a)) <==> at >= s.now
  {
    PushQueue(s, at, a);
    if at < s.now {
      var e := Scheduled(at, s.nextSeq + 1, a);
      var q := Insert(s.queue, e);
      InsertHas(s.queue, e);
      var k :| 0 <= k < |q| && q[k] == e;
      assert q[k].at < s.now;
    }
  }

  lemma InsertHas<T>(q: seq<Scheduled<T>>, e: Scheduled<T>)
    ensures exists k :: 0 <= k < |Insert(q, e)| && Insert(q, e)[k] == e
  {
    InsertMembers(q, e);
    var r := Insert(q, e);
    assert e in multiset(r);
    assert e in r;
  }

  /** A message leaves: both ends are online and linked and the dice allow it. */
  predicate Leaves(s: Sim, from: Peer, to: Peer) {
    Online(s.nodes, from) && Online(s.nodes, to) && (from, to) in s.links && !Lost(s.rng, s.links[(from, to)].lossPerMille)
  }

  /** An attempt to send is a push or leaves the queue alone. */
  lemma OfferCases(s: Sim, from: Peer, to: Peer, a: Action, scoped: bool)
    ensures var s' := Offer(s, from, to, a, scoped);
            if Leaves(s, from, to) then
              var link := s.links[(from, to)];
              s' == Pushed(s.(offered := s.offered + 1, rng := RngAfter(s.rng, link.lossPerMille)), SatAdd(s.now, link.latency), a)
            else s'.queue == s.queue && s'.nextSeq == s.nextSeq
  {}

  lemma SameQueue(s: Sim, s': Sim)
    requires s'.now == s.now && s'.queue == s.queue && s'.nextSeq == s.nextSeq && s'.history == s.history
    ensures QueueSound(s) ==> QueueSound(s')
    ensures Timely(s) ==> Timely(s')
  {}

  lemma OfferQueue(s: Sim, from: Peer, to: Peer, a: Action, scoped: bool)
    requires QueueSound(s)
    ensures QueueSound(Offer(s, from, to, a, scoped))
    ensures Timely(s) ==> Timely(Offer(s, from, to, a, scoped))
  {
    OfferCases(s, from, to, a, scoped);
    if Leaves(s, from, to) {
      var link := s.links[(from, to)];
      var r := s.(offered := s.offered + 1, rng := RngAfter(s.rng, link.lossPerMille));
      SameQueue(s, r);
      PushQueue(r, SatAdd(s.now, link.latency), a);
    } else {
      OfferFrame(s, from, to, a, scoped);
      SameQueue(s, Offer(s, from, to, a, scoped));
    }
  }

  lemma OfferBooks(s: Sim, from: Peer, to: Peer, a: Action, scoped: bool)
    requires a.Deliver?
    ensures Balanced(s) ==> Balanced(Offer(s, from, to, a, scoped))
    ensures Recorded(s) ==> Recorded(Offer(s, from, to, a, scoped))
    ensures WithinBudget(s) ==> WithinBudget(Offer(s, from, to, a, scoped))
  {
    OfferFrame(s, from, to, a, scoped);
    var s' := Offer(s, from, to, a, scoped);
    if (from, to) in s.links {
      DeliveriesInsert(s.queue, Scheduled(SatAdd(s.now, s.links[(from, to)].latency), s.nextSeq + 1, a));
    }
    if WithinBudget(s) {
      forall p, second: nat
        ensures BudgetKept(s', p, second)
      {
        assert BudgetKept(s, p, second);
      }
    }
  }

  lemma OfferKeeps(s: Sim, from: Peer, to: Peer, a: Action, scoped: bool)
    requires a.Deliver?
    ensures Keeps(s, Offer(s, from, to, a, scoped))
  {
    if Sound(s) {
      OfferQueue(s, from, to, a, scoped);
      OfferBooks(s, from, to, a, scoped);
    }
  }

  lemma {:induction false} PublishKeeps(s: Sim, from: Peer, size: u64, names: seq<Peer>)
    ensures Keeps(s, Publish(s, from, size, names))
    decreases |names|
  {
    if names != [] {
      var a := Deliver(names[0], None, SatAdd(size, 32));
      OfferKeeps(s, from, names[0], a, true);
      PublishKeeps(if names[0] == from then s else Offer(s, from, names[0], a, true), from, size, names[1..]);
    }
  }

  lemma {:induction false} ScheduleAllKeeps(s: Sim)
    ensures Keeps(s, ScheduleAll(s))
    decreases |s.commands|
  {
    if s.commands != [] {
      var s1, c := s.(commands := s.commands[1..]), s.commands[0];
      CommandsIrrelevant(s, s.commands[1..]);
      match c {
        case SendDirect(from, to, packet) => OfferKeeps(s1, from, to, Deliver(to, Some(packet), packet.size), false);
        case PublishScoped(from, size) => PublishKeeps(s1, from, size, s1.names);
      }
      ScheduleFrame(s1, c);
      ScheduleAllKeeps(Schedule(s1, c));
    }
  }

  lemma CommandsIrrelevant(s: Sim, commands: seq<Command>)
    ensures Keeps(s, s.(commands := commands))
  {
    if WithinBudget(s) {
      var s' := s.(commands := commands);
      forall p, second: nat
        ensures BudgetKept(s', p, second)
      {
        assert BudgetKept(s, p, second);
      }
    }
  }

  // ---------------------------------------------------------------- executing

  lemma HandOverBooks(s: Sim, to: Peer, packet: Option<Packet>, bytes: u64)
    requires s.metrics.delivered == |s.deliveredIds| == |s.metrics.latencies|
    ensures var (m, m') := (s.metrics, HandOver(s, to, packet, bytes).metrics);
            && m'.droppedOffline == m.droppedOffline && m'.droppedLoss == m.droppedLoss
            && m'.droppedBandwidth == m.droppedBandwidth + (if Fits(s, to, bytes) then 0 else 1)
            && m'.sentBytes == m.sentBytes + (if Fits(s, to, bytes) then bytes else 0)
            && m'.delivered == |HandOver(s, to, packet, bytes).deliveredIds| == |m'.latencies|
            && m'.delivered + m'.duplicates ==
               m.delivered + m.duplicates + (if Fits(s, to, bytes) && Tracked(to, packet).Some? then 1 else 0)
  {
    if Tracked(to, packet).Some? {
      var key := DeliveryKey(to, Tracked(to, packet).value);
      MapSize(s.deliveredIds, key, s.now);
    }
  }

  lemma MapSize(m: map<string, u64>, key: string, value: u64)
    ensures |m[key := value]| == if key in m then |m| else |m| + 1
  {
    assert m[key := value].Keys == m.Keys + {key};
  }

  lemma ExecuteBooks(s: Sim)
    requires Ready(s) && Balanced(s) && Recorded(s)
    ensures Balanced(Execute(s)) && Recorded(Execute(s))
  {
    var e := s.queue[0];
    var d := Done(e, s.now, OutcomeOf(s, e.payload));
    ExecuteFrame(s);
    HistoryPush(s.history, d, OverBudget, "", 0);
    HistoryPush(s.history, d, Handed, "", 0);
    DeliveriesPop(s.queue);
    if e.payload.Deliver? {
      var s' := s.(queue := s.queue[1..], history := s.history + [d]);
      HandOverBooks(s', e.payload.to, e.payload.packet, e.payload.bytes);
    }
  }

  lemma ExecuteUsage(s: Sim, p: Peer)
    requires Ready(s)
    ensures Budget(Execute(s).nodes, p) == Budget(s.nodes, p)
    ensures s.queue[0].payload.Availability? ==> Execute(s).usage == s.usage
    ensures s.queue[0].payload.Deliver? ==> Execute(s).usage == Consumed(s, s.queue[0].payload.to, s.queue[0].payload.bytes)
  {
    var e := s.queue[0];
    var s' := s.(queue := s.queue[1..], history := s.history + [Done(e, s.now, OutcomeOf(s, e.payload))]);
    if e.payload.Deliver? {
      HandOverFrame(s', e.payload.to, e.payload.packet, e.payload.bytes);
    }
  }

  lemma ExecuteBudgetAt(s: Sim, p: Peer, second: nat)
    requires Ready(s) && BudgetKept(s, p, second)
    ensures BudgetKept(Execute(s), p, second)
  {
    ExecuteFrame(s);
    ExecuteUsage(s, p);
    HistoryPush(s.history, Done(s.queue[0], s.now, OutcomeOf(s, s.queue[0].payload)), Handed, p, second);
  }

  /** A budget of the largest word is never enforced, because the sum it is compared with saturates:
  two full-sized events in one second exceed it. */
  lemma LargestBudgetNotEnforced(s: Sim, p: Peer, packet: Option<Packet>)
    requires Ready(s) && Ready(Execute(s)) && Budget(s.nodes, p) == U64_MAX
    requires s.queue[0].payload == Deliver(p, packet, U64_MAX) == Execute(s).queue[0].payload
    ensures BytesIn(Execute(Execute(s)).history, p, s.now / 1000) > Budget(Execute(Execute(s)).nodes, p)
  {
    FullHandOver(s, p, packet);
    FullHandOver(Execute(s), p, packet);
  }

  lemma FullHandOver(s: Sim, p: Peer, packet: Option<Packet>)
    requires Ready(s) && Budget(s.nodes, p) == U64_MAX && s.queue[0].payload == Deliver(p, packet, U64_MAX)
    ensures BytesIn(Execute(s).history, p, s.now / 1000) == BytesIn(s.history, p, s.now / 1000) + U64_MAX
    ensures Budget(Execute(s).nodes, p) == U64_MAX && Execute(s).now == s.now
  {
    ExecuteFrame(s);
    ExecuteUsage(s, p);
    HistoryPush(s.history, Done(s.queue[0], s.now, OutcomeOf(s, s.queue[0].payload)), Handed, p, s.now / 1000);
  }

  lemma ExecuteTimely(s: Sim)
    requires Ready(s) && QueueSound(s)
    ensures QueueSound(Execute(s))
    ensures Timely(s) ==> Timely(Execute(s))
  {
    ExecuteFrame(s);
  }

  lemma ExecuteKeeps(s: Sim)
    requires Ready(s)
    ensures Keeps(s, Execute(s))
  {
    if Sound(s) {
      ExecuteTimely(s);
      ExecuteBooks(s);
      forall p, second: nat
        ensures BudgetKept(Execute(s), p, second)
      {
        assert BudgetKept(s, p, second);
        ExecuteBudgetAt(s, p, second);
      }
    }
  }

  lemma {:induction false} DrainKeeps(s: Sim)
    ensures Keeps(s, Drain(s))
    decreases |s.queue|
  {
    if Ready(s) {
      ExecuteKeeps(s);
      ExecuteFrame(s);
      DrainKeeps(Execute(s));
    }
  }

  /** The clock may move up to the first event. */
  lemma ClockKeeps(s: Sim, now: u64)
    requires s.now <= now && (s.queue != [] ==> now <= Max(s.now, s.queue[0].at))
    ensures Keeps(s, s.(now := now))
  {
    if Sound(s) {
      var s' := s.(now := now);
      forall p, second: nat
        ensures BudgetKept(s', p, second)
      {
        assert BudgetKept(s, p, second);
      }
    }
  }

  lemma TurnKeeps(s: Sim, target: u64)
    ensures Keeps(s, Turn(s, target))
  {
    var s1 := ScheduleAll(s);
    ScheduleAllKeeps(s);
    if s1.queue != [] {
      ClockKeeps(s1, Max(s1.now, s1.queue[0].at));
    }
    var s2 := Advance(s1);
    assert Keeps(s1, s2);
    DrainKeeps(s2);
    var s3 := Drain(s2);
    if s3.queue == [] {
      ClockKeeps(s3, Max(s3.now, Min(SatAdd(s3.now, 1), target)));
    }
  }

  // --------------------------------------------------------------- whole runs

  /** In every run: the queue stays sound, every attempt to send is accounted for exactly once, the
  metrics agree with what happened, and nobody receives more than its budget in any second. If
  nothing was scheduled in the past, every event is executed exactly at its time and in order. */
  lemma {:induction false} RunKeeps(s: Sim, target: u64)
    requires Sound(s)
    ensures Sound(RunUntil(s, target))
    ensures Timely(s) ==> Timely(RunUntil(s, target))
    decreases |s.commands|, Max(0, target - s.now), |s.queue|
  {
    if s.now < target {
      TurnProgress(s, target);
      TurnKeeps(s, target);
      RunKeeps(Turn(s, target), target);
    }
  }

  function Others(names: seq<Peer>, from: Peer): nat
    decreases |names|
  {
    if names == [] then 0 else (if names[0] == from then 0 else 1) + Others(names[1..], from)
  }

  /** Attempts to send that waiting commands stand for: one per direct message, one per other node for a publication. */
  function Attempts(commands: seq<Command>, names: seq<Peer>): nat
    decreases |commands|
  {
    if commands == [] then 0
    else (if commands[0].SendDirect? then 1 else Others(names, commands[0].from)) + Attempts(commands[1..], names)
  }

  lemma {:induction false} PublishOffers(s: Sim, from: Peer, size: u64, names: seq<Peer>)
    ensures Publish(s, from, size, names).offered == s.offered + Others(names, from)
    decreases |names|
  {
    if names != [] {
      PublishOffers(if names[0] == from then s else Offer(s, from, names[0], Deliver(names[0], None, SatAdd(size, 32)), true), from, size, names[1..]);
    }
  }

  lemma {:induction false} ScheduleAllOffers(s: Sim)
    ensures ScheduleAll(s).offered == s.offered + Attempts(s.commands, s.names)
    ensures (forall i :: 0 <= i < |s.commands| ==> s.commands[i].SendDirect?) ==> ScheduleAll(s).unlinked == s.unlinked
    decreases |s.commands|
  {
    if s.commands != [] {
      var s1, c := s.(commands := s.commands[1..]), s.commands[0];
      ScheduleFrame(s1, c);
      if c.PublishScoped? {
        PublishOffers(s1, c.from, c.size, s1.names);
      }
      ScheduleAllOffers(Schedule(s1, c));
    }
  }

  lemma {:induction false} DrainOffers(s: Sim)
    ensures Drain(s).offered == s.offered && Drain(s).unlinked == s.unlinked
    decreases |s.queue|
  {
    if Ready(s) {
      ExecuteFrame(s);
      DrainOffers(Execute(s));
    }
  }

  lemma TurnOffers(s: Sim, target: u64)
    ensures Turn(s, target).offered == s.offered + Attempts(s.commands, s.names)
    ensures (forall i :: 0 <= i < |s.commands| ==> s.commands[i].SendDirect?) ==> Turn(s, target).unlinked == s.unlinked
  {
    ScheduleAllOffers(s);
    DrainOffers(Advance(ScheduleAll(s)));
  }

  /** Every waiting command is offered exactly once, so with `Balanced` every direct message of a
  run is dropped, handed over or still queued, and only one of these. */
  lemma {:induction false} RunOffers(s: Sim, target: u64)
    requires s.now < target
    ensures RunUntil(s, target).offered == s.offered + Attempts(s.commands, s.names)
    ensures (forall i :: 0 <= i < |s.commands| ==> s.commands[i].SendDirect?) ==> RunUntil(s, target).unlinked == s.unlinked
    decreases |s.commands|, Max(0, target - s.now), |s.queue|
  {
    TurnProgress(s, target);
    TurnOffers(s, target);
    if Turn(s, target).now < target {
      RunOffers(Turn(s, target), target);
    }
  }

  /** When a run that had time to spend ends, its time has come, no command is waiting and no event is due. */
  lemma {:induction false} RunEnds(s: Sim, target: u64)
    ensures RunUntil(s, target).now >= target
    ensures s.now < target ==> RunUntil(s, target).commands == [] && !Ready(RunUntil(s, target))
    decreases |s.commands|, Max(0, target - s.now), |s.queue|
  {
    if s.now < target {
      TurnProgress(s, target);
      TurnIdle(s, target);
      RunEnds(Turn(s, target), target);
    }
  }

  lemma TurnIdle(s: Sim, target: u64)
    ensures !Ready(Turn(s, target))
  {
    DrainFrame(Advance(ScheduleAll(s)));
  }

  // ------------------------------------------------------ where the clock stops

  /** The first queued time at or after the target, or the target if there is none. */
  function NextFrom(q: seq<Scheduled<Action>>, target: u64): u64
    decreases |q|
  {
    if q == [] then target else if q[0].at >= target then q[0].at else NextFrom(q[1..], target)
  }

  /** Executing events before the target does not change which one is the first from there on. */
  lemma {:induction false} DrainNextFrom(s: Sim, target: u64)
    requires s.now < target
    ensures NextFrom(Drain(s).queue, target) == NextFrom(s.queue, target)
    decreases |s.queue|
  {
    if Ready(s) {
      ExecuteFrame(s);
      DrainNextFrom(Execute(s), target);
    }
  }

  /** After advancing to the first event and draining, the clock stands at the next event from the
  target on, or that event is still to come. */
  lemma DrainedNextFrom(s: Sim, target: u64)
    requires s.now < target
    ensures var (next, r) := (NextFrom(s.queue, target), Drain(Advance(s)));
            && (r.now >= target ==> r.now == next)
            && (r.now < target ==> NextFrom(r.queue, target) == next)
  {
    var s2 := Advance(s);
    DrainFrame(s2);
    if s2.now < target {
      DrainNextFrom(s2, target);
    }
  }

  /** One turn either reaches the next event from the target on or leaves that event the same. */
  lemma TurnNextFrom(s: Sim, target: u64)
    requires s.now < target
    ensures var (next, r) := (NextFrom(ScheduleAll(s).queue, target), Turn(s, target));
            if r.now >= target then r.now == next else NextFrom(r.queue, target) == next
  {
    ScheduleAllFrame(s);
    DrainedNextFrom(ScheduleAll(s), target);
  }

  /** A run stops exactly at the first event at or after its target, or at the target if there is
  none: the clock is not held back at the target. */
  lemma {:induction false} RunStopsAt(s: Sim, target: u64)
    requires s.now < target
    ensures RunUntil(s, target).now == NextFrom(ScheduleAll(s).queue, target)
    decreases |s.commands|, Max(0, target - s.now), |s.queue|
  {
    var r := Turn(s, target);
    TurnProgress(s, target);
    TurnNextFrom(s, target);
    if r.now < target {
      RunStopsAt(r, target);
      ScheduleAllFrame(r);
    }
  }

  /** In a sorted queue that event is the earliest from the target on. */
  lemma {:induction false} NextFromIsLeast(q: seq<Scheduled<Action>>, target: u64)
    requires Sorted(q)
    ensures NextFrom(q, target) >= target
    ensures NextFrom(q, target) == target <==>
              (exists i :: 0 <= i < |q| && q[i].at == target) || (forall i :: 0 <= i < |q| ==> q[i].at < target)
    ensures forall i :: 0 <= i < |q| && q[i].at >= target ==> NextFrom(q, target) <= q[i].at
    decreases |q|
  {
    if q != [] {
      var rest := q[1..];
      assert forall i :: 0 <= i < |rest| ==> rest[i] == q[i + 1] && Before(q[0], q[i + 1]);
      if q[0].at < target {
        NextFromIsLeast(rest, target);
        assert forall i :: 0 < i < |q| ==> q[i] == rest[i - 1];
      }
    }
  }

  /** `run_for` ends at its target if and only if, once the waiting commands are scheduled, some event
  is due exactly then or none is due later. */
  lemma StopsAtTargetIff(s: Sim, target: u64)
    requires Sound(s) && s.now < target
    ensures var q := ScheduleAll(s).queue;
            RunUntil(s, target).now == target <==>
            (exists i :: 0 <= i < |q| && q[i].at == target) || (forall i :: 0 <= i < |q| ==> q[i].at < target)
  {
    RunStopsAt(s, target);
    ScheduleAllKeeps(s);
    NextFromIsLeast(ScheduleAll(s).queue, target);
  }

  // ---------------------------------------------------- when budgets are kept

  /** A new simulation with commands waiting. */
  function Initial(start: u64, rng: u64, links: map<(Peer, Peer), Link>, names: seq<Peer>, nodes: map<Peer, Spec>, commands: seq<Command>): Sim {
    Sim(start, [], 0, links, names, nodes, map[], map[], Metrics(0, 0, 0, 0, 0, 0, []), rng, commands, [], 0, 0)
  }

  lemma InitialSound(start: u64, rng: u64, links: map<(Peer, Peer), Link>, names: seq<Peer>, nodes: map<Peer, Spec>, commands: seq<Command>)
    ensures Sound(Initial(start, rng, links, names, nodes, commands)) && Timely(Initial(start, rng, links, names, nodes, commands))
  {
    var s := Initial(start, rng, links, names, nodes, commands);
    forall p, second: nat
      ensures BudgetKept(s, p, second)
    {}
  }

  ghost predicate IsInitial(s: Sim) {
    s == Initial(s.now, s.rng, s.links, s.names, s.nodes, s.commands)
  }

  /** In every run from the start, the peer receives no more than its budget in any second. */
  ghost predicate NeverExceeded(p: Peer, budget: u64) {
    forall s, target, second: nat :: IsInitial(s) && Budget(s.nodes, p) == budget ==> KeptAfter(s, target, p, second)
  }

  ghost predicate KeptAfter(s: Sim, target: u64, p: Peer, second: nat) {
    BytesIn(RunUntil(s, target).history, p, second) <= Budget(s.nodes, p)
  }

  /** Two packets of the largest size, sent over a perfect link at time zero. */
  function TwoHugePackets(p: Peer): Sim {
    var q := p + "'";
    var c := SendDirect(q, p, Other(U64_MAX));
    Initial(0, 1, map[(q, p) := Link(0, 0)], [p, q], map[p := Spec(true, U64_MAX), q := Spec(true, U64_MAX)], [c, c])
  }

  lemma OfferPerfect(s: Sim, from: Peer, to: Peer, a: Action)
    requires Online(s.nodes, from) && Online(s.nodes, to) && (from, to) in s.links && s.links[(from, to)] == Link(0, 0)
    ensures Offer(s, from, to, a, false) == Pushed(s.(offered := s.offered + 1), s.now, a)
  {}

  /** Both packets are queued, one behind the other. */
  lemma HugeScheduled(p: Peer)
    ensures var (s, a) := (ScheduleAll(TwoHugePackets(p)), Deliver(p, Some(Other(U64_MAX)), U64_MAX));
            && Framed(TwoHugePackets(p).(commands := []), s)
            && s.queue == [Scheduled(0, 1, a), Scheduled(0, 2, a)]
  {
    var s, q, a := TwoHugePackets(p), p + "'", Deliver(p, Some(Other(U64_MAX)), U64_MAX);
    var c := SendDirect(q, p, Other(U64_MAX));
    ScheduleAllFrame(s);
    var s1 := s.(commands := [c]);
    assert s.commands[1..] == [c] && [c][1..] == [];
    OfferPerfect(s1, q, p, a);
    var s2 := Pushed(s1.(offered := 1), 0, a);
    assert s2.queue == [Scheduled(0, 1, a)];
    var s3 := s2.(commands := []);
    OfferPerfect(s3, q, p, a);
    var s4 := Pushed(s3.(offered := 2), 0, a);
    assert s4.queue == [Scheduled(0, 1, a)] + [Scheduled(0, 2, a)];
    assert ScheduleAll(s) == ScheduleAll(s2) == ScheduleAll(s4) == s4;
  }

  /** The largest budget is exceeded: the sum it is compared with saturates. */
  lemma LargestBudgetExceeded(p: Peer)
    ensures IsInitial(TwoHugePackets(p)) && Budget(TwoHugePackets(p).nodes, p) == U64_MAX
    ensures !KeptAfter(TwoHugePackets(p), 1, p, 0)
  {
    var s := TwoHugePackets(p);
    HugeScheduled(p);
    var s1 := ScheduleAll(s);
    ExecuteFrame(s1);
    LargestBudgetNotEnforced(s1, p, Some(Other(U64_MAX)));
    var s2 := Execute(s1);
    ExecuteFrame(s2);
    ExecuteUsage(s1, p);
    ExecuteUsage(s2, p);
    var s3 := Execute(s2);
    assert Advance(s1) == s1;
    assert Drain(s1) == Drain(s2) == Drain(s3) == s3;
    assert Turn(s, 1) == s3.(now := 1);
    assert RunUntil(s, 1) == s3.(now := 1);
  }

  /** A budget is kept in every run if and only if it is not the largest word. */
  lemma BudgetKeptIff(p: Peer, budget: u64)
    ensures NeverExceeded(p, budget) <==> budget < U64_MAX
  {
    if budget < U64_MAX {
      forall s, target, second: nat | IsInitial(s) && Budget(s.nodes, p) == budget
        ensures KeptAfter(s, target, p, second)
      {
        InitialSound(s.now, s.rng, s.links, s.names, s.nodes, s.commands);
        RunKeeps(s, target);
        RunKeepsBudget(s, target, p);
        assert BudgetKept(RunUntil(s, target), p, second);
      }
    } else {
      LargestBudgetExceeded(p);
    }
  }

  /** Budgets never change. */
  lemma {:induction false} DrainKeepsBudget(s: Sim, p: Peer)
    ensures Budget(Drain(s).nodes, p) == Budget(s.nodes, p)
    decreases |s.queue|
  {
    if Ready(s) {
      ExecuteFrame(s);
      ExecuteUsage(s, p);
      DrainKeepsBudget(Execute(s), p);
    }
  }

  lemma {:induction false} RunKeepsBudget(s: Sim, target: u64, p: Peer)
    ensures Budget(RunUntil(s, target).nodes, p) == Budget(s.nodes, p)
    decreases |s.commands|, Max(0, target - s.now), |s.queue|
  {
    if s.now < target {
      TurnProgress(s, target);
      ScheduleAllFrame(s);
      DrainKeepsBudget(Advance(ScheduleAll(s)), p);
      RunKeepsBudget(Turn(s, target), target, p);
    }
  }
}
