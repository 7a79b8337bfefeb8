/** What becomes of every send and every event of a simulation, said in terms of what happened before
(crates/mycelium-sim/src/runner.rs). */
module SimulationRules {
  import opened Words
  import opened Mesh
  import opened Scheduler
  import opened Simulation
  import opened SimulationRuns

  // ------------------------------------------------------------ one attempt

  /** The state of the generator after one more roll. */
  function Rolled(rng: u64): u64 {
    (rng * 6364136223846793005 + 1) % 0x1_0000_0000_0000_0000
  }

  /** The loss dice decide against the message. */
  predicate Unlucky(rng: u64, lossPerMille: nat) {
    lossPerMille > 0 && Rolled(rng) % 1000 < lossPerMille
  }

  predicate Up(s: Sim, p: Peer) {
    p in s.nodes && s.nodes[p].online
  }

  /** The fate of one attempt: dropped as offline if an end is off or, for a direct message, unlinked;
  skipped if it is scoped and unlinked; lost if the dice say so; otherwise queued after the link's latency. */
  lemma OfferFate(s: Sim, from: Peer, to: Peer, a: Action, scoped: bool)
    ensures var s' := Offer(s, from, to, a, scoped);
            var linked := (from, to) in s.links;
            if !Up(s, from) || !Up(s, to) || (!linked && !scoped) then
              s' == s.(offered := s.offered + 1, metrics := s.metrics.(droppedOffline := s.metrics.droppedOffline + 1))
            else if !linked then s' == s.(offered := s.offered + 1, unlinked := s.unlinked + 1)
            else s' == Posted(s, s.links[(from, to)], a)
  {
    if Up(s, from) && Up(s, to) && (from, to) in s.links {
      OfferPosts(s, from, to, a, scoped);
    }
  }

  lemma OfferPosts(s: Sim, from: Peer, to: Peer, a: Action, scoped: bool)
    requires Up(s, from) && Up(s, to) && (from, to) in s.links
    ensures Offer(s, from, to, a, scoped) == Posted(s, s.links[(from, to)], a)
  {
    var link := s.links[(from, to)];
    assert Lost(s.rng, link.lossPerMille) <==> Unlucky(s.rng, link.lossPerMille);
    assert RngAfter(s.rng, link.lossPerMille) == if link.lossPerMille > 0 then Rolled(s.rng) else s.rng;
  }

  /** An attempt over a link between nodes that are up. */
  function Posted(s: Sim, link: Link, a: Action): Sim {
    var r := s.(offered := s.offered + 1, rng := if link.lossPerMille > 0 then Rolled(s.rng) else s.rng);
    if Unlucky(s.rng, link.lossPerMille) then r.(metrics := s.metrics.(droppedLoss := s.metrics.droppedLoss + 1))
    else
      var at := if s.now + link.latency > U64_MAX then U64_MAX else s.now + link.latency;
      r.(nextSeq := s.nextSeq + 1, queue := Insert(s.queue, Scheduled(at, s.nextSeq + 1, a)))
  }

  /** A direct message is one attempt with its own packet; a publication is one attempt for each node in
  turn except the sender, without a packet and 32 bytes larger than its payload. */
  lemma CommandFate(s: Sim, from: Peer, to: Peer, packet: Packet, size: u64, names: seq<Peer>)
    ensures Schedule(s, SendDirect(from, to, packet)) == Offer(s, from, to, Deliver(to, Some(packet), packet.size), false)
    ensures Schedule(s, PublishScoped(from, size)) == Publish(s, from, size, s.names)
    ensures Publish(s, from, size, []) == s
    ensures Publish(s, from, size, [from] + names) == Publish(s, from, size, names)
    ensures to != from && size + 32 <= U64_MAX ==>
              Publish(s, from, size, [to] + names) == Publish(Offer(s, from, to, Deliver(to, None, size + 32), true), from, size, names)
  {
    assert ([from] + names)[1..] == names && ([to] + names)[1..] == names;
  }

  // ------------------------------------------------------- what history says

  /** Whether a node is online after what happened: as its last switch says, or as at the start. */
  function OnlineAfter(h: seq<Done>, p: Peer, start: bool): bool {
    if h == [] then start else
      var a := h[|h| - 1].event.payload;
      if a.Availability? && a.peer == p then a.online else OnlineAfter(h[..|h| - 1], p, start)
  }

  /** The outcome that the earlier history and the budget call for. */
  function Due(h: seq<Done>, budget: nat, a: Action, now: u64): Outcome {
    if a.Availability? then Switched
    else if Min(U64_MAX, BytesIn(h, a.to, now / 1000) + a.bytes) <= budget then Handed
    else OverBudget
  }

  function KeyOf(d: Done): string
    requires IsArrival(d)
  {
    d.event.payload.to + ":" + Tracked(d.event.payload.to, d.event.payload.packet).value.id
  }

  /** The destinations and ids of all messages that arrived. */
  function ArrivedKeys(h: seq<Done>): set<string> {
    if h == [] then {} else
      var d := h[|h| - 1];
      ArrivedKeys(h[..|h| - 1]) + if IsArrival(d) then {KeyOf(d)} else {}
  }

  /** The time each message took to its first arrival. */
  function FirstLatencies(h: seq<Done>): seq<u64> {
    if h == [] then [] else
      var earlier, d := h[..|h| - 1], h[|h| - 1];
      FirstLatencies(earlier) +
      if IsArrival(d) && KeyOf(d) !in ArrivedKeys(earlier)
      then [SatSub(d.now, Tracked(d.event.payload.to, d.event.payload.packet).value.createdAt)] else []
  }

  /** Whether a node is registered and online, and its budget, agree with the start and the history. */
  ghost predicate NodeRuled(s: Sim, start: map<Peer, Spec>, p: Peer) {
    && (p in s.nodes <==> p in start)
    && (p in start ==> s.nodes[p] == start[p].(online := OnlineAfter(s.history, p, start[p].online)))
  }

  ghost predicate OutcomeRuled(h: seq<Done>, start: map<Peer, Spec>, k: nat)
    requires k < |h|
  {
    var a := h[k].event.payload;
    h[k].outcome == Due(h[..k], if a.Deliver? then Budget(start, a.to) else 0, a, h[k].now)
  }

  /** The state of the nodes, the outcome of every event, and the record of deliveries are those that the
  history calls for. */
  ghost predicate Ruled(s: Sim, start: map<Peer, Spec>) {
    && (forall p :: NodeRuled(s, start, p))
    && (forall k: nat :: k < |s.history| ==> OutcomeRuled(s.history, start, k))
    && s.deliveredIds.Keys == ArrivedKeys(s.history)
    && s.metrics.latencies == FirstLatencies(s.history)
  }

  // -------------------------------------------------------------- executing

  lemma BudgetFromStart(s: Sim, start: map<Peer, Spec>, p: Peer)
    requires NodeRuled(s, start, p)
    ensures Budget(s.nodes, p) == Budget(start, p)
  {}

  /** The recorded outcome is the due one, since usage is what was handed over. */
  lemma OutcomeIsDue(s: Sim, start: map<Peer, Spec>)
    requires Ready(s) && WithinBudget(s) && Ruled(s, start)
    ensures var a := s.queue[0].payload;
            OutcomeOf(s, a) == Due(s.history, if a.Deliver? then Budget(start, a.to) else 0, a, s.now)
  {
    var a := s.queue[0].payload;
    if a.Deliver? {
      assert NodeRuled(s, start, a.to);
      BudgetFromStart(s, start, a.to);
      assert BudgetKept(s, a.to, s.now / 1000);
    }
  }

  lemma OutcomesPush(h: seq<Done>, d: Done, start: map<Peer, Spec>)
    requires forall k: nat :: k < |h| ==> OutcomeRuled(h, start, k)
    requires d.outcome == Due(h, if d.event.payload.Deliver? then Budget(start, d.event.payload.to) else 0, d.event.payload, d.now)
    ensures forall k: nat :: k < |h + [d]| ==> OutcomeRuled(h + [d], start, k)
  {
    var all := h + [d];
    forall k: nat | k < |all|
      ensures OutcomeRuled(all, start, k)
    {
      assert all[..k] == h[..k];
      if k < |h| {
        assert OutcomeRuled(h, start, k);
      } else {
        assert h[..k] == h;
      }
    }
  }

  lemma ExecuteNodes(s: Sim)
    requires Ready(s)
    ensures var a := s.queue[0].payload;
            Execute(s).nodes == if a.Availability? then SetOnline(s.nodes, a.peer, a.online) else s.nodes
  {
    var e := s.queue[0];
    var s' := s.(queue := s.queue[1..], history := s.history + [Done(e, s.now, OutcomeOf(s, e.payload))]);
    if e.payload.Deliver? {
      HandOverFrame(s', e.payload.to, e.payload.packet, e.payload.bytes);
    }
  }

  lemma ExecuteNodeRuled(s: Sim, start: map<Peer, Spec>, p: Peer)
    requires Ready(s) && NodeRuled(s, start, p)
    ensures NodeRuled(Execute(s), start, p)
  {
    ExecuteNodes(s);
    ExecuteFrame(s);
    var d := Done(s.queue[0], s.now, OutcomeOf(s, s.queue[0].payload));
    assert (s.history + [d])[..|s.history|] == s.history;
  }

  /** The record of deliveries after one event. */
  lemma ExecuteRecords(s: Sim)
    requires Ready(s)
    ensures var d := Done(s.queue[0], s.now, OutcomeOf(s, s.queue[0].payload));
            var s' := Execute(s);
            if IsArrival(d) then
              && s'.deliveredIds.Keys == s.deliveredIds.Keys + {KeyOf(d)}
              && s'.metrics.latencies == s.metrics.latencies +
                 (if KeyOf(d) in s.deliveredIds then [] else [SatSub(s.now, Tracked(d.event.payload.to, d.event.payload.packet).value.createdAt)])
            else s'.deliveredIds == s.deliveredIds && s'.metrics.latencies == s.metrics.latencies
  {}

  lemma ExecuteRuled(s: Sim, start: map<Peer, Spec>)
    requires Ready(s) && WithinBudget(s) && Ruled(s, start)
    ensures Ruled(Execute(s), start)
  {
    var d := Done(s.queue[0], s.now, OutcomeOf(s, s.queue[0].payload));
    ExecuteFrame(s);
    forall p
      ensures NodeRuled(Execute(s), start, p)
    {
      assert NodeRuled(s, start, p);
      ExecuteNodeRuled(s, start, p);
    }
    OutcomeIsDue(s, start);
    OutcomesPush(s.history, d, start);
    ExecuteRecords(s);
    RecordsPush(s.history, d);
  }

  lemma RecordsPush(h: seq<Done>, d: Done)
    ensures ArrivedKeys(h + [d]) == ArrivedKeys(h) + if IsArrival(d) then {KeyOf(d)} else {}
    ensures FirstLatencies(h + [d]) == FirstLatencies(h) +
              if IsArrival(d) && KeyOf(d) !in ArrivedKeys(h)
              then [SatSub(d.now, Tracked(d.event.payload.to, d.event.payload.packet).value.createdAt)] else []
  {
    assert (h + [d])[..|h|] == h;
  }

  // -------------------------------------------------------------- whole runs

  /** Only nodes, history, deliveries and latencies matter. */
  lemma RuledSame(s: Sim, s': Sim, start: map<Peer, Spec>)
    requires Ruled(s, start) && s'.nodes == s.nodes && s'.history == s.history
    requires s'.deliveredIds == s.deliveredIds && s'.metrics.latencies == s.metrics.latencies
    ensures Ruled(s', start)
  {
    forall p
      ensures NodeRuled(s', start, p)
    {
      assert NodeRuled(s, start, p);
    }
  }

  lemma {:induction false} DrainRuled(s: Sim, start: map<Peer, Spec>)
    requires Sound(s) && Ruled(s, start)
    ensures Ruled(Drain(s), start)
    decreases |s.queue|
  {
    if Ready(s) {
      ExecuteRuled(s, start);
      ExecuteKeeps(s);
      ExecuteFrame(s);
      DrainRuled(Execute(s), start);
    }
  }

  lemma ScheduleRuled(s: Sim, start: map<Peer, Spec>)
    requires Sound(s) && Ruled(s, start)
    ensures Sound(ScheduleAll(s)) && Ruled(ScheduleAll(s), start)
  {
    ScheduleAllFrame(s);
    ScheduleAllKeeps(s);
    RuledSame(s, ScheduleAll(s), start);
  }

  lemma StepRuled(s: Sim, start: map<Peer, Spec>)
    requires Sound(s) && Ruled(s, start)
    ensures Ruled(Step(s), start)
  {
    var s1 := ScheduleAll(s);
    ScheduleRuled(s, start);
    AdvanceRuled(s1, start);
    DrainRuled(Advance(s1), start);
  }

  lemma TurnRuled(s: Sim, target: u64, start: map<Peer, Spec>)
    requires Sound(s) && Ruled(s, start)
    ensures Ruled(Turn(s, target), start)
  {
    StepRuled(s, start);
    RuledSame(Step(s), Turn(s, target), start);
  }

  lemma AdvanceRuled(s: Sim, start: map<Peer, Spec>)
    requires Sound(s) && Ruled(s, start)
    ensures Sound(Advance(s)) && Ruled(Advance(s), start)
  {
    if s.queue != [] {
      ClockKeeps(s, Max(s.now, s.queue[0].at));
    }
    RuledSame(s, Advance(s), start);
  }

  lemma {:induction false} RunRuledFrom(s: Sim, target: u64, start: map<Peer, Spec>)
    requires Sound(s) && Ruled(s, start)
    ensures Ruled(RunUntil(s, target), start)
    decreases |s.commands|, Max(0, target - s.now), |s.queue|
  {
    if s.now < target {
      TurnProgress(s, target);
      TurnKeeps(s, target);
      TurnRuled(s, target, start);
      RunRuledFrom(Turn(s, target), target, start);
    }
  }

  /** After every run from a new simulation: each node is online as its last executed switch says, each
  delivery was handed over if and only if the bytes handed to that peer in that second and its own
  fit the budget, and first arrivals and their latencies are recorded once each. */
  lemma RunRuled(s: Sim, target: u64)
    requires IsInitial(s)
    ensures Ruled(RunUntil(s, target), s.nodes)
  {
    InitialSound(s.now, s.rng, s.links, s.names, s.nodes, s.commands);
    forall p
      ensures NodeRuled(s, s.nodes, p)
    {}
    RunRuledFrom(s, target, s.nodes);
  }
}
