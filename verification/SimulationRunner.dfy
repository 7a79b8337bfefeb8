/** The simulator as an object (crates/mycelium-sim/src/runner.rs, clock.rs); its methods are proved
against the functions of `Simulation`. */
module SimulationRunner {
  import opened Words
  import opened Mesh
  import opened Scheduler
  import opened Simulation
  import opened SimulationRuns

  class SimulationRunner {
    const scheduler: EventScheduler<Action>
    const links: map<(Peer, Peer), Link>
    const names: seq<Peer>
    var now: u64
    var nodes: map<Peer, Spec>
    var usage: map<(Peer, nat), u64>
    var deliveredIds: map<string, u64>
    var metrics: Metrics
    var rng: u64
    var commands: seq<Command>
    ghost var history: seq<Done>
    ghost var offered: nat
    ghost var unlinked: nat

    ghost function Contents(): Sim
      reads this, scheduler
    {
      Sim(now, scheduler.queue, scheduler.nextSeq, links, names, nodes, usage, deliveredIds, metrics, rng, commands,
          history, offered, unlinked)
    }

    constructor (start: u64, seed: u64, links: map<(Peer, Peer), Link>, names: seq<Peer>, nodes: map<Peer, Spec>)
      ensures fresh(scheduler) && scheduler.Valid()
      ensures Contents() == Initial(start, Max(seed, 1), links, names, nodes, [])
      ensures Sound(Contents()) && Timely(Contents())
    {
      scheduler := new EventScheduler<Action>();
      this.links, this.names, this.nodes, now, rng := links, names, nodes, start, Max(seed, 1);
      usage, deliveredIds, commands := map[], map[], [];
      metrics := Metrics(0, 0, 0, 0, 0, 0, []);
      history, offered, unlinked := [], 0, 0;
      new;
      InitialSound(start, Max(seed, 1), links, names, nodes, []);
    }

    method ScheduleAvailability(peer: Peer, at: u64, online: bool)
      requires scheduler.Valid()
      modifies scheduler
      ensures scheduler.Valid() && Contents() == Pushed(old(Contents()), at, Availability(peer, online))
      ensures old(Timely(Contents())) ==> (Timely(Contents()) <==> at >= now)
    {
      if Timely(Contents()) {
        LatePush(Contents(), at, Availability(peer, online));
      }
      scheduler.Push(at, Availability(peer, online));
    }

    method RollLoss(lossPerMille: nat) returns (lost: bool)
      modifies this`rng
      ensures lost == Lost(old(rng), lossPerMille) && rng == RngAfter(old(rng), lossPerMille)
    {
      if lossPerMille == 0 {
        return false;
      }
      rng := NextRandom(rng);
      return rng % 1000 < lossPerMille;
    }

    /** An attempt over an existing link between nodes that are online. */
    method AttemptLinked(from: Peer, to: Peer, a: Action, scoped: bool)
      requires scheduler.Valid() && Online(nodes, from) && Online(nodes, to) && (from, to) in links
      modifies this`metrics, this`rng, this`offered, scheduler
      ensures scheduler.Valid() && Contents() == Offer(old(Contents()), from, to, a, scoped)
    {
      OfferCases(Contents(), from, to, a, scoped);
      offered := offered + 1;
      var link := links[(from, to)];
      var lost := RollLoss(link.lossPerMille);
      if lost {
        metrics := metrics.(droppedLoss := metrics.droppedLoss + 1);
        return;
      }
      scheduler.Push(SatAdd(now, link.latency), a);
    }

    /** The part of `schedule_action` that direct and scoped messages share. */
    method Attempt(from: Peer, to: Peer, a: Action, scoped: bool)
      requires scheduler.Valid()
      modifies this`metrics, this`rng, this`offered, this`unlinked, scheduler
      ensures scheduler.Valid() && Contents() == Offer(old(Contents()), from, to, a, scoped)
    {
      if Online(nodes, from) && Online(nodes, to) && (from, to) in links {
        AttemptLinked(from, to, a, scoped);
        return;
      }
      offered := offered + 1;
      if !Online(nodes, from) || !Online(nodes, to) || !scoped {
        metrics := metrics.(droppedOffline := metrics.droppedOffline + 1);
      } else {
        unlinked := unlinked + 1;
      }
    }

    method PublishAll(from: Peer, size: u64)
      requires scheduler.Valid()
      modifies this`metrics, this`rng, this`offered, this`unlinked, scheduler
      ensures scheduler.Valid() && Contents() == Publish(old(Contents()), from, size, names)
    {
      var i := 0;
      while i < |names|
        invariant 0 <= i <= |names| && scheduler.Valid()
        invariant Publish(Contents(), from, size, names[i..]) == Publish(old(Contents()), from, size, names)
      {
        assert names[i..][1..] == names[i + 1..];
        if names[i] != from {
          Attempt(from, names[i], Deliver(names[i], None, SatAdd(size, 32)), true);
        }
        i := i + 1;
      }
    }

    method ScheduleAction(c: Command)
      requires scheduler.Valid()
      modifies this`metrics, this`rng, this`offered, this`unlinked, scheduler
      ensures scheduler.Valid() && Contents() == Schedule(old(Contents()), c)
    {
      match c
      case SendDirect(from, to, packet) => Attempt(from, to, Deliver(to, Some(packet), packet.size), false);
      case PublishScoped(from, size) => PublishAll(from, size);
    }

    method ScheduleActions()
      requires scheduler.Valid()
      modifies this`metrics, this`rng, this`offered, this`unlinked, this`commands, scheduler
      ensures scheduler.Valid() && Contents() == ScheduleAll(old(Contents()))
    {
      while commands != []
        invariant scheduler.Valid() && ScheduleAll(Contents()) == ScheduleAll(old(Contents()))
        decreases |commands|
      {
        var c := commands[0];
        commands := commands[1..];
        ScheduleAction(c);
      }
    }

    method ConsumeBandwidth(peer: Peer, bytes: u64) returns (ok: bool)
      modifies this`usage
      ensures ok == Fits(old(Contents()), peer, bytes) && usage == Consumed(old(Contents()), peer, bytes)
    {
      var key := (peer, now / 1000);
      var used := if key in usage then usage[key] else 0;
      var budget := if peer in nodes then nodes[peer].bandwidth else 0;
      if SatAdd(used, bytes) > budget {
        usage := usage[key := used];
        return false;
      }
      usage := usage[key := SatAdd(used, bytes)];
      return true;
    }

    method RecordDelivery(to: Peer, packet: Option<Packet>)
      modifies this`deliveredIds, this`metrics
      ensures Contents() == if Tracked(to, packet).Some? then AfterDelivery(old(Contents()), to, Tracked(to, packet).value) else old(Contents())
    {
      if packet.None? || !packet.value.Data? || packet.value.m.toPeer != Some(to) {
        return;
      }
      var m := packet.value.m;
      var key := DeliveryKey(to, m);
      var known := key in deliveredIds;
      deliveredIds := deliveredIds[key := now];
      if known {
        metrics := metrics.(duplicates := metrics.duplicates + 1);
        return;
      }
      metrics := metrics.(delivered := metrics.delivered + 1, latencies := metrics.latencies + [SatSub(now, m.createdAt)]);
    }

    method DeliverEvent(to: Peer, packet: Option<Packet>, bytes: u64)
      modifies this`usage, this`deliveredIds, this`metrics
      ensures Contents() == HandOver(old(Contents()), to, packet, bytes)
    {
      var ok := ConsumeBandwidth(to, bytes);
      if !ok {
        metrics := metrics.(droppedBandwidth := metrics.droppedBandwidth + 1);
        return;
      }
      metrics := metrics.(sentBytes := metrics.sentBytes + bytes);
      RecordDelivery(to, packet);
    }

    method ExecuteEvent(e: Scheduled<Action>)
      modifies this`usage, this`deliveredIds, this`metrics, this`nodes, this`history
      ensures var s := old(Contents());
              var s' := s.(history := s.history + [Done(e, s.now, OutcomeOf(s, e.payload))]);
              Contents() == match e.payload
                            case Availability(p, online) => s'.(nodes := SetOnline(s.nodes, p, online))
                            case Deliver(to, packet, bytes) => HandOver(s', to, packet, bytes)
    {
      history := history + [Done(e, now, OutcomeOf(Contents(), e.payload))];
      match e.payload
      case Availability(p, online) =>
        if p in nodes {
          nodes := nodes[p := nodes[p].(online := online)];
        }
      case Deliver(to, packet, bytes) =>
        DeliverEvent(to, packet, bytes);
    }

    /** Takes one due event, if there is one. */
    method ExecuteNext() returns (found: bool)
      requires scheduler.Valid()
      modifies this`usage, this`deliveredIds, this`metrics, this`nodes, this`history, scheduler
      ensures scheduler.Valid() && found == Ready(old(Contents()))
      ensures Contents() == if found then Execute(old(Contents())) else old(Contents())
    {
      var e := scheduler.PopReady(now);
      if e.Some? {
        ExecuteEvent(e.value);
      }
      return e.Some?;
    }

    method ExecuteReady()
      requires scheduler.Valid()
      modifies this`usage, this`deliveredIds, this`metrics, this`nodes, this`history, scheduler
      ensures scheduler.Valid() && Contents() == Drain(old(Contents()))
    {
      var found := true;
      while found
        invariant scheduler.Valid() && Drain(Contents()) == Drain(old(Contents()))
        invariant !found ==> !Ready(Contents())
        decreases found, |scheduler.queue|
      {
        ghost var s := Contents();
        found := ExecuteNext();
        if Ready(s) {
          ExecuteFrame(s);
        }
      }
    }

    method StepUntilNextEvent()
      requires scheduler.Valid()
      modifies this, scheduler
      ensures scheduler.Valid() && Contents() == Step(old(Contents()))
    {
      ScheduleActions();
      var next := scheduler.NextTimestamp();
      if next.Some? {
        now := Max(now, next.value);
      }
      ExecuteReady();
    }

    method RunFor(duration: u64)
      requires scheduler.Valid()
      modifies this, scheduler
      ensures scheduler.Valid() && Contents() == Simulation.RunFor(old(Contents()), duration)
      ensures old(Sound(Contents())) ==> Sound(Contents()) && (old(Timely(Contents())) ==> Timely(Contents()))
    {
      var target := SatAdd(now, duration);
      if Sound(Contents()) {
        RunKeeps(Contents(), target);
      }
      while now < target
        invariant scheduler.Valid() && RunUntil(Contents(), target) == RunUntil(old(Contents()), target)
        decreases |commands|, Max(0, target - now), |scheduler.queue|
      {
        TurnProgress(Contents(), target);
        StepUntilNextEvent();
        var next := scheduler.NextTimestamp();
        if next.None? && commands == [] {
          now := Max(now, Min(SatAdd(now, 1), target));
        }
      }
    }
  }
}
