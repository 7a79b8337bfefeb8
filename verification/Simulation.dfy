/** The deterministic network simulator on values (crates/mycelium-sim/src/runner.rs).

`history` records what became of every executed event, `offered` and `unlinked` count attempts to
send; the source keeps no such record. Wire sizes are inputs, counters are unbounded.
*/
module Simulation {
  import opened Words
  import opened Mesh
  import opened Scheduler

  datatype Packet = Data(m: Message, size: u64) | Other(size: u64)

  /** A scheduled action; scoped gossip is delivered without a packet. */
  datatype Action =
    | Deliver(to: Peer, packet: Option<Packet>, bytes: u64)
    | Availability(peer: Peer, online: bool)

  datatype Command = SendDirect(from: Peer, to: Peer, packet: Packet) | PublishScoped(from: Peer, size: u64)

  datatype Link = Link(latency: u64, lossPerMille: nat)

  datatype Spec = Spec(online: bool, bandwidth: u64)

  datatype Metrics = Metrics(
    delivered: nat, duplicates: nat, droppedLoss: nat, droppedOffline: nat, droppedBandwidth: nat,
    sentBytes: nat, latencies: seq<u64>)

  datatype Outcome = Switched | OverBudget | Handed

  datatype Done = Done(event: Scheduled<Action>, now: u64, outcome: Outcome)

  /** `names` is the order in which the node table is traversed. */
  datatype Sim = Sim(
    now: u64,
    queue: seq<Scheduled<Action>>,
    nextSeq: nat,
    links: map<(Peer, Peer), Link>,
    names: seq<Peer>,
    nodes: map<Peer, Spec>,
    usage: map<(Peer, nat), u64>,
    deliveredIds: map<string, u64>,
    metrics: Metrics,
    rng: u64,
    commands: seq<Command>,
    history: seq<Done>,
    offered: nat,
    unlinked: nat)

  // ------------------------------------------------------------- scheduling

  predicate Online(nodes: map<Peer, Spec>, p: Peer) {
    p in nodes && nodes[p].online
  }

  const MULTIPLIER: u64 := 6364136223846793005

  function NextRandom(rng: u64): u64 {
    (rng * MULTIPLIER + 1) % U64_MOD
  }

  function RngAfter(rng: u64, loss: nat): u64 {
    if loss == 0 then rng else NextRandom(rng)
  }

  predicate Lost(rng: u64, loss: nat) {
    loss != 0 && NextRandom(rng) % 1000 < loss
  }

  function Pushed(s: Sim, at: u64, a: Action): Sim {
    s.(nextSeq := s.nextSeq + 1, queue := Insert(s.queue, Scheduled(at, s.nextSeq + 1, a)))
  }

  /** One attempt to send: both ends must be online and linked, and the loss dice must allow it.
  A missing link counts as offline for a direct message and is skipped for a scoped one. */
  function Offer(s: Sim, from: Peer, to: Peer, a: Action, scoped: bool): Sim {
    var o := s.(offered := s.offered + 1);
    if !Online(s.nodes, from) || !Online(s.nodes, to) || ((from, to) !in s.links && !scoped) then
      o.(metrics := s.metrics.(droppedOffline := s.metrics.droppedOffline + 1))
    else if (from, to) !in s.links then o.(unlinked := s.unlinked + 1)
    else
      var link := s.links[(from, to)];
      var r := o.(rng := RngAfter(s.rng, link.lossPerMille));
      if Lost(s.rng, link.lossPerMille) then r.(metrics := s.metrics.(droppedLoss := s.metrics.droppedLoss + 1))
      else Pushed(r, SatAdd(s.now, link.latency), a)
  }

  function Publish(s: Sim, from: Peer, size: u64, names: seq<Peer>): Sim
    decreases |names|
  {
    if names == [] then s
    else
      var s' := if names[0] == from then s else Offer(s, from, names[0], Deliver(names[0], None, SatAdd(size, 32)), true);
      Publish(s', from, size, names[1..])
  }

  function Schedule(s: Sim, c: Command): Sim {
    match c
    case SendDirect(from, to, packet) => Offer(s, from, to, Deliver(to, Some(packet), packet.size), false)
    case PublishScoped(from, size) => Publish(s, from, size, s.names)
  }

  function ScheduleAll(s: Sim): Sim
    decreases |s.commands|
  {
    if s.commands == [] then s
    else
      var s1 := s.(commands := s.commands[1..]);
      var s2 := Schedule(s1, s.commands[0]);
      ScheduleFrame(s1, s.commands[0]);
      ScheduleAll(s2)
  }

  /** Scheduling touches neither the clock nor the nodes nor what has happened. */
  ghost predicate Framed(s: Sim, s': Sim) {
    && s'.now == s.now && s'.commands == s.commands && s'.history == s.history && s'.nodes == s.nodes
    && s'.usage == s.usage && s'.names == s.names && s'.links == s.links && s'.deliveredIds == s.deliveredIds
    && s'.metrics.latencies == s.metrics.latencies
  }

  lemma OfferFrame(s: Sim, from: Peer, to: Peer, a: Action, scoped: bool)
    ensures Framed(s, Offer(s, from, to, a, scoped))
  {}

  lemma {:induction false} PublishFrame(s: Sim, from: Peer, size: u64, names: seq<Peer>)
    ensures Framed(s, Publish(s, from, size, names))
    decreases |names|
  {
    if names != [] {
      var a := Deliver(names[0], None, SatAdd(size, 32));
      OfferFrame(s, from, names[0], a, true);
      PublishFrame(if names[0] == from then s else Offer(s, from, names[0], a, true), from, size, names[1..]);
    }
  }

  lemma ScheduleFrame(s: Sim, c: Command)
    ensures Framed(s, Schedule(s, c))
  {
    match c
    case SendDirect(from, to, packet) => OfferFrame(s, from, to, Deliver(to, Some(packet), packet.size), false);
    case PublishScoped(from, size) => PublishFrame(s, from, size, s.names);
  }

  // -------------------------------------------------------------- executing

  predicate Ready(s: Sim) {
    s.queue != [] && s.queue[0].at <= s.now
  }

  function Budget(nodes: map<Peer, Spec>, p: Peer): u64 {
    if p in nodes then nodes[p].bandwidth else 0
  }

  function Used(usage: map<(Peer, nat), u64>, p: Peer, second: nat): u64 {
    if (p, second) in usage then usage[(p, second)] else 0
  }

  predicate Fits(s: Sim, to: Peer, bytes: u64) {
    SatAdd(Used(s.usage, to, s.now / 1000), bytes) <= Budget(s.nodes, to)
  }

  function Consumed(s: Sim, to: Peer, bytes: u64): map<(Peer, nat), u64> {
    var used := Used(s.usage, to, s.now / 1000);
    s.usage[(to, s.now / 1000) := if Fits(s, to, bytes) then SatAdd(used, bytes) else used]
  }

  /** Only data that has reached its destination is tracked. */
  function Tracked(to: Peer, packet: Option<Packet>): Option<Message> {
    if packet.Some? && packet.value.Data? && packet.value.m.toPeer == Some(to) then Some(packet.value.m) else None
  }

  function DeliveryKey(to: Peer, m: Message): string {
    to + ":" + m.id
  }

  function AfterDelivery(s: Sim, to: Peer, m: Message): Sim {
    var key := DeliveryKey(to, m);
    var s' := s.(deliveredIds := s.deliveredIds[key := s.now]);
    if key in s.deliveredIds then s'.(metrics := s.metrics.(duplicates := s.metrics.duplicates + 1))
    else s'.(metrics := s.metrics.(delivered := s.metrics.delivered + 1, latencies := s.metrics.latencies + [SatSub(s.now, m.createdAt)]))
  }

  function HandOver(s: Sim, to: Peer, packet: Option<Packet>, bytes: u64): Sim {
    var s' := s.(usage := Consumed(s, to, bytes));
    if !Fits(s, to, bytes) then s'.(metrics := s.metrics.(droppedBandwidth := s.metrics.droppedBandwidth + 1))
    else
      var s'' := s'.(metrics := s.metrics.(sentBytes := s.metrics.sentBytes + bytes));
      if Tracked(to, packet).Some? then AfterDelivery(s'', to, Tracked(to, packet).value) else s''
  }

  function SetOnline(nodes: map<Peer, Spec>, p: Peer, online: bool): map<Peer, Spec> {
    if p in nodes then nodes[p := nodes[p].(online := online)] else nodes
  }

  function OutcomeOf(s: Sim, a: Action): Outcome {
    if a.Availability? then Switched else if Fits(s, a.to, a.bytes) then Handed else OverBudget
  }

  function Execute(s: Sim): Sim
    requires Ready(s)
  {
    var e := s.queue[0];
    var s' := s.(queue := s.queue[1..], history := s.history + [Done(e, s.now, OutcomeOf(s, e.payload))]);
    match e.payload
    case Availability(p, online) => s'.(nodes := SetOnline(s.nodes, p, online))
    case Deliver(to, packet, bytes) => HandOver(s', to, packet, bytes)
  }

  function Drain(s: Sim): Sim
    decreases |s.queue|
  {
    if Ready(s) then Drain(Execute(s)) else s
  }

  function Advance(s: Sim): Sim {
    if s.queue == [] then s else s.(now := Max(s.now, s.queue[0].at))
  }

  function Step(s: Sim): Sim {
    Drain(Advance(ScheduleAll(s)))
  }

  /** One turn of the loop of `run_for`. */
  function Turn(s: Sim, target: u64): Sim {
    var s' := Step(s);
    if s'.queue == [] && s'.commands == [] then s'.(now := Max(s'.now, Min(SatAdd(s'.now, 1), target))) else s'
  }

  // ------------------------------------------------------------ termination

  lemma {:induction false} ScheduleAllFrame(s: Sim)
    ensures Framed(s.(commands := []), ScheduleAll(s))
    ensures s.commands == [] ==> ScheduleAll(s) == s
    decreases |s.commands|
  {
    if s.commands != [] {
      var s1 := s.(commands := s.commands[1..]);
      ScheduleFrame(s1, s.commands[0]);
      ScheduleAllFrame(Schedule(s1, s.commands[0]));
    }
  }

  /** Handing over changes only the usage, the metrics and the record of deliveries. */
  ghost predicate Delivering(s: Sim, s': Sim) {
    && s'.now == s.now && s'.commands == s.commands && s'.queue == s.queue && s'.nextSeq == s.nextSeq
    && s'.offered == s.offered && s'.unlinked == s.unlinked && s'.history == s.history && s'.nodes == s.nodes
  }

  lemma HandOverFrame(s: Sim, to: Peer, packet: Option<Packet>, bytes: u64)
    ensures Delivering(s, HandOver(s, to, packet, bytes))
  {}

  lemma ExecuteFrame(s: Sim)
    requires Ready(s)
    ensures var r := Execute(s);
            && r.now == s.now && r.commands == s.commands && r.queue == s.queue[1..]
            && r.nextSeq == s.nextSeq && r.offered == s.offered && r.unlinked == s.unlinked
            && r.history == s.history + [Done(s.queue[0], s.now, OutcomeOf(s, s.queue[0].payload))]
  {
    var e := s.queue[0];
    var s' := s.(queue := s.queue[1..], history := s.history + [Done(e, s.now, OutcomeOf(s, e.payload))]);
    if e.payload.Deliver? {
      HandOverFrame(s', e.payload.to, e.payload.packet, e.payload.bytes);
    }
  }

  lemma {:induction false} DrainFrame(s: Sim)
    ensures var r := Drain(s);
            && r.now == s.now && r.commands == s.commands && !Ready(r)
            && |r.queue| <= |s.queue| && (Ready(s) ==> |r.queue| < |s.queue|)
    decreases |s.queue|
  {
    if Ready(s) {
      ExecuteFrame(s);
      DrainFrame(Execute(s));
    }
  }

  /** Every turn empties the command channel; a turn that finds it empty moves the clock or removes an event. */
  lemma TurnProgress(s: Sim, target: u64)
    requires s.now < target
    ensures var r := Turn(s, target);
            && r.commands == [] && r.now >= s.now
            && (s.commands == [] ==> r.now > s.now || (r.now == s.now && |r.queue| < |s.queue|))
  {
    var s1 := ScheduleAll(s);
    ScheduleAllFrame(s);
    DrainFrame(Advance(s1));
    assert s1.queue != [] ==> Ready(Advance(s1));
  }

  /** The loop of `run_for`, which ends for every simulation. */
  function RunUntil(s: Sim, target: u64): Sim
    decreases |s.commands|, Max(0, target - s.now), |s.queue|
  {
    if s.now >= target then s
    else
      TurnProgress(s, target);
      RunUntil(Turn(s, target), target)
  }

  function RunFor(s: Sim, duration: u64): Sim {
    RunUntil(s, SatAdd(s.now, duration))
  }
}
