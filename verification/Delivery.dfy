/** Whole runs of one node's message pipeline: guard, seen cache, store, delivery and forwarding
(crates/mycelium-node/src/node.rs, forwarding.rs, ingest_guard.rs, storage.rs).

Every reading of the clock is an input. Throttling, signature checks and scope subscriptions
are folded into one arbitrary verdict `pass` per event.
*/
module Delivery {
  import opened Words
  import opened Mesh
  import opened IngestGuard
  import opened MessageStore
  import opened Forwarding

  datatype View = View(seen: RecentIds, guard: Guard, store: Store)

  datatype Event =
    /** A `Data` message from a peer. */
    | DataIn(from: Peer, m: Message, pass: bool, guardNow: u64, ingestNow: u64, persistNow: u64, forwardNow: u64, decideNow: u64,
             known: seq<Peer>, state: NodeState)
    /** A message built from scoped gossip of `size` bytes; `pass` says whether its scope is subscribed to. */
    | GossipIn(from: Peer, m: Message, pass: bool, size: nat, guardNow: u64, ingestNow: u64, persistNow: u64)
    /** One message of a `SyncData` batch. */
    | SyncIn(m: Message, ingestNow: u64, persistNow: u64)
    /** A message of this node's own, for one destination. */
    | Send(m: Message, to: Peer, ingestNow: u64, persistNow: u64, known: seq<Peer>, strikes: map<Peer, nat>)
    | Gc(now: u64)

  function FirstReading(e: Event): u64 {
    match e
    case DataIn(_, _, _, t, _, _, _, _, _, _) => t
    case GossipIn(_, _, _, _, t, _, _) => t
    case SyncIn(_, t, _) => t
    case Send(_, _, t, _, _, _) => t
    case Gc(t) => t
  }

  function LastReading(e: Event): u64 {
    match e
    case DataIn(_, _, _, _, _, _, _, t, _, _) => t
    case GossipIn(_, _, _, _, _, _, t) => t
    case SyncIn(_, _, t) => t
    case Send(_, _, _, t, _, _) => t
    case Gc(t) => t
  }

  /** The clock does not run backwards while an event is handled. */
  predicate Ticks(e: Event) {
    match e
    case DataIn(_, _, _, a, b, c, d, f, _, _) => a <= b <= c <= d <= f
    case GossipIn(_, _, _, _, a, b, c) => a <= b <= c
    case SyncIn(_, a, b) => a <= b
    case Send(_, _, a, b, _, _) => a <= b
    case Gc(_) => true
  }

  // ------------------------------------------------------------ one event

  predicate New(v: View, m: Message, now: u64) {
    !m.Expired(now) && m.id !in v.seen.members && m.id !in v.store.db
  }

  function Stored(cfg: Config, v: View, m: Message, now: u64): View {
    v.(seen := Record(v.seen, m.id, cfg.seenCap), store := Persisted(v.store, m, now))
  }

  /** The guard's verdict on a message that came from outside. */
  predicate GuardPasses(v: View, e: Event)
    requires e.DataIn? || e.GossipIn?
  {
    if e.DataIn? then
      e.pass && e.m.hopCount < e.m.maxHops && Judge(v.guard, e.m.Author(), e.m.id, e.m.createdAt, e.guardNow).None?
    else
      e.pass && JudgeGossip(v.guard, e.from, e.m.id, e.size, e.m.createdAt, e.guardNow).None?
  }

  function GuardAfter(v: View, e: Event): Guard
    requires e.DataIn? || e.GossipIn?
  {
    if e.DataIn? then
      if e.pass && e.m.hopCount < e.m.maxHops
      then AfterJudging(v.guard, e.m.Author(), e.m.id, e.m.createdAt, e.guardNow) else v.guard
    else
      if e.pass then AfterJudgingGossip(v.guard, e.from, e.m.id, e.size, e.m.createdAt, e.guardNow) else v.guard
  }

  /** Whether the event's message ends up stored as new. */
  predicate Ingests(v: View, e: Event) {
    match e
    case Gc(_) => false
    case SyncIn(m, now, _) => New(v, m, now)
    case Send(m, _, now, _, _, _) => New(v, m, now)
    case DataIn(_, m, _, _, now, _, _, _, _, _) => GuardPasses(v, e) && New(v, m, now)
    case GossipIn(_, m, _, _, _, now, _) => GuardPasses(v, e) && New(v, m, now)
  }

  /** Whether the event hands its message to the application. */
  predicate Delivers(v: View, e: Event) {
    (e.DataIn? || e.GossipIn?) && Ingests(v, e)
  }

  /** The copies the event puts into the sending queue. */
  function Enqueues(cfg: Config, v: View, e: Event): seq<(Peer, Message)> {
    match e
    case DataIn(from, m, _, _, _, _, t, t', known, state) =>
      if !Ingests(v, e) then []
      else
        var targets := Targets(cfg, m, from, known, state, t, t');
        seq(|targets|, i requires 0 <= i < |targets| => (targets[i], Masked(cfg, m)))
    case Send(m, to, _, _, known, strikes) =>
      var targets := SendTargets(cfg, to, known, strikes);
      seq(|targets|, i requires 0 <= i < |targets| => (targets[i], m))
    case _ => []
  }

  function PersistReading(e: Event): u64
    requires !e.Gc?
  {
    match e
    case DataIn(_, _, _, _, _, t, _, _, _, _) => t
    case GossipIn(_, _, _, _, _, _, t) => t
    case SyncIn(_, _, t) => t
    case Send(_, _, _, t, _, _) => t
  }

  function After(cfg: Config, v: View, e: Event): View {
    if e.Gc? then v.(store := Collected(v.store, e.now))
    else
      var v' := if e.DataIn? || e.GossipIn? then v.(guard := GuardAfter(v, e)) else v;
      if Ingests(v, e) then Stored(cfg, v', e.m, PersistReading(e)) else v'
  }

  function ViewAfter(cfg: Config, v: View, events: seq<Event>): View {
    if events == [] then v else After(cfg, ViewAfter(cfg, v, events[..|events| - 1]), events[|events| - 1])
  }

  lemma ViewPush(cfg: Config, v: View, events: seq<Event>, e: Event)
    ensures ViewAfter(cfg, v, events + [e]) == After(cfg, ViewAfter(cfg, v, events), e)
  {
    assert (events + [e])[..|events|] == events;
  }

  /** A run under a nondecreasing clock. */
  ghost predicate ClockRuns(events: seq<Event>) {
    && (forall i :: 0 <= i < |events| ==> Ticks(events[i]))
    && (forall i, j :: 0 <= i < j < |events| ==> LastReading(events[i]) <= FirstReading(events[j]))
  }

  lemma ClockRunsPrefix(events: seq<Event>, n: nat)
    requires ClockRuns(events) && n <= |events|
    ensures ClockRuns(events[..n])
  {}

  // ------------------------------------------------------- once is enough

  /** The last moment at which a copy created at `createdAt` can be let in from outside: after that it
  is too old for the guard or expired, since no expiry lies beyond `U64_MAX`. */
  function LastChance(createdAt: u64): u64 {
    Min(createdAt + REPLAY_MAX_AGE_MS, U64_MAX - 1)
  }

  /** A message stored at `persisted` stays in the store until its last chance has passed. */
  predicate Outlasts(createdAt: u64, persisted: u64) {
    LastChance(createdAt) <= persisted + RETENTION_MS
  }

  /** Nothing that carries this id and creation time can pass the guard again: it is either
  stale for good or safely in the store. */
  ghost predicate Shielded(s: Store, id: Id, createdAt: u64, now: u64) {
    || now > LastChance(createdAt)
    || (id in s.db && forall e :: e in s.order && e.id == id ==> Outlasts(createdAt, e.timestamp))
  }

  lemma ShieldedNotIngested(v: View, e: Event, id: Id, createdAt: u64, now: u64)
    requires Shielded(v.store, id, createdAt, now) && now <= FirstReading(e) && Ticks(e)
    requires (e.DataIn? || e.GossipIn?) && e.m.id == id && e.m.createdAt == createdAt
    ensures !Ingests(v, e)
  {}

  lemma {:induction false} ShieldHolds(cfg: Config, v: View, e: Event, id: Id, createdAt: u64, now: u64)
    requires Shielded(v.store, id, createdAt, now) && WellFormed(v.store)
    requires now <= FirstReading(e) && Ticks(e)
    ensures Shielded(After(cfg, v, e).store, id, createdAt, LastReading(e))
  {
    if LastReading(e) <= LastChance(createdAt) {
      if e.Gc? {
        ShieldSurvivesGc(v.store, id, createdAt, e.now);
      } else if Ingests(v, e) {
        assert e.m.id != id;
      }
    }
  }

  lemma ShieldSurvivesGc(s: Store, id: Id, createdAt: u64, now: u64)
    requires WellFormed(s) && id in s.db && now <= LastChance(createdAt)
    requires forall e :: e in s.order && e.id == id ==> Outlasts(createdAt, e.timestamp)
    ensures Shielded(Collected(s, now), id, createdAt, now)
  {
    CollectWellFormed(s, now);
    if e :| e in s.order && e.id == id {
      assert !Outdated(e, now);
      CollectEntry(s, now, e);
    } else {
      CollectUnlisted(s, now, id);
    }
  }

  lemma AfterWellFormed(cfg: Config, v: View, e: Event)
    requires WellFormed(v.store)
    ensures WellFormed(After(cfg, v, e).store)
  {
    if e.Gc? {
      CollectWellFormed(v.store, e.now);
    } else if Ingests(v, e) {
      PersistWellFormed(v.store, e.m, PersistReading(e));
    }
  }

  lemma {:induction false} ViewWellFormed(cfg: Config, v: View, events: seq<Event>)
    requires WellFormed(v.store)
    ensures WellFormed(ViewAfter(cfg, v, events).store)
    decreases |events|
  {
    if events != [] {
      ViewWellFormed(cfg, v, events[..|events| - 1]);
      AfterWellFormed(cfg, ViewAfter(cfg, v, events[..|events| - 1]), events[|events| - 1]);
    }
  }

  /** Storing a message for longer than its last chance raises the shield. */
  lemma IngestShields(cfg: Config, v: View, e: Event)
    requires WellFormed(v.store) && Ingests(v, e) && Ticks(e)
    requires Outlasts(e.m.createdAt, PersistReading(e))
    ensures Shielded(After(cfg, v, e).store, e.m.id, e.m.createdAt, LastReading(e))
  {
    var s' := After(cfg, v, e).store;
    forall x | x in s'.order && x.id == e.m.id
      ensures x == Entry(PersistReading(e), e.m.id)
    {
      assert x in v.store.order ==> x.id in v.store.db;
    }
  }

  lemma DeliveryIsTimely(v: View, e: Event)
    requires Delivers(v, e) && Ticks(e)
    ensures Outlasts(e.m.createdAt, PersistReading(e))
  {}

  lemma ShieldRaised(cfg: Config, v: View, events: seq<Event>, i: nat)
    requires WellFormed(v.store) && i < |events| && Ticks(events[i])
    requires Ingests(ViewAfter(cfg, v, events[..i]), events[i])
    requires Outlasts(events[i].m.createdAt, PersistReading(events[i]))
    ensures Shielded(ViewAfter(cfg, v, events[..i + 1]).store, events[i].m.id, events[i].m.createdAt, LastReading(events[i]))
  {
    ViewWellFormed(cfg, v, events[..i]);
    IngestShields(cfg, ViewAfter(cfg, v, events[..i]), events[i]);
    assert events[..i + 1][..i] == events[..i];
  }

  /** The event leaves every shield in place. */
  ghost predicate KeepsShields(s: Store, s': Store, e: Event) {
    forall id, createdAt: u64, now: u64 :: Shielded(s, id, createdAt, now) && now <= FirstReading(e) ==> Shielded(s', id, createdAt, LastReading(e))
  }

  lemma StepKeepsShields(cfg: Config, v: View, events: seq<Event>, k: nat)
    requires WellFormed(v.store) && k < |events| && Ticks(events[k])
    ensures KeepsShields(ViewAfter(cfg, v, events[..k]).store, ViewAfter(cfg, v, events[..k + 1]).store, events[k])
  {
    var view, e := ViewAfter(cfg, v, events[..k]), events[k];
    ViewWellFormed(cfg, v, events[..k]);
    ViewPush(cfg, v, events[..k], e);
    assert events[..k + 1] == events[..k] + [e];
    forall id, createdAt: u64, now: u64 | Shielded(view.store, id, createdAt, now) && now <= FirstReading(e)
      ensures Shielded(After(cfg, view, e).store, id, createdAt, LastReading(e))
    {
      ShieldHolds(cfg, view, e, id, createdAt, now);
    }
  }

  /** The stores before, between and after the events of a run. */
  function Stores(cfg: Config, v: View, events: seq<Event>): (r: seq<Store>)
    ensures |r| == |events| + 1
    ensures forall k :: 0 <= k <= |events| ==> r[k] == ViewAfter(cfg, v, events[..k]).store
  {
    seq(|events| + 1, k requires 0 <= k <= |events| => ViewAfter(cfg, v, events[..k]).store)
  }

  /** Once the shield is raised it holds in every later store. */
  lemma {:induction false} ShieldLasts(events: seq<Event>, stores: seq<Store>, i: nat, j: nat, id: Id, createdAt: u64)
    requires ClockRuns(events) && |stores| == |events| + 1 && i < j <= |events|
    requires forall k :: 0 <= k < |events| ==> KeepsShields(stores[k], stores[k + 1], events[k])
    requires Shielded(stores[i + 1], id, createdAt, LastReading(events[i]))
    ensures Shielded(stores[j], id, createdAt, LastReading(events[j - 1]))
    decreases j
  {
    if j > i + 1 {
      ShieldLasts(events, stores, i, j - 1, id, createdAt);
      assert KeepsShields(stores[j - 1], stores[j - 1 + 1], events[j - 1]);
    }
  }

  lemma ShieldUpTo(cfg: Config, v: View, events: seq<Event>, i: nat, j: nat)
    requires WellFormed(v.store) && ClockRuns(events) && i < j <= |events|
    requires Ingests(ViewAfter(cfg, v, events[..i]), events[i])
    requires Outlasts(events[i].m.createdAt, PersistReading(events[i]))
    ensures Shielded(ViewAfter(cfg, v, events[..j]).store, events[i].m.id, events[i].m.createdAt, LastReading(events[j - 1]))
  {
    var stores := Stores(cfg, v, events);
    ShieldRaised(cfg, v, events, i);
    forall k | 0 <= k < |events|
      ensures KeepsShields(stores[k], stores[k + 1], events[k])
    {
      StepKeepsShields(cfg, v, events, k);
    }
    ShieldLasts(events, stores, i, j, events[i].m.id, events[i].m.createdAt);
  }

  /** Once event `i` has stored a message, whichever way it came, no later `Data` or gossip event
  with the same id and creation time is let in, whatever else happens: cache eviction, window
  eviction and garbage collection included. */
  lemma StoredOnce(cfg: Config, v: View, events: seq<Event>, i: nat, j: nat)
    requires WellFormed(v.store) && ClockRuns(events) && i < j < |events|
    requires Ingests(ViewAfter(cfg, v, events[..i]), events[i])
    requires Outlasts(events[i].m.createdAt, PersistReading(events[i]))
    requires events[j].DataIn? || events[j].GossipIn?
    requires events[j].m.id == events[i].m.id && events[j].m.createdAt == events[i].m.createdAt
    ensures !Ingests(ViewAfter(cfg, v, events[..j]), events[j])
  {
    ShieldUpTo(cfg, v, events, i, j);
    ShieldedNotIngested(ViewAfter(cfg, v, events[..j]), events[j], events[i].m.id, events[i].m.createdAt, LastReading(events[j - 1]));
  }

  /** At-most-once delivery: no message, by id and creation time, reaches the application twice. */
  lemma DeliveredOnce(cfg: Config, v: View, events: seq<Event>, i: nat, j: nat)
    requires WellFormed(v.store) && ClockRuns(events) && i < j < |events|
    requires Delivers(ViewAfter(cfg, v, events[..i]), events[i]) && Delivers(ViewAfter(cfg, v, events[..j]), events[j])
    ensures events[i].m.id != events[j].m.id || events[i].m.createdAt != events[j].m.createdAt
  {
    if events[i].m.id == events[j].m.id && events[i].m.createdAt == events[j].m.createdAt {
      NotDeliveredAgain(cfg, v, events, i, j);
    }
  }

  /** What the application has received, in order. */
  function DeliveredLog(cfg: Config, v: View, events: seq<Event>): seq<Message> {
    if events == [] then [] else
      var earlier, e := events[..|events| - 1], events[|events| - 1];
      DeliveredLog(cfg, v, earlier) + (if Delivers(ViewAfter(cfg, v, earlier), e) then [e.m] else [])
  }

  /** Every received message comes from a delivering event. */
  lemma {:induction false} LogOrigin(cfg: Config, v: View, events: seq<Event>, a: nat) returns (k: nat)
    requires a < |DeliveredLog(cfg, v, events)|
    ensures k < |events| && Delivers(ViewAfter(cfg, v, events[..k]), events[k])
    ensures events[k].m == DeliveredLog(cfg, v, events)[a]
    decreases |events|
  {
    var earlier := events[..|events| - 1];
    if a < |DeliveredLog(cfg, v, earlier)| {
      k := LogOrigin(cfg, v, earlier, a);
      assert earlier[..k] == events[..k];
    } else {
      k := |events| - 1;
    }
  }

  ghost predicate Unrepeated(log: seq<Message>) {
    forall a, b :: 0 <= a < b < |log| ==> log[a].id != log[b].id || log[a].createdAt != log[b].createdAt
  }

  /** At-most-once delivery, seen from the application: its log of a whole run never repeats a message. */
  lemma {:induction false} LogUnrepeated(cfg: Config, v: View, events: seq<Event>)
    requires WellFormed(v.store) && ClockRuns(events)
    ensures Unrepeated(DeliveredLog(cfg, v, events))
    decreases |events|
  {
    if events != [] {
      var n := |events| - 1;
      var earlier := events[..n];
      ClockRunsPrefix(events, n);
      LogUnrepeated(cfg, v, earlier);
      if Delivers(ViewAfter(cfg, v, earlier), events[n]) {
        var log := DeliveredLog(cfg, v, earlier);
        forall a | 0 <= a < |log|
          ensures log[a].id != events[n].m.id || log[a].createdAt != events[n].m.createdAt
        {
          var k := LogOrigin(cfg, v, earlier, a);
          assert earlier[..k] == events[..k];
          DeliveredOnce(cfg, v, events, k, n);
        }
      }
    }
  }

  /** A message that anti-entropy sync fetched first never reaches the application afterwards, if it
  stays in the store until its last chance has passed. */
  lemma SyncedNeverDelivered(cfg: Config, v: View, events: seq<Event>, i: nat, j: nat)
    requires WellFormed(v.store) && ClockRuns(events) && i < j < |events|
    requires events[i].SyncIn? && Ingests(ViewAfter(cfg, v, events[..i]), events[i])
    requires Outlasts(events[i].m.createdAt, events[i].persistNow)
    requires !events[j].Gc? && events[j].m.id == events[i].m.id && events[j].m.createdAt == events[i].m.createdAt
    ensures !Delivers(ViewAfter(cfg, v, events[..j]), events[j])
  {
    if events[j].DataIn? || events[j].GossipIn? {
      StoredOnce(cfg, v, events, i, j);
    }
  }

  // ---------------------------------------------------- bounded forwarding

  /** Copies of one message, by id and creation time, that a run puts into the sending queue. */
  function CopiesQueued(cfg: Config, v: View, events: seq<Event>, id: Id, createdAt: u64): nat {
    if events == [] then 0 else
      var earlier, e := events[..|events| - 1], events[|events| - 1];
      CopiesQueued(cfg, v, earlier, id, createdAt) +
      (if !e.Gc? && e.m.id == id && e.m.createdAt == createdAt then |Enqueues(cfg, ViewAfter(cfg, v, earlier), e)| else 0)
  }

  predicate IsSend(e: Event, id: Id, createdAt: u64) {
    e.Send? && e.m.id == id && e.m.createdAt == createdAt
  }

  lemma DataQueuesAtMostFour(cfg: Config, v: View, e: Event)
    requires !e.Send?
    ensures |Enqueues(cfg, v, e)| <= 4
    ensures |Enqueues(cfg, v, e)| > 0 ==> Delivers(v, e)
  {
    if e.DataIn? && Ingests(v, e) {
      TargetsBounded(cfg, e.m, e.from, e.known, e.state, e.forwardNow, e.decideNow);
    }
  }

  /** A forwarded copy goes to a known peer other than the hop it came from, one hop further and within the limit. */
  lemma NeverBack(cfg: Config, v: View, e: Event, i: nat)
    requires e.DataIn? && i < |Enqueues(cfg, v, e)|
    ensures var (to, copy) := Enqueues(cfg, v, e)[i];
            && to in e.known && to != e.from
            && copy.Author() == e.m.Author() && copy.id == e.m.id && copy.createdAt == e.m.createdAt
            && copy.hopCount == e.m.hopCount + 1 <= copy.maxHops == e.m.maxHops
  {
    var targets := Targets(cfg, e.m, e.from, e.known, e.state, e.forwardNow, e.decideNow);
    TargetsBounded(cfg, e.m, e.from, e.known, e.state, e.forwardNow, e.decideNow);
    MaskKeepsIdentity(cfg, e.m);
    assert targets[i] in targets;
  }

  /** Exactly who gets a copy of an arriving message: nobody unless it is stored as new. */
  lemma ForwardedIff(cfg: Config, v: View, e: Event, p: Peer)
    requires e.DataIn?
    ensures (exists i :: 0 <= i < |Enqueues(cfg, v, e)| && Enqueues(cfg, v, e)[i].0 == p) <==>
            Ingests(v, e) && Gets(cfg, e.m, e.from, e.known, e.state, e.forwardNow, e.decideNow, p)
  {
    var targets := Targets(cfg, e.m, e.from, e.known, e.state, e.forwardNow, e.decideNow);
    TargetIff(cfg, e.m, e.from, e.known, e.state, e.forwardNow, e.decideNow, p);
    if Ingests(v, e) && p in targets {
      var i :| 0 <= i < |targets| && targets[i] == p;
      assert Enqueues(cfg, v, e)[i].0 == p;
    }
  }

  /** At a node that did not create the message, at most four copies of it are queued in the whole run. */
  lemma {:induction false} RelayQueuesAtMostFour(cfg: Config, v: View, events: seq<Event>, id: Id, createdAt: u64)
    requires WellFormed(v.store) && ClockRuns(events)
    requires forall k :: 0 <= k < |events| ==> !IsSend(events[k], id, createdAt)
    ensures CopiesQueued(cfg, v, events, id, createdAt) <= 4
    ensures CopiesQueued(cfg, v, events, id, createdAt) > 0 ==>
              exists k :: 0 <= k < |events| && QueuedAt(cfg, v, events, k, id, createdAt)
    decreases |events|
  {
    if events != [] {
      var n := |events| - 1;
      var earlier, e := events[..n], events[n];
      ClockRunsPrefix(events, n);
      RelayQueuesAtMostFour(cfg, v, earlier, id, createdAt);
      var same := !e.Gc? && e.m.id == id && e.m.createdAt == createdAt;
      if same {
        assert !IsSend(events[n], id, createdAt);
        DataQueuesAtMostFour(cfg, ViewAfter(cfg, v, earlier), e);
      }
      if CopiesQueued(cfg, v, earlier, id, createdAt) > 0 {
        var k :| 0 <= k < |earlier| && QueuedAt(cfg, v, earlier, k, id, createdAt);
        assert earlier[..k] == events[..k];
        assert QueuedAt(cfg, v, events, k, id, createdAt);
        if same {
          NotDeliveredAgain(cfg, v, events, k, n);
        }
      } else if same && Delivers(ViewAfter(cfg, v, earlier), e) {
        assert QueuedAt(cfg, v, events, n, id, createdAt);
      }
    }
  }

  ghost predicate QueuedAt(cfg: Config, v: View, events: seq<Event>, k: nat, id: Id, createdAt: u64)
    requires k < |events|
  {
    Delivers(ViewAfter(cfg, v, events[..k]), events[k]) && events[k].m.id == id && events[k].m.createdAt == createdAt
  }

  lemma NotDeliveredAgain(cfg: Config, v: View, events: seq<Event>, k: nat, n: nat)
    requires WellFormed(v.store) && ClockRuns(events) && k < n < |events|
    requires Delivers(ViewAfter(cfg, v, events[..k]), events[k]) && !events[n].Gc?
    requires events[n].m.id == events[k].m.id && events[n].m.createdAt == events[k].m.createdAt
    ensures !Delivers(ViewAfter(cfg, v, events[..n]), events[n])
  {
    if events[n].DataIn? || events[n].GossipIn? {
      DeliveryIsTimely(ViewAfter(cfg, v, events[..k]), events[k]);
      StoredOnce(cfg, v, events, k, n);
    }
  }

  /** At the node that created the message, copies are queued by the send alone: echoes of it add none. */
  lemma {:induction false} OriginQueuesOnSendOnly(cfg: Config, v: View, events: seq<Event>)
    requires WellFormed(v.store) && ClockRuns(events) && events != []
    requires events[0].Send? && Ingests(v, events[0])
    requires Outlasts(events[0].m.createdAt, events[0].persistNow)
    requires forall k :: 0 < k < |events| ==> !IsSend(events[k], events[0].m.id, events[0].m.createdAt)
    ensures CopiesQueued(cfg, v, events, events[0].m.id, events[0].m.createdAt) <= Max(1, cfg.maxRelayFanout)
    decreases |events|
  {
    var n := |events| - 1;
    var earlier, e := events[..n], events[n];
    var m := events[0].m;
    if n == 0 {
      assert earlier == [];
      SendTargetsBounded(cfg, e.to, e.known, e.strikes);
    } else {
      ClockRunsPrefix(events, n);
      OriginQueuesOnSendOnly(cfg, v, earlier);
      if !e.Gc? && e.m.id == m.id && e.m.createdAt == m.createdAt {
        assert !IsSend(e, m.id, m.createdAt);
        DataQueuesAtMostFour(cfg, ViewAfter(cfg, v, earlier), e);
        if e.DataIn? || e.GossipIn? {
          assert events[..0] == [];
          StoredOnce(cfg, v, events, 0, n);
        }
      }
    }
  }
}
