/** Exactly which messages of a run reach the application, in terms of the events before them
(crates/mycelium-node/src/node.rs, forwarding.rs, ingest_guard.rs). */
module DeliveryRules {
  import opened Words
  import opened Sequences
  import opened Mesh
  import opened IngestGuard
  import opened GuardRuns
  import opened Forwarding
  import opened Delivery

  /** What an event brings to the guard: nothing if it is refused before. */
  function ArrivalOf(e: Event): Option<Arrival> {
    if e.DataIn? && e.pass && e.m.hopCount < e.m.maxHops then Some(Arrival.Direct(e.m.Author(), e.m.id, e.m.createdAt, e.guardNow))
    else if e.GossipIn? && e.pass then Some(Arrival.Gossip(e.from, e.m.id, e.m.createdAt, e.guardNow, e.size))
    else None
  }

  function ArrivalsOf(events: seq<Event>): seq<Arrival> {
    if events == [] then [] else
      var a := ArrivalOf(events[|events| - 1]);
      ArrivalsOf(events[..|events| - 1]) + (if a.Some? then [a.value] else [])
  }

  lemma ArrivalsPush(events: seq<Event>, e: Event, all: seq<Event>)
    requires all == events + [e]
    ensures ArrivalsOf(all) == ArrivalsOf(events) + if ArrivalOf(e).Some? then [ArrivalOf(e).value] else []
  {
    assert all[..|events|] == events;
  }

  /** The guard's part of one event. */
  lemma StepGuard(cfg: Config, v: View, e: Event)
    ensures After(cfg, v, e).guard == if ArrivalOf(e).Some? then GuardAfterOne(v.guard, ArrivalOf(e).value) else v.guard
    ensures ArrivalOf(e).Some? ==> (GuardPasses(v, e) <==> VerdictOn(v.guard, ArrivalOf(e).value).None?)
    ensures (e.DataIn? || e.GossipIn?) && ArrivalOf(e).None? ==> !GuardPasses(v, e)
  {}

  /** In a run from an empty guard, the guard is what the arrivals make of it. */
  lemma {:induction false} GuardOfRun(cfg: Config, v: View, events: seq<Event>)
    requires v.guard == EMPTY_GUARD
    ensures ViewAfter(cfg, v, events).guard == GuardState(ArrivalsOf(events))
    decreases |events|
  {
    if events != [] {
      var earlier, e := events[..|events| - 1], events[|events| - 1];
      assert events == earlier + [e];
      GuardOfRun(cfg, v, earlier);
      ViewPush(cfg, v, earlier, e);
      StepGuard(cfg, ViewAfter(cfg, v, earlier), e);
      ArrivalsPush(earlier, e, events);
      GuardPush(ArrivalsOf(earlier), ArrivalsOf(events), ArrivalOf(e));
    }
  }

  lemma GuardPush(arrivals: seq<Arrival>, all: seq<Arrival>, a: Option<Arrival>)
    requires all == arrivals + if a.Some? then [a.value] else []
    ensures GuardState(all) == if a.Some? then GuardAfterOne(GuardState(arrivals), a.value) else GuardState(arrivals)
  {
    if a.Some? {
      assert all[..|arrivals|] == arrivals;
    } else {
      assert all == arrivals;
    }
  }

  /** Arrivals come in the order of the clock. */
  lemma {:induction false} ArrivalsClocked(events: seq<Event>, now: u64)
    requires ClockRuns(events) && forall i :: 0 <= i < |events| ==> LastReading(events[i]) <= now
    ensures Clocked(ArrivalsOf(events)) && forall i :: 0 <= i < |ArrivalsOf(events)| ==> ArrivalsOf(events)[i].now <= now
    decreases |events|
  {
    if events != [] {
      var earlier, e := events[..|events| - 1], events[|events| - 1];
      ClockRunsPrefix(events, |events| - 1);
      assert forall i :: 0 <= i < |earlier| ==> earlier[i] == events[i];
      ArrivalsClocked(earlier, FirstReading(e));
      assert Ticks(events[|events| - 1]) && LastReading(events[|events| - 1]) <= now;
      ReadingWithin(e);
      ClockedAppend(ArrivalsOf(earlier), ArrivalOf(e), FirstReading(e), now);
    }
  }

  lemma ReadingWithin(e: Event)
    requires Ticks(e)
    ensures FirstReading(e) <= LastReading(e) && (ArrivalOf(e).Some? ==> ArrivalOf(e).value.now == FirstReading(e))
  {}

  lemma ClockedAppend(arrivals: seq<Arrival>, a: Option<Arrival>, t: u64, now: u64)
    requires Clocked(arrivals) && t <= now && (forall i :: 0 <= i < |arrivals| ==> arrivals[i].now <= t)
    requires a.Some? ==> a.value.now == t
    ensures var all := arrivals + if a.Some? then [a.value] else [];
            Clocked(all) && forall i :: 0 <= i < |all| ==> all[i].now <= now
  {}

  // ---------------------------------------------------------- the seen cache

  /** The ids stored as new, in order. */
  function IngestedIds(cfg: Config, v: View, events: seq<Event>): seq<Id> {
    if events == [] then [] else
      var earlier, e := events[..|events| - 1], events[|events| - 1];
      IngestedIds(cfg, v, earlier) + (if Ingests(ViewAfter(cfg, v, earlier), e) then [e.m.id] else [])
  }

  /** The seen cache of a node holds exactly the last ids stored, up to its capacity. */
  lemma {:induction false} SeenIsLast(cfg: Config, v: View, events: seq<Event>)
    requires v.seen == NO_IDS
    ensures ViewAfter(cfg, v, events).seen.order == LastN(IngestedIds(cfg, v, events), cfg.seenCap)
    ensures ViewAfter(cfg, v, events).seen.members == Elements(LastN(IngestedIds(cfg, v, events), cfg.seenCap))
    decreases |events|
  {
    if events != [] {
      var earlier, e := events[..|events| - 1], events[|events| - 1];
      assert events == earlier + [e];
      SeenIsLast(cfg, v, earlier);
      ViewPush(cfg, v, earlier, e);
      SeenStep(cfg, ViewAfter(cfg, v, earlier), e, IngestedIds(cfg, v, earlier));
    }
  }

  lemma SeenStep(cfg: Config, v: View, e: Event, ids: seq<Id>)
    requires v.seen.order == LastN(ids, cfg.seenCap) && v.seen.members == Elements(v.seen.order)
    ensures var ids' := ids + if Ingests(v, e) then [e.m.id] else [];
            After(cfg, v, e).seen.order == LastN(ids', cfg.seenCap) && After(cfg, v, e).seen.members == Elements(LastN(ids', cfg.seenCap))
  {
    if Ingests(v, e) {
      LastNPush(ids, e.m.id, cfg.seenCap);
    } else {
      assert ids + [] == ids;
    }
  }

  // ----------------------------------------------------------- what is stored

  /** The message is alive, not among the last ids stored, and not in the database. */
  ghost predicate IsNew(cfg: Config, v: View, events: seq<Event>, m: Message, now: u64) {
    && now < Min(m.createdAt + m.ttlSecs * 1000, U64_MAX)
    && m.id !in LastN(IngestedIds(cfg, v, events), cfg.seenCap)
    && m.id !in ViewAfter(cfg, v, events).store.db
  }

  function IngestReading(e: Event): u64
    requires !e.Gc?
  {
    match e
    case DataIn(_, _, _, _, t, _, _, _, _, _) => t
    case GossipIn(_, _, _, _, _, t, _) => t
    case SyncIn(_, t, _) => t
    case Send(_, _, t, _, _, _) => t
  }

  /** Which messages of a run are stored: new ones, and from outside only those that pass the guard by
  the rules of `GuardRuns` (and, for data, have hops left). */
  lemma IngestsIff(cfg: Config, v: View, events: seq<Event>, e: Event)
    requires v.guard == EMPTY_GUARD && v.seen == NO_IDS && ClockRuns(events + [e]) && !e.Gc?
    ensures Ingests(ViewAfter(cfg, v, events), e) <==>
            && IsNew(cfg, v, events, e.m, IngestReading(e))
            && (e.DataIn? || e.GossipIn? ==> ArrivalOf(e).Some? && MayPass(ArrivalsOf(events), ArrivalOf(e).value))
  {
    var view := ViewAfter(cfg, v, events);
    SeenIsLast(cfg, v, events);
    GuardOfRun(cfg, v, events);
    StepGuard(cfg, view, e);
    if ArrivalOf(e).Some? {
      ArrivalsOfRun(events, e);
      PassesIff(ArrivalsOf(events), ArrivalOf(e).value);
    }
  }

  lemma ArrivalsOfRun(events: seq<Event>, e: Event)
    requires ClockRuns(events + [e]) && ArrivalOf(e).Some?
    ensures Clocked(ArrivalsOf(events) + [ArrivalOf(e).value])
  {
    var all := events + [e];
    ClockRunsPrefix(all, |events|);
    assert all[..|events|] == events;
    assert forall i :: 0 <= i < |events| ==> all[i] == events[i] && LastReading(all[i]) <= FirstReading(all[|events|]);
    assert all[|events|] == e && Ticks(all[|events|]);
    ArrivalsClocked(events, FirstReading(e));
    ReadingWithin(e);
    ClockedAppend(ArrivalsOf(events), ArrivalOf(e), FirstReading(e), FirstReading(e));
  }

  /** The application receives exactly the data and gossip messages that are stored. */
  lemma DeliversIff(cfg: Config, v: View, events: seq<Event>, e: Event)
    requires v.guard == EMPTY_GUARD && v.seen == NO_IDS && ClockRuns(events + [e])
    ensures Delivers(ViewAfter(cfg, v, events), e) <==>
            && (e.DataIn? || e.GossipIn?) && ArrivalOf(e).Some?
            && IsNew(cfg, v, events, e.m, IngestReading(e)) && MayPass(ArrivalsOf(events), ArrivalOf(e).value)
  {
    if !e.Gc? {
      IngestsIff(cfg, v, events, e);
    }
  }
}
