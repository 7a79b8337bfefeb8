/** Exactly when a stored message keeps all later copies of it from the application
(crates/mycelium-node/src/node.rs, forwarding.rs, ingest_guard.rs, storage.rs). */
module LateCopies {
  import opened Words
  import opened Mesh
  import opened IngestGuard
  import opened MessageStore
  import opened Forwarding
  import opened Delivery

  // ------------------------------------------------------------------ names

  function Name(n: nat): (r: string)
    ensures |r| == n
  {
    seq(n, _ => 'x')
  }

  lemma {:induction false} LongerThanAll(names: set<string>) returns (n: nat)
    ensures forall x :: x in names ==> |x| < n
    decreases |names|
  {
    if names == {} {
      n := 0;
    } else {
      var y :| y in names;
      n := LongerThanAll(names - {y});
      n := Max(n, |y| + 1);
    }
  }

  // --------------------------------------------- flushing the seen cache

  const LONG_TTL: u32 := 0xFFFF_FFFF

  /** Some other message that sync brings at time `t`. */
  function Filler(name: Id, t: u64): Event {
    SyncIn(Message(name, "", None, t, LONG_TTL, Normal, 0, 1, None, ""), t, t)
  }

  /** After `k` fillers with names of length `n` and more: every id is shorter than `n + k`, and the
  last `k` of the seen ids are those of the fillers. */
  ghost predicate Flushing(v: View, guard: Guard, entry: Entry, cap: nat, n: nat, k: nat) {
    && WellFormed(v.store) && v.guard == guard && entry in v.store.order
    && (forall x :: x in v.store.db ==> |x| < n + k)
    && (forall x :: x in v.seen.members ==> |x| < n + k)
    && v.seen.members == Elements(v.seen.order) && |v.seen.order| <= cap
    && (forall i :: 0 <= i < |v.seen.order| && i >= |v.seen.order| - k ==> |v.seen.order[i]| >= n)
  }

  lemma RecordFiller(r: RecentIds, id: Id, cap: nat, n: nat, k: nat)
    requires |id| == n + k && |r.order| <= cap && r.members == Elements(r.order)
    requires forall x :: x in r.members ==> |x| < n + k
    requires forall i :: 0 <= i < |r.order| && i >= |r.order| - k ==> |r.order[i]| >= n
    ensures var r' := Record(r, id, cap);
            && |r'.order| <= cap && r'.members == Elements(r'.order)
            && (forall x :: x in r'.members ==> |x| < n + k + 1)
            && (forall i :: 0 <= i < |r'.order| && i >= |r'.order| - (k + 1) ==> |r'.order[i]| >= n)
  {
    var all := r.order + [id];
    forall i | 0 <= i < |all|
      ensures |all[i]| < n + k + 1
    {
      assert i < |r.order| ==> r.order[i] in r.members;
    }
  }

  lemma FlushOne(cfg: Config, v: View, guard: Guard, entry: Entry, n: nat, k: nat, t: u64)
    requires Flushing(v, guard, entry, cfg.seenCap, n, k) && t < U64_MAX
    ensures Flushing(After(cfg, v, Filler(Name(n + k), t)), guard, entry, cfg.seenCap, n, k + 1)
  {
    var e := Filler(Name(n + k), t);
    assert Ingests(v, e);
    PersistWellFormed(v.store, e.m, t);
    RecordFiller(v.seen, e.m.id, cfg.seenCap, n, k);
  }

  /** From the `k`-th event on, the run consists of fillers at time `t`. */
  ghost predicate FilledFrom(run: seq<Event>, k: nat, t: u64) {
    forall i :: k <= i < |run| ==> run[i].SyncIn? && run[i].ingestNow == t == run[i].persistNow
  }

  /** A run that ends in `view` is extended until the cache is full of fillers. */
  lemma {:induction false} FlushAll(cfg: Config, v: View, run: seq<Event>, view: View, guard: Guard, entry: Entry, n: nat, k: nat, t: u64)
    returns (run': seq<Event>, view': View)
    requires view == ViewAfter(cfg, v, run) && t < U64_MAX && k <= cfg.seenCap
    requires Flushing(view, guard, entry, cfg.seenCap, n, k) && run != [] && FilledFrom(run, 1, t)
    ensures view' == ViewAfter(cfg, v, run') && Flushing(view', guard, entry, cfg.seenCap, n, cfg.seenCap)
    ensures run' != [] && run'[0] == run[0] && FilledFrom(run', 1, t)
    decreases cfg.seenCap - k
  {
    if k == cfg.seenCap {
      run', view' := run, view;
    } else {
      var f := Filler(Name(n + k), t);
      FlushOne(cfg, view, guard, entry, n, k, t);
      ViewPush(cfg, v, run, f);
      run', view' := FlushAll(cfg, v, run + [f], After(cfg, view, f), guard, entry, n, k + 1, t);
    }
  }

  /** Once the cache is flushed and the entry collected, the id is unknown again. */
  lemma Forgotten(v: View, guard: Guard, entry: Entry, cap: nat, n: nat, now: u64)
    requires Flushing(v, guard, entry, cap, n, cap) && |entry.id| < n && Outdated(entry, now)
    ensures entry.id !in v.seen.members && entry.id !in Collected(v.store, now).db
  {
    CollectEntry(v.store, now, entry);
  }

  // --------------------------------------------------------------- the copy

  /** A copy of the message under an author the guard has not met, taken in at `now`. */
  function CopyOf(m: Message, author: Peer, now: u64): Event {
    var copy := Message(m.id, author, None, m.createdAt, LONG_TTL, Normal, 0, 1, Some(author), m.body);
    DataIn(author, copy, true, now, now, now, now, now, [], Active)
  }

  lemma CopyDelivered(v: View, m: Message, author: Peer)
    requires m.id !in v.seen.members && m.id !in v.store.db
    requires author !in v.guard.replay && author !in v.guard.rate
    ensures Delivers(v, CopyOf(m, author, LastChance(m.createdAt)))
  {}

  ghost predicate IsLateCopy(e: Event, later: seq<Event>, d: Event)
    requires !e.Gc?
  {
    && ClockRuns([e] + later + [d])
    && (d.DataIn? || d.GossipIn?) && d.m.id == e.m.id && d.m.createdAt == e.m.createdAt
  }

  ghost predicate Refused(cfg: Config, v: View, e: Event, later: seq<Event>, d: Event) {
    !Delivers(ViewAfter(cfg, v, [e] + later), d)
  }

  /** Storing a new message starts the flush. */
  lemma StoredStarts(cfg: Config, v: View, e: Event, v1: View) returns (n: nat)
    requires WellFormed(v.store) && (e.SyncIn? || e.Send?) && Ingests(v, e) && v1 == After(cfg, v, e)
    ensures Flushing(v1, v.guard, Entry(PersistReading(e), e.m.id), cfg.seenCap, n, 0) && |e.m.id| < n
    ensures v1 == ViewAfter(cfg, v, [e])
  {
    n := LongerThanAll(v1.store.db.Keys + v1.seen.members);
    AfterWellFormed(cfg, v, e);
    ViewPush(cfg, v, [], e);
    assert [] + [e] == [e];
    assert e.m.id in v1.store.db;
  }

  lemma UnknownAuthor(guard: Guard) returns (author: Peer)
    ensures author !in guard.replay && author !in guard.rate
  {
    var n := LongerThanAll(guard.replay.Keys + guard.rate.Keys);
    author := Name(n);
  }

  /** A message created too far ahead of the store's clock comes back: it is flushed from the cache,
  collected after the retention time, and a copy then still counts as fresh. */
  lemma Resurfaces(cfg: Config, v: View, e: Event) returns (later: seq<Event>, d: Event)
    requires WellFormed(v.store) && (e.SyncIn? || e.Send?) && Ingests(v, e) && Ticks(e)
    requires !Outlasts(e.m.createdAt, PersistReading(e))
    ensures IsLateCopy(e, later, d) && !Refused(cfg, v, e, later, d)
  {
    var v1, t := After(cfg, v, e), PersistReading(e);
    var n := StoredStarts(cfg, v, e, v1);
    var author := UnknownAuthor(v.guard);
    var run, v2 := FlushAll(cfg, v, [e], v1, v.guard, Entry(t, e.m.id), n, 0, t);
    later, d := Comeback(cfg, v, e, run, v2, n, author, t, LastChance(e.m.createdAt));
  }

  lemma Comeback(cfg: Config, v: View, e: Event, run: seq<Event>, v2: View, n: nat, author: Peer, t: u64, now: u64)
    returns (later: seq<Event>, d: Event)
    requires v2 == ViewAfter(cfg, v, run) && run != [] && run[0] == e && FilledFrom(run, 1, t)
    requires (e.SyncIn? || e.Send?) && Ticks(e) && LastReading(e) == t && t + RETENTION_MS < now == LastChance(e.m.createdAt)
    requires Flushing(v2, v.guard, Entry(t, e.m.id), cfg.seenCap, n, cfg.seenCap) && |e.m.id| < n
    requires author !in v.guard.replay && author !in v.guard.rate
    ensures IsLateCopy(e, later, d) && !Refused(cfg, v, e, later, d)
  {
    later, d := run[1..] + [Gc(now)], CopyOf(e.m, author, now);
    Forgotten(v2, v.guard, Entry(t, e.m.id), cfg.seenCap, n, now);
    CopyDelivered(After(cfg, v2, Gc(now)), e.m, author);
    ViewPush(cfg, v, run, Gc(now));
    assert [e] + later == run + [Gc(now)];
    LateCopyInTime(e, run, t, now, d);
  }

  lemma LateCopyInTime(e: Event, run: seq<Event>, t: u64, now: u64, d: Event)
    requires (e.SyncIn? || e.Send?) && Ticks(e) && LastReading(e) == t <= now
    requires run != [] && run[0] == e && FilledFrom(run, 1, t)
    requires d.DataIn? && Ticks(d) && FirstReading(d) == now
    ensures ClockRuns(run + [Gc(now)] + [d])
  {
    var all := run + [Gc(now)] + [d];
    forall i | 0 <= i < |all|
      ensures Ticks(all[i]) && (i < |run| ==> FirstReading(all[i]) <= LastReading(all[i]) == t)
      ensures 0 < i < |run| ==> FirstReading(all[i]) == t
    {
      assert i < |run| ==> all[i] == run[i];
    }
  }

  // ------------------------------------------------------------ exactly when

  /** No later copy of the event's message is delivered in any run. */
  ghost predicate ShieldedForever(cfg: Config, v: View, e: Event)
    requires !e.Gc?
  {
    forall later, d :: IsLateCopy(e, later, d) ==> Refused(cfg, v, e, later, d)
  }

  /** Whichever way a message came to be stored, no copy of it is ever delivered afterwards if and
  only if the store keeps it until its last chance has passed. */
  lemma StoredOnceIff(cfg: Config, v: View, e: Event)
    requires WellFormed(v.store) && !e.Gc? && Ingests(v, e) && Ticks(e)
    ensures ShieldedForever(cfg, v, e) <==> Outlasts(e.m.createdAt, PersistReading(e))
  {
    if Outlasts(e.m.createdAt, PersistReading(e)) {
      forall later, d | IsLateCopy(e, later, d)
        ensures Refused(cfg, v, e, later, d)
      {
        LateCopyRefused(cfg, v, e, later, d);
      }
    } else {
      if e.DataIn? || e.GossipIn? {
        DeliveryIsTimely(v, e);
      }
      var later, d := Resurfaces(cfg, v, e);
    }
  }

  lemma LateCopyRefused(cfg: Config, v: View, e: Event, later: seq<Event>, d: Event)
    requires WellFormed(v.store) && !e.Gc? && Ingests(v, e) && IsLateCopy(e, later, d)
    requires Outlasts(e.m.createdAt, PersistReading(e))
    ensures Refused(cfg, v, e, later, d)
  {
    var run := [e] + later + [d];
    assert run[0] == e && run[|later| + 1] == d && run[..0] == [] && run[..|later| + 1] == [e] + later;
    StoredOnce(cfg, v, run, 0, |later| + 1);
  }
}
