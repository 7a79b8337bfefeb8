/** The ingest guard over whole runs of arrivals: its tables are what the arrivals add up to, and its
verdicts are said in terms of the arrivals alone (crates/mycelium-node/src/ingest_guard.rs). */
module GuardRuns {
  import opened Words
  import opened Sequences
  import opened Mesh
  import opened IngestGuard

  /** A message that reaches the guard. The replay window is shared, keyed by author and by gossip peer. */
  datatype Arrival =
    | Direct(key: Peer, id: Id, createdAt: u64, now: u64)
    | Gossip(key: Peer, id: Id, createdAt: u64, now: u64, size: nat)

  const EMPTY_GUARD := Guard(map[], map[], map[])

  function VerdictOn(g: Guard, a: Arrival): Option<Reject> {
    match a
    case Direct(key, id, createdAt, now) => Judge(g, key, id, createdAt, now)
    case Gossip(key, id, createdAt, now, size) => JudgeGossip(g, key, id, size, createdAt, now)
  }

  function GuardAfterOne(g: Guard, a: Arrival): Guard {
    match a
    case Direct(key, id, createdAt, now) => AfterJudging(g, key, id, createdAt, now)
    case Gossip(key, id, createdAt, now, size) => AfterJudgingGossip(g, key, id, size, createdAt, now)
  }

  function GuardState(arrivals: seq<Arrival>): Guard {
    if arrivals == [] then EMPTY_GUARD
    else GuardAfterOne(GuardState(arrivals[..|arrivals| - 1]), arrivals[|arrivals| - 1])
  }

  // ---------------------------------------------- what the arrivals add up to

  /** Created at most five minutes ahead of the clock and at most thirty minutes before it. */
  predicate IsFresh(a: Arrival) {
    a.createdAt <= a.now + 300_000 && a.now <= a.createdAt + 1_800_000
  }

  /** Gossip of admissible size from one peer, by time: what its rate limiter counts. */
  function GossipRequests(arrivals: seq<Arrival>, key: Peer): seq<u64> {
    if arrivals == [] then [] else
      var a := arrivals[|arrivals| - 1];
      GossipRequests(arrivals[..|arrivals| - 1], key) + (if a.Gossip? && a.key == key && a.size <= 65_536 then [a.now] else [])
  }

  /** The arrival gets as far as the replay check. */
  predicate ReachesReplay(earlier: seq<Arrival>, a: Arrival) {
    IsFresh(a) && (a.Gossip? ==> a.size <= 65_536 && RateAllows(GossipRequests(earlier, a.key), a.now, 60))
  }

  /** The ids recorded for one key, in order: those that reach the replay check and are not among the
  last 512 recorded. */
  function RecordedFor(arrivals: seq<Arrival>, key: Peer): seq<Id> {
    if arrivals == [] then [] else
      var earlier, a := arrivals[..|arrivals| - 1], arrivals[|arrivals| - 1];
      RecordedFor(earlier, key) + (if a.key == key && ReachesReplay(earlier, a) && a.id !in LastN(RecordedFor(earlier, key), 512) then [a.id] else [])
  }

  /** The id is among the last 512 recorded for this key. */
  predicate IsRepeat(earlier: seq<Arrival>, a: Arrival) {
    a.id in LastN(RecordedFor(earlier, a.key), 512)
  }

  /** Direct messages of one author that reach its rate limiter, by time. */
  function DirectRequests(arrivals: seq<Arrival>, key: Peer): seq<u64> {
    if arrivals == [] then [] else
      var earlier, a := arrivals[..|arrivals| - 1], arrivals[|arrivals| - 1];
      DirectRequests(earlier, key) + (if a.Direct? && a.key == key && IsFresh(a) && !IsRepeat(earlier, a) then [a.now] else [])
  }

  // -------------------------------------------------------- the rate limiter

  /** When the current window opened: at the first request, and again at every request a full window later. */
  function Opening(requests: seq<u64>): Option<u64> {
    if requests == [] then None else
      var o, t := Opening(requests[..|requests| - 1]), requests[|requests| - 1];
      if o.None? || t - o.value >= 60_000 then Some(t) else o
  }

  /** Fewer than `limit` requests have been admitted since the current window opened, or it is over. */
  predicate RateAllows(requests: seq<u64>, now: u64, limit: u32) {
    var o := Opening(requests);
    o.None? || now - o.value >= 60_000 || CountBetween(AdmittedTimes(requests, limit, 60_000), o.value, now + 1) < limit
  }

  lemma OpeningPush(requests: seq<u64>, t: u64)
    ensures var o := Opening(requests);
            Opening(requests + [t]) == if o.None? || t - o.value >= 60_000 then Some(t) else o
  {
    assert (requests + [t])[..|requests|] == requests;
  }

  /** The bucket starts when the window opened. */
  lemma {:induction false} BucketOpens(requests: seq<u64>, limit: u32)
    requires Nondecreasing(requests)
    ensures var b := BucketAfter(requests, limit, 60_000);
            if requests == [] then b.None? else b.Some? && Opening(requests) == Some(b.value.start) && b.value.start <= requests[|requests| - 1]
    decreases |requests|
  {
    if requests != [] {
      var earlier, t := requests[..|requests| - 1], requests[|requests| - 1];
      BucketOpens(earlier, limit);
      assert earlier != [] ==> earlier[|earlier| - 1] <= t;
    }
  }

  /** The limiter admits a request exactly when `RateAllows` says so. */
  lemma AllowedIff(requests: seq<u64>, now: u64, limit: u32)
    requires Nondecreasing(requests + [now]) && limit >= 1
    ensures Allowed(BucketAfter(requests, limit, 60_000), now, limit, 60_000) <==> RateAllows(requests, now, limit)
  {
    assert Nondecreasing(requests) by {
      assert forall i :: 0 <= i < |requests| ==> requests[i] == (requests + [now])[i];
    }
    BucketOpens(requests, limit);
    if requests != [] {
      var last := requests[|requests| - 1];
      assert last == (requests + [now])[|requests| - 1] && now == (requests + [now])[|requests|];
      BucketAccountsAlways(requests, limit, 60_000);
      AdmittedSoFar(AdmittedTimes(requests, limit, 60_000), BucketAfter(requests, limit, 60_000).value, limit, last, now);
    }
  }

  lemma AdmittedSoFar(times: seq<u64>, b: Bucket, limit: u32, last: u64, now: u64)
    requires BucketAccounts(times, b, limit, 60_000, last) && last <= now
    ensures CountBetween(times, b.start, now + 1) == b.count && b.start <= now
  {
    CountBetweenSplit(times, b.start, last + 1, now + 1);
    CountBetweenNone(times, last + 1, now + 1);
  }

  // ------------------------------------------------------------- the tables

  /** Arrivals under a nondecreasing clock. */
  ghost predicate Clocked(arrivals: seq<Arrival>) {
    forall i, j :: 0 <= i < j < |arrivals| ==> arrivals[i].now <= arrivals[j].now
  }

  lemma ArrivalPush(earlier: seq<Arrival>, a: Arrival, all: seq<Arrival>, key: Peer)
    requires all == earlier + [a]
    ensures GossipRequests(all, key) == GossipRequests(earlier, key) + if a.Gossip? && a.key == key && a.size <= 65_536 then [a.now] else []
    ensures DirectRequests(all, key) == DirectRequests(earlier, key) + if a.Direct? && a.key == key && IsFresh(a) && !IsRepeat(earlier, a) then [a.now] else []
    ensures RecordedFor(all, key) == RecordedFor(earlier, key) + if a.key == key && ReachesReplay(earlier, a) && !IsRepeat(earlier, a) then [a.id] else []
    ensures GuardState(all) == GuardAfterOne(GuardState(earlier), a)
  {
    assert all[..|earlier|] == earlier;
  }

  /** Requests come in the order of the clock. */
  lemma {:induction false} RequestsOrdered(arrivals: seq<Arrival>, key: Peer, now: u64)
    requires Clocked(arrivals) && forall i :: 0 <= i < |arrivals| ==> arrivals[i].now <= now
    ensures Nondecreasing(GossipRequests(arrivals, key) + [now]) && Nondecreasing(DirectRequests(arrivals, key) + [now])
    decreases |arrivals|
  {
    if arrivals != [] {
      var earlier, a := arrivals[..|arrivals| - 1], arrivals[|arrivals| - 1];
      RequestsOrdered(earlier, key, a.now);
      OrderedPush(GossipRequests(earlier, key), a.now, now);
      OrderedPush(DirectRequests(earlier, key), a.now, now);
      assert GossipRequests(earlier, key) + [] == GossipRequests(earlier, key);
      assert DirectRequests(earlier, key) + [] == DirectRequests(earlier, key);
    }
  }

  lemma OrderedPush(times: seq<u64>, t: u64, now: u64)
    requires Nondecreasing(times + [t]) && t <= now
    ensures Nondecreasing(times + [t] + [now]) && Nondecreasing(times + [now])
  {
    forall i | 0 <= i < |times|
      ensures times[i] <= t
    {
      assert (times + [t])[i] == times[i] && (times + [t])[|times|] == t;
    }
    forall i, j | 0 <= i < j < |times|
      ensures times[i] <= times[j]
    {
      assert (times + [t])[i] == times[i] && (times + [t])[j] == times[j];
    }
  }

  /** The guard's tables for one key are what the arrivals add up to. */
  ghost predicate Matches(g: Guard, arrivals: seq<Arrival>, key: Peer) {
    && BucketOf(g.rate, key) == BucketAfter(DirectRequests(arrivals, key), 120, 60_000)
    && BucketOf(g.gossip, key) == BucketAfter(GossipRequests(arrivals, key), 60, 60_000)
    && IdsOf(g.replay, key).order == LastN(RecordedFor(arrivals, key), 512)
    && IdsOf(g.replay, key).members == Elements(LastN(RecordedFor(arrivals, key), 512))
  }

  /** An arrival touches no key but its own. */
  lemma OtherKeys(g: Guard, a: Arrival, key: Peer)
    requires key != a.key
    ensures var g' := GuardAfterOne(g, a);
            && BucketOf(g'.rate, key) == BucketOf(g.rate, key) && BucketOf(g'.gossip, key) == BucketOf(g.gossip, key)
            && IdsOf(g'.replay, key) == IdsOf(g.replay, key)
  {}

  /** What a direct message does to the tables of its author. */
  lemma DirectArrival(g: Guard, a: Arrival, fresh': bool, repeat: bool)
    requires a.Direct? && fresh' == IsFresh(a) && repeat == (a.id in IdsOf(g.replay, a.key).members)
    ensures var g' := GuardAfterOne(g, a);
            && BucketOf(g'.rate, a.key) ==
               (if fresh' && !repeat then Some(AfterRequest(BucketOf(g.rate, a.key), a.now, 120, 60_000)) else BucketOf(g.rate, a.key))
            && BucketOf(g'.gossip, a.key) == BucketOf(g.gossip, a.key)
            && IdsOf(g'.replay, a.key) == (if fresh' && !repeat then Record(IdsOf(g.replay, a.key), a.id, 512) else IdsOf(g.replay, a.key))
  {}

  /** What a gossip message does to the tables of the peer it came from. */
  lemma GossipArrival(g: Guard, a: Arrival, allowed: bool, repeat: bool)
    requires a.Gossip? && repeat == (a.id in IdsOf(g.replay, a.key).members)
    requires allowed == Allowed(BucketOf(g.gossip, a.key), a.now, 60, 60_000)
    ensures var g' := GuardAfterOne(g, a);
            && BucketOf(g'.rate, a.key) == BucketOf(g.rate, a.key)
            && BucketOf(g'.gossip, a.key) ==
               (if a.size <= 65_536 then Some(AfterRequest(BucketOf(g.gossip, a.key), a.now, 60, 60_000)) else BucketOf(g.gossip, a.key))
            && IdsOf(g'.replay, a.key) ==
               (if a.size <= 65_536 && allowed && IsFresh(a) && !repeat then Record(IdsOf(g.replay, a.key), a.id, 512) else IdsOf(g.replay, a.key))
  {}

  /** What one arrival does to the tables of its own key. */
  lemma OneArrival(g: Guard, earlier: seq<Arrival>, a: Arrival)
    requires Matches(g, earlier, a.key) && Nondecreasing(GossipRequests(earlier, a.key) + [a.now])
    ensures var g' := GuardAfterOne(g, a);
            && BucketOf(g'.rate, a.key) == (if a.Direct? && IsFresh(a) && !IsRepeat(earlier, a)
                 then Some(AfterRequest(BucketOf(g.rate, a.key), a.now, 120, 60_000)) else BucketOf(g.rate, a.key))
            && BucketOf(g'.gossip, a.key) == (if a.Gossip? && a.size <= 65_536
                 then Some(AfterRequest(BucketOf(g.gossip, a.key), a.now, 60, 60_000)) else BucketOf(g.gossip, a.key))
            && IdsOf(g'.replay, a.key) == (if ReachesReplay(earlier, a) && !IsRepeat(earlier, a)
                 then Record(IdsOf(g.replay, a.key), a.id, 512) else IdsOf(g.replay, a.key))
  {
    var repeat := a.id in IdsOf(g.replay, a.key).members;
    assert repeat == IsRepeat(earlier, a);
    if a.Direct? {
      DirectArrival(g, a, IsFresh(a), repeat);
    } else {
      AllowedIff(GossipRequests(earlier, a.key), a.now, 60);
      GossipArrival(g, a, RateAllows(GossipRequests(earlier, a.key), a.now, 60), repeat);
    }
  }

  lemma BucketStep(requests: seq<u64>, requests': seq<u64>, now: u64, counted: bool, limit: u32, b: Option<Bucket>, b': Option<Bucket>)
    requires b == BucketAfter(requests, limit, 60_000) && requests' == requests + if counted then [now] else []
    requires b' == if counted then Some(AfterRequest(b, now, limit, 60_000)) else b
    ensures b' == BucketAfter(requests', limit, 60_000)
  {
    if counted {
      AdmitPush(requests, now, limit, 60_000);
    } else {
      assert requests' == requests;
    }
  }

  lemma RecordStep(recorded: seq<Id>, recorded': seq<Id>, id: Id, new': bool, r: RecentIds, r': RecentIds)
    requires r.order == LastN(recorded, 512) && r.members == Elements(r.order)
    requires recorded' == recorded + (if new' then [id] else []) && r' == if new' then Record(r, id, 512) else r
    ensures r'.order == LastN(recorded', 512) && r'.members == Elements(r'.order)
  {
    if new' {
      LastNPush(recorded, id, 512);
    } else {
      assert recorded' == recorded;
    }
  }

  lemma MatchesOwn(g: Guard, earlier: seq<Arrival>, a: Arrival, all: seq<Arrival>)
    requires all == earlier + [a] && Matches(g, earlier, a.key) && Nondecreasing(GossipRequests(earlier, a.key) + [a.now])
    ensures Matches(GuardAfterOne(g, a), all, a.key)
  {
    var g', key := GuardAfterOne(g, a), a.key;
    OneArrival(g, earlier, a);
    ArrivalPush(earlier, a, all, key);
    BucketStep(DirectRequests(earlier, key), DirectRequests(all, key), a.now, a.Direct? && IsFresh(a) && !IsRepeat(earlier, a), 120,
               BucketOf(g.rate, key), BucketOf(g'.rate, key));
    BucketStep(GossipRequests(earlier, key), GossipRequests(all, key), a.now, a.Gossip? && a.size <= 65_536, 60,
               BucketOf(g.gossip, key), BucketOf(g'.gossip, key));
    RecordStep(RecordedFor(earlier, key), RecordedFor(all, key), a.id, ReachesReplay(earlier, a) && !IsRepeat(earlier, a),
               IdsOf(g.replay, key), IdsOf(g'.replay, key));
  }

  lemma MatchesOther(g: Guard, earlier: seq<Arrival>, a: Arrival, all: seq<Arrival>, key: Peer)
    requires all == earlier + [a] && Matches(g, earlier, key) && key != a.key
    ensures Matches(GuardAfterOne(g, a), all, key)
  {
    OtherKeys(g, a, key);
    assert && DirectRequests(all, key) == DirectRequests(earlier, key) && GossipRequests(all, key) == GossipRequests(earlier, key)
           && RecordedFor(all, key) == RecordedFor(earlier, key) by {
      ArrivalPush(earlier, a, all, key);
    }
  }

  /** After any arrivals under a nondecreasing clock the guard holds, for every key, exactly the last 512
  ids recorded for it and the buckets of its requests. */
  lemma {:induction false} GuardMatches(arrivals: seq<Arrival>, key: Peer)
    requires Clocked(arrivals)
    ensures Matches(GuardState(arrivals), arrivals, key)
    decreases |arrivals|
  {
    if arrivals != [] {
      var earlier, a := arrivals[..|arrivals| - 1], arrivals[|arrivals| - 1];
      assert arrivals == earlier + [a];
      GuardMatches(earlier, key);
      GuardMatches(earlier, a.key);
      RequestsOrdered(earlier, a.key, a.now);
      if key == a.key {
        MatchesOwn(GuardState(earlier), earlier, a, arrivals);
      } else {
        MatchesOther(GuardState(earlier), earlier, a, arrivals, key);
      }
    }
  }

  // ----------------------------------------------------------- the verdicts

  /** What an arrival must meet to pass. */
  ghost predicate MayPass(earlier: seq<Arrival>, a: Arrival) {
    && IsFresh(a) && !IsRepeat(earlier, a)
    && (if a.Direct? then RateAllows(DirectRequests(earlier, a.key), a.now, 120)
        else a.size <= 65_536 && RateAllows(GossipRequests(earlier, a.key), a.now, 60))
  }

  /** An arrival passes if and only if it is fresh, not among the last 512 ids recorded for its key, and
  its key has had fewer than 120 direct messages (60 gossip messages of admissible size) admitted
  since the current minute opened. */
  lemma PassesIff(arrivals: seq<Arrival>, a: Arrival)
    requires Clocked(arrivals + [a])
    ensures VerdictOn(GuardState(arrivals), a).None? <==> MayPass(arrivals, a)
  {
    ClockedPush(arrivals, a);
    GuardMatches(arrivals, a.key);
    RequestsOrdered(arrivals, a.key, a.now);
    AllowedIff(DirectRequests(arrivals, a.key), a.now, 120);
    AllowedIff(GossipRequests(arrivals, a.key), a.now, 60);
  }

  /** Every refusal names the first condition that fails. */
  lemma VerdictIff(arrivals: seq<Arrival>, a: Arrival)
    requires Clocked(arrivals + [a])
    ensures var v := VerdictOn(GuardState(arrivals), a);
            if a.Direct? then
              && (v == Some(Stale) <==> !IsFresh(a))
              && (v == Some(Replay) <==> IsFresh(a) && IsRepeat(arrivals, a))
              && (v == Some(RateLimit) <==> IsFresh(a) && !IsRepeat(arrivals, a) && !RateAllows(DirectRequests(arrivals, a.key), a.now, 120))
            else
              && (v == Some(Oversize) <==> a.size > 65_536)
              && (v == Some(RateLimit) <==> a.size <= 65_536 && !RateAllows(GossipRequests(arrivals, a.key), a.now, 60))
              && (v == Some(Stale) <==> a.size <= 65_536 && RateAllows(GossipRequests(arrivals, a.key), a.now, 60) && !IsFresh(a))
              && (v == Some(Replay) <==> ReachesReplay(arrivals, a) && IsRepeat(arrivals, a))
  {
    ClockedPush(arrivals, a);
    GuardMatches(arrivals, a.key);
    RequestsOrdered(arrivals, a.key, a.now);
    AllowedIff(DirectRequests(arrivals, a.key), a.now, 120);
    AllowedIff(GossipRequests(arrivals, a.key), a.now, 60);
  }

  lemma ClockedPush(arrivals: seq<Arrival>, a: Arrival)
    requires Clocked(arrivals + [a])
    ensures Clocked(arrivals) && forall i :: 0 <= i < |arrivals| ==> arrivals[i].now <= a.now
  {
    var all := arrivals + [a];
    assert forall i :: 0 <= i < |arrivals| ==> all[i] == arrivals[i];
    assert all[|arrivals|] == a;
  }

  /** The times at which arrivals of one kind and key passed. */
  function PassedTimes(arrivals: seq<Arrival>, key: Peer, direct: bool): seq<u64> {
    if arrivals == [] then [] else
      var earlier, a := arrivals[..|arrivals| - 1], arrivals[|arrivals| - 1];
      PassedTimes(earlier, key, direct) +
      (if a.key == key && a.Direct? == direct && VerdictOn(GuardState(earlier), a).None? then [a.now] else [])
  }

  /** Direct messages that pass are exactly those the limiter admits. */
  lemma {:induction false} PassedAreAdmitted(arrivals: seq<Arrival>, key: Peer)
    requires Clocked(arrivals)
    ensures PassedTimes(arrivals, key, true) == AdmittedTimes(DirectRequests(arrivals, key), 120, 60_000)
    decreases |arrivals|
  {
    if arrivals != [] {
      var earlier, a := arrivals[..|arrivals| - 1], arrivals[|arrivals| - 1];
      assert arrivals == earlier + [a];
      ClockedPush(earlier, a);
      PassedAreAdmitted(earlier, key);
      if a.key == key {
        PassesIff(earlier, a);
        RequestsOrdered(earlier, key, a.now);
        AllowedIff(DirectRequests(earlier, key), a.now, 120);
        AdmitPush(DirectRequests(earlier, key), a.now, 120, 60_000);
      }
      assert DirectRequests(earlier, key) + [] == DirectRequests(earlier, key);
      assert PassedTimes(earlier, key, true) + [] == PassedTimes(earlier, key, true);
    }
  }

  lemma CountStep(times: seq<u64>, times': seq<u64>, t: u64, counted: bool, lo: int, hi: int)
    requires times' == times + if counted then [t] else []
    ensures CountBetween(times', lo, hi) == CountBetween(times, lo, hi) + if counted && lo <= t < hi then 1 else 0
  {
    if counted {
      CountBetweenPush(times, t, lo, hi);
    } else {
      assert times' == times;
    }
  }

  predicate GossipPasses(earlier: seq<Arrival>, a: Arrival, key: Peer) {
    a.key == key && a.Gossip? && VerdictOn(GuardState(earlier), a).None?
  }

  predicate GossipAdmitted(earlier: seq<Arrival>, a: Arrival, key: Peer) {
    && a.key == key && a.Gossip? && a.size <= 65_536
    && Allowed(BucketAfter(GossipRequests(earlier, key), 60, 60_000), a.now, 60, 60_000)
  }

  lemma PassesOnlyIfAdmitted(earlier: seq<Arrival>, a: Arrival, key: Peer)
    requires Clocked(earlier + [a]) && GossipPasses(earlier, a, key)
    ensures GossipAdmitted(earlier, a, key)
  {
    ClockedPush(earlier, a);
    PassesIff(earlier, a);
    RequestsOrdered(earlier, key, a.now);
    AllowedIff(GossipRequests(earlier, key), a.now, 60);
  }

  lemma GossipPush(earlier: seq<Arrival>, a: Arrival, all: seq<Arrival>, key: Peer)
    requires all == earlier + [a]
    ensures PassedTimes(all, key, false) == PassedTimes(earlier, key, false) + if GossipPasses(earlier, a, key) then [a.now] else []
    ensures AdmittedTimes(GossipRequests(all, key), 60, 60_000) ==
            AdmittedTimes(GossipRequests(earlier, key), 60, 60_000) + if GossipAdmitted(earlier, a, key) then [a.now] else []
  {
    assert all[..|earlier|] == earlier;
    AdmittedStep(GossipRequests(earlier, key), GossipRequests(all, key), a.now, a.key == key && a.Gossip? && a.size <= 65_536, 60);
  }

  /** One arrival adds to the gossip that passed only if it adds to the gossip admitted. */
  lemma GossipStep(earlier: seq<Arrival>, a: Arrival, all: seq<Arrival>, key: Peer, lo: int, hi: int)
    requires all == earlier + [a] && Clocked(all)
    requires CountBetween(PassedTimes(earlier, key, false), lo, hi) <= CountBetween(AdmittedTimes(GossipRequests(earlier, key), 60, 60_000), lo, hi)
    ensures CountBetween(PassedTimes(all, key, false), lo, hi) <= CountBetween(AdmittedTimes(GossipRequests(all, key), 60, 60_000), lo, hi)
  {
    var passes, admitted := GossipPasses(earlier, a, key), GossipAdmitted(earlier, a, key);
    assert passes ==> admitted by {
      if passes {
        PassesOnlyIfAdmitted(earlier, a, key);
      }
    }
    GossipPush(earlier, a, all, key);
    CountStep(PassedTimes(earlier, key, false), PassedTimes(all, key, false), a.now, passes, lo, hi);
    CountStep(AdmittedTimes(GossipRequests(earlier, key), 60, 60_000), AdmittedTimes(GossipRequests(all, key), 60, 60_000), a.now, admitted, lo, hi);
  }

  lemma AdmittedStep(requests: seq<u64>, requests': seq<u64>, now: u64, counted: bool, limit: u32)
    requires requests' == requests + if counted then [now] else []
    ensures AdmittedTimes(requests', limit, 60_000) ==
            AdmittedTimes(requests, limit, 60_000) + if counted && Allowed(BucketAfter(requests, limit, 60_000), now, limit, 60_000) then [now] else []
  {
    if counted {
      AdmitPush(requests, now, limit, 60_000);
    } else {
      assert requests' == requests;
    }
  }

  /** Gossip that passes is among what the limiter admits. */
  lemma {:induction false} GossipPassedBounded(arrivals: seq<Arrival>, key: Peer, lo: int, hi: int)
    requires Clocked(arrivals)
    ensures CountBetween(PassedTimes(arrivals, key, false), lo, hi) <= CountBetween(AdmittedTimes(GossipRequests(arrivals, key), 60, 60_000), lo, hi)
    decreases |arrivals|
  {
    if arrivals != [] {
      var earlier, a := arrivals[..|arrivals| - 1], arrivals[|arrivals| - 1];
      assert arrivals == earlier + [a];
      ClockedPush(earlier, a);
      GossipPassedBounded(earlier, key, lo, hi);
      GossipStep(earlier, a, arrivals, key, lo, hi);
    }
  }

  lemma OwnRequestsOrdered(arrivals: seq<Arrival>, key: Peer)
    requires Clocked(arrivals)
    ensures Nondecreasing(DirectRequests(arrivals, key)) && Nondecreasing(GossipRequests(arrivals, key))
  {
    if arrivals != [] {
      var now := arrivals[|arrivals| - 1].now;
      RequestsOrdered(arrivals, key, now);
      OrderedPrefix(DirectRequests(arrivals, key), now);
      OrderedPrefix(GossipRequests(arrivals, key), now);
    }
  }

  lemma OrderedPrefix(times: seq<u64>, now: u64)
    requires Nondecreasing(times + [now])
    ensures Nondecreasing(times)
  {
    assert forall i :: 0 <= i < |times| ==> (times + [now])[i] == times[i];
  }

  /** In every half-open minute at most 239 direct messages of one author and at most 119 gossip
  messages from one peer pass the guard, whatever else arrives. */
  lemma PassesBounded(arrivals: seq<Arrival>, key: Peer, lo: int)
    requires Clocked(arrivals)
    ensures CountBetween(PassedTimes(arrivals, key, true), lo, lo + 60_000) <= 2 * 120 - 1
    ensures CountBetween(PassedTimes(arrivals, key, false), lo, lo + 60_000) <= 2 * 60 - 1
  {
    OwnRequestsOrdered(arrivals, key);
    PassedAreAdmitted(arrivals, key);
    RateBound(DirectRequests(arrivals, key), 120, 60_000, lo);
    GossipPassedBounded(arrivals, key, lo, lo + 60_000);
    RateBound(GossipRequests(arrivals, key), 60, 60_000, lo);
  }
}
