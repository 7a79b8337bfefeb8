/** Admission of incoming messages (crates/mycelium-node/src/ingest_guard.rs and the seen cache of node.rs). */
module IngestGuard {
  import opened Words
  import opened Mesh
  import opened Sequences

  const REPLAY_MAX_AGE_MS: u64 := 30 * 60 * 1000
  const REPLAY_MAX_FUTURE_SKEW_MS: u64 := 5 * 60 * 1000
  const DIRECT_RATE_PER_MINUTE: u32 := 120
  const GOSSIP_RATE_PER_MINUTE: u32 := 60
  const MAX_GOSSIP_PAYLOAD_BYTES: nat := 65_536
  const RATE_WINDOW_MS: u64 := 60 * 1000
  const AUTHOR_ID_WINDOW: nat := 512

  predicate Fresh(createdAt: u64, now: u64) {
    createdAt <= SatAdd(now, REPLAY_MAX_FUTURE_SKEW_MS) && SatSub(now, createdAt) <= REPLAY_MAX_AGE_MS
  }

  // ------------------------------------------------ the fixed-window limiter

  /** Messages admitted in the current window, and when it started. */
  datatype Bucket = Bucket(count: u32, start: u64)

  /** The bucket a message at `now` is counted in. */
  function CurrentBucket(b: Option<Bucket>, now: u64, window: u64): Bucket {
    if b.None? || SatSub(now, b.value.start) >= window then Bucket(0, now) else b.value
  }

  function AfterRequest(b: Option<Bucket>, now: u64, limit: u32, window: u64): Bucket {
    var c := CurrentBucket(b, now, window);
    if c.count >= limit then c else c.(count := c.count + 1)
  }

  predicate Allowed(b: Option<Bucket>, now: u64, limit: u32, window: u64) {
    CurrentBucket(b, now, window).count < limit
  }

  /** Number of elements of `times` in the half-open interval [lo, hi). */
  function CountBetween(times: seq<u64>, lo: int, hi: int): (n: nat)
    ensures n <= |times|
  {
    if times == [] then 0 else
      CountBetween(times[..|times| - 1], lo, hi) + (if lo <= times[|times| - 1] < hi then 1 else 0)
  }

  lemma CountBetweenPush(times: seq<u64>, t: u64, lo: int, hi: int)
    ensures CountBetween(times + [t], lo, hi) == CountBetween(times, lo, hi) + (if lo <= t < hi then 1 else 0)
  {
    assert (times + [t])[..|times|] == times;
  }

  lemma {:induction false} CountBetweenMonotone(times: seq<u64>, lo: int, hi: int, lo': int, hi': int)
    requires lo' <= lo && hi <= hi'
    ensures CountBetween(times, lo, hi) <= CountBetween(times, lo', hi')
    decreases |times|
  {
    if times != [] {
      CountBetweenMonotone(times[..|times| - 1], lo, hi, lo', hi');
    }
  }

  lemma {:induction false} CountBetweenSplit(times: seq<u64>, lo: int, mid: int, hi: int)
    requires lo <= mid <= hi
    ensures CountBetween(times, lo, hi) == CountBetween(times, lo, mid) + CountBetween(times, mid, hi)
    decreases |times|
  {
    if times != [] {
      CountBetweenSplit(times[..|times| - 1], lo, mid, hi);
    }
  }

  lemma {:induction false} CountBetweenNone(times: seq<u64>, lo: int, hi: int)
    requires forall i :: 0 <= i < |times| ==> !(lo <= times[i] < hi)
    ensures CountBetween(times, lo, hi) == 0
    decreases |times|
  {
    if times != [] {
      CountBetweenNone(times[..|times| - 1], lo, hi);
    }
  }

  /** Admissions within one window length from `lo`. */
  function InWindow(times: seq<u64>, lo: int, window: int): nat {
    CountBetween(times, lo, lo + window)
  }

  /** The bucket and the admission times of one key after requests at `requests`, in order. */
  function BucketAfter(requests: seq<u64>, limit: u32, window: u64): Option<Bucket> {
    if requests == [] then None else
      Some(AfterRequest(BucketAfter(requests[..|requests| - 1], limit, window), requests[|requests| - 1], limit, window))
  }

  function AdmittedTimes(requests: seq<u64>, limit: u32, window: u64): seq<u64> {
    if requests == [] then [] else
      var earlier, now := requests[..|requests| - 1], requests[|requests| - 1];
      AdmittedTimes(earlier, limit, window) +
      (if Allowed(BucketAfter(earlier, limit, window), now, limit, window) then [now] else [])
  }

  ghost predicate Nondecreasing(times: seq<u64>) {
    forall i, j :: 0 <= i < j < |times| ==> times[i] <= times[j]
  }

  /** What the bucket says about the admissions so far, for a limit of at least one. */
  ghost predicate BucketAccounts(times: seq<u64>, b: Bucket, limit: u32, window: u64, now: u64) {
    && b.start <= now
    && 1 <= b.count <= limit
    && (forall i :: 0 <= i < |times| ==> times[i] <= now && times[i] < b.start + window)
    && b.start in times
    && CountBetween(times, b.start, now + 1) == b.count
    // just before the current window lie at most limit - 1 admissions of the previous one
    && CountBetween(times, b.start - window + 1, b.start) <= limit - 1
    && (forall lo: int :: InWindow(times, lo, window) <= 2 * limit - 1)
  }

  lemma WindowBound(times: seq<u64>, b: Bucket, limit: u32, window: u64, now: u64, lo: int)
    requires 1 <= b.count <= limit && b.start <= now
    requires forall i :: 0 <= i < |times| ==> times[i] <= now
    requires CountBetween(times, b.start, now + 1) == b.count
    requires CountBetween(times, b.start - window + 1, b.start) <= limit - 1
    requires b.start < lo + window && window >= 1
    ensures CountBetween(times, lo, lo + window) <= 2 * limit - 1
  {
    var hi := Max(lo + window, now + 1);
    CountBetweenMonotone(times, lo, lo + window, Min(lo, b.start), hi);
    CountBetweenSplit(times, Min(lo, b.start), b.start, hi);
    CountBetweenSplit(times, b.start, now + 1, hi);
    CountBetweenNone(times, now + 1, hi);
    CountBetweenMonotone(times, Min(lo, b.start), b.start, b.start - window + 1, b.start);
  }

  lemma FirstAdmission(now: u64, limit: u32, window: u64)
    requires limit >= 1 && window >= 1
    ensures BucketAccounts([now], Bucket(1, now), limit, window, now)
  {
    assert [now][..0] == [];
    forall lo: int
      ensures InWindow([now], lo, window) <= 2 * limit - 1
    {}
  }

  /** A new window opens: everything admitted in the old one is at least a window older. */
  lemma NewWindow(times: seq<u64>, b: Bucket, limit: u32, window: u64, before: u64, now: u64)
    requires BucketAccounts(times, b, limit, window, before) && before <= now && window >= 1
    requires now - b.start >= window
    ensures BucketAccounts(times + [now], Bucket(1, now), limit, window, now)
  {
    var times' := times + [now];
    CountBetweenPush(times, now, now, now + 1);
    CountBetweenPush(times, now, now - window + 1, now);
    OldWindowCount(times, b, limit, window, before, now);
    CountBetweenNone(times, now, now + 1);
    forall lo: int
      ensures InWindow(times', lo, window) <= 2 * limit - 1
    {
      CountBetweenPush(times, now, lo, lo + window);
      assert InWindow(times, lo, window) <= 2 * limit - 1;
      if now < lo + window {
        WindowBound(times', Bucket(1, now), limit, window, now, lo);
      }
    }
  }

  lemma OldWindowCount(times: seq<u64>, b: Bucket, limit: u32, window: u64, before: u64, now: u64)
    requires BucketAccounts(times, b, limit, window, before) && before <= now && window >= 1
    requires now - b.start >= window
    ensures CountBetween(times, now - window + 1, now) <= limit - 1
  {
    // The window's first admission lies at its start and is therefore too old to count.
    CountBetweenSplit(times, b.start, b.start + 1, now + 1);
    CountBetweenSplit(times, b.start, before + 1, now + 1);
    CountBetweenNone(times, before + 1, now + 1);
    CountBetweenMember(times, b.start);
    CountBetweenMonotone(times, now - window + 1, now, b.start + 1, now + 1);
  }

  lemma {:induction false} CountBetweenMember(times: seq<u64>, t: u64)
    requires t in times
    ensures CountBetween(times, t, t + 1) >= 1
    decreases |times|
  {
    var last := |times| - 1;
    if times[last] != t {
      assert times == times[..last] + [times[last]];
      CountBetweenMember(times[..last], t);
    }
  }

  lemma SameWindow(times: seq<u64>, b: Bucket, limit: u32, window: u64, before: u64, now: u64)
    requires BucketAccounts(times, b, limit, window, before) && before <= now && window >= 1
    requires now - b.start < window && b.count < limit
    ensures BucketAccounts(times + [now], b.(count := b.count + 1), limit, window, now)
  {
    var times', b' := times + [now], b.(count := b.count + 1);
    CountBetweenPush(times, now, b.start, now + 1);
    CountBetweenSplit(times, b.start, before + 1, now + 1);
    CountBetweenNone(times, before + 1, now + 1);
    CountBetweenPush(times, now, b.start - window + 1, b.start);
    assert now in times';
    forall lo: int
      ensures InWindow(times', lo, window) <= 2 * limit - 1
    {
      CountBetweenPush(times, now, lo, lo + window);
      assert InWindow(times, lo, window) <= 2 * limit - 1;
      if b.start < lo + window {
        WindowBound(times', b', limit, window, now, lo);
      }
    }
  }

  lemma Refused(times: seq<u64>, b: Bucket, limit: u32, window: u64, before: u64, now: u64)
    requires BucketAccounts(times, b, limit, window, before) && before <= now
    ensures BucketAccounts(times, b, limit, window, now)
  {
    CountBetweenSplit(times, b.start, before + 1, now + 1);
    CountBetweenNone(times, before + 1, now + 1);
  }

  lemma AccountsStep(times: seq<u64>, b: Bucket, limit: u32, window: u64, before: u64, now: u64)
    requires BucketAccounts(times, b, limit, window, before) && before <= now && window >= 1
    ensures BucketAccounts(
              if Allowed(Some(b), now, limit, window) then times + [now] else times,
              AfterRequest(Some(b), now, limit, window), limit, window, now)
  {
    if now - b.start >= window {
      NewWindow(times, b, limit, window, before, now);
    } else if b.count < limit {
      SameWindow(times, b, limit, window, before, now);
    } else {
      Refused(times, b, limit, window, before, now);
    }
  }

  lemma AdmitPush(requests: seq<u64>, now: u64, limit: u32, window: u64)
    ensures BucketAfter(requests + [now], limit, window) == Some(AfterRequest(BucketAfter(requests, limit, window), now, limit, window))
    ensures AdmittedTimes(requests + [now], limit, window) ==
            if Allowed(BucketAfter(requests, limit, window), now, limit, window)
            then AdmittedTimes(requests, limit, window) + [now] else AdmittedTimes(requests, limit, window)
  {
    assert (requests + [now])[..|requests|] == requests;
  }

  ghost predicate Accounted(requests: seq<u64>, limit: u32, window: u64)
    requires requests != []
  {
    var b := BucketAfter(requests, limit, window);
    b.Some? && BucketAccounts(AdmittedTimes(requests, limit, window), b.value, limit, window, requests[|requests| - 1])
  }

  lemma AccountedPush(requests: seq<u64>, now: u64, limit: u32, window: u64)
    requires requests != [] && requests[|requests| - 1] <= now && window >= 1
    requires Accounted(requests, limit, window)
    ensures Accounted(requests + [now], limit, window)
  {
    AdmitPush(requests, now, limit, window);
    AccountsStep(AdmittedTimes(requests, limit, window), BucketAfter(requests, limit, window).value, limit, window, requests[|requests| - 1], now);
  }

  lemma {:induction false} BucketAccountsAlways(requests: seq<u64>, limit: u32, window: u64)
    requires requests != [] && Nondecreasing(requests) && limit >= 1 && window >= 1
    ensures Accounted(requests, limit, window)
    decreases |requests|
  {
    var n := |requests| - 1;
    var earlier, now := requests[..n], requests[n];
    assert requests == earlier + [now];
    if n == 0 {
      AdmitPush([], now, limit, window);
      FirstAdmission(now, limit, window);
    } else {
      BucketAccountsAlways(earlier, limit, window);
      AccountedPush(earlier, now, limit, window);
    }
  }

  /** Under a nondecreasing clock, every half-open interval of one window length admits at
  most 2 * limit - 1 messages per key, and none at all when the limit is zero. */
  lemma RateBound(requests: seq<u64>, limit: u32, window: u64, lo: int)
    requires Nondecreasing(requests) && window >= 1
    ensures CountBetween(AdmittedTimes(requests, limit, window), lo, lo + window) <= Max(0, 2 * limit - 1)
  {
    if limit == 0 {
      NothingAdmitted(requests, window);
    } else if requests != [] {
      BucketAccountsAlways(requests, limit, window);
      assert InWindow(AdmittedTimes(requests, limit, window), lo, window) <= 2 * limit - 1;
    }
  }

  lemma {:induction false} NothingAdmitted(requests: seq<u64>, window: u64)
    ensures AdmittedTimes(requests, 0, window) == []
    decreases |requests|
  {
    if requests != [] {
      NothingAdmitted(requests[..|requests| - 1], window);
    }
  }

  /** With a window of a single moment every moment admits at most the limit. */
  lemma {:induction false} MomentBound(requests: seq<u64>, limit: u32, lo: int)
    requires Nondecreasing(requests)
    ensures CountBetween(AdmittedTimes(requests, limit, 1), lo, lo + 1) <= limit
    decreases |requests|
  {
    if limit == 0 {
      NothingAdmitted(requests, 1);
    } else if requests != [] {
      var earlier := requests[..|requests| - 1];
      MomentBound(earlier, limit, lo);
      MomentPush(requests, earlier, requests[|requests| - 1], limit, lo);
    }
  }

  lemma MomentPush(requests: seq<u64>, earlier: seq<u64>, now: u64, limit: u32, lo: int)
    requires limit >= 1 && Nondecreasing(requests) && requests == earlier + [now]
    requires CountBetween(AdmittedTimes(earlier, limit, 1), lo, lo + 1) <= limit
    ensures CountBetween(AdmittedTimes(requests, limit, 1), lo, lo + 1) <= limit
  {
    var times, times' := AdmittedTimes(earlier, limit, 1), AdmittedTimes(requests, limit, 1);
    if lo == now {
      assert CountBetween(times', lo, lo + 1) <= limit by {
        BucketAccountsAlways(requests, limit, 1);
        MomentOfBucket(times', BucketAfter(requests, limit, 1).value, limit, now);
      }
    } else {
      assert times' == times || times' == times + [now] by {
        AdmitPush(earlier, now, limit, 1);
      }
      CountBetweenPush(times, now, lo, lo + 1);
    }
  }

  lemma MomentOfBucket(times: seq<u64>, b: Bucket, limit: u32, now: u64)
    requires BucketAccounts(times, b, limit, 1, now)
    ensures CountBetween(times, now, now + 1) <= limit
  {
    CountBetweenMonotone(times, now, now + 1, b.start, now + 1);
  }

  /** Every request is admitted and the bucket ends as `b`. */
  ghost predicate AllAdmitted(requests: seq<u64>, limit: u32, window: u64, b: Option<Bucket>) {
    AdmittedTimes(requests, limit, window) == requests && BucketAfter(requests, limit, window) == b
  }

  /** All requests up to time `t` were admitted, in order, `n` of them from `lo` to before `hi`. */
  ghost predicate Burst(requests: seq<u64>, limit: u32, window: u64, b: Option<Bucket>, t: u64, lo: int, hi: int, n: nat) {
    && AllAdmitted(requests, limit, window, b)
    && Nondecreasing(requests) && (forall i :: 0 <= i < |requests| ==> requests[i] <= t)
    && CountBetween(requests, lo, hi) == n
  }

  /** One more request at `t` that the bucket allows. */
  lemma BurstPush(requests: seq<u64>, limit: u32, window: u64, b: Option<Bucket>, t: u64, lo: int, hi: int, n: nat, now: u64)
    requires Burst(requests, limit, window, b, t, lo, hi, n) && t <= now && Allowed(b, now, limit, window)
    ensures Burst(requests + [now], limit, window, Some(AfterRequest(b, now, limit, window)), now, lo, hi, n + if lo <= now < hi then 1 else 0)
  {
    assert AllAdmitted(requests + [now], limit, window, Some(AfterRequest(b, now, limit, window))) by {
      AdmitPush(requests, now, limit, window);
    }
    CountBetweenPush(requests, now, lo, hi);
  }

  /** More requests at one moment of the current window are admitted until the limit is reached. */
  lemma {:induction false} BurstGrows(requests: seq<u64>, limit: u32, window: u64, b: Bucket, t: u64, lo: int, hi: int, n: nat, more: nat)
    returns (requests': seq<u64>)
    requires Burst(requests, limit, window, Some(b), t, lo, hi, n) && lo <= t < hi
    requires b.start <= t < b.start + window && b.count + more <= limit
    ensures Burst(requests', limit, window, Some(b.(count := b.count + more)), t, lo, hi, n + more)
    decreases more
  {
    if more == 0 {
      requests' := requests;
    } else {
      BurstPush(requests, limit, window, Some(b), t, lo, hi, n, t);
      requests' := BurstGrows(requests + [t], limit, window, b.(count := b.count + 1), t, lo, hi, n + 1, more - 1);
    }
  }

  /** A later moment of the same window. */
  lemma BurstWaits(requests: seq<u64>, limit: u32, window: u64, b: Option<Bucket>, t: u64, lo: int, hi: int, n: nat, t': u64)
    requires Burst(requests, limit, window, b, t, lo, hi, n) && t <= t'
    ensures Burst(requests, limit, window, b, t', lo, hi, n)
  {}

  lemma BurstStarts(limit: u32, window: u64, lo: int, hi: int) returns (requests: seq<u64>)
    ensures Burst(requests, limit, window, None, 0, lo, hi, 0)
  {
    requests := [];
  }

  lemma WindowOpens(limit: u32, window: u64, t: u64, lo: int, hi: int) returns (requests: seq<u64>)
    requires limit >= 1 && 0 < hi
    ensures Burst(requests, limit, window, Some(Bucket(1, 0)), t, lo, hi, if lo <= 0 then 1 else 0)
  {
    var none := BurstStarts(limit, window, lo, hi);
    BurstPush(none, limit, window, None, 0, lo, hi, 0, 0);
    requests := none + [0];
    BurstWaits(requests, limit, window, Some(Bucket(1, 0)), 0, lo, hi, if lo <= 0 then 1 else 0, t);
  }

  /** One request opens a window, and the rest of its limit comes at its last moment. */
  lemma FirstWindow(limit: u32, window: u64, lo: int, hi: int) returns (requests: seq<u64>)
    requires limit >= 1 && window >= 1 && lo == window - 1 < hi
    ensures Burst(requests, limit, window, Some(Bucket(limit, 0)), window - 1, lo, hi, if window == 1 then limit else limit - 1)
  {
    var n := if window == 1 then 1 else 0;
    requests := WindowOpens(limit, window, window - 1, lo, hi);
    requests := BurstGrows(requests, limit, window, Bucket(1, 0), window - 1, lo, hi, n, limit - 1);
  }

  /** `RateBound` and `MomentBound` are sharp: for every limit and window length some clock reaches
  them, with the rest of one limit just before a window ends and a full limit right after it. */
  lemma RateBoundReached(limit: u32, window: u64) returns (requests: seq<u64>)
    requires limit >= 1 && window >= 1
    ensures Nondecreasing(requests)
    ensures CountBetween(AdmittedTimes(requests, limit, window), window - 1, window - 1 + window) ==
            if window == 1 then limit else 2 * limit - 1
  {
    var lo, hi := window - 1, window - 1 + window;
    requests := FirstWindow(limit, window, lo, hi);
    if window > 1 {
      BurstPush(requests, limit, window, Some(Bucket(limit, 0)), window - 1, lo, hi, limit - 1, window);
      requests := BurstGrows(requests + [window], limit, window, Bucket(1, window), window, lo, hi, limit, limit - 1);
    }
  }

  // -------------------------------------------------- bounded sets of ids

  /** A set of ids with the order in which they came: the per-author replay window and the seen cache. */
  datatype RecentIds = RecentIds(members: set<Id>, order: seq<Id>)

  const NO_IDS := RecentIds({}, [])

  ghost predicate Agrees(r: RecentIds) {
    && r.members == Elements(r.order)
    && Distinct(r.order)
  }

  /** Recording a new id and forgetting the oldest ones beyond the capacity. */
  function Record(r: RecentIds, id: Id, cap: nat): RecentIds {
    var order := LastN(r.order + [id], cap);
    RecentIds(Elements(order), order)
  }

  lemma DropOldest(order: seq<Id>)
    requires order != [] && Distinct(order)
    ensures Elements(order[1..]) == Elements(order) - {order[0]}
  {
    forall x | x in order && x != order[0]
      ensures x in order[1..]
    {
      var i :| 0 <= i < |order| && order[i] == x;
      assert order[1..][i - 1] == x;
    }
  }

  method RecordId(r: RecentIds, id: Id, cap: nat) returns (r': RecentIds)
    requires Agrees(r) && id !in r.members
    ensures r' == Record(r, id, cap) && Agrees(r')
  {
    RecordAgrees(r, id, cap);
    var members, order := r.members + {id}, r.order + [id];
    ghost var all := order;
    assert Agrees(RecentIds(members, order)) by {
      RecordAgrees(r, id, |order|);
    }
    while |order| > cap
      invariant |order| <= |all| && order == all[|all| - |order|..]
      invariant |order| >= Min(|all|, cap)
      invariant members == Elements(order)
    {
      DropOldest(order);
      var oldest := order[0];
      order := order[1..];
      members := members - {oldest};
    }
    r' := RecentIds(members, order);
  }

  /** The ids recorded for one author out of a sequence of arrivals, and what is remembered of them. */
  function Remembered(arrivals: seq<Id>, cap: nat): RecentIds {
    if arrivals == [] then NO_IDS else
      var r, id := Remembered(arrivals[..|arrivals| - 1], cap), arrivals[|arrivals| - 1];
      if id in r.members then r else Record(r, id, cap)
  }

  function Recorded(arrivals: seq<Id>, cap: nat): seq<Id> {
    if arrivals == [] then [] else
      var earlier, id := arrivals[..|arrivals| - 1], arrivals[|arrivals| - 1];
      Recorded(earlier, cap) + (if id in Remembered(earlier, cap).members then [] else [id])
  }

  lemma RecordAgrees(r: RecentIds, id: Id, cap: nat)
    requires Agrees(r) && id !in r.members
    ensures Agrees(Record(r, id, cap))
  {
    assert forall i :: 0 <= i < |r.order| ==> r.order[i] in r.members;
  }

  /** After any arrivals the set and the queue agree and hold exactly the last `cap` ids recorded, without repetition. */
  lemma {:induction false} RemembersLast(arrivals: seq<Id>, cap: nat)
    ensures Agrees(Remembered(arrivals, cap))
    ensures Remembered(arrivals, cap).order == LastN(Recorded(arrivals, cap), cap)
    decreases |arrivals|
  {
    if arrivals != [] {
      var earlier, id := arrivals[..|arrivals| - 1], arrivals[|arrivals| - 1];
      RemembersLast(earlier, cap);
      if id !in Remembered(earlier, cap).members {
        RecordAgrees(Remembered(earlier, cap), id, cap);
        LastNPush(Recorded(earlier, cap), id, cap);
      } else {
        assert Recorded(arrivals, cap) == Recorded(earlier, cap);
      }
    }
  }

  // ------------------------------------------------------------- the guard

  datatype Reject = Stale | Replay | RateLimit | Oversize

  datatype Guard = Guard(rate: map<Peer, Bucket>, gossip: map<Peer, Bucket>, replay: map<Peer, RecentIds>)

  function BucketOf(rate: map<Peer, Bucket>, key: Peer): Option<Bucket> {
    if key in rate then Some(rate[key]) else None
  }

  function IdsOf(replay: map<Peer, RecentIds>, author: Peer): RecentIds {
    if author in replay then replay[author] else NO_IDS
  }

  /** The replay window after an arrival; a repeated id leaves the author's window as it is. */
  function AfterArrival(replay: map<Peer, RecentIds>, author: Peer, id: Id): map<Peer, RecentIds> {
    var r := IdsOf(replay, author);
    replay[author := if id in r.members then r else Record(r, id, AUTHOR_ID_WINDOW)]
  }

  /** The verdict on a message: freshness, then replay, then rate. */
  function Judge(g: Guard, author: Peer, id: Id, createdAt: u64, now: u64): Option<Reject> {
    if !Fresh(createdAt, now) then Some(Stale)
    else if id in IdsOf(g.replay, author).members then Some(Replay)
    else if !Allowed(BucketOf(g.rate, author), now, DIRECT_RATE_PER_MINUTE, RATE_WINDOW_MS) then Some(RateLimit)
    else None
  }

  function AfterJudging(g: Guard, author: Peer, id: Id, createdAt: u64, now: u64): Guard {
    if !Fresh(createdAt, now) then g
    else
      var g' := g.(replay := AfterArrival(g.replay, author, id));
      if id in IdsOf(g.replay, author).members then g'
      else g'.(rate := g.rate[author := AfterRequest(BucketOf(g.rate, author), now, DIRECT_RATE_PER_MINUTE, RATE_WINDOW_MS)])
  }

  /** The verdict on scoped gossip: size, then rate, then freshness, then replay. */
  function JudgeGossip(g: Guard, from: Peer, id: Id, size: nat, createdAt: u64, now: u64): Option<Reject> {
    if size > MAX_GOSSIP_PAYLOAD_BYTES then Some(Oversize)
    else if !Allowed(BucketOf(g.gossip, from), now, GOSSIP_RATE_PER_MINUTE, RATE_WINDOW_MS) then Some(RateLimit)
    else if !Fresh(createdAt, now) then Some(Stale)
    else if id in IdsOf(g.replay, from).members then Some(Replay)
    else None
  }

  function AfterJudgingGossip(g: Guard, from: Peer, id: Id, size: nat, createdAt: u64, now: u64): Guard {
    if size > MAX_GOSSIP_PAYLOAD_BYTES then g
    else
      var bucket := BucketOf(g.gossip, from);
      var g' := g.(gossip := g.gossip[from := AfterRequest(bucket, now, GOSSIP_RATE_PER_MINUTE, RATE_WINDOW_MS)]);
      if !Allowed(bucket, now, GOSSIP_RATE_PER_MINUTE, RATE_WINDOW_MS) || !Fresh(createdAt, now) then g'
      else g'.(replay := AfterArrival(g.replay, from, id))
  }

  /** `FixedWindowRateLimiter::allow` on its table of buckets. */
  method AllowRequest(buckets: map<Peer, Bucket>, key: Peer, now: u64, limit: u32, window: u64)
    returns (ok: bool, buckets': map<Peer, Bucket>)
    ensures ok == Allowed(BucketOf(buckets, key), now, limit, window)
    ensures buckets' == buckets[key := AfterRequest(BucketOf(buckets, key), now, limit, window)]
  {
    var entry := if key in buckets then buckets[key] else Bucket(0, now);
    if SatSub(now, entry.start) >= window {
      entry := Bucket(0, now);
    }
    if entry.count >= limit {
      return false, buckets[key := entry];
    }
    return true, buckets[key := entry.(count := entry.count + 1)];
  }

  class IngestGuard {
    var rate: map<Peer, Bucket>
    var gossip: map<Peer, Bucket>
    var replay: map<Peer, RecentIds>

    ghost function Contents(): Guard
      reads this
    {
      Guard(rate, gossip, replay)
    }

    /** For every author the set and the queue hold the same ids, each once, and no more than the window. */
    ghost predicate Valid()
      reads this
    {
      forall author :: author in replay ==> Agrees(replay[author]) && |replay[author].order| <= AUTHOR_ID_WINDOW
    }

    constructor ()
      ensures Valid() && Contents() == Guard(map[], map[], map[])
    {
      rate, gossip, replay := map[], map[], map[];
    }

    method IsDuplicate(author: Peer, id: Id) returns (dup: bool)
      requires Valid()
      modifies this`replay
      ensures Valid()
      ensures dup == (id in IdsOf(old(replay), author).members)
      ensures replay == AfterArrival(old(replay), author, id)
    {
      var entry := if author in replay then replay[author] else NO_IDS;
      if id in entry.members {
        replay := replay[author := entry];
        return true;
      }
      entry := RecordId(entry, id, AUTHOR_ID_WINDOW);
      replay := replay[author := entry];
      return false;
    }

    method AllowDirect(author: Peer, id: Id, createdAt: u64, now: u64) returns (r: Option<Reject>)
      requires Valid()
      modifies this
      ensures Valid()
      ensures r == Judge(old(Contents()), author, id, createdAt, now)
      ensures Contents() == AfterJudging(old(Contents()), author, id, createdAt, now)
    {
      if !Fresh(createdAt, now) {
        return Some(Stale);
      }
      var dup := IsDuplicate(author, id);
      if dup {
        return Some(Replay);
      }
      var ok;
      ok, rate := AllowRequest(rate, author, now, DIRECT_RATE_PER_MINUTE, RATE_WINDOW_MS);
      if !ok {
        return Some(RateLimit);
      }
      return None;
    }

    /** `check_gossip_payload` followed by `check_gossip_message`. */
    method CheckGossip(from: Peer, id: Id, size: nat, createdAt: u64, now: u64) returns (r: Option<Reject>)
      requires Valid()
      modifies this
      ensures Valid()
      ensures r == JudgeGossip(old(Contents()), from, id, size, createdAt, now)
      ensures Contents() == AfterJudgingGossip(old(Contents()), from, id, size, createdAt, now)
    {
      if size > MAX_GOSSIP_PAYLOAD_BYTES {
        return Some(Oversize);
      }
      var ok;
      ok, gossip := AllowRequest(gossip, from, now, GOSSIP_RATE_PER_MINUTE, RATE_WINDOW_MS);
      if !ok {
        return Some(RateLimit);
      }
      if !Fresh(createdAt, now) {
        return Some(Stale);
      }
      var dup := IsDuplicate(from, id);
      if dup {
        return Some(Replay);
      }
      return None;
    }
  }
}
