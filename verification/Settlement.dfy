/** Settlement policy checks and the per-sender velocity window
(crates/mycelium-coin/src/settlement_policy.rs and velocity.rs). */
module Settlement {
  import opened Words
  import opened Sequences

  const HOUR_MS: nat := 3_600_000
  const MAX_STORED_EVENTS: nat := 64

  datatype Policy = Policy(
    maxBalance: u64,
    maxTransfer: u64,
    maxTxBytes: nat,
    maxTxPerHour: u32,
    maxOutboundPerHour: u64)

  /** One outbound transfer as the velocity tracker remembers it. */
  datatype Event = Event(timestamp: u64, amount: u64)

  datatype Verdict = Pass | TooManyPerHour | HourlyCapExceeded

  predicate TransferAmountOk(p: Policy, amount: u64) {
    amount != 0 && amount <= p.maxTransfer
  }

  predicate BalanceCapOk(p: Policy, balance: u64, pending: u64, incoming: u64) {
    SatAdd(SatAdd(balance, pending), incoming) <= p.maxBalance
  }

  // ---------------------------------------------------------------- counting

  /** Number of events with a timestamp in the closed interval [lo, hi]. */
  function CountIn(events: seq<Event>, lo: int, hi: int): (n: nat)
    ensures n <= |events|
  {
    if events == [] then 0 else
      CountIn(events[..|events| - 1], lo, hi) +
      (if lo <= events[|events| - 1].timestamp <= hi then 1 else 0)
  }

  /** Total amount of the events with a timestamp in the closed interval [lo, hi]. */
  function TotalIn(events: seq<Event>, lo: int, hi: int): nat {
    if events == [] then 0 else
      TotalIn(events[..|events| - 1], lo, hi) +
      (if lo <= events[|events| - 1].timestamp <= hi then events[|events| - 1].amount else 0)
  }

  function WindowStart(now: u64): u64 {
    SatSub(now, HOUR_MS)
  }

  /** What the velocity check decides, said with exact counts and totals: the event
  limit first, then the amount limit, where a limit of `U64_MAX` never binds. */
  function VelocityVerdict(p: Policy, recent: seq<Event>, now: u64, amount: u64): Verdict {
    if CountIn(recent, WindowStart(now), U64_MAX) >= p.maxTxPerHour then TooManyPerHour
    else if p.maxOutboundPerHour < U64_MAX &&
            TotalIn(recent, WindowStart(now), U64_MAX) + amount > p.maxOutboundPerHour then HourlyCapExceeded
    else Pass
  }

  method CheckVelocity(p: Policy, recent: seq<Event>, now: u64, amount: u64) returns (verdict: Verdict)
    ensures |recent| < U32_MOD ==> verdict == VelocityVerdict(p, recent, now, amount)
  {
    var windowStart := SatSub(now, HOUR_MS);
    var count: u32, outbound: u64 := 0, 0;
    for i := 0 to |recent|
      invariant |recent| < U32_MOD ==> count == CountIn(recent[..i], windowStart, U64_MAX)
      invariant outbound == Min(TotalIn(recent[..i], windowStart, U64_MAX), U64_MAX)
    {
      assert recent[..i + 1][..i] == recent[..i];
      if recent[i].timestamp >= windowStart {
        count := if count + 1 == U32_MOD then 0 else count + 1;
        outbound := SatAdd(outbound, recent[i].amount);
      }
    }
    assert recent[..|recent|] == recent;
    if count >= p.maxTxPerHour {
      return TooManyPerHour;
    }
    var projected := SatAdd(outbound, amount);
    if projected > p.maxOutboundPerHour {
      return HourlyCapExceeded;
    }
    return Pass;
  }

  // ------------------------------------------------------------- the window

  /** The last `MAX_STORED_EVENTS` events of a history. */
  function LastStored(history: seq<Event>): (w: seq<Event>)
    ensures |w| <= MAX_STORED_EVENTS
  {
    LastN(history, MAX_STORED_EVENTS)
  }

  method PushEvent(events: seq<Event>, timestamp: u64, amount: u64) returns (w: seq<Event>)
    ensures w == LastStored(events + [Event(timestamp, amount)])
  {
    w := events + [Event(timestamp, amount)];
    ghost var pushed := w;
    while |w| > MAX_STORED_EVENTS
      invariant |w| <= |pushed| && w == pushed[|pushed| - |w|..]
      invariant |w| >= Min(|pushed|, MAX_STORED_EVENTS)
    {
      w := w[1..];
    }
  }

  /** Truncating at every push keeps the window the tail of the full history. */
  lemma LastStoredPush(history: seq<Event>, e: Event)
    ensures LastStored(history + [e]) == LastStored(LastStored(history) + [e])
  {
    LastNPush(history, e, MAX_STORED_EVENTS);
  }

  // ------------------------------------------------- truncation is lossless

  ghost predicate Chronological(history: seq<Event>) {
    forall i, j :: 0 <= i < j < |history| ==> history[i].timestamp <= history[j].timestamp
  }

  lemma {:induction false} CountConcat(a: seq<Event>, b: seq<Event>, lo: int, hi: int)
    ensures CountIn(a + b, lo, hi) == CountIn(a, lo, hi) + CountIn(b, lo, hi)
    ensures TotalIn(a + b, lo, hi) == TotalIn(a, lo, hi) + TotalIn(b, lo, hi)
    decreases |b|
  {
    if b == [] {
      assert a + b == a;
    } else {
      assert (a + b)[..|a + b| - 1] == a + b[..|b| - 1];
      CountConcat(a, b[..|b| - 1], lo, hi);
    }
  }

  lemma {:induction false} CountOutside(events: seq<Event>, lo: int, hi: int)
    requires forall e :: e in events ==> !(lo <= e.timestamp <= hi)
    ensures CountIn(events, lo, hi) == 0 && TotalIn(events, lo, hi) == 0
    decreases |events|
  {
    if events != [] {
      CountOutside(events[..|events| - 1], lo, hi);
    }
  }

  lemma {:induction false} CountAll(events: seq<Event>, lo: int, hi: int)
    requires forall e :: e in events ==> lo <= e.timestamp <= hi
    ensures CountIn(events, lo, hi) == |events|
    decreases |events|
  {
    if events != [] {
      CountAll(events[..|events| - 1], lo, hi);
    }
  }

  /** A history too long to be stored splits into what was dropped and what is kept. If the oldest
  event kept is recent, all of them are; otherwise everything dropped is too old to count. */
  lemma TruncationSplit(history: seq<Event>, w: seq<Event>, start: int)
    requires Chronological(history) && |history| > MAX_STORED_EVENTS && w == LastStored(history)
    ensures w[0].timestamp >= start ==> CountIn(w, start, U64_MAX) == MAX_STORED_EVENTS <= CountIn(history, start, U64_MAX)
    ensures TotalIn(w, start, U64_MAX) <= TotalIn(history, start, U64_MAX)
    ensures w[0].timestamp < start ==>
              CountIn(w, start, U64_MAX) == CountIn(history, start, U64_MAX) &&
              TotalIn(w, start, U64_MAX) == TotalIn(history, start, U64_MAX)
  {
    var dropped := history[..|history| - MAX_STORED_EVENTS];
    assert history == dropped + w;
    CountConcat(dropped, w, start, U64_MAX);
    if w[0].timestamp >= start {
      CountAll(w, start, U64_MAX);
    } else {
      CountOutside(dropped, start, U64_MAX);
    }
  }

  /** The velocity check on the last 64 events decides exactly as on the full history,
  for every chronological history, as long as the event limit is at most 64. The new
  transfer's own timestamp may lie anywhere. */
  lemma TruncationLossless(p: Policy, history: seq<Event>, now: u64, amount: u64)
    requires Chronological(history)
    requires p.maxTxPerHour <= MAX_STORED_EVENTS
    ensures VelocityVerdict(p, LastStored(history), now, amount) == VelocityVerdict(p, history, now, amount)
  {
    if |history| > MAX_STORED_EVENTS {
      TruncationSplit(history, LastStored(history), WindowStart(now));
    }
  }
}
