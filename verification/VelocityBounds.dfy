/** What the velocity check is worth over whole histories, and exactly when
(crates/mycelium-coin/src/settlement_policy.rs, velocity.rs and ledger.rs). */
module VelocityBounds {
  import opened Words
  import opened Settlement

  /** Every amount passed the check that the ledger makes before the velocity check. */
  ghost predicate Transferable(p: Policy, history: seq<Event>) {
    forall i :: 0 <= i < |history| ==> TransferAmountOk(p, history[i].amount)
  }

  /** Event `i` passed the check against the window stored at the time. */
  ghost predicate StepPasses(p: Policy, history: seq<Event>, i: nat)
    requires i < |history|
  {
    VelocityVerdict(p, LastStored(history[..i]), history[i].timestamp, history[i].amount) == Pass
  }

  /** Every event of the history passed the check that the ledger ran on the stored window. */
  ghost predicate Admitted(p: Policy, history: seq<Event>) {
    forall i :: 0 <= i < |history| ==> StepPasses(p, history, i)
  }

  lemma AdmittedPrefix(p: Policy, history: seq<Event>)
    requires history != [] && Admitted(p, history)
    ensures Admitted(p, history[..|history| - 1])
  {
    var earlier := history[..|history| - 1];
    forall i | 0 <= i < |earlier|
      ensures StepPasses(p, earlier, i)
    {
      assert StepPasses(p, history, i);
      assert earlier[..i] == history[..i];
    }
  }

  lemma AdmittedPush(p: Policy, history: seq<Event>, e: Event)
    requires Admitted(p, history)
    requires VelocityVerdict(p, LastStored(history), e.timestamp, e.amount) == Pass
    ensures Admitted(p, history + [e])
  {
    var h := history + [e];
    forall i | 0 <= i < |h|
      ensures StepPasses(p, h, i)
    {
      assert h[..i] == history[..i];
      if i < |history| {
        assert StepPasses(p, history, i);
      } else {
        assert history[..i] == history;
      }
    }
  }

  // --------------------------------------------------- the stored window

  /** Amounts of at least one make a total at least a count. */
  lemma {:induction false} CountWithinTotal(events: seq<Event>, lo: int, hi: int)
    requires forall i :: 0 <= i < |events| ==> events[i].amount >= 1
    ensures CountIn(events, lo, hi) <= TotalIn(events, lo, hi)
    decreases |events|
  {
    if events != [] {
      CountWithinTotal(events[..|events| - 1], lo, hi);
    }
  }

  lemma StoredTransferable(p: Policy, history: seq<Event>)
    requires Transferable(p, history)
    ensures Transferable(p, LastStored(history))
  {}

  /** The limits a window of 64 events can enforce. */
  predicate Enforceable(p: Policy) {
    p.maxTxPerHour <= MAX_STORED_EVENTS || p.maxOutboundPerHour <= MAX_STORED_EVENTS
  }

  /** With enforceable limits the stored window and the full history agree on whether a transfer passes. */
  lemma TruncationDecides(p: Policy, history: seq<Event>, now: u64, amount: u64)
    requires Chronological(history) && Transferable(p, history) && TransferAmountOk(p, amount) && Enforceable(p)
    ensures SameDecision(p, history, now, amount)
  {
    if p.maxTxPerHour <= MAX_STORED_EVENTS {
      TruncationLossless(p, history, now, amount);
    } else if |history| > MAX_STORED_EVENTS {
      var w := LastStored(history);
      TruncationSplit(history, w, WindowStart(now));
      StoredTransferable(p, history);
      CountWithinTotal(w, WindowStart(now), U64_MAX);
    }
  }

  ghost predicate SameDecision(p: Policy, history: seq<Event>, now: u64, amount: u64) {
    VelocityVerdict(p, LastStored(history), now, amount) == Pass <==> VelocityVerdict(p, history, now, amount) == Pass
  }

  // ------------------------------------------------------ the hourly bound

  /** In the closed hour from `s` both limits are kept; an amount limit of `U64_MAX` never binds. */
  ghost predicate HourKept(p: Policy, history: seq<Event>, s: int) {
    && CountKept(p, history, s)
    && (p.maxOutboundPerHour < U64_MAX ==> TotalIn(history, s, s + HOUR_MS) <= p.maxOutboundPerHour)
  }

  ghost predicate CountKept(p: Policy, history: seq<Event>, s: int) {
    CountIn(history, s, s + HOUR_MS) <= p.maxTxPerHour
  }

  ghost predicate CountsKept(p: Policy, history: seq<Event>) {
    forall s: int :: CountKept(p, history, s)
  }

  ghost predicate HoursKept(p: Policy, history: seq<Event>) {
    forall s: int :: HourKept(p, history, s)
  }

  /** All timestamps are `u64`, so an interval that ends an hour after `s` and starts no
  earlier than `start` sees no more than the open-ended window from `start`. */
  lemma {:induction false} CountClip(events: seq<Event>, lo: int, hi: int, start: int)
    requires start <= lo || start == 0
    ensures CountIn(events, lo, hi) <= CountIn(events, start, U64_MAX)
    ensures TotalIn(events, lo, hi) <= TotalIn(events, start, U64_MAX)
    decreases |events|
  {
    if events != [] {
      CountClip(events[..|events| - 1], lo, hi, start);
    }
  }

  /** One more event that passes the check on the full history keeps both limits. */
  lemma HourPush(p: Policy, history: seq<Event>, e: Event, s: int)
    requires HourKept(p, history, s) && VelocityVerdict(p, history, e.timestamp, e.amount) == Pass
    ensures HourKept(p, history + [e], s)
  {
    assert (history + [e])[..|history|] == history;
    if s <= e.timestamp <= s + HOUR_MS {
      CountClip(history, s, s + HOUR_MS, WindowStart(e.timestamp));
    }
  }

  /** In every closed one-hour interval of a chronological history a sender has at most
  `maxTxPerHour` accepted transfers, and they add up to at most `maxOutboundPerHour`. */
  lemma {:induction false} HourlyBound(p: Policy, history: seq<Event>, s: int)
    requires Chronological(history) && Transferable(p, history) && Admitted(p, history) && Enforceable(p)
    ensures HourKept(p, history, s)
    decreases |history|
  {
    if history != [] {
      var n := |history| - 1;
      var earlier, e := history[..n], history[n];
      AdmittedPrefix(p, history);
      HourlyBound(p, earlier, s);
      assert StepPasses(p, history, n);
      TruncationDecides(p, earlier, e.timestamp, e.amount);
      HourPush(p, earlier, e, s);
      assert history == earlier + [e];
    }
  }

  // ------------------------------------------- limits that force the order

  /** Limits so tight that an accepted transfer is alone in its hour. */
  predicate Solitary(p: Policy) {
    p.maxTxPerHour <= 1 || p.maxOutboundPerHour <= 1
  }

  /** A transfer accepted under such limits lies more than an hour after the one before it. */
  lemma PassesOnlyLater(p: Policy, history: seq<Event>, now: u64, amount: u64)
    requires Solitary(p) && history != [] && Transferable(p, history) && TransferAmountOk(p, amount)
    requires VelocityVerdict(p, LastStored(history), now, amount) == Pass
    ensures history[|history| - 1].timestamp < now
  {
    var w := LastStored(history);
    assert w[|w| - 1] == history[|history| - 1];
    StoredTransferable(p, history);
    CountWithinTotal(w, WindowStart(now), U64_MAX);
  }

  lemma ChronologicalPush(history: seq<Event>, e: Event)
    requires Chronological(history)
    requires history != [] ==> history[|history| - 1].timestamp <= e.timestamp
    ensures Chronological(history + [e])
  {
    var n := |history|;
    forall i, j | 0 <= i < j < n + 1
      ensures (history + [e])[i].timestamp <= (history + [e])[j].timestamp
    {
      if j == n && i < n - 1 {
        assert history[i].timestamp <= history[n - 1].timestamp;
      }
    }
  }

  /** Then the check itself forces chronological order. */
  lemma {:induction false} SolitaryForcesOrder(p: Policy, history: seq<Event>)
    requires Solitary(p) && Transferable(p, history) && Admitted(p, history)
    ensures Chronological(history)
    decreases |history|
  {
    if history != [] {
      var n := |history| - 1;
      var earlier, e := history[..n], history[n];
      AdmittedPrefix(p, history);
      SolitaryForcesOrder(p, earlier);
      if n > 0 {
        assert StepPasses(p, history, n);
        PassesOnlyLater(p, earlier, e.timestamp, e.amount);
      }
      ChronologicalPush(earlier, e);
      assert history == earlier + [e];
    }
  }

  // ------------------------------------------------ chronological histories

  /** `n` transfers of one unit, all stamped zero. */
  function Burst(n: nat): (r: seq<Event>)
    ensures |r| == n && forall i :: 0 <= i < n ==> r[i] == Event(0, 1)
  {
    seq(n, _ => Event(0, 1))
  }

  lemma {:induction false} CountBurst(events: seq<Event>, hi: int)
    requires hi >= 0 && forall i :: 0 <= i < |events| ==> events[i] == Event(0, 1)
    ensures CountIn(events, 0, hi) == TotalIn(events, 0, hi) == |events|
    decreases |events|
  {
    if events != [] {
      CountBurst(events[..|events| - 1], hi);
    }
  }

  /** Limits above 64 never stop a burst. */
  lemma BurstPasses(p: Policy, events: seq<Event>)
    requires !Enforceable(p) && forall i :: 0 <= i < |events| ==> events[i] == Event(0, 1)
    ensures VelocityVerdict(p, LastStored(events), 0, 1) == Pass
  {
    CountBurst(LastStored(events), U64_MAX);
  }

  lemma BurstAdmitted(p: Policy, n: nat)
    requires !Enforceable(p) && p.maxTransfer >= 1
    ensures Chronological(Burst(n)) && Transferable(p, Burst(n)) && Admitted(p, Burst(n))
  {
    forall i | 0 <= i < n
      ensures StepPasses(p, Burst(n), i)
    {
      BurstPasses(p, Burst(n)[..i]);
    }
  }

  /** When both limits exceed 64, more transfers than allowed fit into one hour, in order. */
  lemma BurstBreaksBound(p: Policy)
    requires !Enforceable(p) && p.maxTransfer >= 1
    ensures var h := Burst(p.maxTxPerHour + 1);
            Chronological(h) && Transferable(p, h) && Admitted(p, h) && !CountKept(p, h, 0)
  {
    BurstAdmitted(p, p.maxTxPerHour + 1);
    CountBurst(Burst(p.maxTxPerHour + 1), HOUR_MS);
  }

  /** A history the ledger can hold for one sender. */
  ghost predicate Possible(p: Policy, history: seq<Event>) {
    Transferable(p, history) && Admitted(p, history)
  }

  /** For senders with nondecreasing stamps both hourly limits hold in every history the ledger can
  hold if and only if one of the limits is at most 64, or no transfer is possible at all. */
  lemma ChronologicalBoundIff(p: Policy)
    ensures (forall h :: Possible(p, h) && Chronological(h) ==> HoursKept(p, h)) <==> Enforceable(p) || p.maxTransfer == 0
    ensures (forall h :: Possible(p, h) && Chronological(h) ==> CountsKept(p, h)) <==> Enforceable(p) || p.maxTransfer == 0
  {
    if Enforceable(p) || p.maxTransfer == 0 {
      forall h | Possible(p, h) && Chronological(h)
        ensures HoursKept(p, h) && CountsKept(p, h)
      {
        ChronologicalBound(p, h);
      }
    } else {
      BurstBreaksBound(p);
      var h := Burst(p.maxTxPerHour + 1);
      assert Possible(p, h) && !CountKept(p, h, 0);
      assert !CountsKept(p, h) && !HoursKept(p, h) by {
        assert HoursKept(p, h) ==> HourKept(p, h, 0);
      }
    }
  }

  lemma ChronologicalBound(p: Policy, h: seq<Event>)
    requires Possible(p, h) && Chronological(h) && (Enforceable(p) || p.maxTransfer == 0)
    ensures HoursKept(p, h) && CountsKept(p, h)
  {
    if p.maxTransfer == 0 {
      NothingTransferable(p, h);
    }
    forall s: int
      ensures HourKept(p, h, s) && CountKept(p, h, s)
    {
      if Enforceable(p) {
        HourlyBound(p, h, s);
      }
    }
  }

  lemma NothingTransferable(p: Policy, h: seq<Event>)
    requires Transferable(p, h) && p.maxTransfer == 0
    ensures h == []
  {
    assert h == [] || !TransferAmountOk(p, h[0].amount);
  }

  /** When both limits exceed 64, the stored window passes a transfer that the full history forbids,
  and the ledger can get there. */
  lemma TruncationLossyAbove64(p: Policy)
    requires !Enforceable(p) && p.maxTransfer >= 1
    ensures var h := Burst(p.maxTxPerHour);
            && Possible(p, h) && Chronological(h)
            && VelocityVerdict(p, LastStored(h), 0, 1) == Pass
            && VelocityVerdict(p, h, 0, 1) == TooManyPerHour
  {
    var h := Burst(p.maxTxPerHour);
    BurstAdmitted(p, p.maxTxPerHour);
    BurstPasses(p, h);
    CountBurst(h, U64_MAX);
  }

  /** The stored window decides like the full history, for every chronological history the ledger
  can hold and every possible transfer, if and only if one of the limits is at most 64, or no
  transfer is possible at all. */
  lemma TruncationLosslessIff(p: Policy)
    ensures (forall h, now, amount :: Possible(p, h) && Chronological(h) && TransferAmountOk(p, amount) ==> SameDecision(p, h, now, amount))
            <==> Enforceable(p) || p.maxTransfer == 0
  {
    if Enforceable(p) {
      forall h, now, amount | Possible(p, h) && Chronological(h) && TransferAmountOk(p, amount)
        ensures SameDecision(p, h, now, amount)
      {
        TruncationDecides(p, h, now, amount);
      }
    } else if p.maxTransfer >= 1 {
      TruncationLossyAbove64(p);
      assert !SameDecision(p, Burst(p.maxTxPerHour), 0, 1);
      assert TransferAmountOk(p, 1);
    }
  }

  // ---------------------------------------------- histories in any order

  /** A stamp later than every stamp of `Flush`. */
  const LATE: u64 := 2_000_000_000_000_000_000

  /** The `k`-th block of 64 transfers of one unit, two hours apart, each block after the one before. */
  function Flush(k: nat): (r: seq<Event>)
    requires k < U32_MOD
    ensures |r| == MAX_STORED_EVENTS
    ensures forall i :: 0 <= i < MAX_STORED_EVENTS ==> r[i] == Event(2 * HOUR_MS * (64 * k + i + 1), 1)
  {
    seq(MAX_STORED_EVENTS, i requires 0 <= i < MAX_STORED_EVENTS => Event(2 * HOUR_MS * (64 * k + i + 1), 1))
  }

  /** All stored events are of one unit and lie before `t`. */
  ghost predicate StoredBefore(h: seq<Event>, t: int) {
    forall i :: 0 <= i < |h| && i >= |h| - MAX_STORED_EVENTS ==> h[i].timestamp < t && h[i].amount == 1
  }

  lemma LastStoredSplit(a: seq<Event>, b: seq<Event>)
    requires |b| <= MAX_STORED_EVENTS
    ensures LastStored(a + b) == a[Max(0, |a| + |b| - MAX_STORED_EVENTS)..] + b
  {}

  lemma CountOld(events: seq<Event>, start: int)
    requires forall i :: 0 <= i < |events| ==> events[i].timestamp < start
    ensures CountIn(events, start, U64_MAX) == 0 && TotalIn(events, start, U64_MAX) == 0
  {
    CountOutside(events, start, U64_MAX);
  }

  /** One unit passes when nothing stored lies within the hour. */
  lemma PassesAlone(p: Policy, h: seq<Event>, now: u64)
    requires p.maxTxPerHour >= 1 && p.maxOutboundPerHour >= 1 && StoredBefore(h, WindowStart(now))
    ensures VelocityVerdict(p, LastStored(h), now, 1) == Pass
  {
    CountOld(LastStored(h), WindowStart(now));
  }

  /** One unit passes when of all that is stored only one unit lies within the hour or after it. */
  lemma PassesBesideOne(p: Policy, past: seq<Event>, late: Event, early: seq<Event>, now: u64)
    requires p.maxTxPerHour >= 2 && p.maxOutboundPerHour >= 2 && late.amount == 1
    requires forall i :: 0 <= i < |past| ==> past[i].timestamp < WindowStart(now)
    requires forall i :: 0 <= i < |early| ==> early[i].timestamp < WindowStart(now)
    ensures VelocityVerdict(p, past + [late] + early, now, 1) == Pass
  {
    var start := WindowStart(now);
    CountConcat(past + [late], early, start, U64_MAX);
    CountConcat(past, [late], start, U64_MAX);
    CountOld(past, start);
    CountOld(early, start);
    assert [late][..0] == [];
  }

  /** The window after a late stamp and fewer than 64 early ones. */
  lemma WindowBesideOne(h: seq<Event>, late: Event, early: seq<Event>, t: int) returns (past: seq<Event>)
    requires StoredBefore(h, t) && |early| < MAX_STORED_EVENTS
    ensures LastStored(h + [late] + early) == past + [late] + early
    ensures forall i :: 0 <= i < |past| ==> past[i].timestamp < t
  {
    LastStoredSplit(h, [late] + early);
    assert h + [late] + early == h + ([late] + early);
    past := h[Max(0, |h| + 1 + |early| - MAX_STORED_EVENTS)..];
    assert past + ([late] + early) == past + [late] + early;
  }

  /** Pushing the first `j` events of a block out behind a late one. */
  lemma {:induction false} FlushAdmitted(p: Policy, h: seq<Event>, k: nat, j: nat)
    requires p.maxTxPerHour >= 2 && p.maxOutboundPerHour >= 2 && k < U32_MOD && j <= MAX_STORED_EVENTS
    requires Admitted(p, h + [Event(LATE, 1)]) && StoredBefore(h, 2 * HOUR_MS * (64 * k + 1) - HOUR_MS)
    ensures Admitted(p, h + [Event(LATE, 1)] + Flush(k)[..j])
    decreases j
  {
    var late := Event(LATE, 1);
    if j == 0 {
      assert h + [late] + Flush(k)[..0] == h + [late];
    } else {
      FlushAdmitted(p, h, k, j - 1);
      var early, e := Flush(k)[..j - 1], Flush(k)[j - 1];
      FlushPasses(p, h, k, early, e);
      AdmittedPush(p, h + [late] + early, e);
      assert h + [late] + Flush(k)[..j] == h + [late] + early + [e];
    }
  }

  lemma FlushPasses(p: Policy, h: seq<Event>, k: nat, early: seq<Event>, e: Event)
    requires p.maxTxPerHour >= 2 && p.maxOutboundPerHour >= 2 && k < U32_MOD && |early| < MAX_STORED_EVENTS
    requires early == Flush(k)[..|early|] && e == Flush(k)[|early|]
    requires StoredBefore(h, 2 * HOUR_MS * (64 * k + 1) - HOUR_MS)
    ensures VelocityVerdict(p, LastStored(h + [Event(LATE, 1)] + early), e.timestamp, e.amount) == Pass
  {
    var start := WindowStart(e.timestamp);
    var past := WindowBesideOne(h, Event(LATE, 1), early, start);
    PassesBesideOne(p, past, Event(LATE, 1), early, e.timestamp);
  }

  lemma FlushedStored(h: seq<Event>, k: nat)
    requires k < U32_MOD
    ensures StoredBefore(h + Flush(k), 2 * HOUR_MS * (64 * (k + 1) + 1) - HOUR_MS)
    ensures StoredBefore(h + Flush(k), WindowStart(LATE))
  {}

  /** Everything stored is early enough for the `k`-th block and for a late stamp. */
  ghost predicate Flushable(h: seq<Event>, k: nat) {
    StoredBefore(h, 2 * HOUR_MS * (64 * k + 1) - HOUR_MS) && StoredBefore(h, WindowStart(LATE))
  }

  lemma RoundAdmitted(p: Policy, h: seq<Event>, k: nat)
    requires p.maxTxPerHour >= 2 && p.maxOutboundPerHour >= 2 && k < U32_MOD
    requires Admitted(p, h) && Flushable(h, k)
    ensures Admitted(p, h + [Event(LATE, 1)] + Flush(k)) && Flushable(h + [Event(LATE, 1)] + Flush(k), k + 1)
  {
    PassesAlone(p, h, LATE);
    AdmittedPush(p, h, Event(LATE, 1));
    FlushAdmitted(p, h, k, MAX_STORED_EVENTS);
    assert Flush(k)[..MAX_STORED_EVENTS] == Flush(k);
    FlushedStored(h + [Event(LATE, 1)], k);
  }

  ghost predicate Units(h: seq<Event>) {
    forall i :: 0 <= i < |h| ==> h[i].amount == 1
  }

  lemma RoundCounts(h: seq<Event>, k: nat)
    requires Units(h) && k < U32_MOD
    ensures Units(h + [Event(LATE, 1)] + Flush(k))
    ensures CountIn(h + [Event(LATE, 1)] + Flush(k), LATE, LATE + HOUR_MS) >= CountIn(h, LATE, LATE + HOUR_MS) + 1
  {
    CountConcat(h + [Event(LATE, 1)], Flush(k), LATE, LATE + HOUR_MS);
    assert (h + [Event(LATE, 1)])[..|h|] == h;
  }

  /** `n` rounds, each of one transfer with a late stamp that 64 early ones push out of the window. */
  lemma {:induction false} Alternate(p: Policy, n: nat) returns (h: seq<Event>)
    requires p.maxTxPerHour >= 2 && p.maxOutboundPerHour >= 2 && n <= U32_MOD
    ensures Admitted(p, h) && Flushable(h, n) && Units(h)
    ensures CountIn(h, LATE, LATE + HOUR_MS) >= n
    decreases n
  {
    if n == 0 {
      h := [];
    } else {
      var earlier := Alternate(p, n - 1);
      h := earlier + [Event(LATE, 1)] + Flush(n - 1);
      RoundAdmitted(p, earlier, n - 1);
      RoundCounts(earlier, n - 1);
    }
  }

  /** When both limits are at least two, late stamps are pushed out of the window by early ones and
  more transfers than allowed fit into one hour. */
  lemma UnorderedTimestampsBreakBound(p: Policy) returns (h: seq<Event>)
    requires !Solitary(p) && p.maxTransfer >= 1
    ensures Possible(p, h) && !CountKept(p, h, LATE)
  {
    h := Alternate(p, p.maxTxPerHour + 1);
    TooManyUnits(p, h, LATE);
  }

  lemma TooManyUnits(p: Policy, h: seq<Event>, s: int)
    requires Admitted(p, h) && p.maxTransfer >= 1 && Units(h)
    requires CountIn(h, s, s + HOUR_MS) > p.maxTxPerHour
    ensures Possible(p, h) && !CountKept(p, h, s)
  {}

  /** Whatever stamps senders choose, both hourly limits hold in every history the ledger can hold if
  and only if one of the limits is at most one, or no transfer is possible at all. */
  lemma AnyOrderBoundIff(p: Policy)
    ensures (forall h :: Possible(p, h) ==> HoursKept(p, h)) <==> Solitary(p) || p.maxTransfer == 0
    ensures (forall h :: Possible(p, h) ==> CountsKept(p, h)) <==> Solitary(p) || p.maxTransfer == 0
  {
    if Solitary(p) || p.maxTransfer == 0 {
      forall h | Possible(p, h)
        ensures HoursKept(p, h) && CountsKept(p, h)
      {
        AnyOrderBound(p, h);
      }
    } else {
      var h := UnorderedTimestampsBreakBound(p);
      assert Possible(p, h) && !CountKept(p, h, LATE);
      assert !CountsKept(p, h) && !HoursKept(p, h) by {
        assert HoursKept(p, h) ==> HourKept(p, h, LATE);
      }
    }
  }

  lemma AnyOrderBound(p: Policy, h: seq<Event>)
    requires Possible(p, h) && (Solitary(p) || p.maxTransfer == 0)
    ensures HoursKept(p, h) && CountsKept(p, h)
  {
    if Solitary(p) {
      SolitaryForcesOrder(p, h);
    } else {
      NothingTransferable(p, h);
    }
    ChronologicalBound(p, h);
  }
}
