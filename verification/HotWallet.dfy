/** Returning the excess of a hot wallet to its cold wallet in chunks
(crates/mycelium-coin/src/hot_wallet.rs). */
module HotWallet {
  import opened Words
  import opened Ledger
  import opened LedgerReplay
  import opened CoinNode

  const RETURN_FEE: u64 := 1000
  const RETURN_MEMO: seq<u8> := [97, 117, 116, 111, 45, 99, 97, 112, 45, 114, 101, 116, 117, 114, 110]

  datatype Config = Config(maxCache: u64, coldWallet: Option<Address>)

  /** What the outside world contributes to one submission. */
  datatype Attempt = Attempt(now: u64, broadcast: bool)

  /** `k` whole chunks of at most `chunk` out of `total`. */
  function Moved(k: nat, chunk: nat, total: nat): nat {
    Min(k * chunk, total)
  }

  /** The accounts after `k` chunks went from `hot` to `cold`. */
  ghost predicate AfterChunks(s0: State, s: State, hot: Address, cold: Address, k: nat, moved: nat) {
    var h0, c0 := AccountOf(s0.ledger.accounts, hot), AccountOf(s0.ledger.accounts, cold);
    var h, c := AccountOf(s.ledger.accounts, hot), AccountOf(s.ledger.accounts, cold);
    && h.balance == h0.balance - moved - k * RETURN_FEE
    && h.nextNonce == (h0.nextNonce + k) % U64_MOD
    && (k > 0 ==> hot != cold)
    && c.balance + c.pending == c0.balance + c0.pending + moved
    && |s.journal.order| == |s0.journal.order| + k
    && s.journal.order[..|s0.journal.order|] == s0.journal.order
    && s.journal.credits == s0.journal.credits
    && (forall a :: a != hot && a != cold ==> AccountOf(s.ledger.accounts, a) == AccountOf(s0.ledger.accounts, a))
  }

  /** The `i`-th new entry of the log carries the `i`-th chunk from `hot` to `cold` with the `i`-th nonce. */
  ghost predicate ChunkLogged(s0: State, s: State, hot: Address, cold: Address, i: nat, chunk: nat, total: nat) {
    var n0 := |s0.journal.order|;
    && n0 + i < |s.journal.order|
    && s.journal.order[n0 + i] in s.ledger.transactions
    && var tx := s.ledger.transactions[s.journal.order[n0 + i]];
       && tx.from == hot && tx.to == cold && tx.fee == RETURN_FEE
       && tx.amount == Moved(i + 1, chunk, total) - Moved(i, chunk, total)
       && tx.nonce == (AccountOf(s0.ledger.accounts, hot).nextNonce + i) % U64_MOD
  }

  ghost predicate ChunksLogged(s0: State, s: State, hot: Address, cold: Address, k: nat, chunk: nat, total: nat) {
    forall i :: 0 <= i < k ==> ChunkLogged(s0, s, hot, cold, i, chunk, total)
  }

  /** A further accepted transfer adds its own entry and keeps the others. */
  lemma TransferLogged(n: Node, s0: State, s: State, cold: Address, k: nat, chunk: nat, total: nat, amount: u64, now: u64)
    requires Moves(n, s.ledger, cold, amount, RETURN_FEE, RETURN_MEMO, now)
    requires ChunksLogged(s0, s, n.localAddress, cold, k, chunk, total) && |s.journal.order| == |s0.journal.order| + k
    requires AccountOf(s.ledger.accounts, n.localAddress).nextNonce == (AccountOf(s0.ledger.accounts, n.localAddress).nextNonce + k) % U64_MOD
    requires amount == Moved(k + 1, chunk, total) - Moved(k, chunk, total)
    ensures ChunksLogged(s0, Submitted(n, s, cold, amount, RETURN_FEE, RETURN_MEMO, now), n.localAddress, cold, k + 1, chunk, total)
  {
    var s' := Submitted(n, s, cold, amount, RETURN_FEE, RETURN_MEMO, now);
    var tx := NewTransfer(n, s.ledger, cold, amount, RETURN_FEE, RETURN_MEMO, now);
    assert s'.journal.order == s.journal.order + [tx.id] && s'.ledger.transactions == s.ledger.transactions[tx.id := tx];
    forall i | 0 <= i < k + 1
      ensures ChunkLogged(s0, s', n.localAddress, cold, i, chunk, total)
    {
      assert i < k ==> ChunkLogged(s0, s, n.localAddress, cold, i, chunk, total);
    }
  }

  lemma OneTransfer(n: Node, s: State, cold: Address, amount: u64, now: u64)
    requires n.env.policy.maxBalance < U64_MAX
    requires Moves(n, s.ledger, cold, amount, RETURN_FEE, RETURN_MEMO, now)
    ensures var s' := Submitted(n, s, cold, amount, RETURN_FEE, RETURN_MEMO, now);
            var hot := n.localAddress;
            var h, c := AccountOf(s.ledger.accounts, hot), AccountOf(s.ledger.accounts, cold);
            && hot != cold && amount > 0
            && amount + RETURN_FEE <= h.balance
            && AccountOf(s'.ledger.accounts, hot) == Account(h.balance - amount - RETURN_FEE, WrapAdd(h.nextNonce, 1), h.pending)
            && c.pending + amount <= U64_MAX
            && AccountOf(s'.ledger.accounts, cold) == Account(c.balance, c.nextNonce, c.pending + amount)
            && (forall a :: a != hot && a != cold ==> AccountOf(s'.ledger.accounts, a) == AccountOf(s.ledger.accounts, a))
            && |s'.journal.order| == |s.journal.order| + 1 && s.journal.order <= s'.journal.order
            && s'.journal.credits == s.journal.credits
  {
    var c := AccountOf(s.ledger.accounts, cold);
    CapRoom(n.env.policy, c.balance, c.pending, amount);
  }

  lemma ChunkArithmetic(k: nat, chunk: nat, total: nat)
    requires Moved(k, chunk, total) < total
    ensures Moved(k, chunk, total) == k * chunk
    ensures Moved(k + 1, chunk, total) == Moved(k, chunk, total) + Min(total - Moved(k, chunk, total), chunk)
  {
    assert (k + 1) * chunk == k * chunk + chunk;
  }

  lemma NextNonce(start: u64, k: nat)
    ensures WrapAdd((start + k) % U64_MOD, 1) == (start + k + 1) % U64_MOD
  {}

  lemma ChunkStep(n: Node, s0: State, s: State, cold: Address, k: nat, moved: nat, amount: u64, now: u64)
    requires n.env.policy.maxBalance < U64_MAX
    requires AfterChunks(s0, s, n.localAddress, cold, k, moved)
    requires Moves(n, s.ledger, cold, amount, RETURN_FEE, RETURN_MEMO, now)
    ensures AfterChunks(s0, Submitted(n, s, cold, amount, RETURN_FEE, RETURN_MEMO, now), n.localAddress, cold, k + 1, moved + amount)
  {
    OneTransfer(n, s, cold, amount, now);
    NextNonce(AccountOf(s0.ledger.accounts, n.localAddress).nextNonce, k);
  }

  /** `k` transfers have been made out of `total`, each of them needed, and nothing else moved. */
  ghost predicate Progress(n: Node, s0: State, s: State, cold: Address, k: nat, total: nat) {
    var chunk := n.env.policy.maxTransfer;
    && (n.env.policy.maxBalance < U64_MAX ==>
          && AfterChunks(s0, s, n.localAddress, cold, k, Moved(k, chunk, total))
          && ChunksLogged(s0, s, n.localAddress, cold, k, chunk, total))
    && (k > 0 ==> (k - 1) * chunk < total)
  }

  lemma ProgressStep(n: Node, s0: State, s: State, cold: Address, k: nat, total: nat, amount: u64, now: u64)
    requires Progress(n, s0, s, cold, k, total)
    requires Moved(k, n.env.policy.maxTransfer, total) < total
    requires amount == Min(total - Moved(k, n.env.policy.maxTransfer, total), n.env.policy.maxTransfer)
    requires Moves(n, s.ledger, cold, amount, RETURN_FEE, RETURN_MEMO, now)
    ensures Progress(n, s0, Submitted(n, s, cold, amount, RETURN_FEE, RETURN_MEMO, now), cold, k + 1, total)
    ensures amount > 0
    ensures Moved(k + 1, n.env.policy.maxTransfer, total) == Moved(k, n.env.policy.maxTransfer, total) + amount
  {
    ChunkArithmetic(k, n.env.policy.maxTransfer, total);
    if n.env.policy.maxBalance < U64_MAX {
      ChunkStep(n, s0, s, cold, k, Moved(k, n.env.policy.maxTransfer, total), amount, now);
      TransferLogged(n, s0, s, cold, k, n.env.policy.maxTransfer, total, amount, now);
    }
  }

  // --------------------------------------------------- when a return succeeds

  /** Chunk `i` is needed: the chunks before it do not cover the total. */
  predicate Due(i: nat, chunk: nat, total: nat) {
    i * chunk < total
  }

  /** The amount of chunk `i`. */
  function ChunkAmount(i: nat, chunk: nat, total: nat): (r: int)
    ensures 0 <= r <= total
  {
    var before := i * chunk;
    if before >= total then 0 else Min(chunk, total - before)
  }

  /** The state after the first `i` chunks have been submitted, one after the other. */
  function AfterSubmissions(n: Node, s: State, cold: Address, total: u64, attempts: nat -> Attempt, i: nat): State {
    if i == 0 then s
    else
      Submitted(n, AfterSubmissions(n, s, cold, total, attempts, i - 1), cold,
                ChunkAmount(i - 1, n.env.policy.maxTransfer, total), RETURN_FEE, RETURN_MEMO, attempts(i - 1).now)
  }

  /** The ledger accepts chunk `i` in the state after the chunks before it. */
  ghost predicate ChunkAccepted(n: Node, s: State, cold: Address, total: u64, attempts: nat -> Attempt, i: nat) {
    Moves(n, AfterSubmissions(n, s, cold, total, attempts, i).ledger, cold,
          ChunkAmount(i, n.env.policy.maxTransfer, total), RETURN_FEE, RETURN_MEMO, attempts(i).now)
  }

  ghost predicate ChunkSucceeds(n: Node, s: State, cold: Address, total: u64, attempts: nat -> Attempt, i: nat) {
    ChunkAccepted(n, s, cold, total, attempts, i) && attempts(i).broadcast
  }

  /** Every chunk that is due is accepted by the ledger and broadcast. */
  ghost predicate AllSucceed(n: Node, s: State, cold: Address, total: u64, attempts: nat -> Attempt) {
    forall i: nat :: Due(i, n.env.policy.maxTransfer, total) ==> ChunkSucceeds(n, s, cold, total, attempts, i)
  }

  /** Chunk `i` is due and the first that does not succeed; `transfers` counts it only if the ledger took it. */
  ghost predicate FailsAt(n: Node, s: State, cold: Address, total: u64, attempts: nat -> Attempt, i: nat, transfers: nat) {
    && Due(i, n.env.policy.maxTransfer, total)
    && (forall j: nat :: j < i ==> ChunkSucceeds(n, s, cold, total, attempts, j))
    && !ChunkSucceeds(n, s, cold, total, attempts, i)
    && transfers == if ChunkAccepted(n, s, cold, total, attempts, i) then i + 1 else i
  }

  /** The outcome of a return: it succeeds if and only if every due chunk does, it fails at the first
  one that does not, and the state is the one after the transfers made. */
  ghost predicate Outcome(n: Node, s0: State, s: State, cold: Address, total: u64, attempts: nat -> Attempt, ok: bool, transfers: nat) {
    && s == AfterSubmissions(n, s0, cold, total, attempts, transfers)
    && (ok <==> AllSucceed(n, s0, cold, total, attempts))
    && (!ok ==> exists i: nat :: FailsAt(n, s0, cold, total, attempts, i, transfers))
  }

  lemma MovedAmount(i: nat, chunk: nat, total: nat)
    requires Moved(i, chunk, total) < total
    ensures Due(i, chunk, total) && Moved(i, chunk, total) == i * chunk
    ensures ChunkAmount(i, chunk, total) == Min(total - Moved(i, chunk, total), chunk)
  {}

  lemma DueIsBefore(i: nat, k: nat, chunk: nat, total: nat)
    requires Moved(k, chunk, total) == total && Due(i, chunk, total)
    ensures i < k
  {
    if i >= k {
      MultiplyMonotone(k, i, chunk);
    }
  }

  /** The loop has made `k` transfers, all of which succeeded. */
  ghost predicate Succeeding(n: Node, s0: State, s: State, cold: Address, total: u64, attempts: nat -> Attempt, k: nat) {
    && s == AfterSubmissions(n, s0, cold, total, attempts, k)
    && forall j: nat :: j < k ==> ChunkSucceeds(n, s0, cold, total, attempts, j)
  }

  lemma SubmissionsPush(n: Node, s0: State, s: State, cold: Address, total: u64, attempts: nat -> Attempt, k: nat)
    requires s == AfterSubmissions(n, s0, cold, total, attempts, k)
    ensures AfterSubmissions(n, s0, cold, total, attempts, k + 1) ==
            Submitted(n, s, cold, ChunkAmount(k, n.env.policy.maxTransfer, total), RETURN_FEE, RETURN_MEMO, attempts(k).now)
    ensures !ChunkAccepted(n, s0, cold, total, attempts, k) ==> AfterSubmissions(n, s0, cold, total, attempts, k + 1) == s
  {}

  lemma OutcomeFails(n: Node, s0: State, s: State, s': State, cold: Address, total: u64, attempts: nat -> Attempt, k: nat)
    requires Succeeding(n, s0, s, cold, total, attempts, k) && Moved(k, n.env.policy.maxTransfer, total) < total
    requires !ChunkSucceeds(n, s0, cold, total, attempts, k)
    requires s' == Submitted(n, s, cold, ChunkAmount(k, n.env.policy.maxTransfer, total), RETURN_FEE, RETURN_MEMO, attempts(k).now)
    ensures Outcome(n, s0, s', cold, total, attempts, false, if ChunkAccepted(n, s0, cold, total, attempts, k) then k + 1 else k)
  {
    var transfers := if ChunkAccepted(n, s0, cold, total, attempts, k) then k + 1 else k;
    assert Due(k, n.env.policy.maxTransfer, total) by {
      MovedAmount(k, n.env.policy.maxTransfer, total);
    }
    assert s' == AfterSubmissions(n, s0, cold, total, attempts, transfers) by {
      SubmissionsPush(n, s0, s, cold, total, attempts, k);
    }
    assert FailsAt(n, s0, cold, total, attempts, k, transfers);
  }

  lemma OutcomeSucceeds(n: Node, s0: State, s: State, cold: Address, total: u64, attempts: nat -> Attempt, k: nat)
    requires Succeeding(n, s0, s, cold, total, attempts, k) && Moved(k, n.env.policy.maxTransfer, total) == total
    ensures Outcome(n, s0, s, cold, total, attempts, true, k)
  {
    forall i: nat | Due(i, n.env.policy.maxTransfer, total)
      ensures ChunkSucceeds(n, s0, cold, total, attempts, i)
    {
      DueIsBefore(i, k, n.env.policy.maxTransfer, total);
    }
  }

  /** What a return of `total` does: how far it got, and why it stopped there. */
  ghost predicate Returned(n: Node, s0: State, s: State, cold: Address, total: u64, attempts: nat -> Attempt, ok: bool, transfers: nat) {
    && Progress(n, s0, s, cold, transfers, total)
    && (ok ==> Moved(transfers, n.env.policy.maxTransfer, total) == total)
    && Outcome(n, s0, s, cold, total, attempts, ok, transfers)
  }

  /** The loop of `enforce_cap`. It ends under every policy: the ledger refuses a zero chunk. */
  method ReturnExcess(coin: CoinNode, cold: Address, total: u64, attempts: nat -> Attempt) returns (ok: bool, ghost transfers: nat)
    requires coin.Valid()
    modifies coin.ledger
    ensures coin.Valid()
    ensures Returned(coin.node, old(coin.ledger.Current()), coin.ledger.Current(), cold, total, attempts, ok, transfers)
  {
    var excess, i, chunk := total, 0, coin.node.env.policy.maxTransfer;
    ghost var s0 := coin.ledger.Current();
    transfers := 0;
    while excess > 0
      invariant 0 <= excess <= total && coin.Valid() && i == transfers
      invariant Progress(coin.node, s0, coin.ledger.Current(), cold, transfers, total)
      invariant Succeeding(coin.node, s0, coin.ledger.Current(), cold, total, attempts, transfers)
      invariant total - excess == Moved(transfers, chunk, total)
      decreases excess
    {
      var amount := Min(excess, chunk);
      MovedAmount(i, chunk, total);
      ok := SubmitChunk(coin, cold, total, amount, attempts, i, s0);
      if !ok {
        ghost var accepted := ChunkAccepted(coin.node, s0, cold, total, attempts, i);
        transfers := if accepted then i + 1 else i;
        return;
      }
      transfers := transfers + 1;
      excess := excess - amount;
      i := i + 1;
    }
    ok := true;
    OutcomeSucceeds(coin.node, s0, coin.ledger.Current(), cold, total, attempts, transfers);
  }

  /** One turn of the loop. */
  method SubmitChunk(coin: CoinNode, cold: Address, ghost total: u64, amount: u64, attempts: nat -> Attempt, i: nat, ghost s0: State)
    returns (ok: bool)
    requires coin.Valid() && Progress(coin.node, s0, coin.ledger.Current(), cold, i, total)
    requires Succeeding(coin.node, s0, coin.ledger.Current(), cold, total, attempts, i)
    requires Moved(i, coin.node.env.policy.maxTransfer, total) < total && amount == ChunkAmount(i, coin.node.env.policy.maxTransfer, total)
    modifies coin.ledger
    ensures coin.Valid() && ok == ChunkSucceeds(coin.node, s0, cold, total, attempts, i)
    ensures ok ==> && Succeeding(coin.node, s0, coin.ledger.Current(), cold, total, attempts, i + 1)
                   && amount > 0 && Moved(i + 1, coin.node.env.policy.maxTransfer, total) == Moved(i, coin.node.env.policy.maxTransfer, total) + amount
    ensures var k := if ChunkAccepted(coin.node, s0, cold, total, attempts, i) then i + 1 else i;
            && Progress(coin.node, s0, coin.ledger.Current(), cold, k, total)
            && (!ok ==> Outcome(coin.node, s0, coin.ledger.Current(), cold, total, attempts, false, k))
  {
    ghost var s := coin.ledger.Current();
    MovedAmount(i, coin.node.env.policy.maxTransfer, total);
    ok := coin.SubmitTransfer(cold, amount, RETURN_FEE, RETURN_MEMO, attempts(i).now, attempts(i).broadcast);
    if Moves(coin.node, s.ledger, cold, amount, RETURN_FEE, RETURN_MEMO, attempts(i).now) {
      ProgressStep(coin.node, s0, s, cold, i, total, amount, attempts(i).now);
    }
    if !ok {
      OutcomeFails(coin.node, s0, s, coin.ledger.Current(), cold, total, attempts, i);
    }
  }

  /** What `enforce_cap` leaves behind: nothing changes unless a cold wallet is set and the hot
  balance exceeds the cache; otherwise some whole chunks of the excess went to the cold wallet,
  and on success exactly ceil(excess / chunk) of them. */
  ghost predicate CapEnforced(n: Node, config: Config, s0: State, s: State, ok: bool, transfers: nat) {
    var balance, chunk := AccountOf(s0.ledger.accounts, n.localAddress).balance, n.env.policy.maxTransfer;
    if balance <= config.maxCache || config.coldWallet.None? then ok && transfers == 0 && s == s0
    else
      var excess := balance - config.maxCache;
      && AfterChunks(s0, s, n.localAddress, config.coldWallet.value, transfers, Moved(transfers, chunk, excess))
      && ChunksLogged(s0, s, n.localAddress, config.coldWallet.value, transfers, chunk, excess)
      && (transfers > 0 ==> (transfers - 1) * chunk < excess)
      && (ok ==> excess <= transfers * chunk)
  }

  /** `enforce_cap` returns the excess, if there is one and a cold wallet to return it to. */
  ghost predicate CapOutcome(n: Node, config: Config, s0: State, s: State, attempts: nat -> Attempt, ok: bool, transfers: nat) {
    var balance := AccountOf(s0.ledger.accounts, n.localAddress).balance;
    if balance > config.maxCache && config.coldWallet.Some?
    then Returned(n, s0, s, config.coldWallet.value, balance - config.maxCache, attempts, ok, transfers)
    else ok && transfers == 0 && s == s0
  }

  method EnforceCap(coin: CoinNode, config: Config, attempts: nat -> Attempt) returns (ok: bool, ghost transfers: nat)
    requires coin.Valid()
    modifies coin.ledger
    ensures coin.Valid()
    ensures CapOutcome(coin.node, config, old(coin.ledger.Current()), coin.ledger.Current(), attempts, ok, transfers)
  {
    var acc := coin.ledger.AccountState(coin.node.localAddress);
    transfers, ok := 0, true;
    if acc.balance > config.maxCache && config.coldWallet.Some? {
      ok, transfers := ReturnExcess(coin, config.coldWallet.value, acc.balance - config.maxCache, attempts);
    }
  }

  /** Below the largest cap, that is whole chunks with consecutive nonces and nothing else. */
  lemma OutcomeEnforcesCap(n: Node, config: Config, s0: State, s: State, attempts: nat -> Attempt, ok: bool, transfers: nat)
    requires n.env.policy.maxBalance < U64_MAX && CapOutcome(n, config, s0, s, attempts, ok, transfers)
    ensures CapEnforced(n, config, s0, s, ok, transfers)
  {
    var balance := AccountOf(s0.ledger.accounts, n.localAddress).balance;
    if balance > config.maxCache && config.coldWallet.Some? {
      CapFromProgress(n, config, s0, s, ok, transfers);
    }
  }

  lemma CapFromProgress(n: Node, config: Config, s0: State, s: State, ok: bool, transfers: nat)
    requires n.env.policy.maxBalance < U64_MAX && config.coldWallet.Some?
    requires AccountOf(s0.ledger.accounts, n.localAddress).balance > config.maxCache
    requires var excess := AccountOf(s0.ledger.accounts, n.localAddress).balance - config.maxCache;
             && Progress(n, s0, s, config.coldWallet.value, transfers, excess)
             && (ok ==> Moved(transfers, n.env.policy.maxTransfer, excess) == excess)
    ensures CapEnforced(n, config, s0, s, ok, transfers)
  {}

  /** On success the hot wallet ends below its cache limit by exactly the fees paid, and the
  cold wallet has gained exactly the excess. */
  lemma SuccessfulReturn(n: Node, config: Config, s0: State, s: State, transfers: nat)
    requires CapEnforced(n, config, s0, s, true, transfers)
    requires config.coldWallet.Some? && AccountOf(s0.ledger.accounts, n.localAddress).balance > config.maxCache
    ensures var excess := AccountOf(s0.ledger.accounts, n.localAddress).balance - config.maxCache;
            var c0, c := AccountOf(s0.ledger.accounts, config.coldWallet.value), AccountOf(s.ledger.accounts, config.coldWallet.value);
            && n.env.policy.maxTransfer > 0
            && transfers == (excess + n.env.policy.maxTransfer - 1) / n.env.policy.maxTransfer
            && AccountOf(s.ledger.accounts, n.localAddress).balance == config.maxCache - RETURN_FEE * transfers
            && c.balance + c.pending == c0.balance + c0.pending + excess
            && |s.journal.order| == |s0.journal.order| + transfers
  {
    var excess := AccountOf(s0.ledger.accounts, n.localAddress).balance - config.maxCache;
    CeilingQuotient(transfers, n.env.policy.maxTransfer, excess);
  }

  lemma CeilingQuotient(k: nat, chunk: nat, total: nat)
    requires 0 < total <= k * chunk && (k > 0 ==> (k - 1) * chunk < total)
    ensures chunk > 0 && k == (total + chunk - 1) / chunk
  {
    assert chunk > 0 && k > 0;
    var r := total + chunk - 1 - k * chunk;
    assert (k - 1) * chunk == k * chunk - chunk;
    assert total + chunk - 1 == k * chunk + r && 0 <= r < chunk;
    DivideExactly(k, chunk, r);
  }

  lemma DivideExactly(q: nat, d: nat, r: nat)
    requires r < d
    ensures (q * d + r) / d == q
  {
    var n := q * d + r;
    var q' := n / d;
    assert n == d * q' + n % d;
    if q' < q {
      MultiplyMonotone(q' + 1, q, d);
    } else if q < q' {
      MultiplyMonotone(q + 1, q', d);
    }
  }

  lemma MultiplyMonotone(a: nat, b: nat, d: nat)
    requires a <= b
    ensures a * d <= b * d && d * (a - 1) == a * d - d && d * b == b * d
  {
    assert b * d - a * d == (b - a) * d;
  }
}
