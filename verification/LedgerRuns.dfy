/** What follows for whole runs of the ledger: conservation, exact arithmetic, dense nonces,
the hourly bound, and confirmation that is never refused and never depends on message order. */
module LedgerRuns {
  import opened Words
  import opened Sums
  import opened Settlement
  import opened VelocityBounds
  import opened Ledger
  import opened LedgerReplay

  // ---------------------------------------------------------- conservation

  ghost function Held(accounts: map<Address, Account>): Address -> int {
    (a: Address) => AccountOf(accounts, a).balance + AccountOf(accounts, a).pending
  }

  /** Everything that any account holds, confirmed or pending. */
  ghost function Holdings(accounts: map<Address, Account>): int {
    SumOver(accounts.Keys, Held(accounts))
  }

  lemma HoldingsPut(accounts: map<Address, Account>, a: Address, acc: Account)
    ensures var before := AccountOf(accounts, a);
            Holdings(accounts[a := acc]) == Holdings(accounts) - (before.balance + before.pending) + (acc.balance + acc.pending)
  {
    var accounts' := accounts[a := acc];
    if a in accounts {
      assert accounts'.Keys == accounts.Keys;
      SumChange(accounts.Keys, Held(accounts), Held(accounts'), a);
    } else {
      assert accounts'.Keys == accounts.Keys + {a};
      SumInsert(accounts.Keys, Held(accounts'), a);
      SumCongruent(accounts.Keys, Held(accounts), Held(accounts'));
    }
  }

  /** All money that exists came from an accepted credit; fees are the only thing that leaves. */
  ghost predicate Conserved(s: State) {
    Holdings(s.ledger.accounts) + Total(s.ledger.transactions, FeePart()) == TotalCredits(s.journal.credits)
  }

  lemma CommitAccounts(l: Ledger, tx: Transaction)
    requires tx.from != tx.to && tx.amount + tx.fee <= U64_MAX
    ensures var sender := Debit(AccountOf(l.accounts, tx.from), tx.amount + tx.fee);
            var receiver := Receive(AccountOf(l.accounts, tx.to), tx.amount, tx.Confirmed());
            Commit(l, tx).accounts == l.accounts[tx.from := sender][tx.to := receiver]
  {}

  lemma HoldingsAfterTransfer(accounts: map<Address, Account>, tx: Transaction)
    requires tx.from != tx.to && tx.amount + tx.fee <= AccountOf(accounts, tx.from).balance
    requires AccountOf(accounts, tx.to).balance + AccountOf(accounts, tx.to).pending + tx.amount <= U64_MAX
    ensures var sender := Debit(AccountOf(accounts, tx.from), tx.amount + tx.fee);
            var receiver := Receive(AccountOf(accounts, tx.to), tx.amount, tx.Confirmed());
            Holdings(accounts[tx.from := sender][tx.to := receiver]) == Holdings(accounts) - tx.fee
  {
    var sender := Debit(AccountOf(accounts, tx.from), tx.amount + tx.fee);
    HoldingsPut(accounts, tx.from, sender);
    HoldingsPut(accounts[tx.from := sender], tx.to, Receive(AccountOf(accounts, tx.to), tx.amount, tx.Confirmed()));
  }

  lemma CommitConserves(env: Env, s: State, tx: Transaction)
    requires env.policy.maxBalance < U64_MAX && Conserved(s)
    requires Decide(env, s.ledger, tx) == Accepted
    ensures Conserved(Step(env, s, ApplyOp(tx)))
  {
    var receiver := AccountOf(s.ledger.accounts, tx.to);
    CapRoom(env.policy, receiver.balance, receiver.pending, tx.amount);
    CommitAccounts(s.ledger, tx);
    HoldingsAfterTransfer(s.ledger.accounts, tx);
    TotalInsert(s.ledger.transactions, tx.id, tx, FeePart());
  }

  lemma HoldingsAfterConfirm(accounts: map<Address, Account>, to: Address, amount: u64)
    requires amount <= AccountOf(accounts, to).pending && AccountOf(accounts, to).balance + AccountOf(accounts, to).pending <= U64_MAX
    ensures Holdings(Update(accounts, to, acc => Confirm(acc, amount))) == Holdings(accounts)
  {
    HoldingsPut(accounts, to, Confirm(AccountOf(accounts, to), amount));
  }

  lemma HoldingsAfterWitness(env: Env, s: State, id: TxId, peer: PeerId)
    requires Replays(s) && WithinCap(env, s) && DecideWitness(env, s.ledger, id, peer) == Updated
    ensures Holdings(Witness(env, s.ledger, id, peer).accounts) == Holdings(s.ledger.accounts)
  {
    var tx := s.ledger.transactions[id];
    if |tx.witnesses| == 2 {
      var acc := AccountOf(s.ledger.accounts, tx.to);
      assert tx.amount <= acc.pending && acc.balance + acc.pending <= U64_MAX by {
        assert ReplaysAt(s, tx.to) && CapAt(env, s, tx.to);
        PendingCovers(s, id);
      }
      HoldingsAfterConfirm(s.ledger.accounts, tx.to, tx.amount);
    }
  }

  lemma WitnessConserves(env: Env, s: State, id: TxId, peer: PeerId)
    requires Replays(s) && WithinCap(env, s) && Conserved(s)
    ensures Conserved(Step(env, s, WitnessOp(id, peer)))
  {
    if DecideWitness(env, s.ledger, id, peer) == Updated {
      var tx := s.ledger.transactions[id];
      assert Holdings(Witness(env, s.ledger, id, peer).accounts) == Holdings(s.ledger.accounts) by {
        HoldingsAfterWitness(env, s, id, peer);
      }
      TotalReplace(s.ledger.transactions, id, tx.(witnesses := tx.witnesses + {peer}), FeePart());
    }
  }

  lemma CreditConserves(env: Env, s: State, a: Address, amount: u64)
    requires env.policy.maxBalance < U64_MAX && Conserved(s)
    ensures Conserved(CreditStep(env, s, a, amount))
  {
    if CreditAllowed(env, s.ledger, a, amount) {
      var acc := AccountOf(s.ledger.accounts, a);
      CapRoom(env.policy, acc.balance, acc.pending, amount);
      HoldingsPut(s.ledger.accounts, a, acc.(balance := WrapAdd(acc.balance, amount)));
      assert CreditStep(env, s, a, amount).journal.credits[..|s.journal.credits|] == s.journal.credits;
    }
  }

  lemma StepConserves(env: Env, s: State, op: Op)
    requires env.policy.maxBalance < U64_MAX && Replays(s) && WithinCap(env, s) && Conserved(s)
    ensures Conserved(Step(env, s, op))
  {
    match op
    case ApplyOp(tx) => if Decide(env, s.ledger, tx) == Accepted { CommitConserves(env, s, tx); }
    case WitnessOp(id, peer) => WitnessConserves(env, s, id, peer);
    case CreditOp(a, amount) => CreditConserves(env, s, a, amount);
    case FaucetOp(a) => CreditConserves(env, s, a, 10 * MUON_PER_MXC);
    case MarkRefillOp(_) =>
  }

  /** In every run the holdings and the fees add up to the credits. */
  lemma {:induction false} RunConserves(env: Env, ops: seq<Op>)
    requires env.policy.maxBalance < U64_MAX
    ensures Conserved(Run(env, ops))
    decreases |ops|
  {
    InitialReplays(env);
    if ops != [] {
      var earlier := ops[..|ops| - 1];
      var s, op := Run(env, earlier), ops[|ops| - 1];
      assert Conserved(Step(env, s, op)) by {
        RunConserves(env, earlier);
        RunFromReplays(env, INITIAL, earlier);
        StepConserves(env, s, op);
      }
      assert Run(env, ops) == Step(env, s, op);
    }
  }

  // ------------------------------------------------------ exact arithmetic

  /** The operands an operation is about to combine never wrap, underflow or saturate. */
  ghost predicate ExactAt(env: Env, l: Ledger, op: Op) {
    match op
    case ApplyOp(tx) =>
      Decide(env, l, tx) == Accepted ==>
        && tx.amount + tx.fee <= AccountOf(l.accounts, tx.from).balance
        && AccountOf(l.accounts, tx.to).balance + AccountOf(l.accounts, tx.to).pending + tx.amount <= env.policy.maxBalance
    case WitnessOp(id, peer) =>
      && DecideWitness(env, l, id, peer) != CapRefused
      && (DecideWitness(env, l, id, peer) == Updated && |l.transactions[id].witnesses| == 2 ==>
            var acc, amount := AccountOf(l.accounts, l.transactions[id].to), l.transactions[id].amount;
            && amount <= acc.pending
            && acc.balance + amount <= env.policy.maxBalance)
    case CreditOp(a, amount) =>
      CreditAllowed(env, l, a, amount) ==> AccountOf(l.accounts, a).balance + amount <= env.policy.maxBalance
    case FaucetOp(a) =>
      CreditAllowed(env, l, a, 10 * MUON_PER_MXC) ==> AccountOf(l.accounts, a).balance + 10 * MUON_PER_MXC <= env.policy.maxBalance
    case MarkRefillOp(_) => true
  }

  /** In every reachable state no field wraps, `saturating_sub` is exact, and the cap
  re-check at confirmation never refuses. */
  lemma ReachableIsExact(env: Env, ops: seq<Op>, op: Op)
    requires env.policy.maxBalance < U64_MAX
    ensures ExactAt(env, Run(env, ops).ledger, op)
    ensures WithinCap(env, Run(env, ops))
  {
    InitialReplays(env);
    RunFromReplays(env, INITIAL, ops);
    var s := Run(env, ops);
    match op
    case ApplyOp(tx) =>
    case WitnessOp(id, peer) =>
      if id in s.ledger.transactions {
        var to := s.ledger.transactions[id].to;
        assert ReplaysAt(s, to) && CapAt(env, s, to);
        if !s.ledger.transactions[id].Confirmed() {
          PendingCovers(s, id);
        }
      }
    case CreditOp(a, amount) =>
    case FaucetOp(_) =>
    case MarkRefillOp(_) =>
  }

  // --------------------------------------------------------- dense nonces

  /** The transaction with nonce `i` is the sender's `i`-th one, and conversely. */
  lemma NonceIsPosition(s: State, a: Address)
    requires LogMatches(s) && NoncesReplay(s, a) && |s.journal.order| < U64_MOD
    ensures var txs := s.ledger.transactions;
            var sent := SentBy(txs, s.journal.order, a);
            && AccountOf(s.ledger.accounts, a).nextNonce == |sent|
            && (forall i :: 0 <= i < |sent| ==> sent[i] in txs && txs[sent[i]].from == a && txs[sent[i]].nonce == i)
            && (forall id :: id in txs && txs[id].from == a ==> txs[id].nonce < |sent| && sent[txs[id].nonce] == id)
  {
    var txs := s.ledger.transactions;
    var sent := SentBy(txs, s.journal.order, a);
    SentByStored(txs, s.journal.order, a);
    NonceExact(|sent|);
    forall i | 0 <= i < |sent|
      ensures sent[i] in txs && txs[sent[i]].from == a && txs[sent[i]].nonce == i
    {
      assert sent[i] in sent;
      NonceExact(i);
    }
    forall id | id in txs && txs[id].from == a
      ensures txs[id].nonce < |sent| && sent[txs[id].nonce] == id
    {
      assert id in sent;
    }
  }

  function NoncesOf(txs: map<TxId, Transaction>, a: Address): set<int> {
    set id | id in txs && txs[id].from == a :: txs[id].nonce
  }

  /** While fewer than 2^64 transactions are stored, the nonces stored for a sender are
  0, 1, ..., next_nonce - 1, each exactly once. */
  lemma NoncesDense(env: Env, ops: seq<Op>, a: Address)
    requires env.policy.maxBalance < U64_MAX
    requires |Run(env, ops).journal.order| < U64_MOD
    ensures var s := Run(env, ops);
            forall n :: n in NoncesOf(s.ledger.transactions, a) <==> 0 <= n < AccountOf(s.ledger.accounts, a).nextNonce
    ensures var txs := Run(env, ops).ledger.transactions;
            forall id, id' :: id in txs && id' in txs && txs[id].from == a == txs[id'].from && txs[id].nonce == txs[id'].nonce ==> id == id'
  {
    InitialReplays(env);
    RunFromReplays(env, INITIAL, ops);
    var s := Run(env, ops);
    assert ReplaysAt(s, a);
    NonceIsPosition(s, a);
    var sent := SentBy(s.ledger.transactions, s.journal.order, a);
    forall n: int | 0 <= n < AccountOf(s.ledger.accounts, a).nextNonce
      ensures n in NoncesOf(s.ledger.transactions, a)
    {
      assert sent[n] in s.ledger.transactions;
    }
  }

  // --------------------------------------------------------- hourly bound

  lemma PossiblePush(p: Policy, history: seq<Event>, e: Event)
    requires Possible(p, history) && TransferAmountOk(p, e.amount)
    requires VelocityVerdict(p, LastStored(history), e.timestamp, e.amount) == Pass
    ensures Possible(p, history + [e])
  {
    AdmittedPush(p, history, e);
  }

  lemma CommitPossible(env: Env, s: State, tx: Transaction, a: Address)
    requires LogMatches(s) && VelocityReplays(s, a) && Decide(env, s.ledger, tx) == Accepted
    requires Possible(env.policy, History(s.ledger.transactions, s.journal.order, a))
    ensures Possible(env.policy, History(s.ledger.transactions[tx.id := tx], s.journal.order + [tx.id], a))
  {
    var history := History(s.ledger.transactions, s.journal.order, a);
    HistoryPush(s.ledger.transactions, s.journal.order, a, tx);
    if tx.from == a {
      PossiblePush(env.policy, history, Event(tx.timestamp, tx.amount));
    } else {
      assert history + [] == history;
    }
  }

  lemma StepPossible(env: Env, s: State, op: Op, a: Address)
    requires Replays(s)
    requires Possible(env.policy, History(s.ledger.transactions, s.journal.order, a))
    ensures var s' := Step(env, s, op);
            Possible(env.policy, History(s'.ledger.transactions, s'.journal.order, a))
  {
    match op
    case ApplyOp(tx) =>
      if Decide(env, s.ledger, tx) == Accepted {
        assert ReplaysAt(s, a);
        CommitPossible(env, s, tx, a);
      }
    case WitnessOp(id, peer) => WitnessKeepsHistory(env, s, id, peer, a);
    case CreditOp(_, _) =>
    case FaucetOp(_) =>
    case MarkRefillOp(_) =>
  }

  lemma WitnessKeepsHistory(env: Env, s: State, id: TxId, peer: PeerId, a: Address)
    ensures History(s.ledger.transactions, s.journal.order, a) ==
            History(Step(env, s, WitnessOp(id, peer)).ledger.transactions, s.journal.order, a)
  {
    var s' := Step(env, s, WitnessOp(id, peer));
    SentBySameSenders(s.ledger.transactions, s'.ledger.transactions, s.journal.order, a);
    SentByStored(s.ledger.transactions, s.journal.order, a);
  }

  /** What the ledger holds for a sender has passed the amount check and the velocity check. */
  lemma {:induction false} RunPossible(env: Env, ops: seq<Op>, a: Address)
    requires env.policy.maxBalance < U64_MAX
    ensures var s := Run(env, ops); Possible(env.policy, History(s.ledger.transactions, s.journal.order, a))
    decreases |ops|
  {
    if ops != [] {
      RunPossible(env, ops[..|ops| - 1], a);
      InitialReplays(env);
      RunFromReplays(env, INITIAL, ops[..|ops| - 1]);
      StepPossible(env, Run(env, ops[..|ops| - 1]), ops[|ops| - 1], a);
    }
  }

  /** In every run a sender keeps the hourly count and the hourly amount in every closed hour: always
  if one of these limits is at most one, and with nondecreasing timestamps if one is at most 64. */
  lemma RunHourlyBound(env: Env, ops: seq<Op>, a: Address, start: int)
    requires env.policy.maxBalance < U64_MAX
    requires || Solitary(env.policy)
             || (Enforceable(env.policy) && Chronological(History(Run(env, ops).ledger.transactions, Run(env, ops).journal.order, a)))
    ensures var s := Run(env, ops); HourKept(env.policy, History(s.ledger.transactions, s.journal.order, a), start)
  {
    var s := Run(env, ops);
    var history := History(s.ledger.transactions, s.journal.order, a);
    RunPossible(env, ops, a);
    if Solitary(env.policy) {
      SolitaryForcesOrder(env.policy, history);
    }
    HourlyBound(env.policy, history, start);
  }

  // ---------------------------------------------- witness order is immaterial

  ghost predicate OnlyWitnesses(ops: seq<Op>) {
    forall op :: op in ops ==> op.WitnessOp?
  }

  /** The log after a set of witness statements: every stored transaction has gained exactly
  the peers that spoke for it. */
  ghost function Witnessed(txs: map<TxId, Transaction>, ops: seq<Op>): map<TxId, Transaction> {
    map id | id in txs :: txs[id].(witnesses := txs[id].witnesses + WitnessesFor(ops, id))
  }

  function WitnessesFor(ops: seq<Op>, id: TxId): set<PeerId> {
    set op | op in ops && op.WitnessOp? && op.id == id :: op.peer
  }

  lemma NeverRefused(env: Env, s: State, id: TxId, peer: PeerId)
    requires Replays(s) && WithinCap(env, s)
    ensures DecideWitness(env, s.ledger, id, peer) != CapRefused
  {
    if id in s.ledger.transactions && |s.ledger.transactions[id].witnesses| == 2 && peer !in s.ledger.transactions[id].witnesses {
      assert CapAt(env, s, s.ledger.transactions[id].to);
      ConfirmationRefusedIff(env, s, id, peer);
    }
  }

  lemma {:induction false} WitnessesReplay(env: Env, s: State, ops: seq<Op>)
    requires Replays(s) && WithinCap(env, s) && OnlyWitnesses(ops)
    ensures Replays(RunFrom(env, s, ops)) && WithinCap(env, RunFrom(env, s, ops))
    decreases |ops|
  {
    if ops != [] {
      var op := ops[|ops| - 1];
      WitnessesReplay(env, s, ops[..|ops| - 1]);
      assert op in ops;
      WitnessReplays(env, RunFrom(env, s, ops[..|ops| - 1]), op.id, op.peer);
    }
  }

  /** What a sequence of witness messages may change, and to what. */
  ghost predicate OnlyWitnessed(s: State, s': State, ops: seq<Op>) {
    && s'.ledger.transactions == Witnessed(s.ledger.transactions, ops)
    && s'.journal == s.journal
    && s'.ledger.accounts.Keys == s.ledger.accounts.Keys
    && s'.ledger.velocity == s.ledger.velocity
    && s'.ledger.refills == s.ledger.refills
  }

  lemma OneWitness(env: Env, s: State, id: TxId, peer: PeerId)
    requires Replays(s) && WithinCap(env, s)
    ensures var s' := Step(env, s, WitnessOp(id, peer));
            && s' == s.(ledger := s'.ledger)
            && s'.ledger == s.ledger.(transactions := s'.ledger.transactions, accounts := s'.ledger.accounts)
            && s'.ledger.accounts.Keys == s.ledger.accounts.Keys
            && (id !in s.ledger.transactions ==> s'.ledger.transactions == s.ledger.transactions)
            && (id in s.ledger.transactions ==>
                  var tx := s.ledger.transactions[id];
                  s'.ledger.transactions == s.ledger.transactions[id := tx.(witnesses := tx.witnesses + {peer})])
  {
    NeverRefused(env, s, id, peer);
    if id in s.ledger.transactions && peer in s.ledger.transactions[id].witnesses {
      var w := s.ledger.transactions[id].witnesses;
      assert w + {peer} == w;
    }
  }

  lemma {:induction false} WitnessesLog(env: Env, s: State, ops: seq<Op>)
    requires Replays(s) && WithinCap(env, s) && OnlyWitnesses(ops)
    ensures OnlyWitnessed(s, RunFrom(env, s, ops), ops)
    decreases |ops|
  {
    if ops == [] {
      NoWitness(s.ledger.transactions);
    } else {
      var earlier, op := ops[..|ops| - 1], ops[|ops| - 1];
      assert op in ops && ops == earlier + [op];
      WitnessesLog(env, s, earlier);
      WitnessesReplay(env, s, earlier);
      OneWitness(env, RunFrom(env, s, earlier), op.id, op.peer);
      WitnessedPush(s.ledger.transactions, earlier, op);
    }
  }

  lemma NoWitness(txs: map<TxId, Transaction>)
    ensures Witnessed(txs, []) == txs
  {
    forall id | id in txs
      ensures txs[id].witnesses + WitnessesFor([], id) == txs[id].witnesses
    {}
  }

  lemma WitnessesForPush(ops: seq<Op>, op: Op, id: TxId)
    requires op.WitnessOp?
    ensures op.id == id ==> WitnessesFor(ops + [op], id) == WitnessesFor(ops, id) + {op.peer}
    ensures op.id != id ==> WitnessesFor(ops + [op], id) == WitnessesFor(ops, id)
  {
    var all := ops + [op];
    assert op in all;
    forall p | p in WitnessesFor(ops, id)
      ensures p in WitnessesFor(all, id)
    {
      var o :| o in ops && o.WitnessOp? && o.id == id && o.peer == p;
      assert o in all;
    }
  }

  lemma WitnessedAt(txs: map<TxId, Transaction>, ops: seq<Op>, op: Op, id: TxId)
    requires op.WitnessOp? && id in txs
    ensures var (before, after) := (Witnessed(txs, ops)[id], Witnessed(txs, ops + [op])[id]);
            after == if op.id == id then before.(witnesses := before.witnesses + {op.peer}) else before
  {
    WitnessesForPush(ops, op, id);
    var w := txs[id].witnesses;
    assert w + (WitnessesFor(ops, id) + {op.peer}) == w + WitnessesFor(ops, id) + {op.peer};
  }

  lemma WitnessedPush(txs: map<TxId, Transaction>, ops: seq<Op>, op: Op)
    requires op.WitnessOp?
    ensures op.id !in txs ==> Witnessed(txs, ops + [op]) == Witnessed(txs, ops)
    ensures op.id in txs ==>
              var tx := Witnessed(txs, ops)[op.id];
              Witnessed(txs, ops + [op]) == Witnessed(txs, ops)[op.id := tx.(witnesses := tx.witnesses + {op.peer})]
  {
    var before, after := Witnessed(txs, ops), Witnessed(txs, ops + [op]);
    forall id | id in txs
      ensures after[id] == if op.id == id then before[id].(witnesses := before[id].witnesses + {op.peer}) else before[id]
    {
      WitnessedAt(txs, ops, op, id);
    }
  }

  /** The account table holds nothing beyond what the log and the journal say. */
  lemma AccountsDetermined(s: State, s': State)
    requires Replays(s) && Replays(s') && s.ledger.accounts.Keys == s'.ledger.accounts.Keys
    requires s.journal == s'.journal && s.ledger.transactions == s'.ledger.transactions
    ensures s.ledger.accounts == s'.ledger.accounts
  {
    forall a | a in s.ledger.accounts
      ensures s.ledger.accounts[a] == s'.ledger.accounts[a]
    {
      assert ReplaysAt(s, a) && ReplaysAt(s', a);
    }
  }

  lemma WitnessedDepends(txs: map<TxId, Transaction>, ops: seq<Op>, ops': seq<Op>)
    requires forall id :: id in txs ==> WitnessesFor(ops, id) == WitnessesFor(ops', id)
    ensures Witnessed(txs, ops) == Witnessed(txs, ops')
  {}

  /** Two sequences of witness messages that say the same about the stored transactions
  leave the same ledger behind, whatever their order and however often they repeat. */
  lemma WitnessOrderIrrelevant(env: Env, s: State, ops: seq<Op>, ops': seq<Op>)
    requires Replays(s) && WithinCap(env, s) && OnlyWitnesses(ops) && OnlyWitnesses(ops')
    requires forall id :: id in s.ledger.transactions ==> WitnessesFor(ops, id) == WitnessesFor(ops', id)
    ensures RunFrom(env, s, ops) == RunFrom(env, s, ops')
  {
    WitnessesLog(env, s, ops);
    WitnessesLog(env, s, ops');
    WitnessesReplay(env, s, ops);
    WitnessesReplay(env, s, ops');
    WitnessedDepends(s.ledger.transactions, ops, ops');
    AccountsDetermined(RunFrom(env, s, ops), RunFrom(env, s, ops'));
  }
}
