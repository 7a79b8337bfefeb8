/** The account table is a replay of the log.

In every run, balances, pending amounts, nonces and velocity windows are exactly what the
stored transactions and the accepted credits add up to.
*/
module LedgerReplay {
  import opened Words
  import opened Sums
  import opened Settlement
  import opened Ledger

  // ---------------------------------------------------- totals over the log

  /** The sum of `f` over the stored transactions. */
  ghost function Total(txs: map<TxId, Transaction>, f: Transaction -> int): int {
    SumOver(txs.Keys, (id: TxId) => if id in txs then f(txs[id]) else 0)
  }

  lemma TotalInsert(txs: map<TxId, Transaction>, id: TxId, tx: Transaction, f: Transaction -> int)
    requires id !in txs
    ensures Total(txs[id := tx], f) == Total(txs, f) + f(tx)
  {
    var txs' := txs[id := tx];
    var before := (k: TxId) => if k in txs then f(txs[k]) else 0;
    var after := (k: TxId) => if k in txs' then f(txs'[k]) else 0;
    assert txs'.Keys == txs.Keys + {id};
    SumInsert(txs.Keys, after, id);
    SumCongruent(txs.Keys, before, after);
  }

  lemma TotalReplace(txs: map<TxId, Transaction>, id: TxId, tx: Transaction, f: Transaction -> int)
    requires id in txs
    ensures Total(txs[id := tx], f) == Total(txs, f) - f(txs[id]) + f(tx)
  {
    var txs' := txs[id := tx];
    var before := (k: TxId) => if k in txs then f(txs[k]) else 0;
    var after := (k: TxId) => if k in txs' then f(txs'[k]) else 0;
    assert txs'.Keys == txs.Keys;
    SumChange(txs.Keys, before, after, id);
  }

  lemma TotalAtLeast(txs: map<TxId, Transaction>, id: TxId, f: Transaction -> int)
    requires id in txs && forall tx :: f(tx) >= 0
    ensures Total(txs, f) >= f(txs[id])
  {
    SumNonNegative(txs.Keys, (k: TxId) => if k in txs then f(txs[k]) else 0);
  }

  ghost function ConfirmedPart(a: Address): Transaction -> int {
    (tx: Transaction) => if tx.to == a && tx.Confirmed() then tx.amount else 0
  }

  ghost function PendingPart(a: Address): Transaction -> int {
    (tx: Transaction) => if tx.to == a && !tx.Confirmed() then tx.amount else 0
  }

  ghost function SentPart(a: Address): Transaction -> int {
    (tx: Transaction) => if tx.from == a then tx.amount + tx.fee else 0
  }

  ghost function FeePart(): Transaction -> int {
    (tx: Transaction) => tx.fee
  }

  function CreditedTo(credits: seq<CreditEntry>, a: Address): nat {
    if credits == [] then 0 else
      CreditedTo(credits[..|credits| - 1], a) +
      (if credits[|credits| - 1].to == a then credits[|credits| - 1].amount else 0)
  }

  function TotalCredits(credits: seq<CreditEntry>): nat {
    if credits == [] then 0 else TotalCredits(credits[..|credits| - 1]) + credits[|credits| - 1].amount
  }

  /** The ids of the transactions sent by `a`, in the order they were accepted. */
  function SentBy(txs: map<TxId, Transaction>, order: seq<TxId>, a: Address): seq<TxId> {
    if order == [] then [] else
      var last := order[|order| - 1];
      SentBy(txs, order[..|order| - 1], a) + (if last in txs && txs[last].from == a then [last] else [])
  }

  lemma {:induction false} SentByStored(txs: map<TxId, Transaction>, order: seq<TxId>, a: Address)
    ensures forall id :: id in SentBy(txs, order, a) <==> id in order && id in txs && txs[id].from == a
    ensures |SentBy(txs, order, a)| <= |order|
    decreases |order|
  {
    if order != [] {
      SentByStored(txs, order[..|order| - 1], a);
      assert order == order[..|order| - 1] + [order[|order| - 1]];
    }
  }

  /** The outbound history of `a` as the velocity tracker would have seen it. */
  function EventsOf(txs: map<TxId, Transaction>, ids: seq<TxId>): (r: seq<Event>)
    requires forall id :: id in ids ==> id in txs
    ensures |r| == |ids|
  {
    seq(|ids|, i requires 0 <= i < |ids| => assert ids[i] in ids; Event(txs[ids[i]].timestamp, txs[ids[i]].amount))
  }

  function History(txs: map<TxId, Transaction>, order: seq<TxId>, a: Address): seq<Event> {
    SentByStored(txs, order, a);
    EventsOf(txs, SentBy(txs, order, a))
  }

  // -------------------------------------------------------- the invariant

  ghost predicate LogMatches(s: State) {
    && (forall id :: id in s.ledger.transactions <==> id in s.journal.order)
    && (forall i, j :: 0 <= i < j < |s.journal.order| ==> s.journal.order[i] != s.journal.order[j])
    && (forall id :: id in s.ledger.transactions ==>
          && s.ledger.transactions[id].id == id
          && s.ledger.transactions[id].from in s.ledger.accounts
          && s.ledger.transactions[id].to in s.ledger.accounts)
  }

  ghost predicate MoneyReplays(s: State, a: Address) {
    var acc, txs := AccountOf(s.ledger.accounts, a), s.ledger.transactions;
    && acc.balance == CreditedTo(s.journal.credits, a) + Total(txs, ConfirmedPart(a)) - Total(txs, SentPart(a))
    && acc.pending == Total(txs, PendingPart(a))
  }

  /** The nonce of the transfer that comes after `i` others of the same sender. */
  function NonceAfter(i: nat): u64 {
    if i == 0 then 0 else WrapAdd(NonceAfter(i - 1), 1)
  }

  lemma {:induction false} NonceExact(i: nat)
    requires i < U64_MOD
    ensures NonceAfter(i) == i
    decreases i
  {
    if i > 0 {
      NonceExact(i - 1);
    }
  }

  ghost predicate NoncesReplay(s: State, a: Address) {
    var sent := SentBy(s.ledger.transactions, s.journal.order, a);
    && AccountOf(s.ledger.accounts, a).nextNonce == NonceAfter(|sent|)
    && (forall i :: 0 <= i < |sent| ==>
          sent[i] in s.ledger.transactions && s.ledger.transactions[sent[i]].nonce == NonceAfter(i))
  }

  ghost predicate VelocityReplays(s: State, a: Address) {
    RecentFor(s.ledger.velocity, a) == LastStored(History(s.ledger.transactions, s.journal.order, a))
  }

  ghost predicate ReplaysAt(s: State, a: Address) {
    MoneyReplays(s, a) && NoncesReplay(s, a) && VelocityReplays(s, a)
  }

  ghost predicate Replays(s: State) {
    LogMatches(s) && forall a :: ReplaysAt(s, a)
  }

  ghost predicate CapAt(env: Env, s: State, a: Address) {
    AccountOf(s.ledger.accounts, a).balance + AccountOf(s.ledger.accounts, a).pending <= env.policy.maxBalance
  }

  ghost predicate WithinCap(env: Env, s: State) {
    forall a :: CapAt(env, s, a)
  }

  // ------------------------------------------------------- apply preserves

  /** Money in one account after an accepted transaction. */
  lemma CommitMoney(l: Ledger, tx: Transaction, a: Address)
    requires tx.amount + tx.fee <= U64_MAX && tx.from != tx.to
    requires tx.amount + tx.fee <= AccountOf(l.accounts, tx.from).balance
    requires AccountOf(l.accounts, tx.to).balance + AccountOf(l.accounts, tx.to).pending + tx.amount <= U64_MAX
    ensures var (acc, acc') := (AccountOf(l.accounts, a), AccountOf(Commit(l, tx).accounts, a));
            && acc'.balance == acc.balance - (if a == tx.from then tx.amount + tx.fee else 0) + (if a == tx.to && tx.Confirmed() then tx.amount else 0)
            && acc'.pending == acc.pending + (if a == tx.to && !tx.Confirmed() then tx.amount else 0)
  {}

  lemma MoneyAfterCommit(s: State, tx: Transaction, a: Address)
    requires tx.id !in s.ledger.transactions && tx.amount + tx.fee <= U64_MAX && tx.from != tx.to
    requires MoneyReplays(s, a)
    requires tx.amount + tx.fee <= AccountOf(s.ledger.accounts, tx.from).balance
    requires AccountOf(s.ledger.accounts, tx.to).balance + AccountOf(s.ledger.accounts, tx.to).pending + tx.amount <= U64_MAX
    ensures MoneyReplays(State(Commit(s.ledger, tx), s.journal.(order := s.journal.order + [tx.id])), a)
  {
    TotalInsert(s.ledger.transactions, tx.id, tx, ConfirmedPart(a));
    TotalInsert(s.ledger.transactions, tx.id, tx, PendingPart(a));
    TotalInsert(s.ledger.transactions, tx.id, tx, SentPart(a));
    CommitMoney(s.ledger, tx, a);
  }

  lemma {:induction false} SentByUnrelated(txs: map<TxId, Transaction>, order: seq<TxId>, a: Address, id: TxId, tx: Transaction)
    requires id !in order
    ensures SentBy(txs[id := tx], order, a) == SentBy(txs, order, a)
    decreases |order|
  {
    if order != [] {
      SentByUnrelated(txs, order[..|order| - 1], a, id, tx);
    }
  }

  lemma SentByPush(txs: map<TxId, Transaction>, order: seq<TxId>, a: Address, tx: Transaction)
    requires tx.id !in order
    ensures SentBy(txs[tx.id := tx], order + [tx.id], a) ==
            SentBy(txs, order, a) + (if tx.from == a then [tx.id] else [])
  {
    assert (order + [tx.id])[..|order|] == order;
    SentByUnrelated(txs, order, a, tx.id, tx);
  }

  lemma CommitNonce(l: Ledger, tx: Transaction, a: Address)
    requires tx.amount + tx.fee <= U64_MAX && tx.from != tx.to
    ensures var (before, after) := (AccountOf(l.accounts, a).nextNonce, AccountOf(Commit(l, tx).accounts, a).nextNonce);
            after == if a == tx.from then WrapAdd(before, 1) else before
  {}

  lemma NoncesAfterCommit(s: State, tx: Transaction, a: Address)
    requires LogMatches(s) && tx.id !in s.ledger.transactions && tx.amount + tx.fee <= U64_MAX && tx.from != tx.to
    requires NoncesReplay(s, a)
    requires tx.nonce == AccountOf(s.ledger.accounts, tx.from).nextNonce
    ensures NoncesReplay(State(Commit(s.ledger, tx), s.journal.(order := s.journal.order + [tx.id])), a)
  {
    var txs, order := s.ledger.transactions, s.journal.order;
    var txs', sent := txs[tx.id := tx], SentBy(txs, order, a);
    CommitNonce(s.ledger, tx, a);
    var sent' := SentBy(txs', order + [tx.id], a);
    assert sent' == sent + (if tx.from == a then [tx.id] else []) by {
      SentByPush(txs, order, a, tx);
    }
    forall i | 0 <= i < |sent'|
      ensures sent'[i] in txs' && txs'[sent'[i]].nonce == NonceAfter(i)
    {
      if i < |sent| {
        assert sent'[i] == sent[i];
      }
    }
  }

  lemma HistoryPush(txs: map<TxId, Transaction>, order: seq<TxId>, a: Address, tx: Transaction)
    requires tx.id !in order && tx.id !in txs
    ensures History(txs[tx.id := tx], order + [tx.id], a) ==
            History(txs, order, a) + (if tx.from == a then [Event(tx.timestamp, tx.amount)] else [])
  {
    SentByPush(txs, order, a, tx);
    SentByStored(txs, order, a);
    SentByStored(txs[tx.id := tx], order + [tx.id], a);
  }

  lemma VelocityAfterCommit(s: State, tx: Transaction, a: Address)
    requires LogMatches(s) && tx.id !in s.ledger.transactions && tx.amount + tx.fee <= U64_MAX
    requires VelocityReplays(s, a)
    ensures VelocityReplays(State(Commit(s.ledger, tx), s.journal.(order := s.journal.order + [tx.id])), a)
  {
    HistoryPush(s.ledger.transactions, s.journal.order, a, tx);
    if a == tx.from {
      LastStoredPush(History(s.ledger.transactions, s.journal.order, a), Event(tx.timestamp, tx.amount));
    }
  }

  lemma LogAfterCommit(s: State, tx: Transaction)
    requires LogMatches(s) && tx.id !in s.ledger.transactions && tx.amount + tx.fee <= U64_MAX
    ensures LogMatches(State(Commit(s.ledger, tx), s.journal.(order := s.journal.order + [tx.id])))
  {}

  lemma CapRoom(p: Policy, balance: u64, pending: u64, incoming: u64)
    requires p.maxBalance < U64_MAX && BalanceCapOk(p, balance, pending, incoming)
    ensures balance + pending + incoming <= p.maxBalance
  {}

  lemma CapAfterCommit(env: Env, s: State, tx: Transaction, a: Address)
    requires env.policy.maxBalance < U64_MAX && CapAt(env, s, a)
    requires Decide(env, s.ledger, tx) == Accepted
    ensures CapAt(env, Step(env, s, ApplyOp(tx)), a)
  {
    var receiver := AccountOf(s.ledger.accounts, tx.to);
    CapRoom(env.policy, receiver.balance, receiver.pending, tx.amount);
  }

  lemma CommitReplays(env: Env, s: State, tx: Transaction)
    requires env.policy.maxBalance < U64_MAX && Replays(s) && WithinCap(env, s)
    requires Decide(env, s.ledger, tx) == Accepted
    ensures Replays(Step(env, s, ApplyOp(tx))) && WithinCap(env, Step(env, s, ApplyOp(tx)))
  {
    var s' := Step(env, s, ApplyOp(tx));
    var receiver := AccountOf(s.ledger.accounts, tx.to);
    CapRoom(env.policy, receiver.balance, receiver.pending, tx.amount);
    LogAfterCommit(s, tx);
    forall a
      ensures CapAt(env, s', a)
    {
      assert CapAt(env, s, a);
      CapAfterCommit(env, s, tx, a);
    }
    forall a
      ensures ReplaysAt(s', a)
    {
      assert ReplaysAt(s, a);
      MoneyAfterCommit(s, tx, a);
      NoncesAfterCommit(s, tx, a);
      VelocityAfterCommit(s, tx, a);
    }
  }

  // ----------------------------------------------------- witness preserves

  lemma {:induction false} SentBySameSenders(txs: map<TxId, Transaction>, txs': map<TxId, Transaction>, order: seq<TxId>, a: Address)
    requires txs.Keys == txs'.Keys && forall id :: id in txs ==> txs[id].from == txs'[id].from
    ensures SentBy(txs, order, a) == SentBy(txs', order, a)
    decreases |order|
  {
    if order != [] {
      SentBySameSenders(txs, txs', order[..|order| - 1], a);
    }
  }

  lemma PendingCovers(s: State, id: TxId)
    requires id in s.ledger.transactions && !s.ledger.transactions[id].Confirmed()
    requires MoneyReplays(s, s.ledger.transactions[id].to)
    ensures AccountOf(s.ledger.accounts, s.ledger.transactions[id].to).pending >= s.ledger.transactions[id].amount
  {
    TotalAtLeast(s.ledger.transactions, id, PendingPart(s.ledger.transactions[id].to));
  }

  /** Confirming is refused exactly when the receiver already exceeds the cap in force. */
  lemma ConfirmationRefusedIff(env: Env, s: State, id: TxId, peer: PeerId)
    requires Replays(s) && id in s.ledger.transactions
    requires peer !in s.ledger.transactions[id].witnesses && |s.ledger.transactions[id].witnesses| == 2
    ensures var acc := AccountOf(s.ledger.accounts, s.ledger.transactions[id].to);
            DecideWitness(env, s.ledger, id, peer) == CapRefused <==>
            acc.balance + acc.pending > env.policy.maxBalance && env.policy.maxBalance < U64_MAX
  {
    assert ReplaysAt(s, s.ledger.transactions[id].to);
    PendingCovers(s, id);
  }

  /** The third witness moves the amount from pending to balance; others move nothing. */
  lemma WitnessAccount(env: Env, s: State, id: TxId, peer: PeerId, a: Address)
    requires DecideWitness(env, s.ledger, id, peer) == Updated
    requires MoneyReplays(s, s.ledger.transactions[id].to)
    requires var acc := AccountOf(s.ledger.accounts, s.ledger.transactions[id].to);
             acc.balance + acc.pending <= U64_MAX
    ensures var (tx, acc) := (s.ledger.transactions[id], AccountOf(s.ledger.accounts, a));
            var moved := if a == tx.to && |tx.witnesses| == 2 then tx.amount else 0;
            && acc.pending >= moved && acc.balance + moved <= U64_MAX
            && AccountOf(Witness(env, s.ledger, id, peer).accounts, a) ==
               acc.(balance := acc.balance + moved, pending := acc.pending - moved)
  {
    if |s.ledger.transactions[id].witnesses| == 2 {
      PendingCovers(s, id);
    }
  }

  lemma MoneyAfterWitness(env: Env, s: State, id: TxId, peer: PeerId, a: Address)
    requires DecideWitness(env, s.ledger, id, peer) == Updated
    requires MoneyReplays(s, a) && MoneyReplays(s, s.ledger.transactions[id].to)
    requires var acc := AccountOf(s.ledger.accounts, s.ledger.transactions[id].to);
             acc.balance + acc.pending <= U64_MAX
    ensures MoneyReplays(Step(env, s, WitnessOp(id, peer)), a)
  {
    var tx := s.ledger.transactions[id];
    var tx' := tx.(witnesses := tx.witnesses + {peer});
    TotalReplace(s.ledger.transactions, id, tx', ConfirmedPart(a));
    TotalReplace(s.ledger.transactions, id, tx', PendingPart(a));
    TotalReplace(s.ledger.transactions, id, tx', SentPart(a));
    WitnessAccount(env, s, id, peer, a);
  }

  /** Witnessing leaves senders, nonces, amounts and times alone. */
  lemma SameButWitnesses(env: Env, l: Ledger, id: TxId, peer: PeerId)
    ensures var (txs, txs') := (l.transactions, Witness(env, l, id, peer).transactions);
            && txs.Keys == txs'.Keys
            && forall k :: k in txs ==> txs'[k] == txs[k].(witnesses := txs'[k].witnesses)
  {}

  lemma NoncesAfterWitness(env: Env, s: State, id: TxId, peer: PeerId, a: Address)
    requires NoncesReplay(s, a)
    ensures NoncesReplay(Step(env, s, WitnessOp(id, peer)), a)
  {
    SameButWitnesses(env, s.ledger, id, peer);
    SentBySameSenders(s.ledger.transactions, Witness(env, s.ledger, id, peer).transactions, s.journal.order, a);
  }

  lemma VelocityAfterWitness(env: Env, s: State, id: TxId, peer: PeerId, a: Address)
    requires VelocityReplays(s, a)
    ensures VelocityReplays(Step(env, s, WitnessOp(id, peer)), a)
  {
    var (txs, txs', order) := (s.ledger.transactions, Witness(env, s.ledger, id, peer).transactions, s.journal.order);
    SameButWitnesses(env, s.ledger, id, peer);
    SentBySameSenders(txs, txs', order, a);
    SentByStored(txs, order, a);
    assert History(txs, order, a) == History(txs', order, a);
  }

  lemma CapAfterWitness(env: Env, s: State, id: TxId, peer: PeerId, a: Address)
    requires DecideWitness(env, s.ledger, id, peer) == Updated && CapAt(env, s, a)
    requires MoneyReplays(s, s.ledger.transactions[id].to)
    ensures CapAt(env, Step(env, s, WitnessOp(id, peer)), a)
  {
    if !s.ledger.transactions[id].Confirmed() {
      PendingCovers(s, id);
    }
  }

  lemma WitnessReplays(env: Env, s: State, id: TxId, peer: PeerId)
    requires Replays(s) && WithinCap(env, s)
    ensures Replays(Step(env, s, WitnessOp(id, peer))) && WithinCap(env, Step(env, s, WitnessOp(id, peer)))
  {
    if DecideWitness(env, s.ledger, id, peer) == Updated {
      var s' := Step(env, s, WitnessOp(id, peer));
      var to := s.ledger.transactions[id].to;
      assert ReplaysAt(s, to) && CapAt(env, s, to);
      forall a
        ensures ReplaysAt(s', a) && CapAt(env, s', a)
      {
        assert ReplaysAt(s, a) && CapAt(env, s, a);
        MoneyAfterWitness(env, s, id, peer, a);
        NoncesAfterWitness(env, s, id, peer, a);
        VelocityAfterWitness(env, s, id, peer, a);
        CapAfterWitness(env, s, id, peer, a);
      }
      LogAfterWitness(env, s, id, peer);
    }
  }

  lemma LogAfterWitness(env: Env, s: State, id: TxId, peer: PeerId)
    requires LogMatches(s)
    ensures LogMatches(Step(env, s, WitnessOp(id, peer)))
  {
    SameButWitnesses(env, s.ledger, id, peer);
    WitnessKeepsAccounts(env, s.ledger, id, peer);
  }

  lemma WitnessKeepsAccounts(env: Env, l: Ledger, id: TxId, peer: PeerId)
    ensures l.accounts.Keys <= Witness(env, l, id, peer).accounts.Keys
  {}

  // ------------------------------------------------------ credit preserves

  lemma CreditReplays(env: Env, s: State, a: Address, amount: u64)
    requires env.policy.maxBalance < U64_MAX && Replays(s) && WithinCap(env, s)
    ensures Replays(CreditStep(env, s, a, amount)) && WithinCap(env, CreditStep(env, s, a, amount))
  {
    if CreditAllowed(env, s.ledger, a, amount) {
      var s' := CreditStep(env, s, a, amount);
      var acc := AccountOf(s.ledger.accounts, a);
      CapRoom(env.policy, acc.balance, acc.pending, amount);
      forall b
        ensures ReplaysAt(s', b) && CapAt(env, s', b)
      {
        assert ReplaysAt(s, b) && CapAt(env, s, b);
        assert s'.journal.credits[..|s.journal.credits|] == s.journal.credits;
      }
    }
  }

  // ------------------------------------------------------------ every run

  lemma StepReplays(env: Env, s: State, op: Op)
    requires env.policy.maxBalance < U64_MAX && Replays(s) && WithinCap(env, s)
    ensures Replays(Step(env, s, op)) && WithinCap(env, Step(env, s, op))
  {
    match op
    case ApplyOp(tx) =>
      if Decide(env, s.ledger, tx) == Accepted {
        CommitReplays(env, s, tx);
      }
    case WitnessOp(id, peer) => WitnessReplays(env, s, id, peer);
    case CreditOp(a, amount) => CreditReplays(env, s, a, amount);
    case FaucetOp(a) => CreditReplays(env, s, a, 10 * MUON_PER_MXC);
    case MarkRefillOp(r) =>
      forall a
        ensures ReplaysAt(Step(env, s, op), a) && CapAt(env, Step(env, s, op), a)
      {
        assert ReplaysAt(s, a) && CapAt(env, s, a);
      }
  }

  lemma InitialReplays(env: Env)
    ensures Replays(INITIAL) && WithinCap(env, INITIAL)
  {
    forall a
      ensures ReplaysAt(INITIAL, a)
    {}
  }

  lemma {:induction false} RunFromReplays(env: Env, s: State, ops: seq<Op>)
    requires env.policy.maxBalance < U64_MAX && Replays(s) && WithinCap(env, s)
    ensures Replays(RunFrom(env, s, ops)) && WithinCap(env, RunFrom(env, s, ops))
    decreases |ops|
  {
    if ops != [] {
      RunFromReplays(env, s, ops[..|ops| - 1]);
      StepReplays(env, RunFrom(env, s, ops[..|ops| - 1]), ops[|ops| - 1]);
    }
  }

  lemma RunPush(env: Env, ops: seq<Op>, op: Op)
    ensures Run(env, ops + [op]) == Step(env, Run(env, ops), op)
  {
    assert (ops + [op])[..|ops|] == ops;
  }

  lemma UncappedCredit(env: Env, s: State, a: Address, amount: u64)
    requires env.policy.maxBalance == U64_MAX
    ensures var (acc, s') := (AccountOf(s.ledger.accounts, a), CreditStep(env, s, a, amount));
            && AccountOf(s'.ledger.accounts, a) == acc.(balance := WrapAdd(acc.balance, amount))
            && CreditedTo(s'.journal.credits, a) == CreditedTo(s.journal.credits, a) + amount
            && s'.ledger.transactions == s.ledger.transactions
  {
    assert (s.journal.credits + [CreditEntry(a, amount)])[..|s.journal.credits|] == s.journal.credits;
  }

  /** With the cap at `U64_MAX` two credits wrap a balance to zero. */
  lemma UncappedWraps(env: Env, a: Address)
    requires env.policy.maxBalance == U64_MAX
    ensures var s := Run(env, [CreditOp(a, U64_MAX)] + [CreditOp(a, 1)]);
            AccountOf(s.ledger.accounts, a).balance == 0 && CreditedTo(s.journal.credits, a) == U64_MOD && !Replays(s)
  {
    var ops := [CreditOp(a, U64_MAX)];
    var s1 := CreditStep(env, INITIAL, a, U64_MAX);
    var s := CreditStep(env, s1, a, 1);
    assert Run(env, ops + [CreditOp(a, 1)]) == s by {
      RunPush(env, [], CreditOp(a, U64_MAX));
      RunPush(env, ops, CreditOp(a, 1));
      assert [] + ops == ops;
    }
    UncappedCredit(env, INITIAL, a, U64_MAX);
    UncappedCredit(env, s1, a, 1);
    assert !MoneyReplays(s, a);
    assert !ReplaysAt(s, a);
  }

  /** Every run's account table is a replay of its log, for every sequence of operations,
  if and only if the policy's balance cap is below `U64_MAX`. */
  lemma ReplayIffCapped(env: Env)
    ensures (forall ops :: Replays(Run(env, ops))) <==> env.policy.maxBalance < U64_MAX
  {
    if env.policy.maxBalance < U64_MAX {
      forall ops
        ensures Replays(Run(env, ops))
      {
        InitialReplays(env);
        RunFromReplays(env, INITIAL, ops);
      }
    } else {
      UncappedWraps(env, "a");
    }
  }
}
