/** What the ledger accepts, refuses and keeps, stated without its own decision functions
(crates/mycelium-coin/src/ledger.rs). */
module LedgerAcceptance {
  import opened Words
  import opened Settlement
  import opened Ledger

  // ----------------------------------------------------------- transactions

  lemma AcceptedIff(env: Env, l: Ledger, tx: Transaction)
    ensures Decide(env, l, tx) == Accepted <==> Acceptable(env, l, tx)
  {}

  /** A transaction changes the ledger if and only if it is acceptable, and then it is stored, its
  sender pays amount and fee, and its receiver gets the amount. */
  lemma ApplyIff(env: Env, s: State, tx: Transaction)
    ensures Step(env, s, ApplyOp(tx)) != s <==> Acceptable(env, s.ledger, tx)
    ensures Acceptable(env, s.ledger, tx) ==>
              var s' := Step(env, s, ApplyOp(tx));
              && s'.ledger.transactions == s.ledger.transactions[tx.id := tx]
              && s'.journal == s.journal.(order := s.journal.order + [tx.id])
              && s'.ledger.refills == s.ledger.refills
  {
    AcceptedIff(env, s.ledger, tx);
  }

  /** The sender's stored transfers from one hour before the transaction on. */
  function HourCount(l: Ledger, tx: Transaction): nat {
    CountIn(RecentFor(l.velocity, tx.from), if tx.timestamp < 3_600_000 then 0 else tx.timestamp - 3_600_000, U64_MAX)
  }

  /** The verdict names the first condition that fails, in this order. */
  lemma VerdictIff(env: Env, l: Ledger, tx: Transaction)
    ensures var (r, sender, receiver) := (Decide(env, l, tx), AccountOf(l.accounts, tx.from), AccountOf(l.accounts, tx.to));
            var unknown := tx.id !in l.transactions;
            var signed := unknown && env.verify(tx);
            var proper := signed && tx.from != tx.to;
            var next := proper && tx.nonce == sender.nextNonce;
            var bounded := next && tx.amount + tx.fee <= U64_MAX;
            var funded := bounded && tx.amount + tx.fee <= sender.balance;
            var brief := funded && (tx.memo.None? || |tx.memo.value| <= 64);
            var allowed := brief && 0 < tx.amount <= env.policy.maxTransfer;
            var small := allowed && env.encodedLength(tx) <= env.policy.maxTxBytes;
            var capped := small && (receiver.balance + receiver.pending + tx.amount <= env.policy.maxBalance || env.policy.maxBalance == U64_MAX);
            && (r == Duplicate <==> !unknown)
            && (r == Invalid(BadSignature) <==> unknown && !signed)
            && (r == Invalid(SelfTransfer) <==> signed && !proper)
            && (r == InvalidNonce(sender.nextNonce, tx.nonce) <==> proper && !next)
            && (r == AmountOverflow <==> next && !bounded)
            && (bounded ==> (r == InsufficientFunds(sender.balance, tx.amount + tx.fee) <==> !funded))
            && (r == Invalid(MemoTooLong) <==> funded && !brief)
            && (r == Invalid(BadAmount) <==> brief && !allowed)
            && (r == Invalid(TooLarge) <==> allowed && !small)
            && (r == Invalid(OverCap) <==> small && !capped)
            && (r == Invalid(OverVelocity(TooManyPerHour)) <==> capped && HourCount(l, tx) >= env.policy.maxTxPerHour)
            && (r == Invalid(OverVelocity(HourlyCapExceeded)) <==> capped && !Acceptable(env, l, tx) && HourCount(l, tx) < env.policy.maxTxPerHour)
  {}

  // ------------------------------------------------------------ other steps

  /** A statement is recorded if and only if the transaction is stored and the peer is new to it, unless
  it is the third and would take the receiver beyond the cap. */
  lemma WitnessIff(env: Env, s: State, id: TxId, peer: PeerId)
    ensures var fresh' := id in s.ledger.transactions && peer !in s.ledger.transactions[id].witnesses;
            var refused := fresh' && |s.ledger.transactions[id].witnesses| == 2 &&
              (var (acc, amount) := (AccountOf(s.ledger.accounts, s.ledger.transactions[id].to), s.ledger.transactions[id].amount);
               acc.balance + Max(acc.pending, amount) > env.policy.maxBalance && env.policy.maxBalance < U64_MAX);
            && (Step(env, s, WitnessOp(id, peer)) != s <==> fresh' && !refused)
            && (DecideWitness(env, s.ledger, id, peer) == Updated <==> fresh' && !refused)
            && (DecideWitness(env, s.ledger, id, peer) == Unchanged <==> !fresh')
  {
    if DecideWitness(env, s.ledger, id, peer) == Updated {
      var s' := Step(env, s, WitnessOp(id, peer));
      assert peer in s'.ledger.transactions[id].witnesses;
    }
  }

  /** A credit happens if and only if the account stays within the cap, or the cap is the largest word. */
  lemma CreditIff(env: Env, s: State, a: Address, amount: u64)
    ensures var acc := AccountOf(s.ledger.accounts, a);
            var fits := acc.balance + acc.pending + amount <= env.policy.maxBalance || env.policy.maxBalance == U64_MAX;
            && (fits ==> Step(env, s, CreditOp(a, amount)).journal.credits == s.journal.credits + [CreditEntry(a, amount)])
            && (!fits ==> Step(env, s, CreditOp(a, amount)) == s)
  {}

  /** The faucet gives ten coins to an account that holds nothing, and nothing to any other. */
  lemma FaucetIff(env: Env, s: State, a: Address)
    ensures var acc := AccountOf(s.ledger.accounts, a);
            var open := acc.balance == 0 && acc.pending == 0 && 10_000_000 <= env.policy.maxBalance;
            && (open ==> Step(env, s, FaucetOp(a)).journal.credits == s.journal.credits + [CreditEntry(a, 10_000_000)])
            && (!open ==> Step(env, s, FaucetOp(a)) == s)
  {}

  // ------------------------------------------------------------- whole runs

  /** The `k`-th operation of the run applied this transaction, and it was acceptable then. */
  ghost predicate AcceptedAt(env: Env, ops: seq<Op>, k: nat, tx: Transaction) {
    k < |ops| && ops[k] == ApplyOp(tx) && Acceptable(env, Run(env, ops[..k]).ledger, tx)
  }

  /** Stored transactions only ever gain witnesses. */
  predicate Grown(tx: Transaction, stored: Transaction) {
    stored == tx.(witnesses := stored.witnesses) && tx.witnesses <= stored.witnesses
  }

  /** The id was stored by an operation of the run. */
  ghost predicate Originates(env: Env, ops: seq<Op>, id: TxId) {
    && id in Run(env, ops).ledger.transactions
    && exists k: nat, tx :: AcceptedAt(env, ops, k, tx) && tx.id == id && Grown(tx, Run(env, ops).ledger.transactions[id])
  }

  lemma RunExtends(env: Env, ops: seq<Op>, earlier: seq<Op>, op: Op)
    requires ops == earlier + [op]
    ensures Run(env, ops) == Step(env, Run(env, earlier), op)
    ensures forall k: nat, tx :: AcceptedAt(env, earlier, k, tx) ==> AcceptedAt(env, ops, k, tx)
  {
    assert ops[..|earlier|] == earlier;
    forall k: nat, tx | AcceptedAt(env, earlier, k, tx)
      ensures AcceptedAt(env, ops, k, tx)
    {
      assert ops[..k] == earlier[..k];
    }
  }

  /** No operation but an accepted transaction adds to the log, and nothing leaves it. */
  lemma StepGrows(env: Env, s: State, op: Op, id: TxId)
    requires id in Step(env, s, op).ledger.transactions
    ensures id !in s.ledger.transactions ==> op.ApplyOp? && op.tx.id == id && Acceptable(env, s.ledger, op.tx) && Step(env, s, op).ledger.transactions[id] == op.tx
    ensures id in s.ledger.transactions ==> Grown(s.ledger.transactions[id], Step(env, s, op).ledger.transactions[id])
  {
    if op.ApplyOp? {
      AcceptedIff(env, s.ledger, op.tx);
    }
  }

  lemma StepKeepsIds(env: Env, s: State, op: Op, id: TxId)
    requires id in s.ledger.transactions
    ensures id in Step(env, s, op).ledger.transactions
  {}

  lemma OriginKept(env: Env, ops: seq<Op>, earlier: seq<Op>, op: Op, id: TxId)
    requires ops == earlier + [op] && Originates(env, earlier, id)
    ensures Originates(env, ops, id)
  {
    var s := Run(env, earlier);
    RunExtends(env, ops, earlier, op);
    StepKeepsIds(env, s, op, id);
    StepGrows(env, s, op, id);
    var k, tx :| AcceptedAt(env, earlier, k, tx) && tx.id == id && Grown(tx, s.ledger.transactions[id]);
    assert AcceptedAt(env, ops, k, tx) && Grown(tx, Run(env, ops).ledger.transactions[id]);
  }

  lemma OriginNew(env: Env, ops: seq<Op>, earlier: seq<Op>, op: Op, id: TxId)
    requires ops == earlier + [op] && id !in Run(env, earlier).ledger.transactions && id in Run(env, ops).ledger.transactions
    ensures Originates(env, ops, id)
  {
    RunExtends(env, ops, earlier, op);
    StepGrows(env, Run(env, earlier), op, id);
    assert ops[..|earlier|] == earlier;
    assert AcceptedAt(env, ops, |earlier|, op.tx);
  }

  /** In every run, every stored transaction was applied by some operation and was acceptable at that
  moment, signature included; since then it has only gained witnesses. */
  lemma {:induction false} StoredWasAccepted(env: Env, ops: seq<Op>, id: TxId)
    requires id in Run(env, ops).ledger.transactions
    ensures Originates(env, ops, id)
    decreases |ops|
  {
    if ops != [] {
      var earlier, op := ops[..|ops| - 1], ops[|ops| - 1];
      assert ops == earlier + [op];
      if id in Run(env, earlier).ledger.transactions {
        StoredWasAccepted(env, earlier, id);
        OriginKept(env, ops, earlier, op, id);
      } else {
        OriginNew(env, ops, earlier, op, id);
      }
    }
  }

  /** Conversely, every operation that applies an acceptable transaction stores it for good. */
  lemma {:induction false} AcceptedIsStored(env: Env, ops: seq<Op>, k: nat, tx: Transaction)
    requires AcceptedAt(env, ops, k, tx)
    ensures tx.id in Run(env, ops).ledger.transactions
    decreases |ops|
  {
    var earlier, op := ops[..|ops| - 1], ops[|ops| - 1];
    assert ops == earlier + [op];
    RunExtends(env, ops, earlier, op);
    if k < |earlier| {
      assert earlier[..k] == ops[..k];
      AcceptedIsStored(env, earlier, k, tx);
      StepKeepsIds(env, Run(env, earlier), op, tx.id);
    } else {
      assert ops[..k] == earlier;
      AcceptedIff(env, Run(env, earlier).ledger, tx);
    }
  }

  /** The journal lists exactly the stored ids. */
  lemma {:induction false} JournalIsLog(env: Env, ops: seq<Op>, id: TxId)
    ensures id in Run(env, ops).journal.order <==> id in Run(env, ops).ledger.transactions
    decreases |ops|
  {
    if ops != [] {
      var earlier, op := ops[..|ops| - 1], ops[|ops| - 1];
      assert ops == earlier + [op];
      RunExtends(env, ops, earlier, op);
      JournalIsLog(env, earlier, id);
      JournalStep(env, Run(env, earlier), op, id);
    }
  }

  lemma JournalStep(env: Env, s: State, op: Op, id: TxId)
    requires id in s.journal.order <==> id in s.ledger.transactions
    ensures id in Step(env, s, op).journal.order <==> id in Step(env, s, op).ledger.transactions
  {}
}
