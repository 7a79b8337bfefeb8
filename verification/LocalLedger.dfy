/** The ledger object of crates/mycelium-coin/src/ledger.rs: three tables updated piece by piece. */
module LocalLedger {
  import opened Words
  import opened Settlement
  import opened Ledger
  import opened LedgerAcceptance
  import opened LedgerReplay

  class LocalLedger {
    const env: Env
    var transactions: map<TxId, Transaction>
    var accounts: map<Address, Account>
    var velocity: map<Address, seq<Event>>
    var refillApplied: set<string>
    /** What was accepted so far; the tables are compared with it and never read it. */
    ghost var journal: Journal

    ghost function Contents(): Ledger
      reads this
    {
      Ledger(transactions, accounts, velocity, refillApplied)
    }

    ghost function Current(): State
      reads this
    {
      State(Contents(), journal)
    }

    /** Under any cap below `U64_MAX` the tables replay the journal and respect the cap. */
    ghost predicate Valid()
      reads this
    {
      && (forall a :: a in velocity ==> |velocity[a]| <= MAX_STORED_EVENTS)
      && (env.policy.maxBalance < U64_MAX ==> Replays(Current()) && WithinCap(env, Current()))
    }

    constructor (env: Env)
      ensures Valid() && this.env == env && Current() == INITIAL
    {
      this.env := env;
      transactions, accounts, velocity, refillApplied := map[], map[], map[], {};
      journal := Journal([], []);
      new;
      InitialReplays(env);
    }

    method AccountState(address: Address) returns (acc: Account)
      ensures acc == AccountOf(accounts, address)
    {
      if address in accounts {
        acc := accounts[address];
      } else {
        acc := Account(0, 0, 0);
      }
    }

    method UpdateAccount(address: Address, f: Account -> Account)
      modifies this`accounts
      ensures accounts == Update(old(accounts), address, f)
    {
      var acc := AccountState(address);
      accounts := accounts[address := f(acc)];
    }

    method RecordOutbound(address: Address, timestamp: u64, amount: u64)
      modifies this`velocity
      ensures velocity == old(velocity)[address := LastStored(RecentFor(old(velocity), address) + [Event(timestamp, amount)])]
    {
      var w := if address in velocity then velocity[address] else [];
      w := PushEvent(w, timestamp, amount);
      velocity := velocity[address := w];
    }

    /** The verdict of `apply_transaction`; it changes nothing. */
    method Check(tx: Transaction) returns (r: ApplyResult)
      requires Valid()
      ensures r == Decide(env, Contents(), tx)
      ensures r == Accepted <==> Acceptable(env, Contents(), tx)
    {
      AcceptedIff(env, Contents(), tx);
      if tx.id in transactions {
        return Duplicate;
      }
      if !env.verify(tx) {
        return Invalid(BadSignature);
      }
      if tx.from == tx.to {
        return Invalid(SelfTransfer);
      }
      var account := AccountState(tx.from);
      if tx.nonce != account.nextNonce {
        return InvalidNonce(account.nextNonce, tx.nonce);
      }
      if tx.amount + tx.fee > U64_MAX {
        return AmountOverflow;
      }
      var total: u64 := tx.amount + tx.fee;
      if account.balance < total {
        return InsufficientFunds(account.balance, total);
      }
      if tx.MemoLength() > 64 {
        return Invalid(MemoTooLong);
      }
      if !TransferAmountOk(env.policy, tx.amount) {
        return Invalid(BadAmount);
      }
      if env.encodedLength(tx) > env.policy.maxTxBytes {
        return Invalid(TooLarge);
      }
      var receiver := AccountState(tx.to);
      if !BalanceCapOk(env.policy, receiver.balance, receiver.pending, tx.amount) {
        return Invalid(OverCap);
      }
      var recent := if tx.from in velocity then velocity[tx.from] else [];
      var verdict := CheckVelocity(env.policy, recent, tx.timestamp, tx.amount);
      if verdict != Pass {
        return Invalid(OverVelocity(verdict));
      }
      return Accepted;
    }

    /** The table updates of `apply_transaction`, one table after the other. */
    method Store(tx: Transaction)
      requires tx.amount + tx.fee <= U64_MAX
      modifies this`transactions, this`accounts, this`velocity
      ensures Contents() == Commit(old(Contents()), tx)
    {
      var total: u64 := tx.amount + tx.fee;
      transactions := transactions[tx.id := tx];
      UpdateAccount(tx.from, acc => Debit(acc, total));
      UpdateAccount(tx.to, acc => Receive(acc, tx.amount, tx.Confirmed()));
      RecordOutbound(tx.from, tx.timestamp, tx.amount);
    }

    method ApplyTransaction(tx: Transaction) returns (r: ApplyResult)
      requires Valid()
      modifies this
      ensures Valid()
      ensures r == old(Decide(env, Contents(), tx))
      ensures r == Accepted <==> old(Acceptable(env, Contents(), tx))
      ensures Current() == old(Step(env, Current(), ApplyOp(tx)))
    {
      r := Check(tx);
      if r == Accepted {
        if env.policy.maxBalance < U64_MAX {
          CommitReplays(env, Current(), tx);
        }
        Store(tx);
        journal := journal.(order := journal.order + [tx.id]);
      }
    }

    method AddWitness(id: TxId, peer: PeerId) returns (r: WitnessResult)
      requires Valid()
      modifies this
      ensures Valid()
      ensures r == old(DecideWitness(env, Contents(), id, peer))
      ensures Current() == old(Step(env, Current(), WitnessOp(id, peer)))
      ensures env.policy.maxBalance < U64_MAX ==> r != CapRefused
    {
      if env.policy.maxBalance < U64_MAX {
        WitnessReplays(env, Current(), id, peer);
        Unrefused(id, peer);
      }
      if id !in transactions {
        return Unchanged;
      }
      var tx := transactions[id];
      var wasUnconfirmed := !tx.Confirmed();
      if peer in tx.witnesses {
        return Unchanged;
      }
      tx := tx.(witnesses := tx.witnesses + {peer});
      if wasUnconfirmed && tx.Confirmed() {
        var to, amount := tx.to, tx.amount;
        var acc := AccountState(to);
        if !BalanceCapOk(env.policy, acc.balance, SatSub(acc.pending, amount), amount) {
          return CapRefused;
        }
        UpdateAccount(to, acc => Confirm(acc, amount));
      }
      transactions := transactions[id := tx];
      return Updated;
    }

    lemma Unrefused(id: TxId, peer: PeerId)
      requires Replays(Current()) && WithinCap(env, Current())
      ensures DecideWitness(env, Contents(), id, peer) != CapRefused
    {
      if id in transactions && |transactions[id].witnesses| == 2 && peer !in transactions[id].witnesses {
        assert CapAt(env, Current(), transactions[id].to);
        ConfirmationRefusedIff(env, Current(), id, peer);
      }
    }

    method GenesisCredit(address: Address, amount: u64) returns (ok: bool)
      requires Valid()
      modifies this
      ensures Valid()
      ensures ok == old(CreditAllowed(env, Contents(), address, amount))
      ensures Current() == old(Step(env, Current(), CreditOp(address, amount)))
    {
      if env.policy.maxBalance < U64_MAX {
        CreditReplays(env, Current(), address, amount);
      }
      var acc := AccountState(address);
      ok := BalanceCapOk(env.policy, acc.balance, acc.pending, amount);
      if ok {
        UpdateAccount(address, (acc: Account) => acc.(balance := WrapAdd(acc.balance, amount)));
        journal := journal.(credits := journal.credits + [CreditEntry(address, amount)]);
      }
    }

    /** `CoinNode::request_faucet_coins`; `false` when the credit was due but over the cap. */
    method RequestFaucetCoins(address: Address) returns (ok: bool)
      requires Valid()
      modifies this
      ensures Valid()
      ensures Current() == old(Step(env, Current(), FaucetOp(address)))
      ensures ok <==> old(FaucetOpen(Contents(), address) ==> CreditAllowed(env, Contents(), address, 10 * MUON_PER_MXC))
    {
      ok := true;
      var acc := AccountState(address);
      if acc.balance == 0 && acc.pending == 0 {
        ok := GenesisCredit(address, 10 * MUON_PER_MXC);
      }
    }

    method MarkRefillApplied(request: string)
      requires Valid()
      modifies this
      ensures Valid()
      ensures Current() == old(Step(env, Current(), MarkRefillOp(request)))
    {
      if env.policy.maxBalance < U64_MAX {
        StepReplays(env, Current(), MarkRefillOp(request));
      }
      refillApplied := refillApplied + {request};
    }
  }
}
