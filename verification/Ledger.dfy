/** The MeshCoin ledger as a state machine on values (crates/mycelium-coin/src/ledger.rs).

The three tables are maps. Signature checking and the encoded size of a transaction are
arbitrary functions of the transaction, carried by `Env` together with the policy.
*/
module Ledger {
  import opened Words
  import opened Settlement

  type Address = string
  type TxId = string
  type PeerId = string

  const MUON_PER_MXC: u64 := 1_000_000

  datatype Transaction = Transaction(
    id: TxId,
    from: Address,
    to: Address,
    amount: u64,
    fee: u64,
    timestamp: u64,
    nonce: u64,
    memo: Option<seq<u8>>,
    publicKey: seq<u8>,
    signature: seq<u8>,
    witnesses: set<PeerId>)
  {
    predicate Confirmed() {
      |witnesses| >= 3
    }

    function MemoLength(): nat {
      if memo.Some? then |memo.value| else 0
    }
  }

  datatype Account = Account(balance: u64, nextNonce: u64, pending: u64)

  datatype Env = Env(policy: Policy, verify: Transaction -> bool, encodedLength: Transaction -> nat)

  datatype Ledger = Ledger(
    transactions: map<TxId, Transaction>,
    accounts: map<Address, Account>,
    velocity: map<Address, seq<Event>>,
    refills: set<string>)

  const EMPTY := Ledger(map[], map[], map[], {})

  function AccountOf(accounts: map<Address, Account>, a: Address): Account {
    if a in accounts then accounts[a] else Account(0, 0, 0)
  }

  function RecentFor(velocity: map<Address, seq<Event>>, a: Address): seq<Event> {
    if a in velocity then velocity[a] else []
  }

  // ---------------------------------------------------------------- apply

  datatype Invalidity = BadSignature | SelfTransfer | MemoTooLong | BadAmount | TooLarge | OverCap | OverVelocity(verdict: Verdict)

  datatype ApplyResult =
    | Accepted
    | Duplicate
    | InvalidNonce(expected: u64, got: u64)
    | InsufficientFunds(have: u64, need: u64)
    | Invalid(reason: Invalidity)
    | AmountOverflow

  /** The first check that fails decides, in the order of the source. */
  function Decide(env: Env, l: Ledger, tx: Transaction): ApplyResult {
    var sender, receiver := AccountOf(l.accounts, tx.from), AccountOf(l.accounts, tx.to);
    if tx.id in l.transactions then Duplicate
    else if !env.verify(tx) then Invalid(BadSignature)
    else if tx.from == tx.to then Invalid(SelfTransfer)
    else if tx.nonce != sender.nextNonce then InvalidNonce(sender.nextNonce, tx.nonce)
    else if tx.amount + tx.fee > U64_MAX then AmountOverflow
    else if sender.balance < tx.amount + tx.fee then InsufficientFunds(sender.balance, tx.amount + tx.fee)
    else if tx.MemoLength() > 64 then Invalid(MemoTooLong)
    else if !TransferAmountOk(env.policy, tx.amount) then Invalid(BadAmount)
    else if env.encodedLength(tx) > env.policy.maxTxBytes then Invalid(TooLarge)
    else if !BalanceCapOk(env.policy, receiver.balance, receiver.pending, tx.amount) then Invalid(OverCap)
    else
      var verdict := VelocityVerdict(env.policy, RecentFor(l.velocity, tx.from), tx.timestamp, tx.amount);
      if verdict != Pass then Invalid(OverVelocity(verdict)) else Accepted
  }

  /** Everything a transaction must meet to be stored, said without reference to the order of the
  checks: identity, signature, form, funds and the limits of the policy. */
  ghost predicate Acceptable(env: Env, l: Ledger, tx: Transaction) {
    var p, sender, receiver := env.policy, AccountOf(l.accounts, tx.from), AccountOf(l.accounts, tx.to);
    var recent, start := RecentFor(l.velocity, tx.from), if tx.timestamp < HOUR_MS then 0 else tx.timestamp - HOUR_MS;
    && tx.id !in l.transactions
    && env.verify(tx)
    && tx.from != tx.to
    && tx.nonce == sender.nextNonce
    && tx.amount + tx.fee <= U64_MAX
    && tx.amount + tx.fee <= sender.balance
    && (tx.memo.Some? ==> |tx.memo.value| <= 64)
    && 0 < tx.amount <= p.maxTransfer
    && env.encodedLength(tx) <= p.maxTxBytes
    && (receiver.balance + receiver.pending + tx.amount <= p.maxBalance || p.maxBalance == U64_MAX)
    && CountIn(recent, start, U64_MAX) < p.maxTxPerHour
    && (TotalIn(recent, start, U64_MAX) + tx.amount <= p.maxOutboundPerHour || p.maxOutboundPerHour == U64_MAX)
  }

  function Debit(acc: Account, total: u64): Account {
    Account(WrapSub(acc.balance, total), WrapAdd(acc.nextNonce, 1), acc.pending)
  }

  function Receive(acc: Account, amount: u64, confirmed: bool): Account {
    if confirmed then acc.(balance := WrapAdd(acc.balance, amount))
    else acc.(pending := WrapAdd(acc.pending, amount))
  }

  function Update(accounts: map<Address, Account>, a: Address, f: Account -> Account): map<Address, Account> {
    accounts[a := f(AccountOf(accounts, a))]
  }

  function Commit(l: Ledger, tx: Transaction): Ledger
    requires tx.amount + tx.fee <= U64_MAX
  {
    var debited := Update(l.accounts, tx.from, acc => Debit(acc, tx.amount + tx.fee));
    var credited := Update(debited, tx.to, acc => Receive(acc, tx.amount, tx.Confirmed()));
    Ledger(
      l.transactions[tx.id := tx],
      credited,
      l.velocity[tx.from := LastStored(RecentFor(l.velocity, tx.from) + [Event(tx.timestamp, tx.amount)])],
      l.refills)
  }

  // -------------------------------------------------------------- witness

  datatype WitnessResult = Updated | Unchanged | CapRefused

  function Confirm(acc: Account, amount: u64): Account {
    acc.(pending := SatSub(acc.pending, amount), balance := WrapAdd(acc.balance, amount))
  }

  function DecideWitness(env: Env, l: Ledger, id: TxId, peer: PeerId): WitnessResult {
    if id !in l.transactions || peer in l.transactions[id].witnesses then Unchanged
    else
      var tx := l.transactions[id];
      var acc := AccountOf(l.accounts, tx.to);
      if |tx.witnesses| == 2 && !BalanceCapOk(env.policy, acc.balance, SatSub(acc.pending, tx.amount), tx.amount)
      then CapRefused else Updated
  }

  function Witness(env: Env, l: Ledger, id: TxId, peer: PeerId): Ledger {
    if DecideWitness(env, l, id, peer) != Updated then l
    else
      var tx := l.transactions[id];
      var accounts :=
        if |tx.witnesses| == 2 then Update(l.accounts, tx.to, acc => Confirm(acc, tx.amount)) else l.accounts;
      l.(accounts := accounts, transactions := l.transactions[id := tx.(witnesses := tx.witnesses + {peer})])
  }

  // -------------------------------------------------------------- genesis

  predicate CreditAllowed(env: Env, l: Ledger, a: Address, amount: u64) {
    var acc := AccountOf(l.accounts, a);
    BalanceCapOk(env.policy, acc.balance, acc.pending, amount)
  }

  function Credit(env: Env, l: Ledger, a: Address, amount: u64): Ledger {
    if CreditAllowed(env, l, a, amount)
    then l.(accounts := Update(l.accounts, a, (acc: Account) => acc.(balance := WrapAdd(acc.balance, amount))))
    else l
  }

  /** `request_faucet_coins`: ten coins, but only for an account that holds nothing. */
  predicate FaucetOpen(l: Ledger, a: Address) {
    AccountOf(l.accounts, a).balance == 0 && AccountOf(l.accounts, a).pending == 0
  }

  // ----------------------------------------------------------------- runs

  datatype Op =
    | ApplyOp(tx: Transaction)
    | WitnessOp(id: TxId, peer: PeerId)
    | CreditOp(address: Address, amount: u64)
    | FaucetOp(address: Address)
    | MarkRefillOp(request: string)

  datatype CreditEntry = CreditEntry(to: Address, amount: u64)

  /** What was accepted, in order: the credits and the ids of the stored transactions. The
  ledger itself stores neither; they are what it is compared against. */
  datatype Journal = Journal(credits: seq<CreditEntry>, order: seq<TxId>)

  datatype State = State(ledger: Ledger, journal: Journal)

  const INITIAL := State(EMPTY, Journal([], []))

  function CreditStep(env: Env, s: State, a: Address, amount: u64): State {
    if CreditAllowed(env, s.ledger, a, amount)
    then State(Credit(env, s.ledger, a, amount), s.journal.(credits := s.journal.credits + [CreditEntry(a, amount)]))
    else s
  }

  function Step(env: Env, s: State, op: Op): State {
    match op
    case ApplyOp(tx) =>
      if Decide(env, s.ledger, tx) == Accepted
      then State(Commit(s.ledger, tx), s.journal.(order := s.journal.order + [tx.id]))
      else s
    case WitnessOp(id, peer) => s.(ledger := Witness(env, s.ledger, id, peer))
    case CreditOp(a, amount) => CreditStep(env, s, a, amount)
    case FaucetOp(a) => if FaucetOpen(s.ledger, a) then CreditStep(env, s, a, 10 * MUON_PER_MXC) else s
    case MarkRefillOp(r) => s.(ledger := s.ledger.(refills := s.ledger.refills + {r}))
  }

  function RunFrom(env: Env, s: State, ops: seq<Op>): State {
    if ops == [] then s else Step(env, RunFrom(env, s, ops[..|ops| - 1]), ops[|ops| - 1])
  }

  function Run(env: Env, ops: seq<Op>): State {
    RunFrom(env, INITIAL, ops)
  }
}
