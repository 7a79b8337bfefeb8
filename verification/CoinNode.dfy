/** The coin node on top of the ledger: submitting transfers, answering refill requests and
returning the excess of a hot wallet (crates/mycelium-coin/src/node.rs, hot_wallet.rs, refill.rs).

Key material is a `Signer` whose id and signature are arbitrary functions of the transaction.
Clock readings and the outcome of a broadcast are inputs.
*/
module CoinNode {
  import opened Words
  import opened Settlement
  import opened Ledger
  import opened LedgerAcceptance
  import opened LocalLedger

  datatype Signer = Signer(
    address: Address,
    publicKey: seq<u8>,
    signature: Transaction -> seq<u8>,
    hash: Transaction -> TxId)

  datatype RefillRequest = RefillRequest(
    requestId: string,
    hotAddress: Address,
    coldAddress: Address,
    amount: u64,
    fee: u64,
    expiresAt: u64)

  datatype Node = Node(env: Env, signer: Signer, localAddress: Address, localPeer: PeerId, verifyRefill: RefillRequest -> bool)

  /** `Transaction::new` followed by reading the next nonce. */
  function NewTransfer(n: Node, l: Ledger, to: Address, amount: u64, fee: u64, memo: seq<u8>, now: u64): Transaction {
    var nonce := AccountOf(l.accounts, n.localAddress).nextNonce;
    var unsigned := Transaction("", n.signer.address, to, amount, fee, now, nonce, Some(memo), n.signer.publicKey, [], {});
    var signed := unsigned.(signature := n.signer.signature(unsigned));
    signed.(id := n.signer.hash(signed))
  }

  /** Whether `submit_transfer_from_identity_path` moves money; a failing broadcast afterwards does not undo it. */
  predicate Moves(n: Node, l: Ledger, to: Address, amount: u64, fee: u64, memo: seq<u8>, now: u64) {
    n.signer.address == n.localAddress && Decide(n.env, l, NewTransfer(n, l, to, amount, fee, memo, now)) == Accepted
  }

  function Submitted(n: Node, s: State, to: Address, amount: u64, fee: u64, memo: seq<u8>, now: u64): State {
    if Moves(n, s.ledger, to, amount, fee, memo, now)
    then Step(n.env, s, ApplyOp(NewTransfer(n, s.ledger, to, amount, fee, memo, now)))
    else s
  }

  // ---------------------------------------------------------------- refills

  const REFILL_MEMO: seq<u8> := [114, 101, 102, 105, 108, 108]

  datatype CoinEvent =
    | LedgerEvent(op: Op)
    /** A refill request, the clock at the expiry test and at the stamping of the transfer, and
    whether the transfer is broadcast. */
    | RefillEvent(req: RefillRequest, now: u64, stamp: u64, broadcast: bool)

  /** Everything that is asked of a refill request before it is paid, except that it is not marked. */
  predicate Eligible(n: Node, l: Ledger, req: RefillRequest, now: u64, stamp: u64) {
    && req.coldAddress == n.localAddress
    && now <= req.expiresAt
    && n.verifyRefill(req)
    && Moves(n, l, req.hotAddress, req.amount, req.fee, REFILL_MEMO, stamp)
  }

  /** Whether a refill request makes this node pay. */
  predicate Pays(n: Node, l: Ledger, req: RefillRequest, now: u64, stamp: u64) {
    req.requestId !in l.refills && Eligible(n, l, req, now, stamp)
  }

  function Handle(n: Node, s: State, e: CoinEvent): State {
    match e
    case LedgerEvent(op) => Step(n.env, s, op)
    case RefillEvent(req, now, stamp, broadcast) =>
      if !Pays(n, s.ledger, req, now, stamp) then s
      else
        var paid := Submitted(n, s, req.hotAddress, req.amount, req.fee, REFILL_MEMO, stamp);
        if broadcast then Step(n.env, paid, MarkRefillOp(req.requestId)) else paid
  }

  function HandleAll(n: Node, s: State, events: seq<CoinEvent>): State {
    if events == [] then s else Handle(n, HandleAll(n, s, events[..|events| - 1]), events[|events| - 1])
  }

  /** Event `i` of the run is a request with this id that meets all conditions but the mark. */
  ghost predicate EligibleAt(n: Node, s: State, events: seq<CoinEvent>, i: nat, request: string) {
    && i < |events|
    && events[i].RefillEvent?
    && events[i].req.requestId == request
    && Eligible(n, HandleAll(n, s, events[..i]).ledger, events[i].req, events[i].now, events[i].stamp)
  }

  /** The `i`-th event of the run is a refill request that is paid out. */
  ghost predicate PaidAt(n: Node, s: State, events: seq<CoinEvent>, i: nat, request: string) {
    EligibleAt(n, s, events, i, request) && request !in HandleAll(n, s, events[..i]).ledger.refills
  }

  /** The `i`-th event marks the request: by a payment that is broadcast, or outright. */
  ghost predicate MarksAt(n: Node, s: State, events: seq<CoinEvent>, i: nat, request: string) {
    i < |events| &&
    if events[i].LedgerEvent? then events[i].op == MarkRefillOp(request)
    else PaidAt(n, s, events, i, request) && events[i].broadcast
  }

  /** One event marks a request or leaves its mark alone. */
  lemma HandleMarks(n: Node, s: State, e: CoinEvent, request: string)
    ensures request in Handle(n, s, e).ledger.refills <==>
            || request in s.ledger.refills
            || (e.LedgerEvent? && e.op == MarkRefillOp(request))
            || (e.RefillEvent? && e.req.requestId == request && e.broadcast && Pays(n, s.ledger, e.req, e.now, e.stamp))
  {}

  lemma MarksAtPrefix(n: Node, s: State, events: seq<CoinEvent>, k: nat, i: nat, request: string)
    requires i < k <= |events|
    ensures MarksAt(n, s, events[..k], i, request) <==> MarksAt(n, s, events, i, request)
  {
    assert events[..k][..i] == events[..i];
  }

  /** After a run a request is marked exactly when it was marked before or some event marked it. */
  lemma {:induction false} MarkedIff(n: Node, s: State, events: seq<CoinEvent>, request: string)
    ensures request in HandleAll(n, s, events).ledger.refills <==>
            request in s.ledger.refills || exists i :: 0 <= i < |events| && MarksAt(n, s, events, i, request)
    decreases |events|
  {
    if events != [] {
      var k := |events| - 1;
      MarkedIff(n, s, events[..k], request);
      HandleMarks(n, HandleAll(n, s, events[..k]), events[k], request);
      forall i | 0 <= i < k
        ensures MarksAt(n, s, events[..k], i, request) <==> MarksAt(n, s, events, i, request)
      {
        MarksAtPrefix(n, s, events, k, i, request);
      }
      assert request in HandleAll(n, s, events).ledger.refills <==>
             request in HandleAll(n, s, events[..k]).ledger.refills || MarksAt(n, s, events, k, request);
      if i :| 0 <= i < k && MarksAt(n, s, events[..k], i, request) {
        assert MarksAt(n, s, events, i, request);
      }
      if i :| 0 <= i < |events| && MarksAt(n, s, events, i, request) {
        assert i == k || MarksAt(n, s, events[..k], i, request);
      }
    }
  }

  /** A request is paid at event `j` of a run if and only if it meets the other conditions there and
  was not marked: not at the start, not outright, and not by an earlier payment that was broadcast. */
  lemma PaidIff(n: Node, s: State, events: seq<CoinEvent>, j: nat, request: string)
    requires j < |events|
    ensures PaidAt(n, s, events, j, request) <==>
            && EligibleAt(n, s, events, j, request)
            && request !in s.ledger.refills
            && !exists i :: 0 <= i < j && MarksAt(n, s, events, i, request)
  {
    MarkedIff(n, s, events[..j], request);
    forall i | 0 <= i < j
      ensures MarksAt(n, s, events[..j], i, request) <==> MarksAt(n, s, events, i, request)
    {
      MarksAtPrefix(n, s, events, j, i, request);
    }
  }

  /** So a request is paid a second time exactly when it is eligible again and no earlier payment of it
  was broadcast, if it was not marked otherwise. */
  lemma PaidAgainIff(n: Node, s: State, events: seq<CoinEvent>, j: nat, request: string)
    requires j < |events| && request !in s.ledger.refills
    requires forall i :: 0 <= i < j ==> events[i] != LedgerEvent(MarkRefillOp(request))
    ensures PaidAt(n, s, events, j, request) <==>
            && EligibleAt(n, s, events, j, request)
            && forall i :: 0 <= i < j && PaidAt(n, s, events, i, request) ==> !events[i].broadcast
  {
    PaidIff(n, s, events, j, request);
    forall i | 0 <= i < j
      ensures MarksAt(n, s, events, i, request) <==> PaidAt(n, s, events, i, request) && events[i].broadcast
    {
      assert events[i] != LedgerEvent(MarkRefillOp(request));
    }
  }

  /** Whatever happens in between, every payment of a request but the last had a failed broadcast. */
  lemma RefillPaidOnce(n: Node, s: State, events: seq<CoinEvent>, i: nat, j: nat, request: string)
    requires i < j && PaidAt(n, s, events, i, request) && PaidAt(n, s, events, j, request)
    ensures !events[i].broadcast
  {
    PaidIff(n, s, events, j, request);
    assert events[i].broadcast ==> MarksAt(n, s, events, i, request);
  }

  /** The transfer that answers a refill request. */
  ghost predicate IsRefillTransfer(n: Node, l: Ledger, req: RefillRequest, stamp: u64, tx: Transaction) {
    && tx.from == n.localAddress && tx.to == req.hotAddress && tx.amount == req.amount && tx.fee == req.fee
    && tx.timestamp == stamp && tx.nonce == AccountOf(l.accounts, n.localAddress).nextNonce
    && tx.memo == Some(REFILL_MEMO) && tx.witnesses == {}
    && tx.signature == n.signer.signature(tx.(id := "", signature := [])) && tx.id == n.signer.hash(tx.(id := ""))
    && tx.publicKey == n.signer.publicKey
  }

  /** A refill request changes the ledger if and only if it names this wallet, has not expired, is
  verified and unmarked, the signing key is this wallet's, and the transfer it asks for is acceptable. */
  lemma RefillIff(n: Node, s: State, req: RefillRequest, now: u64, stamp: u64, broadcast: bool, tx: Transaction)
    requires n.signer.address == n.localAddress ==> IsRefillTransfer(n, s.ledger, req, stamp, tx)
    ensures Handle(n, s, RefillEvent(req, now, stamp, broadcast)) != s <==>
            && req.coldAddress == n.localAddress && now <= req.expiresAt && n.verifyRefill(req)
            && req.requestId !in s.ledger.refills
            && n.signer.address == n.localAddress && Acceptable(n.env, s.ledger, tx)
    ensures Handle(n, s, RefillEvent(req, now, stamp, broadcast)) != s ==>
              var s' := Handle(n, s, RefillEvent(req, now, stamp, broadcast));
              && s'.ledger.transactions == s.ledger.transactions[tx.id := tx]
              && s'.ledger.refills == s.ledger.refills + if broadcast then {req.requestId} else {}
  {
    if n.signer.address == n.localAddress {
      RefillTransferIs(n, s.ledger, req, stamp, tx);
      AcceptedIff(n.env, s.ledger, tx);
      assert Step(n.env, s, ApplyOp(tx)).journal.order != s.journal.order <==> Decide(n.env, s.ledger, tx) == Accepted;
    }
  }

  lemma RefillTransferIs(n: Node, l: Ledger, req: RefillRequest, stamp: u64, tx: Transaction)
    requires n.signer.address == n.localAddress && IsRefillTransfer(n, l, req, stamp, tx)
    ensures tx == NewTransfer(n, l, req.hotAddress, req.amount, req.fee, REFILL_MEMO, stamp)
  {
    var made := NewTransfer(n, l, req.hotAddress, req.amount, req.fee, REFILL_MEMO, stamp);
    assert tx.(id := "", signature := []) == made.(id := "", signature := []);
    assert tx.(id := "") == made.(id := "");
  }

  const DEFAULT_POLICY := Policy(100_000_000, 25_000_000, 4096, 20, 50_000_000)

  /** With failing broadcasts one request is paid twice under the default policy. */
  lemma FailedBroadcastPaysTwice() returns (n: Node, events: seq<CoinEvent>)
    ensures n.env.policy == DEFAULT_POLICY
    ensures PaidAt(n, INITIAL, events, 1, "r") && PaidAt(n, INITIAL, events, 2, "r")
  {
    var hash := (tx: Transaction) => if tx.nonce == 0 then "x" else "y";
    var signer := Signer("cold", [], _ => [], hash);
    n := Node(Env(DEFAULT_POLICY, _ => true, _ => 0), signer, "cold", "p", _ => true);
    var c := LedgerEvent(CreditOp("cold", 100_000_000));
    var e := RefillEvent(RefillRequest("r", "hot", "cold", 10_000_000, 1000, 5), 5, 5, false);
    events := [c, e, e];
    assert events[..1] == [c] && [c][..0] == [] && events[..2] == [c, e] && [c, e][..1] == [c];
    var s := HandleAll(n, INITIAL, [c]);
    assert HandleAll(n, INITIAL, []) == INITIAL;
    assert s.ledger.accounts == map["cold" := Account(100_000_000, 0, 0)];
    assert CountIn([], WindowStart(5), U64_MAX) == 0 && TotalIn([], WindowStart(5), U64_MAX) == 0;
    assert Pays(n, s.ledger, e.req, 5, 5);
    assert HandleAll(n, INITIAL, [c, e]) == Handle(n, s, e);
    FirstPayment(n, s, e);
  }

  lemma FirstPayment(n: Node, s: State, e: CoinEvent)
    requires n.signer.address == "cold" == n.localAddress && n.env.policy == DEFAULT_POLICY
    requires forall tx :: n.env.verify(tx) && n.env.encodedLength(tx) == 0
    requires forall tx :: n.signer.hash(tx) == if tx.nonce == 0 then "x" else "y"
    requires forall r :: n.verifyRefill(r)
    requires s.ledger == Ledger(map[], map["cold" := Account(100_000_000, 0, 0)], map[], {})
    requires e == RefillEvent(RefillRequest("r", "hot", "cold", 10_000_000, 1000, 5), 5, 5, false)
    requires Pays(n, s.ledger, e.req, 5, 5)
    ensures Pays(n, Handle(n, s, e).ledger, e.req, 5, 5)
  {
    var l := Handle(n, s, e).ledger;
    var first := Event(5, 10_000_000);
    assert AccountOf(l.accounts, "cold") == Account(89_999_000, 1, 0);
    assert AccountOf(l.accounts, "hot") == Account(0, 0, 10_000_000);
    assert RecentFor(l.velocity, "cold") == [first];
    assert [first][..0] == [];
    assert CountIn([first], WindowStart(5), U64_MAX) == 1 && TotalIn([first], WindowStart(5), U64_MAX) == 10_000_000;
  }

  // ------------------------------------------------------------- the object

  datatype WitnessMessage = WitnessMessage(id: TxId, peer: PeerId)

  class CoinNode {
    const node: Node
    const ledger: LocalLedger

    ghost predicate Valid()
      reads this, ledger
    {
      ledger.env == node.env && ledger.Valid()
    }

    constructor (node: Node, ledger: LocalLedger)
      requires ledger.env == node.env && ledger.Valid()
      ensures Valid() && this.node == node && this.ledger == ledger
    {
      this.node, this.ledger := node, ledger;
    }

    method SubmitTransfer(to: Address, amount: u64, fee: u64, memo: seq<u8>, now: u64, broadcast: bool) returns (ok: bool)
      requires Valid()
      modifies ledger
      ensures Valid()
      ensures ledger.Current() == Submitted(node, old(ledger.Current()), to, amount, fee, memo, now)
      ensures ok == (broadcast && Moves(node, old(ledger.Contents()), to, amount, fee, memo, now))
    {
      if node.signer.address != node.localAddress {
        return false;
      }
      var acc := ledger.AccountState(node.localAddress);
      var unsigned := Transaction("", node.signer.address, to, amount, fee, now, acc.nextNonce, Some(memo), node.signer.publicKey, [], {});
      var signed := unsigned.(signature := node.signer.signature(unsigned));
      var tx := signed.(id := node.signer.hash(signed));
      assert tx == NewTransfer(node, ledger.Contents(), to, amount, fee, memo, now);
      var r := ledger.ApplyTransaction(tx);
      return r == Accepted && broadcast;
    }

    /** `handle_incoming` for a transaction: store it if it is good, witness it if it is new to
    this peer, and announce the witness statement. */
    method HandleTransaction(tx: Transaction) returns (announce: Option<WitnessMessage>)
      requires Valid()
      modifies ledger
      ensures Valid()
      ensures var r := Decide(node.env, old(ledger.Contents()), tx);
              var s := Step(node.env, old(ledger.Current()), ApplyOp(tx));
              && ledger.Current() == (if r in {Accepted, Duplicate} then Step(node.env, s, WitnessOp(tx.id, node.localPeer)) else s)
              && (announce.Some? ==> r in {Accepted, Duplicate} && announce.value == WitnessMessage(tx.id, node.localPeer))
              && (r == Duplicate ==>
                    (announce.Some? <==> DecideWitness(node.env, s.ledger, tx.id, node.localPeer) == Updated))
              && (r == Accepted && node.env.policy.maxBalance < U64_MAX ==> announce.Some?)
    {
      announce := None;
      var r := ledger.ApplyTransaction(tx);
      if r == Accepted {
        var w := ledger.AddWitness(tx.id, node.localPeer);
        if w != CapRefused {
          announce := Some(WitnessMessage(tx.id, node.localPeer));
        }
      } else if r == Duplicate {
        var w := ledger.AddWitness(tx.id, node.localPeer);
        if w == Updated {
          announce := Some(WitnessMessage(tx.id, node.localPeer));
        }
      }
    }

    method HandleRefill(req: RefillRequest, now: u64, stamp: u64, broadcast: bool)
      requires Valid()
      modifies ledger
      ensures Valid()
      ensures ledger.Current() == Handle(node, old(ledger.Current()), RefillEvent(req, now, stamp, broadcast))
    {
      if req.coldAddress != node.localAddress || now > req.expiresAt || !node.verifyRefill(req) {
        return;
      }
      if req.requestId in ledger.refillApplied {
        return;
      }
      var ok := SubmitTransfer(req.hotAddress, req.amount, req.fee, REFILL_MEMO, stamp, broadcast);
      if ok {
        ledger.MarkRefillApplied(req.requestId);
      }
    }
  }
}
