# Mycelium relay: a verified model

This project models the state-changing core of the Mycelium mesh network in Dafny and proves what it
keeps over whole runs. `dafny verify dfyconfig.toml` checks all of it. There are five parts.

**MeshCoin** (`Settlement`, `VelocityBounds`, `Ledger`, `LedgerAcceptance`, `LedgerReplay`, `LedgerRuns`, `LocalLedger`, `CoinNode`, `HotWallet`).
The ledger's account table and velocity windows are caches; the model proves them equal to a replay of
the transaction log and of the accepted credits in every run. From that follow conservation of money,
exact arithmetic in every reachable state, dense nonces, hourly limits, confirmation that is never
refused, and independence of the order of witness messages.

**Mesh messages** (`Mesh`, `IngestGuard`, `GuardRuns`, `MessageStore`, `Forwarding`, `PendingQueue`, `Delivery`, `DeliveryRules`, `LateCopies`, `MeshRuns`, `NodeRunner`,
`Bloom`, `Sync`, `SyncConvergence`, `Flood`). One node is a state machine over events (`Delivery`) and an object
whose methods are steps of it (`NodeRunner`): no message reaches the application twice, and a message
causes a bounded number of copies in the whole network. Two nodes that exchange Bloom filters converge to the union of their
stores. A flood of encrypted messages dies out after a number of steps that is bounded exactly.

**Simulator** (`Scheduler`, `Simulation`, `SimulationRuns`, `SimulationRules`, `SimulationRunner`). Runs end, account for every send
exactly once, keep bandwidth budgets and execute events exactly at their time and in order.

**Direct peers** (`PeerCap`). A set and a table of times behave like a list of peers by recency, and a peer is
kept exactly when fewer than the maximum number of others connected since.

**Texts and keys** (`Numerals`, `PaymentUri`, `MailIndex`). Payment texts round-trip exactly when the address
has no question mark; mail keys sort like time and id, so the newest mails are what a reverse scan gives.

`Words` writes out fixed-width arithmetic, `Sequences` and `Sums` hold what is said about lists and finite sums. Each class method is proved against
a function on values; the theorems are about those functions and about runs of them. What the operations
answer is stated a second time without those functions, as conditions on what came before (`LedgerAcceptance`,
`GuardRuns`, `DeliveryRules`, `SimulationRules` and the lemmas whose names end in `Iff` or `Exactly`).

## Where the code differs from what one might expect

Each of these has a failing input for every case in question and the exact condition under which the
expected property holds.

- The fixed-window limiter admits up to `2 * limit - 1` messages in one window length, and reaches that for every
  limit and every window longer than one millisecond (`IngestGuard.RateBoundReached`).
- Velocity uses the sender's own time stamps. Whatever the stamps, the hourly limits hold if and only if one of them is at
  most one (`VelocityBounds.AnyOrderBoundIff`); with nondecreasing stamps if and only if one of them is at most 64, the length of
  the stored window (`VelocityBounds.ChronologicalBoundIff`). Both leave aside policies that allow no transfer at all.
- With `max_balance_muon` at the largest 64-bit value the saturating cap check passes everything and a balance can wrap;
  the account table replays the log in every run if and only if the cap is lower (`LedgerReplay.ReplayIffCapped`).
- A refill is marked after its broadcast. It is paid again exactly when it is eligible again and no earlier payment of it was
  broadcast (`CoinNode.PaidAgainIff`); `CoinNode.FailedBroadcastPaysTwice` is such a run under the default policy.
- A message fetched by sync is stored without being delivered. No copy of it is delivered later if and only if its creation time plus
  30 minutes is at most the storing time plus seven days (`LateCopies.StoredOnceIff`). Sync has no freshness check, so a message stamped
  further ahead can be collected and then delivered.
- `run_for` stops at the first event at or after its target, not at the target; it stops at the target if and only if an event
  is due exactly then or none is due later (`SimulationRuns.RunStopsAt`, `SimulationRuns.StopsAtTargetIff`).
- A bandwidth budget is kept in every run if and only if it is below the largest 64-bit value (`SimulationRuns.BudgetKeptIff`). Exceeding the
  largest one takes more than 2^64 - 1 bytes in one second, for instance two packets of that size.

## Model

| member | source | states |
|---|---|---|
| `Settlement.CheckVelocity` | crates/mycelium-coin/src/settlement_policy.rs:98-121 | the loop decides as exact counts and totals over the hour would: event limit first, then amount limit, saturation never changing the verdict |
| `Settlement.PushEvent` | crates/mycelium-coin/src/velocity.rs:16-21 | pushing and popping leaves exactly the last 64 events |
| `Settlement.LastStoredPush` | crates/mycelium-coin/src/velocity.rs:16-64 | truncating at every push equals truncating the full history once |
| `Settlement.TruncationLossless` | crates/mycelium-coin/src/velocity.rs:16-64 | on a chronological history and a limit of at most 64, the verdict on the stored window is the verdict on the full history |
| `VelocityBounds.TruncationDecides` | crates/mycelium-coin/src/velocity.rs:16-64 | with a count limit or an amount limit of at most 64, the stored window and the full chronological history agree on whether a transfer passes |
| `VelocityBounds.TruncationLossyAbove64` | crates/mycelium-coin/src/velocity.rs:16-64 | with both limits above 64 the ledger can reach a chronological history whose window passes a transfer that the full history forbids |
| `VelocityBounds.TruncationLosslessIff` | crates/mycelium-coin/src/velocity.rs:16-64 | over all chronological histories the ledger can hold, the window decides like the full history if and only if one of the limits is at most 64 or no transfer is possible |
| `VelocityBounds.HourlyBound` | crates/mycelium-coin/src/settlement_policy.rs:98-121 | with one of the limits at most 64, no closed hour of a chronological history the ledger can hold exceeds the count or the amount limit |
| `VelocityBounds.BurstBreaksBound` | crates/mycelium-coin/src/settlement_policy.rs:98-121 | with both limits above 64 a burst of equal stamps exceeds the count limit |
| `VelocityBounds.ChronologicalBoundIff` | crates/mycelium-coin/src/settlement_policy.rs:98-121 | over all chronological histories the ledger can hold, both hourly limits hold if and only if one of them is at most 64 or no transfer is possible; the same for the count limit alone |
| `VelocityBounds.SolitaryForcesOrder` | crates/mycelium-coin/src/settlement_policy.rs:98-121 | a count limit or an amount limit of at most one forces chronological order |
| `VelocityBounds.UnorderedTimestampsBreakBound` | crates/mycelium-coin/src/ledger.rs:199-202 | with both limits at least two, late stamps are pushed out of the window by early ones and more transfers than allowed fit into an hour |
| `VelocityBounds.AnyOrderBoundIff` | crates/mycelium-coin/src/ledger.rs:181-202 | over all histories the ledger can hold, whatever the stamps, both hourly limits hold if and only if one of them is at most one or no transfer is possible; the same for the count limit alone |
| `LocalLedger.LocalLedger.constructor` | crates/mycelium-coin/src/ledger.rs:128-139 | an empty ledger satisfies the replay invariant |
| `LocalLedger.LocalLedger.AccountState` | crates/mycelium-coin/src/ledger.rs:261-270 | an unknown address reads as an empty account |
| `LocalLedger.LocalLedger.UpdateAccount` | crates/mycelium-coin/src/ledger.rs:322-332 | exactly one account changes, by the given function |
| `LocalLedger.LocalLedger.RecordOutbound` | crates/mycelium-coin/src/velocity.rs:50-64 | the window of one sender becomes the last 64 of its old window and the new event |
| `LocalLedger.LocalLedger.Check` | crates/mycelium-coin/src/ledger.rs:150-206 | the verdict on a transaction; it is accepted if and only if it is acceptable in the sense of `Acceptable`, which names every condition |
| `LocalLedger.LocalLedger.Store` | crates/mycelium-coin/src/ledger.rs:207-221 | the piecewise table updates together are one commit |
| `LocalLedger.LocalLedger.ApplyTransaction` | crates/mycelium-coin/src/ledger.rs:150-224 | accepted if and only if acceptable; verdict and new state, refusals changing nothing; the replay invariant is kept |
| `LocalLedger.LocalLedger.AddWitness` | crates/mycelium-coin/src/ledger.rs:227-259 | result and new state; the replay invariant is kept, and below the largest cap confirmation is never refused |
| `LocalLedger.LocalLedger.GenesisCredit` | crates/mycelium-coin/src/ledger.rs:292-300 | the credit happens exactly when the cap allows it; the replay invariant is kept |
| `LocalLedger.LocalLedger.RequestFaucetCoins` | crates/mycelium-coin/src/node.rs:204-212 | ten coins, only to an empty account; the replay invariant is kept |
| `LocalLedger.LocalLedger.MarkRefillApplied` | crates/mycelium-coin/src/ledger.rs:316-320 | the mark is recorded and nothing else changes |
| `LedgerAcceptance.ApplyIff` | crates/mycelium-coin/src/ledger.rs:150-224 | a transaction changes the ledger if and only if its id is new, its signature verifies, its ends differ, its nonce is next, it does not overflow, is funded, has a short memo, an allowed amount and size, and keeps the receiver and the hour within the limits |
| `LedgerAcceptance.VerdictIff` | crates/mycelium-coin/src/ledger.rs:150-206 | every verdict names the first of these conditions that fails |
| `LedgerAcceptance.WitnessIff` | crates/mycelium-coin/src/ledger.rs:227-259 | a statement is recorded if and only if the transaction is stored, the peer is new to it and a third statement keeps the receiver within the cap |
| `LedgerAcceptance.CreditIff` | crates/mycelium-coin/src/ledger.rs:292-300 | a credit happens if and only if the account stays within the cap or the cap is the largest word |
| `LedgerAcceptance.FaucetIff` | crates/mycelium-coin/src/node.rs:204-212 | the faucet credits ten coins if and only if the account holds nothing and the cap allows it |
| `LedgerAcceptance.StoredWasAccepted` | crates/mycelium-coin/src/ledger.rs:150-224 | in every run each stored transaction was applied by an operation of the run and acceptable then, signature included, and has since gained only witnesses |
| `LedgerAcceptance.AcceptedIsStored` | crates/mycelium-coin/src/ledger.rs:150-224 | every operation that applies an acceptable transaction stores it for good |
| `LedgerAcceptance.JournalIsLog` | crates/mycelium-coin/src/ledger.rs:207-221 | the accepted ids are exactly the stored ones |
| `LedgerReplay.CommitReplays` | crates/mycelium-coin/src/ledger.rs:150-224 | an accepted transaction keeps every account a replay of the log and within the cap |
| `LedgerReplay.WitnessReplays` | crates/mycelium-coin/src/ledger.rs:227-259 | so does a witness statement |
| `LedgerReplay.WitnessAccount` | crates/mycelium-coin/src/ledger.rs:239-254 | the third witness moves exactly the amount from pending to balance, without underflow or overflow; other statements move nothing |
| `LedgerReplay.CreditReplays` | crates/mycelium-coin/src/ledger.rs:292-300 | so does a credit |
| `LedgerReplay.RunFromReplays` | crates/mycelium-coin/src/ledger.rs:150-300 | after any operations balance, pending, nonces and velocity windows are what the log and the credits add up to |
| `LedgerReplay.ConfirmationRefusedIff` | crates/mycelium-coin/src/ledger.rs:239-254 | the cap re-check at confirmation fires exactly when the receiver already exceeds the cap in force |
| `LedgerReplay.UncappedWraps` | crates/mycelium-coin/src/settlement_policy.rs:80-96 | with the cap at the largest word two credits wrap a balance to zero |
| `LedgerReplay.ReplayIffCapped` | crates/mycelium-coin/src/ledger.rs:150-300 | the account table replays the log in every run if and only if the cap is below the largest word |
| `LedgerRuns.RunConserves` | crates/mycelium-coin/src/ledger.rs:150-300 | in every run all balances, all pending amounts and all fees add up to all accepted credits |
| `LedgerRuns.ReachableIsExact` | crates/mycelium-coin/src/ledger.rs:190-300 | in every reachable state no addition wraps, no subtraction underflows, saturating subtraction is exact and everyone is within the cap |
| `LedgerRuns.NonceIsPosition` | crates/mycelium-coin/src/ledger.rs:164-215 | the transaction with nonce i is the i-th the sender had accepted |
| `LedgerRuns.NoncesDense` | crates/mycelium-coin/src/ledger.rs:164-215 | the stored nonces of a sender are 0 to next_nonce - 1, each once |
| `LedgerRuns.RunPossible` | crates/mycelium-coin/src/ledger.rs:181-202 | in every run the history of a sender has passed the amount check and the velocity check on the window stored at the time |
| `LedgerRuns.RunHourlyBound` | crates/mycelium-coin/src/ledger.rs:199-221 | in every run a sender keeps both hourly limits in every closed hour: always if one of the limits is at most one, and with nondecreasing stamps if one is at most 64 |
| `LedgerRuns.WitnessesLog` | crates/mycelium-coin/src/ledger.rs:227-259 | a sequence of witness messages leaves exactly the named peers added to the stored transactions, and nothing else changed but accounts |
| `LedgerRuns.AccountsDetermined` | crates/mycelium-coin/src/ledger.rs:150-300 | two ledgers with equal logs and credits have equal accounts |
| `LedgerRuns.WitnessOrderIrrelevant` | crates/mycelium-coin/src/ledger.rs:227-259 | two sequences of witness messages that name the same peers for the stored transactions end in the same state |
| `CoinNode.CoinNode.SubmitTransfer` | crates/mycelium-coin/src/node.rs:71-98 | the transfer is signed with the next nonce and applied; a failing broadcast does not undo it |
| `CoinNode.CoinNode.HandleTransaction` | crates/mycelium-coin/src/node.rs:105-135 | store, witness and announce: on acceptance always (below the largest cap), on a duplicate exactly when the witness is new |
| `CoinNode.CoinNode.HandleRefill` | crates/mycelium-coin/src/node.rs:152-189 | a refill is paid only to the named cold wallet in time, verified and unmarked; the mark follows a successful broadcast |
| `CoinNode.RefillIff` | crates/mycelium-coin/src/node.rs:152-189 | a refill request changes the ledger if and only if it names this wallet, is in time, verified and unmarked, the key is the wallet's and the transfer, spelled out field by field, is acceptable |
| `CoinNode.MarkedIff` | crates/mycelium-coin/src/node.rs:152-189 | after any run a request is marked exactly when it was marked before, was marked outright, or some payment of it was broadcast |
| `CoinNode.PaidIff` | crates/mycelium-coin/src/node.rs:152-189 | a request is paid at an event exactly when it meets the other conditions there and is not marked by then |
| `CoinNode.PaidAgainIff` | crates/mycelium-coin/src/node.rs:152-189 | without other marks, a request is paid at an event exactly when it is eligible there and no earlier payment of it was broadcast |
| `CoinNode.RefillPaidOnce` | crates/mycelium-coin/src/node.rs:152-189 | every payment of a request but the last had a failed broadcast |
| `CoinNode.FailedBroadcastPaysTwice` | crates/mycelium-coin/src/node.rs:166-189 | with failing broadcasts one request is paid twice |
| `HotWallet.ReturnExcess` | crates/mycelium-coin/src/hot_wallet.rs:99-113 | the loop ends under every policy; it succeeds if and only if every due chunk is accepted in the state after the chunks before it and broadcast; otherwise it stops at the first that is not, counting it only if the ledger took it; only whole chunks moved, each logged with its amount and the next nonce |
| `HotWallet.EnforceCap` | crates/mycelium-coin/src/hot_wallet.rs:84-116 | the excess is returned if and only if there is one and a cold wallet is set; otherwise nothing happens |
| `HotWallet.OutcomeEnforcesCap` | crates/mycelium-coin/src/hot_wallet.rs:84-116 | what was returned are chunks from hot to cold with consecutive nonces, ceil(excess / chunk) of them on success, and no other account changes |
| `HotWallet.SuccessfulReturn` | crates/mycelium-coin/src/hot_wallet.rs:84-116 | success means ceil(excess / chunk) transfers, the cold wallet up by the excess, the hot balance at the limit minus 1000 per transfer |
| `IngestGuard.RateBound` | crates/mycelium-node/src/ingest_guard.rs:58-68 | under a nondecreasing clock every half-open interval of one window admits at most 2 * limit - 1 messages per key |
| `IngestGuard.MomentBound` | crates/mycelium-node/src/ingest_guard.rs:58-68 | with a window of one millisecond every moment admits at most the limit |
| `IngestGuard.RateBoundReached` | crates/mycelium-node/src/ingest_guard.rs:58-68 | both bounds are reached for every limit and every window |
| `IngestGuard.RecordId` | crates/mycelium-node/src/ingest_guard.rs:85-101 | recording and evicting keeps the set and the queue in agreement and the newest ids |
| `IngestGuard.RemembersLast` | crates/mycelium-node/src/ingest_guard.rs:85-101 | after any arrivals the window holds exactly the last ids recorded, each once |
| `IngestGuard.IngestGuard.constructor` | crates/mycelium-node/src/ingest_guard.rs:111-117 | the guard starts empty and valid |
| `IngestGuard.AllowRequest` | crates/mycelium-node/src/ingest_guard.rs:58-68 | verdict and bucket of one key; other keys are untouched |
| `IngestGuard.IngestGuard.IsDuplicate` | crates/mycelium-node/src/ingest_guard.rs:85-101 | verdict and window of one author; set and queue keep agreeing |
| `IngestGuard.IngestGuard.AllowDirect` | crates/mycelium-node/src/ingest_guard.rs:119-135 | freshness, then replay, then rate, with each stage changing only what it should |
| `IngestGuard.IngestGuard.CheckGossip` | crates/mycelium-node/src/ingest_guard.rs:137-168 | size, then rate, then freshness, then replay, with each stage changing only what it should |
| `GuardRuns.GuardMatches` | crates/mycelium-node/src/ingest_guard.rs:58-102 | after any mix of arrivals under a nondecreasing clock the tables hold, for every key, the last 512 ids recorded and the buckets of its requests |
| `GuardRuns.AllowedIff` | crates/mycelium-node/src/ingest_guard.rs:58-68 | a request is admitted if and only if fewer than the limit were admitted since the window opened, or the window is over |
| `GuardRuns.PassesIff` | crates/mycelium-node/src/ingest_guard.rs:119-168 | an arrival passes if and only if it is fresh, not among the last 512 ids recorded for its key, and its key had fewer than 120 direct (60 gossip) messages admitted since the minute opened; gossip also needs an admissible size |
| `GuardRuns.VerdictIff` | crates/mycelium-node/src/ingest_guard.rs:119-168 | every refusal names the first condition that fails, in the order of each kind |
| `GuardRuns.PassesBounded` | crates/mycelium-node/src/ingest_guard.rs:119-168 | in every half-open minute at most 239 direct messages of one author and 119 gossip messages of one peer pass |
| `MessageStore.SledMessageStore.constructor` | crates/mycelium-node/src/storage.rs:16-26 | the arrival list starts empty over whatever the database holds |
| `MessageStore.SledMessageStore.Persist` | crates/mycelium-node/src/storage.rs:59-66 | a new message is stored and listed once |
| `MessageStore.SledMessageStore.GcExpired` | crates/mycelium-node/src/storage.rs:28-46 | exactly the entries older than seven days leave the list and the database |
| `MessageStore.SledMessageStore.ListIdsWindow` | crates/mycelium-node/src/storage.rs:94-102 | the ids that arrived within the window, in order |
| `MessageStore.CollectEntry` | crates/mycelium-node/src/storage.rs:28-46 | a listed message survives collection exactly when it is not outdated |
| `MessageStore.CollectUnlisted` | crates/mycelium-node/src/storage.rs:28-46 | messages of an earlier process are never collected |
| `MessageStore.CollectWellFormed` | crates/mycelium-node/src/storage.rs:28-46 | collection keeps list and database in agreement |
| `MessageStore.RecentExactly` | crates/mycelium-node/src/storage.rs:94-102 | the listed ids are those of exactly the entries no older than the window, in order |
| `Forwarding.DecideLoop` | crates/mycelium-node/src/forwarding.rs:49-88 | the loop with early exit picks the first fanout peers the coin falls for |
| `Forwarding.MaskKeepsIdentity` | crates/mycelium-node/src/node.rs:506-512 | masking sets the relay as sender, records the author, adds one hop within the limit and changes nothing else |
| `Forwarding.TargetsBounded` | crates/mycelium-node/src/node.rs:1176-1239 | at most four targets, all known, never the previous hop |
| `Forwarding.TargetsExactly` | crates/mycelium-node/src/node.rs:1176-1239 | the targets and their order: none unless the message is for someone else, alive and worth the energy; the destination alone if it is known and not the previous hop; otherwise the first peers for which the coin falls, up to 4, 3, 2, 2, 1, 1 or 0 by state and priority |
| `Forwarding.TargetIff` | crates/mycelium-node/src/node.rs:1176-1239 | a peer gets a copy if and only if it is that destination or one of those first peers |
| `Forwarding.SortIsStable` | crates/mycelium-node/src/security.rs:51-71 | peers with equally many strikes keep their order |
| `Forwarding.RelayCandidatesLeastStruck` | crates/mycelium-node/src/security.rs:51-71 | at most the given number of candidates, never the destination, and nobody passed over has fewer strikes than someone chosen |
| `Forwarding.SendTargetsBounded` | crates/mycelium-node/src/node.rs:793-826 | a message of this node goes to at most max(1, max_relay_fanout) known peers |
| `Forwarding.SendTargetsDirect` | crates/mycelium-node/src/node.rs:793-826 | a known destination is the only target; otherwise there are as many relays as the fanout and the known peers allow |
| `Delivery.StoredOnce` | crates/mycelium-node/src/node.rs:1151-1174 | once stored, no copy with the same id and creation time is let in again, through cache eviction, window eviction and garbage collection, if the store keeps it until such copies are stale or expired |
| `Delivery.DeliveredOnce` | crates/mycelium-node/src/node.rs:1151-1174 | no two events of a run deliver the same message |
| `Delivery.LogUnrepeated` | crates/mycelium-node/src/node.rs:1151-1174 | what the application receives in a whole run never repeats a message |
| `Delivery.SyncedNeverDelivered` | crates/mycelium-node/src/node.rs:1306-1313 | a message that sync fetched first is never delivered afterwards, if the store keeps it until copies of it are stale or expired |
| `LateCopies.Resurfaces` | crates/mycelium-node/src/storage.rs:28-46 | a message stamped further ahead than that comes back: from every state it can be flushed from the cache, collected, and then delivered from a late copy |
| `LateCopies.StoredOnceIff` | crates/mycelium-node/src/node.rs:1151-1174 | whichever way a message was stored, no copy is delivered afterwards in any run if and only if creation time plus 30 minutes is at most storing time plus seven days (capped at the end of time) |
| `DeliveryRules.GuardOfRun` | crates/mycelium-node/src/node.rs:1151-1164 | in a run the guard is what the arrivals that reach it make of it |
| `DeliveryRules.SeenIsLast` | crates/mycelium-node/src/node.rs:1647-1682 | the seen cache holds exactly the last ids stored, up to its capacity |
| `DeliveryRules.IngestsIff` | crates/mycelium-node/src/forwarding.rs:130-155 | a message is stored if and only if it is alive, not among the last ids stored and not in the database, and, from outside, passes the guard by the rules of the arrivals before it |
| `DeliveryRules.DeliversIff` | crates/mycelium-node/src/node.rs:1151-1174 | the application receives exactly the data and gossip messages for which that holds |
| `Delivery.NeverBack` | crates/mycelium-node/src/node.rs:1199-1239 | a forwarded copy goes to a known peer other than the previous hop, one hop further and within its limit |
| `Delivery.ForwardedIff` | crates/mycelium-node/src/node.rs:1176-1239 | a peer is queued a copy of an arriving message if and only if the message is stored as new and the peer is one of its targets |
| `Delivery.RelayQueuesAtMostFour` | crates/mycelium-node/src/node.rs:1199-1239 | a node that did not create a message queues at most four copies of it in a whole run |
| `Delivery.OriginQueuesOnSendOnly` | crates/mycelium-node/src/node.rs:771-828 | the node that created it queues at most max(1, max_relay_fanout) copies, echoes adding none |
| `MeshRuns.NetworkCopiesBounded` | crates/mycelium-node/src/node.rs:771-828 | across any network, one message makes all nodes together queue at most max(1, max_relay_fanout) copies at its origin plus four at every other node |
| `PendingQueue.VictimIsEarliestLowest` | crates/mycelium-node/src/node.rs:1552-1575 | the item given up is the earliest of lowest priority |
| `PendingQueue.FindVictim` | crates/mycelium-node/src/node.rs:1558-1567 | the scan with early exit finds that item, and only an empty queue has none |
| `PendingQueue.AliveSelects` | crates/mycelium-node/src/node.rs:1547-1550 | exactly the live items survive, each as often as before and in order |
| `PendingQueue.EvictsLowest` | crates/mycelium-node/src/node.rs:1552-1575 | from a full queue of live items precisely the earliest than which none is of lower priority is removed |
| `PendingQueue.FullQueueGivesUpLowest` | crates/mycelium-node/src/node.rs:1528-1575 | a live item that meets a full queue of live items goes last and precisely that item leaves |
| `PendingQueue.FullQueueGivesUpExpired` | crates/mycelium-node/src/node.rs:1528-1575 | if some items have expired, it goes last behind exactly the live ones |
| `PendingQueue.EnqueueOtherwise` | crates/mycelium-node/src/node.rs:1528-1545 | an expired item changes nothing; with room a live one goes last |
| `PendingQueue.EvictionMakesRoom` | crates/mycelium-node/src/node.rs:1552-1575 | expired items go first, a live one only if none expired; survivors keep their order |
| `PendingQueue.EnqueueBounded` | crates/mycelium-node/src/node.rs:1528-1545 | the queue never exceeds its capacity |
| `PendingQueue.EnqueueKeepsOrder` | crates/mycelium-node/src/node.rs:1528-1545 | with a capacity of at least one a live item always ends up last, behind survivors in order |
| `PendingQueue.PendingQueue.constructor` | crates/mycelium-node/src/node.rs:439-440 | an empty queue with its capacity |
| `PendingQueue.PendingQueue.EvictExpired` | crates/mycelium-node/src/node.rs:1547-1550 | exactly the live items remain, in order |
| `PendingQueue.PendingQueue.EvictOne` | crates/mycelium-node/src/node.rs:1552-1575 | the queue after making room |
| `PendingQueue.PendingQueue.Enqueue` | crates/mycelium-node/src/node.rs:1528-1545 | the queue after a request, with a full live queue losing precisely the earliest item of lowest priority; the full-queue error is unreachable for any capacity but zero |
| `NodeRunner.NodeRunner.constructor` | crates/mycelium-node/src/node.rs:425-445 | a new node has an empty history and has delivered nothing |
| `NodeRunner.NodeRunner.Ingest` | crates/mycelium-node/src/forwarding.rs:130-155 | a live message that is neither seen nor stored is recorded in both; otherwise nothing changes |
| `NodeRunner.NodeRunner.Accept` | crates/mycelium-node/src/node.rs:1151-1174 | hop limit, guard and ingest decide; exactly the newly stored message is delivered |
| `NodeRunner.NodeRunner.AcceptGossip` | crates/mycelium-node/src/node.rs:924-962 | gossip size, rate, freshness, replay and ingest decide; exactly the newly stored message is delivered |
| `NodeRunner.NodeRunner.HandleData` | crates/mycelium-node/src/node.rs:1113-1239 | a Data message takes the node one step of the run model, and its copies pass through the queue |
| `NodeRunner.NodeRunner.HandleGossip` | crates/mycelium-node/src/node.rs:924-962 | so does a gossip message, which is not forwarded |
| `NodeRunner.NodeRunner.SendDirect` | crates/mycelium-node/src/node.rs:771-828 | so does a message of its own |
| `NodeRunner.NodeRunner.CollectGarbage` | crates/mycelium-node/src/storage.rs:28-46 | so does garbage collection |
| `NodeRunner.NodeRunner.HandleSyncData` | crates/mycelium-node/src/node.rs:1306-1313 | a batch is ingested in order and nothing is delivered |
| `NodeRunner.NodeRunner.AnswerSync` | crates/mycelium-node/src/node.rs:1241-1305 | the answer to a sync message |
| `NodeRunner.NodeRunner.SendSyncBloom` | crates/mycelium-node/src/node.rs:1463-1481 | an announcement of the window, unless it is empty |
| `NodeRunner.NodeRunner.ForwardOnce` | crates/mycelium-node/src/node.rs:1413-1453 | expired items are dropped, up to a budget leave from the front, the rest stay |
| `NodeRunner.NodeRunner.NothingDeliveredTwice` | crates/mycelium-node/src/node.rs:1151-1174 | whatever methods were called on a node, under a nondecreasing clock its deliveries never repeat a message |
| `NodeRunner.SentInOrder` | crates/mycelium-node/src/node.rs:1413-1453 | items leave in queue order and only if the energy policy allows |
| `NodeRunner.SentExactly` | crates/mycelium-node/src/node.rs:1413-1453 | exactly the items that are alive at their turn and worth the energy are sent, in order |
| `NodeRunner.BudgetIs` | crates/mycelium-node/src/node.rs:1416-1420 | a turn takes at most ten, four or one items by state |
| `NodeRunner.EnqueueAllWithRoom` | crates/mycelium-node/src/node.rs:1229-1236 | with room, live copies are queued one behind the other in order |
| `Bloom.SetAdds` | crates/mycelium-core/src/sync.rs:27-32 | setting a bit adds that bit and no other |
| `Bloom.FilterBits` | crates/mycelium-core/src/sync.rs:27-32 | a bit is set exactly when it is a bit of an inserted id |
| `Bloom.ContainsIffCovered` | crates/mycelium-core/src/sync.rs:34-42 | an id is accepted exactly when the inserted ids cover all its bits |
| `Bloom.NoFalseNegatives` | crates/mycelium-core/src/sync.rs:27-42 | inserted ids are accepted, and acceptance is monotone |
| `Bloom.SeparatedIsExact` | crates/mycelium-core/src/sync.rs:27-42 | where every id has a bit of its own, acceptance is membership |
| `Bloom.FilterRoundTrip` | crates/mycelium-core/src/sync.rs:44-58 | from_bytes and to_bytes are inverse, and exactly 1024 bytes are accepted |
| `Bloom.BloomFilter.Add` | crates/mycelium-core/src/sync.rs:27-32 | the loop sets the three bits of the id |
| `Bloom.BloomFilter.Query` | crates/mycelium-core/src/sync.rs:34-42 | the loop with early exit decides acceptance |
| `Bloom.Decode` | crates/mycelium-core/src/sync.rs:48-58 | the loop over chunks decodes exactly what the specification decodes |
| `Sync.RepliesDescend` | crates/mycelium-node/src/node.rs:1241-1305 | every answer ranks below its question; an answering filter has less than 0.8 of the count |
| `Sync.ReplyChainFinite` | crates/mycelium-node/src/node.rs:1241-1305 | every chain of answers is bounded by the rank of its first message, however the stores change in between |
| `Sync.FiltersShrink` | crates/mycelium-node/src/node.rs:1264-1279 | the n-th filter of a chain carries at most 0.8 to the power of n of the first count |
| `Sync.ReplyChainLogarithmic` | crates/mycelium-node/src/node.rs:1241-1305 | a chain longer than n + 4 needs a first count of at least 1.25 to the power of n |
| `Sync.NeverOffersAdvertised` | crates/mycelium-node/src/node.rs:1241-1263 | an answer to a filter offers only recent own ids, at most 256, and none that went into the filter |
| `Sync.OfferIs` | crates/mycelium-node/src/node.rs:1248-1253 | the ids considered for an offer are exactly the own recent ids the filter does not accept, in order |
| `Sync.BloomAnswer` | crates/mycelium-node/src/node.rs:1255-1279 | a filter is answered with the first 256 of these, with the own filter, or not at all, as the own ids are more than, less than or exactly 0.8 of the count |
| `Sync.IdsAnswer` | crates/mycelium-node/src/node.rs:1280-1292 | a list is answered with a request for exactly those of its first 256 ids that are not stored |
| `Sync.RequestAnswer` | crates/mycelium-node/src/node.rs:1293-1305 | a request is answered with exactly the stored messages among its first 128 ids |
| `Sync.OneFilterReply` | crates/mycelium-node/src/node.rs:1255-1279 | with unchanged stores a filter is answered by at most one filter |
| `SyncConvergence.OffersAreMissing` | crates/mycelium-node/src/node.rs:1248-1253 | ids offered are distinct, held here and missing there, so nothing advertised is offered |
| `SyncConvergence.StartsReady` | crates/mycelium-node/src/storage.rs:16-26 | a node with an empty database meets the conditions of convergence |
| `SyncConvergence.AnnounceSafe` | crates/mycelium-node/src/node.rs:1241-1313 | with any filter, one announcement and all its answers lose and invent nothing |
| `SyncConvergence.RunSafe` | crates/mycelium-node/src/node.rs:1241-1313 | so does every run of rounds: stores only grow, by copies from the other side, and their union stays |
| `SyncConvergence.RoundProgressIff` | crates/mycelium-node/src/node.rs:1241-1279 | a round changes something exactly when one side has offers and is more than 0.8 of the size of the other |
| `SyncConvergence.RoundCloses` | crates/mycelium-node/src/node.rs:1241-1313 | with exact filters a round strictly lowers the number of transfers missing, or the stores are equal and stay |
| `SyncConvergence.Converges` | crates/mycelium-node/src/node.rs:1241-1313 | with exact filters every run reaches the union on both sides within as many rounds as transfers of 128 ids were missing |
| `Flood.HandleEncrypted` | crates/mycelium-node/src/node.rs:1335-1389 | the copies a node puts into flight |
| `Flood.SpreadCopies` | crates/mycelium-node/src/node.rs:1373-1389 | a relayed copy has one more hop, stays within its limit and never goes back |
| `Flood.SpreadReaches` | crates/mycelium-node/src/node.rs:1512-1526 | a peer gets a copy exactly when the copy is let in, not at its destination and with hops left, and the peer is known, reached and not the previous hop |
| `Flood.FloodsDieOut` | crates/mycelium-node/src/node.rs:1335-1389 | in any run copies handled plus weight in flight never exceed the weight injected |
| `Flood.LosslessFloodExact` | crates/mycelium-node/src/node.rs:1335-1389 | without losses they are equal |
| `Flood.OneFloodBounded` | crates/mycelium-node/src/node.rs:1335-1389 | one copy causes at most (K + 1) to the power of max_hops handlings, in any order |
| `Flood.FloodBoundReached` | crates/mycelium-node/src/node.rs:1335-1389 | for every degree and every copy not at its destination some run handles exactly as many copies as the full tree has nodes and ends with none in flight |
| `Flood.HopsWithinLimit` | crates/mycelium-node/src/node.rs:1373-1381 | no copy in flight exceeds its hop limit |
| `Scheduler.InsertSorted` | crates/mycelium-sim/src/scheduler.rs:30-37 | the queue stays sorted by time, then sequence number |
| `Scheduler.EventScheduler.Push` | crates/mycelium-sim/src/scheduler.rs:60-67 | the event gets the next number and its place |
| `Scheduler.EventScheduler.PopReady` | crates/mycelium-sim/src/scheduler.rs:69-80 | the least event, if due; otherwise nothing is due |
| `Scheduler.EventScheduler.NextTimestamp` | crates/mycelium-sim/src/scheduler.rs:82-84 | the earliest time of any event |
| `Simulation.TurnProgress` | crates/mycelium-sim/src/runner.rs:142-151 | each turn empties the commands, and without commands moves the clock or removes an event |
| `SimulationRuns.LatePush` | crates/mycelium-sim/src/runner.rs:137-140 | scheduling keeps the run timely exactly when it does not reach into the past |
| `SimulationRuns.RunKeeps` | crates/mycelium-sim/src/runner.rs:142-199 | a run keeps the books balanced, the metrics true, every budget short of the largest word kept per peer and second, and, if timely, executes each event exactly at its time in (time, number) order |
| `SimulationRuns.RunOffers` | crates/mycelium-sim/src/runner.rs:205-240 | every waiting command is offered exactly once |
| `SimulationRuns.RunEnds` | crates/mycelium-sim/src/runner.rs:142-151 | a run ends at or after its target with no command waiting and nothing due |
| `SimulationRuns.RunStopsAt` | crates/mycelium-sim/src/runner.rs:142-172 | every run stops exactly at the first event at or after its target, or at the target if there is none |
| `SimulationRuns.NextFromIsLeast` | crates/mycelium-sim/src/scheduler.rs:69-84 | in a sorted queue that event is the earliest from the target on |
| `SimulationRuns.StopsAtTargetIff` | crates/mycelium-sim/src/runner.rs:142-172 | a run ends at its target if and only if, with the waiting commands scheduled, some event is due exactly then or none later |
| `SimulationRuns.LargestBudgetExceeded` | crates/mycelium-sim/src/runner.rs:291-305 | from a new simulation two packets of the largest size exceed a budget of the largest word in one second |
| `SimulationRuns.BudgetKeptIff` | crates/mycelium-sim/src/runner.rs:291-305 | a budget is kept in every run from a new simulation if and only if it is below the largest word |
| `SimulationRules.OfferFate` | crates/mycelium-sim/src/runner.rs:206-240 | the fate of one attempt: offline, skipped, lost by the generator spelled out, or queued after the latency |
| `SimulationRules.CommandFate` | crates/mycelium-sim/src/runner.rs:205-282 | a command is one attempt, or one for each node but the sender |
| `SimulationRules.RunRuled` | crates/mycelium-sim/src/runner.rs:165-199 | after every run each node is online as its last executed switch says, each delivery was handed over if and only if it fitted the budget of its second, and each first arrival is recorded once with its latency |
| `SimulationRunner.SimulationRunner.constructor` | crates/mycelium-sim/src/runner.rs:79-95 | a new simulation is the initial one, sound and timely |
| `SimulationRunner.SimulationRunner.ScheduleAvailability` | crates/mycelium-sim/src/runner.rs:137-140 | the push, and whether the run stays timely |
| `SimulationRunner.SimulationRunner.RollLoss` | crates/mycelium-sim/src/runner.rs:307-316 | the wrapping generator and its verdict |
| `SimulationRunner.SimulationRunner.Attempt` | crates/mycelium-sim/src/runner.rs:206-240 | the fate of one attempt to send |
| `SimulationRunner.SimulationRunner.PublishAll` | crates/mycelium-sim/src/runner.rs:241-282 | one attempt for every other node |
| `SimulationRunner.SimulationRunner.ConsumeBandwidth` | crates/mycelium-sim/src/runner.rs:291-305 | verdict and usage of one peer in one second |
| `SimulationRunner.SimulationRunner.RecordDelivery` | crates/mycelium-sim/src/runner.rs:318-335 | first arrivals and duplicates are told apart |
| `SimulationRunner.SimulationRunner.ExecuteReady` | crates/mycelium-sim/src/runner.rs:173-198 | all due events are executed |
| `SimulationRunner.SimulationRunner.StepUntilNextEvent` | crates/mycelium-sim/src/runner.rs:165-199 | one step of the specification |
| `SimulationRunner.SimulationRunner.RunFor` | crates/mycelium-sim/src/runner.rs:142-151 | the loop ends, computes the specified run and keeps its invariants |
| `PeerCap.ListExplained` | crates/mycelium-node/src/transport.rs:79-119 | behind each listed peer stand exactly those that connected since, and whoever is missing had at least max after it |
| `PeerCap.KeptIffRecent` | crates/mycelium-node/src/transport.rs:285-310 | after any connections a peer is kept exactly when fewer than max others connected since it last did |
| `PeerCap.DirectPeerCap.constructor` | crates/mycelium-node/src/transport.rs:50-57 | an empty cap |
| `PeerCap.DirectPeerCap.Touch` | crates/mycelium-node/src/transport.rs:79-83 | a tracked peer becomes the most recent |
| `PeerCap.DirectPeerCap.Remove` | crates/mycelium-node/src/transport.rs:85-88 | set and table both lose the peer, the order of the others stays |
| `PeerCap.DirectPeerCap.FindLeastRecentlyUsed` | crates/mycelium-node/src/transport.rs:113-118 | a peer of least time, in any order of traversal |
| `PeerCap.DirectPeerCap.Admit` | crates/mycelium-node/src/transport.rs:91-106 | who is evicted and when; only a cap of zero rejects |
| `PeerCap.DirectPeerCap.Insert` | crates/mycelium-node/src/transport.rs:108-111 | set and table both gain the peer, which becomes the most recent |
| `PeerCap.DirectPeerCap.Connect` | crates/mycelium-node/src/transport.rs:285-310 | set, table and eviction together are one step of the recency list |
| `PaymentUri.DecimalParses` | crates/mycelium-coin/src/payment.rs:30-52 | printing and parsing a 64-bit number |
| `PaymentUri.ParsesIff` | crates/mycelium-coin/src/payment.rs:49-56 | a text parses to a number if and only if it is its numeral behind zeros and at most one plus sign, and the number has 64 bits |
| `PaymentUri.DecodePlain` | crates/mycelium-coin/src/payment.rs:54 | text without a valid escape decodes to itself |
| `PaymentUri.SplitIsInverse` | crates/mycelium-coin/src/payment.rs:48 | splitting at ampersands is the inverse of joining |
| `PaymentUri.DecodeEncode` | crates/mycelium-coin/src/payment.rs:32-54 | percent-decoding undoes percent-encoding for every byte string |
| `PaymentUri.EncodePlain` | crates/mycelium-coin/src/payment.rs:32 | encoded text has only unreserved characters and percent signs |
| `PaymentUri.PrintUri` | crates/mycelium-coin/src/payment.rs:29-38 | the printed text |
| `PaymentUri.ParseUri` | crates/mycelium-coin/src/payment.rs:40-64 | the loop reads parameters from left to right, later ones winning and an invalid memo failing |
| `PaymentUri.ReadsExactly` | crates/mycelium-coin/src/payment.rs:48-58 | reading succeeds if and only if every memo is valid text, and then each field is what its last parameter says |
| `PaymentUri.ParsesExactly` | crates/mycelium-coin/src/payment.rs:40-58 | the address ends at the first question mark and the rest are parameters |
| `PaymentUri.SchemeIff` | crates/mycelium-coin/src/payment.rs:41-43 | exactly the texts without the scheme are refused as such |
| `PaymentUri.RoundTripIff` | crates/mycelium-coin/src/payment.rs:29-64 | parsing recovers a printed request if and only if its address has no question mark |
| `MailIndex.FixedDecimalOrder` | crates/mycelium-app/src/storage.rs:369-371 | fixed-width numerals sort like numbers |
| `MailIndex.PaddedIsFixed` | crates/mycelium-app/src/storage.rs:369-371 | zero padding gives the fixed-width numeral |
| `MailIndex.GroupedOrder` | crates/mycelium-app/src/storage.rs:369-371 | hyphenated hexadecimal text sorts like the bytes |
| `MailIndex.KeyOrder` | crates/mycelium-app/src/storage.rs:369-371 | byte order of keys is the order of time, then id, and keys are equal only for equal time and id |
| `MailIndex.TreeHoldsLatest` | crates/mycelium-app/src/storage.rs:158-165 | after any saves the box holds exactly the last mail of every time and id, in order |
| `MailIndex.NewestMails` | crates/mycelium-app/src/storage.rs:356-363 | reverse iteration gives exactly the newest mails, newest first |
| `MailIndex.MailBox.constructor` | crates/mycelium-app/src/storage.rs:158-159 | an empty box |
| `MailIndex.MailBox.Save` | crates/mycelium-app/src/storage.rs:158-165 | one insertion |
| `MailIndex.MailBox.Newest` | crates/mycelium-app/src/storage.rs:176-179 | the newest of all mails ever saved |

## Left out

- Cryptography: signatures, hashes, addresses and encryption are arbitrary functions; verification of relayed copies is an arbitrary verdict.
- I/O errors of the databases and of serialization: tables are maps, and encoded sizes are inputs.
- Clock: readings are inputs. Handling one sync message uses one reading; `Delivery` distinguishes every reading.
- Concurrency inside one operation: `enforce_cap` and `handle_incoming` run without other ledger operations in between.
- Changes of the settlement policy during a run.
- Throttling, signature checks, scope subscriptions, strikes, rewards and metrics of the node: folded into an arbitrary verdict per event.
- `broadcast_scoped` (node.rs:830-861): a loop that makes one own message per target, each stored and queued like a `Send` to a known peer.
- Amounts in histories with out-of-order stamps: `VelocityBounds.AnyOrderBoundIff` breaks the count limit; how far the amount limit alone can be exceeded depends on how many early stamps fit before the late ones.
- The gossip arms of the node differ only in how they build the message; they are one event.
- The comparison with 0.8 of a count is rational; the source compares floating-point numbers, which agree for counts below 2^50.
- Convergence is proved for filters that are exact on the ids involved; with false positives `SyncConvergence.RoundProgressIff` says when two nodes are stuck.
- Convergence starts from stores whose messages all arrived in this process and within the ten-minute window (`SyncConvergence.Ready`); messages of an earlier process are never announced.
- Sync between more than two nodes, and sync while messages expire or are collected.
- `EncryptedGroup` messages: they are forwarded without a hop limit, so they are not part of `Flood`.
- Delivery of `EncryptedDirect` messages to the application: they get a new id on arrival and bypass the store.
- Simulation counters and the scheduler's sequence number are unbounded; `run_for_async`, node start-up and registration are not modelled. The order in which the node table is traversed is a fixed input.
- SimulationRunner.SimulationRunner.RunFor: commands that arrive while the loop is running are not modelled; all commands are waiting when it starts.
- SimulationRunner.SimulationRunner.Attempt: takes the size of a wire message as an input instead of computing it.
- PeerCap.DirectPeerCap.Connect: the recency list is promised when the clock has moved on since every recorded time; with equal times the victim is still one of least time.
- Refill amounts (`maybe_refill`), balance queries, listings of recent transactions and of recent messages: one branch or one sort each.
- PaymentUri.ParseUri: takes a predicate for valid UTF-8 and does not produce the random request id.
- MailIndex.MailBox.Save: stores the mail as a value; the sent box is the same code as the inbox.
- libp2p, Kademlia, mDNS, gossipsub, relay binary, HTTP, mobile, desktop and command-line front ends, mini-app bundles, proximity, contacts, groups and invites.
