/** One node as an object: every event it handles is a step of `Delivery`, every sync message is
answered as in `Sync`, and every copy to send goes through the bounded queue
(crates/mycelium-node/src/node.rs).
*/
module NodeRunner {
  import opened Words
  import opened Mesh
  import opened Sequences
  import G = IngestGuard
  import opened MessageStore
  import opened Forwarding
  import opened Delivery
  import opened Sync
  import Q = PendingQueue

  /** The two clock readings of the `k`-th request to send: the expiry test and the eviction. */
  type Readings = nat -> (u64, u64)

  /** The queue after several requests to send, in order. */
  function EnqueueAll(q: seq<Q.Pending>, cap: nat, copies: seq<(Peer, Message)>, clock: Readings): seq<Q.Pending> {
    if copies == [] then q else
      var k := |copies| - 1;
      Q.Enqueued(EnqueueAll(q, cap, copies[..k], clock), cap, Q.Pending(copies[k].0, copies[k].1), clock(k).0, clock(k).1)
  }

  /** With room for all of them, live copies are queued one behind the other, in order. */
  lemma {:induction false} EnqueueAllWithRoom(q: seq<Q.Pending>, cap: nat, copies: seq<(Peer, Message)>, clock: Readings)
    requires |q| + |copies| <= cap && forall k: nat :: k < |copies| ==> clock(k).0 < copies[k].1.Expiry()
    ensures |EnqueueAll(q, cap, copies, clock)| == |q| + |copies|
    ensures q <= EnqueueAll(q, cap, copies, clock)
    ensures forall k: nat :: k < |copies| ==> EnqueueAll(q, cap, copies, clock)[|q| + k] == Q.Pending(copies[k].0, copies[k].1)
    decreases |copies|
  {
    if copies != [] {
      EnqueueAllWithRoom(q, cap, copies[..|copies| - 1], clock);
    }
  }

  function Addressed(targets: seq<Peer>, m: Message): (r: seq<(Peer, Message)>)
    ensures |r| == |targets| && forall i :: 0 <= i < |r| ==> r[i] == (targets[i], m)
  {
    seq(|targets|, i requires 0 <= i < |targets| => (targets[i], m))
  }

  // ---------------------------------------------------- sending from the queue

  function Budget(state: NodeState): nat {
    match state case Active => 10 case Intermittent => 4 case Passive => 1
  }

  /** Of the first `n` items, those that are sent; `clock(k)` is read for item `k`. */
  function Sent(q: seq<Q.Pending>, n: nat, state: NodeState, clock: nat -> u64): seq<Q.Pending>
    requires n <= |q|
  {
    if n == 0 then [] else
      Sent(q, n - 1, state, clock) +
      (if !q[n - 1].m.Expired(clock(n - 1)) && CanForward(state, q[n - 1].m.priority) then [q[n - 1]] else [])
  }

  lemma SentPush(sent: seq<Q.Pending>, earlier: seq<Q.Pending>, item: Q.Pending, goes: bool, sent': seq<Q.Pending>, all: seq<Q.Pending>)
    requires Subsequence(sent, earlier) && all == earlier + [item] && sent' == sent + if goes then [item] else []
    ensures Subsequence(sent', all)
  {
    SubsequencePush(sent, earlier, item);
    assert goes || sent' == sent;
  }

  /** Items leave in the order in which they were queued. */
  lemma {:induction false} SentInOrder(q: seq<Q.Pending>, n: nat, state: NodeState, clock: nat -> u64, sent: seq<Q.Pending>)
    requires n <= |q| && sent == Sent(q, n, state, clock)
    ensures Subsequence(sent, q[..n])
    ensures forall item :: item in sent ==> CanForward(state, item.m.priority)
    decreases n
  {
    if n > 0 {
      var before, item := Sent(q, n - 1, state, clock), q[n - 1];
      SentInOrder(q, n - 1, state, clock, before);
      var goes := !item.m.Expired(clock(n - 1)) && CanForward(state, item.m.priority);
      SentPush(before, q[..n - 1], item, goes, sent, q[..n]);
    }
  }

  /** Item `k` is alive when its turn comes and worth the energy. */
  predicate Goes(q: seq<Q.Pending>, k: nat, state: NodeState, clock: nat -> u64) {
    && k < |q| && clock(k) < q[k].m.Expiry()
    && (state == Active || q[k].m.priority == High || (state == Intermittent && q[k].m.priority == Normal))
  }

  function GoingBefore(q: seq<Q.Pending>, n: nat, state: NodeState, clock: nat -> u64): nat {
    if n == 0 then 0 else GoingBefore(q, n - 1, state, clock) + (if Goes(q, n - 1, state, clock) then 1 else 0)
  }

  /** Exactly the items that may go are sent, each at the place given by how many went before it. */
  lemma {:induction false} SentExactly(q: seq<Q.Pending>, n: nat, state: NodeState, clock: nat -> u64, sent: seq<Q.Pending>, k: nat)
    requires n <= |q| && sent == Sent(q, n, state, clock)
    ensures |sent| == GoingBefore(q, n, state, clock)
    ensures k < n && Goes(q, k, state, clock) ==>
              GoingBefore(q, k, state, clock) < |sent| && sent[GoingBefore(q, k, state, clock)] == q[k]
    decreases n
  {
    if n > 0 {
      var before := Sent(q, n - 1, state, clock);
      SentExactly(q, n - 1, state, clock, before, k);
    }
  }

  /** A turn of the sender takes at most ten items, four or one, as the node is active, intermittent or passive. */
  lemma BudgetIs(state: NodeState, n: nat)
    requires (state == Active && n == 10) || (state == Intermittent && n == 4) || (state == Passive && n == 1)
    ensures Budget(state) == n
  {}

  class NodeRunner {
    const cfg: Config
    const hash: B.Hash
    const guard: G.IngestGuard
    const store: SledMessageStore
    const queue: Q.PendingQueue
    var seen: G.RecentIds
    /** What has been handed to the application through `incoming_tx`. */
    var delivered: seq<Message>
    ghost const start: View
    ghost var history: seq<Event>

    ghost function Contents(): View
      reads this, guard, store
    {
      View(seen, guard.Contents(), store.Contents())
    }

    ghost predicate Sound()
      reads this, guard, store, queue
    {
      guard.Valid() && queue.Valid() && G.Agrees(seen) && WellFormed(store.Contents()) && WellFormed(start.store)
    }

    /** The node is where its history leads, and the application has received what that history delivers. */
    ghost predicate Valid()
      reads this, guard, store, queue
    {
      && Sound()
      && Contents() == ViewAfter(cfg, start, history)
      && delivered == DeliveredLog(cfg, start, history)
    }

    constructor (cfg: Config, hash: B.Hash, db: map<Id, Message>, pendingCap: nat)
      ensures Valid() && history == [] && delivered == [] && queue.pending == []
      ensures this.cfg == cfg && this.hash == hash && queue.cap == pendingCap
      ensures Contents() == View(G.NO_IDS, G.Guard(map[], map[], map[]), Store(db, []))
      ensures fresh(guard) && fresh(store) && fresh(queue)
    {
      this.cfg, this.hash := cfg, hash;
      guard := new G.IngestGuard();
      store := new SledMessageStore(db);
      queue := new Q.PendingQueue(pendingCap);
      seen, delivered := G.NO_IDS, [];
      start, history := View(G.NO_IDS, G.Guard(map[], map[], map[]), Store(db, [])), [];
    }

    /** Whatever the node has been through, under a clock that does not run backwards the
    application has not received any message twice. */
    lemma NothingDeliveredTwice()
      requires Valid() && ClockRuns(history)
      ensures Unrepeated(delivered)
    {
      LogUnrepeated(cfg, start, history);
    }

    method Ingest(m: Message, now: u64, persistNow: u64) returns (ok: bool)
      requires Sound()
      modifies this`seen, store
      ensures Sound()
      ensures ok == New(old(Contents()), m, now)
      ensures Contents() == if ok then Stored(cfg, old(Contents()), m, persistNow) else old(Contents())
    {
      if m.Expired(now) {
        return false;
      }
      if m.id in seen.members || m.id in store.db {
        return false;
      }
      seen := G.RecordId(seen, m.id, cfg.seenCap);
      store.Persist(m, persistNow);
      return true;
    }

    method EnqueueEach(copies: seq<(Peer, Message)>, clock: Readings)
      requires queue.Valid()
      modifies queue
      ensures queue.Valid()
      ensures queue.pending == EnqueueAll(old(queue.pending), queue.cap, copies, clock)
    {
      for k := 0 to |copies|
        invariant queue.Valid() && queue.pending == EnqueueAll(old(queue.pending), queue.cap, copies[..k], clock)
      {
        assert copies[..k + 1][..k] == copies[..k];
        var _ := queue.Enqueue(Q.Pending(copies[k].0, copies[k].1), clock(k).0, clock(k).1);
      }
      assert copies[..|copies|] == copies;
    }

    /** The guard, the seen cache and the store decide on a `Data` message; a new one is delivered. */
    method Accept(e: Event) returns (accepted: bool)
      requires Sound() && e.DataIn?
      modifies this`seen, this`delivered, guard, store
      ensures Sound() && accepted == Delivers(old(Contents()), e)
      ensures Contents() == After(cfg, old(Contents()), e)
      ensures delivered == old(delivered) + if accepted then [e.m] else []
    {
      var m := e.m;
      if !e.pass || m.hopCount >= m.maxHops {
        return false;
      }
      var reject := guard.AllowDirect(m.Author(), m.id, m.createdAt, e.guardNow);
      if reject.Some? {
        return false;
      }
      accepted := Ingest(m, e.ingestNow, e.persistNow);
      if accepted {
        delivered := delivered + [m];
      }
    }

    /** A `Data` message arrives. */
    method HandleData(e: Event, clock: Readings)
      requires Valid() && e.DataIn?
      modifies this`seen, this`delivered, this`history, guard, store, queue
      ensures Valid() && history == old(history) + [e]
      ensures Contents() == After(cfg, old(Contents()), e)
      ensures queue.pending == EnqueueAll(old(queue.pending), queue.cap, Enqueues(cfg, old(Contents()), e), clock)
    {
      HistoryPush(cfg, start, history, e);
      history := history + [e];
      var accepted := Accept(e);
      if accepted {
        var targets := ForwardTargets(cfg, e);
        EnqueueEach(Addressed(targets, Masked(cfg, e.m)), clock);
      }
    }

    /** The guard, the seen cache and the store decide on a gossip message; a new one is delivered. */
    method AcceptGossip(e: Event) returns (accepted: bool)
      requires Sound() && e.GossipIn?
      modifies this`seen, this`delivered, guard, store
      ensures Sound() && accepted == Delivers(old(Contents()), e)
      ensures Contents() == After(cfg, old(Contents()), e)
      ensures delivered == old(delivered) + if accepted then [e.m] else []
    {
      if !e.pass {
        return false;
      }
      var reject := guard.CheckGossip(e.from, e.m.id, e.size, e.m.createdAt, e.guardNow);
      if reject.Some? {
        return false;
      }
      accepted := Ingest(e.m, e.ingestNow, e.persistNow);
      if accepted {
        delivered := delivered + [e.m];
      }
    }

    method HandleGossip(e: Event)
      requires Valid() && e.GossipIn?
      modifies this`seen, this`delivered, this`history, guard, store
      ensures Valid() && history == old(history) + [e]
      ensures Contents() == After(cfg, old(Contents()), e)
    {
      HistoryPush(cfg, start, history, e);
      history := history + [e];
      var _ := AcceptGossip(e);
    }

    /** A message of this node's own is stored and queued. */
    method SendDirect(e: Event, clock: Readings)
      requires Valid() && e.Send?
      modifies this`seen, this`history, store, queue
      ensures Valid() && history == old(history) + [e]
      ensures Contents() == After(cfg, old(Contents()), e)
      ensures queue.pending == EnqueueAll(old(queue.pending), queue.cap, Enqueues(cfg, old(Contents()), e), clock)
    {
      HistoryPush(cfg, start, history, e);
      history := history + [e];
      var _ := Ingest(e.m, e.ingestNow, e.persistNow);
      var targets := if e.to in e.known then [e.to] else RelayCandidates(e.known, e.to, e.strikes, cfg.maxRelayFanout);
      EnqueueEach(Addressed(targets, e.m), clock);
    }

    method CollectGarbage(now: u64)
      requires Valid()
      modifies this`history, store
      ensures Valid() && history == old(history) + [Gc(now)]
      ensures Contents() == After(cfg, old(Contents()), Gc(now))
    {
      HistoryPush(cfg, start, history, Gc(now));
      history := history + [Gc(now)];
      var _ := store.GcExpired(now);
    }

    /** One turn of the sender: drop what has expired, then take up to a budget from the front. */
    method ForwardOnce(state: NodeState, evictNow: u64, clock: nat -> u64) returns (sent: seq<Q.Pending>)
      requires queue.Valid()
      modifies queue
      ensures queue.Valid()
      ensures var alive := Q.Alive(old(queue.pending), evictNow);
              var n := Min(Budget(state), |alive|);
              queue.pending == alive[n..] && sent == Sent(alive, n, state, clock)
    {
      queue.EvictExpired(evictNow);
      Q.AliveSurvive(old(queue.pending), evictNow);
      var n;
      sent, n := SendFront(queue.pending, state, clock);
      queue.pending := queue.pending[n..];
    }

    /** `send_sync_bloom`: announce the ids of the sync window, unless there are none. */
    method SendSyncBloom(now: u64) returns (w: Option<Wire>)
      ensures var ids := OwnIds(Contents(), now); w == if ids == [] then None else Some(Announcement(hash, ids))
    {
      var ids := store.ListIdsWindow(now, SYNC_WINDOW_MS);
      if |ids| == 0 {
        return None;
      }
      var bytes := FilterBytes(hash, ids);
      return Some(SyncBloom(bytes, |ids|));
    }

    /** Answers a sync message; nothing changes. */
    method AnswerSync(w: Wire, now: u64) returns (reply: Option<Wire>)
      requires !w.SyncData?
      ensures reply == Reply(hash, Contents(), w, now)
    {
      match w
      case SyncBloom(bloom, count) =>
        var remote := B.Decode(bloom);
        if remote.None? {
          return None;
        }
        var own := store.ListIdsWindow(now, SYNC_WINDOW_MS);
        reply := AnswerBloom(hash, own, remote.value, count);
      case SyncIds(ids) =>
        var missing := NotStored(store.db, Take(ids, 256));
        reply := if |missing| == 0 then None else Some(SyncRequest(missing));
      case SyncRequest(ids) =>
        var messages := LoadStored(store.db, Take(ids, 128));
        reply := if |messages| == 0 then None else Some(SyncData(messages));
    }

    method HandleSynced(e: Event)
      requires Valid() && e.SyncIn?
      modifies this`seen, this`history, store
      ensures Valid() && history == old(history) + [e]
      ensures Contents() == After(cfg, old(Contents()), e)
    {
      HistoryPush(cfg, start, history, e);
      history := history + [e];
      var _ := Ingest(e.m, e.ingestNow, e.persistNow);
    }

    /** A batch of fetched messages is stored; nothing is handed to the application. */
    method HandleSyncData(messages: seq<Message>, now: u64)
      requires Valid()
      modifies this`seen, this`history, store
      ensures Valid() && history == old(history) + SyncEvents(messages, now)
      ensures Contents() == IngestAll(cfg, old(Contents()), messages, now)
    {
      for i := 0 to |messages|
        invariant Valid() && history == old(history) + SyncEvents(messages[..i], now)
        invariant Contents() == IngestAll(cfg, old(Contents()), messages[..i], now)
      {
        assert messages[..i + 1] == messages[..i] + [messages[i]];
        SyncPush(cfg, old(Contents()), messages[..i], messages[i], now);
        HandleSynced(SyncIn(messages[i], now, now));
      }
      assert messages[..|messages|] == messages;
    }
  }

  /** The events of a batch handled at one clock reading. */
  function SyncEvents(messages: seq<Message>, now: u64): (r: seq<Event>)
    ensures |r| == |messages| && forall i :: 0 <= i < |r| ==> r[i] == SyncIn(messages[i], now, now)
  {
    seq(|messages|, i requires 0 <= i < |messages| => SyncIn(messages[i], now, now))
  }

  lemma SyncPush(cfg: Config, v: View, messages: seq<Message>, m: Message, now: u64)
    ensures SyncEvents(messages + [m], now) == SyncEvents(messages, now) + [SyncIn(m, now, now)]
    ensures IngestAll(cfg, v, messages + [m], now) == After(cfg, IngestAll(cfg, v, messages, now), SyncIn(m, now, now))
  {
    assert (messages + [m])[..|messages|] == messages;
  }

  lemma HistoryPush(cfg: Config, start: View, history: seq<Event>, e: Event)
    ensures ViewAfter(cfg, start, history + [e]) == After(cfg, ViewAfter(cfg, start, history), e)
    ensures DeliveredLog(cfg, start, history + [e]) ==
            DeliveredLog(cfg, start, history) + (if Delivers(ViewAfter(cfg, start, history), e) then [e.m] else [])
  {
    assert (history + [e])[..|history|] == history;
  }

  /** Takes items from the front until the budget is spent or none is left. */
  method SendFront(q: seq<Q.Pending>, state: NodeState, clock: nat -> u64) returns (sent: seq<Q.Pending>, n: nat)
    ensures n == Min(Budget(state), |q|)
    ensures sent == Sent(q, n, state, clock)
  {
    sent, n := [], 0;
    while n < Budget(state) && n < |q|
      invariant n <= Min(Budget(state), |q|) && sent == Sent(q, n, state, clock)
    {
      if !q[n].m.Expired(clock(n)) && CanForward(state, q[n].m.priority) {
        sent := sent + [q[n]];
      }
      n := n + 1;
    }
  }

  method OtherPeers(known: seq<Peer>, from: Peer) returns (peers: seq<Peer>)
    ensures peers == Without(known, from)
  {
    peers := [];
    for i := 0 to |known|
      invariant peers == Without(known[..i], from)
    {
      assert known[..i + 1][..i] == known[..i];
      if known[i] != from {
        peers := peers + [known[i]];
      }
    }
    assert known[..|known|] == known;
  }

  /** Where an accepted message goes next. */
  method ForwardTargets(cfg: Config, e: Event) returns (targets: seq<Peer>)
    requires e.DataIn?
    ensures targets == Targets(cfg, e.m, e.from, e.known, e.state, e.forwardNow, e.decideNow)
  {
    if e.m.toPeer == Some(cfg.local) || e.m.Expired(e.forwardNow) || !CanForward(e.state, e.m.priority) {
      return [];
    }
    var peers := OtherPeers(e.known, e.from);
    if e.m.toPeer.Some? && e.m.toPeer.value in peers {
      return [e.m.toPeer.value];
    }
    var d := DecideLoop(cfg, e.m, peers, e.state, e.decideNow);
    targets := if d.ForwardTo? then d.targets else [];
  }

  method FilterBytes(hash: B.Hash, ids: seq<Id>) returns (bytes: seq<bv8>)
    ensures bytes == B.ToBytes(B.FilterOf(hash, ids))
  {
    var bloom := new B.BloomFilter(hash);
    for i := 0 to |ids|
      invariant bloom.hash == hash && bloom.bits == B.FilterOf(hash, ids[..i])
    {
      assert ids[..i + 1][..i] == ids[..i];
      bloom.Add(ids[i]);
    }
    assert ids[..|ids|] == ids;
    bytes := B.ToBytes(bloom.bits);
  }

  method AnswerBloom(hash: B.Hash, own: seq<Id>, remote: B.Filter, count: nat) returns (reply: Option<Wire>)
    ensures reply == BloomReply(hash, own, remote, count)
  {
    var unknown := [];
    for i := 0 to |own|
      invariant unknown == Unknown(hash, remote, own[..i])
    {
      assert own[..i + 1][..i] == own[..i];
      if !B.Contains(hash, remote, own[i]) {
        unknown := unknown + [own[i]];
      }
    }
    assert own[..|own|] == own;
    if 5 * |own| > 4 * count && |unknown| > 0 {
      return Some(SyncIds(Take(unknown, 256)));
    } else if 5 * |own| < 4 * count {
      var bytes := FilterBytes(hash, own);
      return Some(SyncBloom(bytes, |own|));
    }
    return None;
  }

  method NotStored(db: map<Id, Message>, ids: seq<Id>) returns (missing: seq<Id>)
    ensures missing == Absent(db, ids)
  {
    missing := [];
    for i := 0 to |ids|
      invariant missing == Absent(db, ids[..i])
    {
      assert ids[..i + 1][..i] == ids[..i];
      if ids[i] !in db {
        missing := missing + [ids[i]];
      }
    }
    assert ids[..|ids|] == ids;
  }

  method LoadStored(db: map<Id, Message>, ids: seq<Id>) returns (messages: seq<Message>)
    ensures messages == Load(db, ids)
  {
    messages := [];
    for i := 0 to |ids|
      invariant messages == Load(db, ids[..i])
    {
      assert ids[..i + 1][..i] == ids[..i];
      if ids[i] in db {
        messages := messages + [db[ids[i]]];
      }
    }
    assert ids[..|ids|] == ids;
  }
}
