/** Copies of one message across a whole network of nodes. */
module MeshRuns {
  import opened Words
  import opened Sums
  import opened Mesh
  import opened MessageStore
  import opened Forwarding
  import opened Delivery

  /** What one node went through. */
  datatype NodeRun = NodeRun(cfg: Config, start: View, events: seq<Event>)

  function Copies(r: NodeRun, id: Id, createdAt: u64): nat {
    CopiesQueued(r.cfg, r.start, r.events, id, createdAt)
  }

  ghost predicate Proper(r: NodeRun) {
    WellFormed(r.start.store) && ClockRuns(r.events)
  }

  /** The node's run, as far as the message is concerned, begins with sending it, once. */
  ghost predicate Originates(r: NodeRun, id: Id, createdAt: u64) {
    && Proper(r) && r.events != []
    && IsSend(r.events[0], id, createdAt) && Ingests(r.start, r.events[0]) && Outlasts(createdAt, r.events[0].persistNow)
    && forall k :: 0 < k < |r.events| ==> !IsSend(r.events[k], id, createdAt)
  }

  ghost predicate OnlyRelays(r: NodeRun, id: Id, createdAt: u64) {
    Proper(r) && forall k :: 0 <= k < |r.events| ==> !IsSend(r.events[k], id, createdAt)
  }

  ghost function CopiesAt(runs: map<Peer, NodeRun>, id: Id, createdAt: u64): Peer -> int {
    (p: Peer) => if p in runs then Copies(runs[p], id, createdAt) else 0
  }

  /** One message makes the whole network queue at most max(1, fanout) copies at its origin and
  four at every other node, however long the run, whatever the nodes receive and in whatever order. */
  lemma NetworkCopiesBounded(runs: map<Peer, NodeRun>, origin: Peer, id: Id, createdAt: u64)
    requires origin in runs && Originates(runs[origin], id, createdAt)
    requires forall p :: p in runs && p != origin ==> OnlyRelays(runs[p], id, createdAt)
    ensures SumOver(runs.Keys, CopiesAt(runs, id, createdAt)) <=
            Max(1, runs[origin].cfg.maxRelayFanout) + 4 * (|runs| - 1)
  {
    var f, others := CopiesAt(runs, id, createdAt), runs.Keys - {origin};
    OriginQueuesOnSendOnly(runs[origin].cfg, runs[origin].start, runs[origin].events);
    forall p | p in others
      ensures f(p) <= 4
    {
      assert OnlyRelays(runs[p], id, createdAt);
      RelayQueuesAtMostFour(runs[p].cfg, runs[p].start, runs[p].events, id, createdAt);
    }
    SumRemove(runs.Keys, f, origin);
    SumAtMost(others, f, 4);
    assert |others| == |runs| - 1;
  }
}
