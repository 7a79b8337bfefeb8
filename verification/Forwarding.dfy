/** Which peers a message is forwarded to (crates/mycelium-node/src/forwarding.rs, security.rs, node.rs). */
module Forwarding {
  import opened Words
  import opened Mesh
  import opened Sequences

  /** `chooses` stands for the hash-based coin of `should_forward_to`; `relay` for the relay
  identity that replaces the sender of a forwarded message. */
  datatype Config = Config(
    local: Peer,
    relay: Peer,
    seenCap: nat,
    maxRelayFanout: nat,
    chooses: (Peer, Id, NodeState) -> bool)

  function BaseFanout(state: NodeState, priority: Priority): (n: nat)
    ensures n <= 4
  {
    match state
    case Active => (match priority case High => 4 case Normal => 3 case Low => 2)
    case Intermittent => (match priority case High => 2 case Normal => 1 case Low => 0)
    case Passive => if priority == High then 1 else 0
  }

  predicate CanForward(state: NodeState, priority: Priority) {
    match state
    case Active => true
    case Intermittent => priority != Low
    case Passive => priority == High
  }

  /** The peers for which the coin falls, in order. */
  function Chosen(cfg: Config, peers: seq<Peer>, id: Id, state: NodeState): seq<Peer> {
    if peers == [] then [] else
      var last := peers[|peers| - 1];
      Chosen(cfg, peers[..|peers| - 1], id, state) + (if cfg.chooses(last, id, state) then [last] else [])
  }

  function Take<T>(s: seq<T>, n: nat): (r: seq<T>)
    ensures |r| == Min(|s|, n)
  {
    if |s| <= n then s else s[..n]
  }

  lemma {:induction false} ChosenMembers(cfg: Config, peers: seq<Peer>, id: Id, state: NodeState)
    ensures forall q :: q in Chosen(cfg, peers, id, state) <==> q in peers && cfg.chooses(q, id, state)
    decreases |peers|
  {
    if peers != [] {
      ChosenMembers(cfg, peers[..|peers| - 1], id, state);
      assert peers == peers[..|peers| - 1] + [peers[|peers| - 1]];
    }
  }

  // -------------------------------------------------------------- decisions

  datatype Decision = DeliverLocal | ForwardTo(targets: seq<Peer>) | Hold | Drop

  function Decide(cfg: Config, m: Message, peers: seq<Peer>, state: NodeState, now: u64): Decision {
    if m.toPeer == Some(cfg.local) then DeliverLocal
    else if m.Expired(now) then Drop
    else
      var selected := Take(Chosen(cfg, peers, m.id, state), BaseFanout(state, m.priority));
      if selected == [] then Hold else ForwardTo(selected)
  }

  /** `decide` picks the first `fanout` peers the coin falls for and stops looking. */
  method DecideLoop(cfg: Config, m: Message, peers: seq<Peer>, state: NodeState, now: u64) returns (d: Decision)
    ensures d == Decide(cfg, m, peers, state, now)
  {
    if m.toPeer.Some? && m.toPeer.value == cfg.local {
      return DeliverLocal;
    }
    if m.Expired(now) {
      return Drop;
    }
    var fanout := BaseFanout(state, m.priority);
    if fanout == 0 || |peers| == 0 {
      return Hold;
    }
    var selected, i := [], 0;
    while i < |peers|
      invariant 0 <= i <= |peers|
      invariant selected == Chosen(cfg, peers[..i], m.id, state) && |selected| < fanout
    {
      assert peers[..i + 1][..i] == peers[..i];
      if cfg.chooses(peers[i], m.id, state) {
        selected := selected + [peers[i]];
        if |selected| >= fanout {
          FirstChosen(cfg, peers, i + 1, m.id, state, selected);
          return ForwardTo(selected);
        }
      }
      i := i + 1;
    }
    assert peers[..|peers|] == peers;
    return if |selected| == 0 then Hold else ForwardTo(selected);
  }

  lemma FirstChosen(cfg: Config, peers: seq<Peer>, n: nat, id: Id, state: NodeState, selected: seq<Peer>)
    requires n <= |peers| && selected == Chosen(cfg, peers[..n], id, state)
    ensures Take(Chosen(cfg, peers, id, state), |selected|) == selected
  {
    ChosenExtends(cfg, peers, n, id, state);
  }

  lemma {:induction false} ChosenExtends(cfg: Config, peers: seq<Peer>, n: nat, id: Id, state: NodeState)
    requires n <= |peers|
    ensures Chosen(cfg, peers[..n], id, state) <= Chosen(cfg, peers, id, state)
    decreases |peers|
  {
    if n == |peers| {
      assert peers[..n] == peers;
    } else {
      var earlier := peers[..|peers| - 1];
      assert earlier[..n] == peers[..n];
      ChosenExtends(cfg, earlier, n, id, state);
    }
  }

  // ------------------------------------------------- forwarding one message

  /** The copy a relay passes on: one hop further, under the relay's name, with the author kept. */
  function Masked(cfg: Config, m: Message): Message {
    m.(hopCount := if m.hopCount == 255 then 255 else m.hopCount + 1,
       authorPeer := Some(m.Author()),
       fromPeer := cfg.relay)
  }

  /** What a relay must not change, however many hops a message takes. */
  lemma MaskKeepsIdentity(cfg: Config, m: Message)
    requires m.hopCount < m.maxHops
    ensures var m' := Masked(cfg, m);
            && m'.Author() == m.Author() && m'.id == m.id && m'.createdAt == m.createdAt && m'.Expiry() == m.Expiry()
            && m'.hopCount == m.hopCount + 1 <= m'.maxHops == m.maxHops
            && m'.fromPeer == cfg.relay && m'.authorPeer == Some(m.Author())
            && m' == m.(hopCount := m'.hopCount, fromPeer := m'.fromPeer, authorPeer := m'.authorPeer)
  {}

  /** The peers a freshly accepted message is queued for. */
  function Targets(cfg: Config, m: Message, from: Peer, known: seq<Peer>, state: NodeState, now: u64, later: u64): seq<Peer> {
    if m.toPeer == Some(cfg.local) || m.Expired(now) || !CanForward(state, m.priority) then []
    else
      var peers := Without(known, from);
      if m.toPeer.Some? && m.toPeer.value in peers then [m.toPeer.value]
      else
        var d := Decide(cfg, m, peers, state, later);
        if d.ForwardTo? then d.targets else []
  }

  /** At most four copies, only to known peers, and never back to the hop the message came from. */
  lemma TargetsBounded(cfg: Config, m: Message, from: Peer, known: seq<Peer>, state: NodeState, now: u64, later: u64)
    ensures |Targets(cfg, m, from, known, state, now, later)| <= 4
    ensures forall p :: p in Targets(cfg, m, from, known, state, now, later) ==> p in known && p != from
  {
    var peers := Without(known, from);
    WithoutMembers(known, from);
    ChosenMembers(cfg, peers, m.id, state);
    var chosen := Chosen(cfg, peers, m.id, state);
    var n := BaseFanout(state, m.priority);
    assert forall p :: p in Take(chosen, n) ==> p in chosen;
  }

  // -------------------------------------------------------- exactly who gets it

  /** How many peers a message of this priority goes to at most, in each state of the node. */
  predicate FanoutIs(state: NodeState, priority: Priority, n: nat) {
    || (state == Active && priority == High && n == 4)
    || (state == Active && priority == Normal && n == 3)
    || (state == Active && priority == Low && n == 2)
    || (state == Intermittent && priority == High && n == 2)
    || (state == Intermittent && priority == Normal && n == 1)
    || (state == Passive && priority == High && n == 1)
    || (state != Active && priority == Low && n == 0)
    || (state == Passive && priority == Normal && n == 0)
  }

  /** The coin falls for the `j`-th known peer, which is not the previous hop. */
  predicate Falls(cfg: Config, known: seq<Peer>, from: Peer, id: Id, state: NodeState, j: nat) {
    j < |known| && known[j] != from && cfg.chooses(known[j], id, state)
  }

  /** For how many of the first `i` known peers that is so. */
  function FallsBefore(cfg: Config, known: seq<Peer>, from: Peer, id: Id, state: NodeState, i: nat): nat {
    if i == 0 then 0 else FallsBefore(cfg, known, from, id, state, i - 1) + (if Falls(cfg, known, from, id, state, i - 1) then 1 else 0)
  }

  /** The chosen among the first `i` known peers other than the previous hop. */
  function ChosenOthers(cfg: Config, known: seq<Peer>, from: Peer, id: Id, state: NodeState, i: nat): seq<Peer>
    requires i <= |known|
  {
    Chosen(cfg, Without(known[..i], from), id, state)
  }

  lemma ChosenOthersStep(cfg: Config, known: seq<Peer>, from: Peer, id: Id, state: NodeState, i: nat, before: seq<Peer>, after: seq<Peer>)
    requires i < |known| && before == ChosenOthers(cfg, known, from, id, state, i) && after == ChosenOthers(cfg, known, from, id, state, i + 1)
    ensures after == before + if Falls(cfg, known, from, id, state, i) then [known[i]] else []
  {
    var others := Without(known[..i], from);
    assert known[..i + 1][..i] == known[..i];
    assert (others + [known[i]])[..|others|] == others;
    assert others + [] == others;
  }

  lemma {:induction false} ChosenLength(cfg: Config, known: seq<Peer>, from: Peer, id: Id, state: NodeState, i: nat)
    requires i <= |known|
    ensures |ChosenOthers(cfg, known, from, id, state, i)| == FallsBefore(cfg, known, from, id, state, i)
    decreases i
  {
    if i > 0 {
      ChosenLength(cfg, known, from, id, state, i - 1);
      ChosenOthersStep(cfg, known, from, id, state, i - 1, ChosenOthers(cfg, known, from, id, state, i - 1), ChosenOthers(cfg, known, from, id, state, i));
    } else {
      assert known[..0] == [];
    }
  }

  /** A chosen peer stands at the place given by how many were chosen before it. */
  lemma {:induction false} ChosenAt(cfg: Config, known: seq<Peer>, from: Peer, id: Id, state: NodeState, i: nat, j: nat, chosen: seq<Peer>)
    requires j < i <= |known| && Falls(cfg, known, from, id, state, j) && chosen == ChosenOthers(cfg, known, from, id, state, i)
    ensures FallsBefore(cfg, known, from, id, state, j) < |chosen| && chosen[FallsBefore(cfg, known, from, id, state, j)] == known[j]
    decreases i
  {
    var before := ChosenOthers(cfg, known, from, id, state, i - 1);
    ChosenOthersStep(cfg, known, from, id, state, i - 1, before, chosen);
    ChosenLength(cfg, known, from, id, state, i - 1);
    if j < i - 1 {
      ChosenAt(cfg, known, from, id, state, i - 1, j, before);
    }
  }

  /** Every place is taken by such a peer. */
  lemma {:induction false} ChosenFrom(cfg: Config, known: seq<Peer>, from: Peer, id: Id, state: NodeState, i: nat, k: nat, chosen: seq<Peer>) returns (j: nat)
    requires i <= |known| && chosen == ChosenOthers(cfg, known, from, id, state, i) && k < |chosen|
    ensures j < i && Falls(cfg, known, from, id, state, j) && FallsBefore(cfg, known, from, id, state, j) == k && chosen[k] == known[j]
    decreases i
  {
    ChosenLength(cfg, known, from, id, state, i);
    var before := ChosenOthers(cfg, known, from, id, state, i - 1);
    ChosenOthersStep(cfg, known, from, id, state, i - 1, before, chosen);
    ChosenLength(cfg, known, from, id, state, i - 1);
    if k < |before| {
      j := ChosenFrom(cfg, known, from, id, state, i - 1, k, before);
    } else {
      j := i - 1;
    }
  }

  /** Whether the message is passed on at all: it is for someone else, alive, and worth the energy. */
  predicate Relayable(cfg: Config, m: Message, state: NodeState, now: u64) {
    && m.toPeer != Some(cfg.local)
    && now < m.Expiry()
    && (state == Active || m.priority == High || (state == Intermittent && m.priority == Normal))
  }

  /** The destination is known and is not the previous hop. */
  predicate Direct(m: Message, from: Peer, known: seq<Peer>) {
    m.toPeer.Some? && m.toPeer.value in known && m.toPeer.value != from
  }

  /** Exactly who gets a copy, and in which order: nobody if the message is not relayable; its
  destination alone if that is known and not the previous hop; otherwise the first peers, up to the
  fanout, for which the coin falls. */
  lemma TargetsExactly(cfg: Config, m: Message, from: Peer, known: seq<Peer>, state: NodeState, now: u64, later: u64, n: nat, j: nat)
    requires FanoutIs(state, m.priority, n)
    ensures var t := Targets(cfg, m, from, known, state, now, later);
            if !Relayable(cfg, m, state, now) then t == []
            else if Direct(m, from, known) then t == [m.toPeer.value]
            else if later >= m.Expiry() then t == []
            else
              var place := FallsBefore(cfg, known, from, m.id, state, j);
              && |t| == Min(n, FallsBefore(cfg, known, from, m.id, state, |known|))
              && (Falls(cfg, known, from, m.id, state, j) && place < n ==> place < |t| && t[place] == known[j])
  {
    if Relayable(cfg, m, state, now) && !Direct(m, from, known) && later < m.Expiry() {
      var chosen := ChosenOthers(cfg, known, from, m.id, state, |known|);
      var t := Targets(cfg, m, from, known, state, now, later);
      assert t == Take(chosen, n) by {
        TargetsAreChosen(cfg, m, from, known, state, now, later, n, chosen);
      }
      ChosenLength(cfg, known, from, m.id, state, |known|);
      if Falls(cfg, known, from, m.id, state, j) {
        ChosenAt(cfg, known, from, m.id, state, |known|, j, chosen);
      }
    } else {
      TargetsWithoutCoin(cfg, m, from, known, state, now, later);
    }
  }

  lemma TargetsWithoutCoin(cfg: Config, m: Message, from: Peer, known: seq<Peer>, state: NodeState, now: u64, later: u64)
    requires !Relayable(cfg, m, state, now) || Direct(m, from, known) || later >= m.Expiry()
    ensures Targets(cfg, m, from, known, state, now, later) ==
            if Relayable(cfg, m, state, now) && Direct(m, from, known) then [m.toPeer.value] else []
  {
    if m.toPeer.Some? {
      WithoutMembers(known, from);
    }
  }

  lemma TargetsAreChosen(cfg: Config, m: Message, from: Peer, known: seq<Peer>, state: NodeState, now: u64, later: u64, n: nat, chosen: seq<Peer>)
    requires FanoutIs(state, m.priority, n) && Relayable(cfg, m, state, now) && !Direct(m, from, known) && later < m.Expiry()
    requires chosen == ChosenOthers(cfg, known, from, m.id, state, |known|)
    ensures Targets(cfg, m, from, known, state, now, later) == Take(chosen, n)
  {
    WithoutMembers(known, from);
    assert known[..|known|] == known;
  }

  /** So a peer gets a copy if and only if it is the reachable destination or, when there is none, a
  known peer other than the previous hop for which the coin falls while fewer than the fanout fell before. */
  ghost predicate Gets(cfg: Config, m: Message, from: Peer, known: seq<Peer>, state: NodeState, now: u64, later: u64, p: Peer) {
    Relayable(cfg, m, state, now) &&
    if Direct(m, from, known) then m.toPeer == Some(p)
    else
      later < m.Expiry() &&
      exists j: nat, n: nat :: j < |known| && known[j] == p && Falls(cfg, known, from, m.id, state, j)
                               && FanoutIs(state, m.priority, n) && FallsBefore(cfg, known, from, m.id, state, j) < n
  }

  lemma TargetIff(cfg: Config, m: Message, from: Peer, known: seq<Peer>, state: NodeState, now: u64, later: u64, p: Peer)
    ensures p in Targets(cfg, m, from, known, state, now, later) <==> Gets(cfg, m, from, known, state, now, later, p)
  {
    var t, n := Targets(cfg, m, from, known, state, now, later), BaseFanout(state, m.priority);
    assert FanoutIs(state, m.priority, n);
    if Relayable(cfg, m, state, now) && !Direct(m, from, known) && later < m.Expiry() {
      if p in t {
        var k :| 0 <= k < |t| && t[k] == p;
        var chosen := ChosenOthers(cfg, known, from, m.id, state, |known|);
        TargetsAreChosen(cfg, m, from, known, state, now, later, n, chosen);
        var j := ChosenFrom(cfg, known, from, m.id, state, |known|, k, chosen);
        assert known[j] == p && FallsBefore(cfg, known, from, m.id, state, j) < n;
      }
      if j: nat, n': nat :| j < |known| && known[j] == p && Falls(cfg, known, from, m.id, state, j)
                            && FanoutIs(state, m.priority, n') && FallsBefore(cfg, known, from, m.id, state, j) < n' {
        TargetsExactly(cfg, m, from, known, state, now, later, n', j);
      }
    } else {
      TargetsExactly(cfg, m, from, known, state, now, later, n, 0);
    }
  }

  // -------------------------------------------------------- relay selection

  function Strikes(strikes: map<Peer, nat>, p: Peer): nat {
    if p in strikes then strikes[p] else 0
  }

  /** Insert behind every element with at most as many strikes: one step of a stable sort. */
  function InsertStable(sorted: seq<Peer>, p: Peer, strikes: map<Peer, nat>): seq<Peer> {
    if sorted == [] || Strikes(strikes, sorted[|sorted| - 1]) <= Strikes(strikes, p) then sorted + [p]
    else InsertStable(sorted[..|sorted| - 1], p, strikes) + [sorted[|sorted| - 1]]
  }

  function SortStable(peers: seq<Peer>, strikes: map<Peer, nat>): seq<Peer> {
    if peers == [] then [] else InsertStable(SortStable(peers[..|peers| - 1], strikes), peers[|peers| - 1], strikes)
  }

  function RelayCandidates(peers: seq<Peer>, to: Peer, strikes: map<Peer, nat>, maxFanout: nat): seq<Peer> {
    Take(SortStable(Without(peers, to), strikes), maxFanout)
  }

  ghost predicate SortedByStrikes(s: seq<Peer>, strikes: map<Peer, nat>) {
    forall i, j :: 0 <= i < j < |s| ==> Strikes(strikes, s[i]) <= Strikes(strikes, s[j])
  }

  /** The elements of `s` with exactly `k` strikes, in order. */
  function WithStrikes(s: seq<Peer>, strikes: map<Peer, nat>, k: nat): seq<Peer> {
    if s == [] then [] else
      var last := s[|s| - 1];
      WithStrikes(s[..|s| - 1], strikes, k) + (if Strikes(strikes, last) == k then [last] else [])
  }

  lemma {:induction false} InsertStableMembers(sorted: seq<Peer>, p: Peer, strikes: map<Peer, nat>)
    ensures multiset(InsertStable(sorted, p, strikes)) == multiset(sorted) + multiset{p}
    ensures forall q :: q in InsertStable(sorted, p, strikes) <==> q in sorted || q == p
    decreases |sorted|
  {
    if sorted != [] && Strikes(strikes, sorted[|sorted| - 1]) > Strikes(strikes, p) {
      assert sorted == sorted[..|sorted| - 1] + [sorted[|sorted| - 1]];
      InsertStableMembers(sorted[..|sorted| - 1], p, strikes);
    }
  }

  lemma SortedPush(s: seq<Peer>, p: Peer, strikes: map<Peer, nat>)
    requires SortedByStrikes(s, strikes) && forall q :: q in s ==> Strikes(strikes, q) <= Strikes(strikes, p)
    ensures SortedByStrikes(s + [p], strikes)
  {}

  lemma SortedLast(s: seq<Peer>, strikes: map<Peer, nat>, q: Peer)
    requires SortedByStrikes(s, strikes) && q in s
    ensures Strikes(strikes, q) <= Strikes(strikes, s[|s| - 1])
  {
    var i :| 0 <= i < |s| && s[i] == q;
  }

  lemma {:induction false} InsertStableSorted(sorted: seq<Peer>, p: Peer, strikes: map<Peer, nat>)
    requires SortedByStrikes(sorted, strikes)
    ensures SortedByStrikes(InsertStable(sorted, p, strikes), strikes)
    decreases |sorted|
  {
    if sorted == [] {
    } else {
      var earlier, last := sorted[..|sorted| - 1], sorted[|sorted| - 1];
      forall q | q in sorted
        ensures Strikes(strikes, q) <= Strikes(strikes, last)
      {
        SortedLast(sorted, strikes, q);
      }
      if Strikes(strikes, last) <= Strikes(strikes, p) {
        SortedPush(sorted, p, strikes);
      } else {
        InsertStableSorted(earlier, p, strikes);
        InsertStableMembers(earlier, p, strikes);
        assert forall q :: q in earlier ==> q in sorted;
        SortedPush(InsertStable(earlier, p, strikes), last, strikes);
      }
    }
  }

  lemma WithStrikesPush(s: seq<Peer>, p: Peer, strikes: map<Peer, nat>, k: nat)
    ensures WithStrikes(s + [p], strikes, k) == WithStrikes(s, strikes, k) + (if Strikes(strikes, p) == k then [p] else [])
  {
    assert (s + [p])[..|s|] == s;
  }

  lemma {:induction false} InsertStableKeepsOrder(sorted: seq<Peer>, p: Peer, strikes: map<Peer, nat>, k: nat)
    requires SortedByStrikes(sorted, strikes)
    ensures WithStrikes(InsertStable(sorted, p, strikes), strikes, k) == WithStrikes(sorted + [p], strikes, k)
    decreases |sorted|
  {
    if sorted != [] && Strikes(strikes, sorted[|sorted| - 1]) > Strikes(strikes, p) {
      var earlier, last := sorted[..|sorted| - 1], sorted[|sorted| - 1];
      assert sorted == earlier + [last];
      InsertStableKeepsOrder(earlier, p, strikes, k);
      WithStrikesPush(InsertStable(earlier, p, strikes), last, strikes, k);
      WithStrikesPush(earlier, p, strikes, k);
      WithStrikesPush(earlier, last, strikes, k);
      WithStrikesPush(sorted, p, strikes, k);
    }
  }

  /** Peers with equally many strikes keep their order: the sort is stable. */
  lemma {:induction false} SortIsStable(peers: seq<Peer>, strikes: map<Peer, nat>, k: nat)
    ensures WithStrikes(SortStable(peers, strikes), strikes, k) == WithStrikes(peers, strikes, k)
    decreases |peers|
  {
    if peers != [] {
      var earlier, last := peers[..|peers| - 1], peers[|peers| - 1];
      assert peers == earlier + [last];
      SortIsStable(earlier, strikes, k);
      SortStableSorts(earlier, strikes);
      InsertStableKeepsOrder(SortStable(earlier, strikes), last, strikes, k);
      WithStrikesPush(SortStable(earlier, strikes), last, strikes, k);
    }
  }

  lemma {:induction false} SortStableSorts(peers: seq<Peer>, strikes: map<Peer, nat>)
    ensures SortedByStrikes(SortStable(peers, strikes), strikes)
    ensures multiset(SortStable(peers, strikes)) == multiset(peers)
    ensures |SortStable(peers, strikes)| == |peers|
    decreases |peers|
  {
    if peers != [] {
      var earlier, last := peers[..|peers| - 1], peers[|peers| - 1];
      assert peers == earlier + [last];
      SortStableSorts(earlier, strikes);
      InsertStableSorted(SortStable(earlier, strikes), last, strikes);
      InsertStableMembers(SortStable(earlier, strikes), last, strikes);
      assert |multiset(SortStable(peers, strikes))| == |multiset(peers)|;
    }
  }

  /** At most `maxFanout` candidates, none of them the destination, and everyone passed over
  has at least as many strikes as everyone chosen. */
  lemma RelayCandidatesLeastStruck(peers: seq<Peer>, to: Peer, strikes: map<Peer, nat>, maxFanout: nat)
    ensures var r := RelayCandidates(peers, to, strikes, maxFanout);
            var sorted := SortStable(Without(peers, to), strikes);
            && |r| == Min(maxFanout, |Without(peers, to)|)
            && (forall p :: p in r ==> p in peers && p != to)
            && multiset(r) + multiset(sorted[|r|..]) == multiset(Without(peers, to))
            && (forall p, q :: p in r && q in sorted[|r|..] ==> Strikes(strikes, p) <= Strikes(strikes, q))
  {
    var all := Without(peers, to);
    var sorted := SortStable(all, strikes);
    SortStableSorts(all, strikes);
    WithoutMembers(peers, to);
    TakeLeastStruck(sorted, strikes, maxFanout);
    forall p | p in Take(sorted, maxFanout)
      ensures p in peers && p != to
    {
      assert p in multiset(sorted);
    }
  }

  /** The front of a sorted list has no more strikes than the rest. */
  lemma TakeLeastStruck(sorted: seq<Peer>, strikes: map<Peer, nat>, n: nat)
    requires SortedByStrikes(sorted, strikes)
    ensures var r := Take(sorted, n);
            && multiset(r) + multiset(sorted[|r|..]) == multiset(sorted)
            && (forall p :: p in r ==> p in sorted)
            && (forall p, q :: p in r && q in sorted[|r|..] ==> Strikes(strikes, p) <= Strikes(strikes, q))
  {
    var r := Take(sorted, n);
    assert sorted == r + sorted[|r|..];
    forall p, q | p in r && q in sorted[|r|..]
      ensures Strikes(strikes, p) <= Strikes(strikes, q)
    {
      var i :| 0 <= i < |r| && r[i] == p;
      var j :| 0 <= j < |sorted[|r|..]| && sorted[|r|..][j] == q;
      assert sorted[i] == p && sorted[|r| + j] == q;
    }
  }

  /** Peers a message of this node's own is queued for: its destination when that is known,
  otherwise relay candidates. */
  function SendTargets(cfg: Config, to: Peer, known: seq<Peer>, strikes: map<Peer, nat>): seq<Peer> {
    if to in known then [to] else RelayCandidates(known, to, strikes, cfg.maxRelayFanout)
  }

  /** A known destination is the only target. */
  lemma SendTargetsDirect(cfg: Config, to: Peer, known: seq<Peer>, strikes: map<Peer, nat>)
    ensures to in known ==> SendTargets(cfg, to, known, strikes) == [to]
    ensures to !in known ==> |SendTargets(cfg, to, known, strikes)| == Min(cfg.maxRelayFanout, |known|)
  {
    if to !in known {
      RelayCandidatesLeastStruck(known, to, strikes, cfg.maxRelayFanout);
      WithoutAbsent(known, to);
    }
  }

  lemma SendTargetsBounded(cfg: Config, to: Peer, known: seq<Peer>, strikes: map<Peer, nat>)
    ensures |SendTargets(cfg, to, known, strikes)| <= Max(1, cfg.maxRelayFanout)
    ensures forall p :: p in SendTargets(cfg, to, known, strikes) ==> p in known
  {
    RelayCandidatesLeastStruck(known, to, strikes, cfg.maxRelayFanout);
  }
}
