/** Bloom-filter anti-entropy between two nodes (crates/mycelium-node/src/node.rs, `SyncBloom`,
`SyncIds`, `SyncRequest`, `SyncData` and `send_sync_bloom`).

One clock reading serves one handled message. The comparisons with 0.8 of a count are exact
rational comparisons.
*/
module Sync {
  import opened Words
  import opened Mesh
  import opened Sequences
  import opened MessageStore
  import opened Forwarding
  import opened Delivery
  import B = Bloom

  const SYNC_WINDOW_MS: u64 := 600_000

  datatype Wire =
    | SyncBloom(bloom: seq<bv8>, count: nat)
    | SyncIds(ids: seq<Id>)
    | SyncRequest(ids: seq<Id>)
    | SyncData(messages: seq<Message>)

  function OwnIds(v: View, now: u64): seq<Id> {
    Recent(v.store.order, now, SYNC_WINDOW_MS)
  }

  // --------------------------------------------------------------- replies

  /** The ids a filter does not accept, in order. */
  function Unknown(hash: B.Hash, f: B.Filter, ids: seq<Id>): seq<Id> {
    if ids == [] then [] else
      var last := ids[|ids| - 1];
      Unknown(hash, f, ids[..|ids| - 1]) + (if B.Contains(hash, f, last) then [] else [last])
  }

  function Absent(db: map<Id, Message>, ids: seq<Id>): seq<Id> {
    if ids == [] then [] else
      var last := ids[|ids| - 1];
      Absent(db, ids[..|ids| - 1]) + (if last in db then [] else [last])
  }

  function Load(db: map<Id, Message>, ids: seq<Id>): seq<Message> {
    if ids == [] then [] else
      var last := ids[|ids| - 1];
      Load(db, ids[..|ids| - 1]) + (if last in db then [db[last]] else [])
  }

  function Announcement(hash: B.Hash, ids: seq<Id>): Wire {
    SyncBloom(B.ToBytes(B.FilterOf(hash, ids)), |ids|)
  }

  function BloomReply(hash: B.Hash, own: seq<Id>, remote: B.Filter, count: nat): Option<Wire> {
    var unknown := Unknown(hash, remote, own);
    if 5 * |own| > 4 * count && unknown != [] then Some(SyncIds(Take(unknown, 256)))
    else if 5 * |own| < 4 * count then Some(Announcement(hash, own))
    else None
  }

  function Reply(hash: B.Hash, v: View, w: Wire, now: u64): Option<Wire> {
    match w
    case SyncBloom(bloom, count) =>
      var remote := B.FromBytes(bloom);
      if remote.None? then None else BloomReply(hash, OwnIds(v, now), remote.value, count)
    case SyncIds(ids) =>
      var missing := Absent(v.store.db, Take(ids, 256));
      if missing == [] then None else Some(SyncRequest(missing))
    case SyncRequest(ids) =>
      var messages := Load(v.store.db, Take(ids, 128));
      if messages == [] then None else Some(SyncData(messages))
    case SyncData(_) => None
  }

  /** A batch of messages is ingested one by one. */
  function IngestAll(cfg: Config, v: View, messages: seq<Message>, now: u64): View {
    if messages == [] then v
    else After(cfg, IngestAll(cfg, v, messages[..|messages| - 1], now), SyncIn(messages[|messages| - 1], now, now))
  }

  function Absorb(cfg: Config, v: View, w: Wire, now: u64): View {
    if w.SyncData? then IngestAll(cfg, v, w.messages, now) else v
  }

  // ---------------------------------------------------- exactly what is answered

  lemma {:induction false} UnknownIsSelect(hash: B.Hash, f: B.Filter, ids: seq<Id>, keep: Id -> bool)
    requires forall id :: keep(id) <==> !B.Contains(hash, f, id)
    ensures Unknown(hash, f, ids) == Select(ids, keep)
    decreases |ids|
  {
    if ids != [] {
      UnknownIsSelect(hash, f, ids[..|ids| - 1], keep);
    }
  }

  lemma {:induction false} AbsentIsSelect(db: map<Id, Message>, ids: seq<Id>, keep: Id -> bool)
    requires forall id :: keep(id) <==> id !in db
    ensures Absent(db, ids) == Select(ids, keep)
    decreases |ids|
  {
    if ids != [] {
      AbsentIsSelect(db, ids[..|ids| - 1], keep);
    }
  }

  lemma {:induction false} LoadIsSelect(db: map<Id, Message>, ids: seq<Id>, keep: Id -> bool, held: seq<Id>)
    requires (forall id :: keep(id) <==> id in db) && held == Select(ids, keep)
    ensures |Load(db, ids)| == |held| && forall i :: 0 <= i < |held| ==> held[i] in db && Load(db, ids)[i] == db[held[i]]
    decreases |ids|
  {
    if ids != [] {
      LoadIsSelect(db, ids[..|ids| - 1], keep, Select(ids[..|ids| - 1], keep));
    }
  }

  /** The ids offered against a filter are exactly the own ids it does not accept, in order. */
  lemma OfferIs(hash: B.Hash, own: seq<Id>, f: B.Filter, keep: Id -> bool)
    requires forall id :: keep(id) <==> !B.Contains(hash, f, id)
    ensures IsSelection(Unknown(hash, f, own), own, keep)
  {
    UnknownIsSelect(hash, f, own, keep);
    SelectIsSelection(own, keep, Unknown(hash, f, own));
  }

  /** A filter is answered with the first 256 of these, if there are any and the own ids are more than
  0.8 of the count; with the own filter and count, if they are less; and not at all otherwise. */
  lemma BloomAnswer(hash: B.Hash, own: seq<Id>, f: B.Filter, count: nat, offer: seq<Id>, filter: Wire)
    requires offer == Unknown(hash, f, own) && filter == Announcement(hash, own)
    ensures var reply := BloomReply(hash, own, f, count);
            && (5 * |own| > 4 * count && offer != [] ==> reply == Some(SyncIds(offer[..Min(256, |offer|)])))
            && (5 * |own| < 4 * count ==> reply == Some(filter))
            && (5 * |own| == 4 * count || (5 * |own| > 4 * count && offer == []) ==> reply.None?)
  {
    assert Take(offer, 256) == offer[..Min(256, |offer|)];
  }

  /** A list of ids is answered with a request for exactly those of the first 256 that are not stored. */
  lemma IdsAnswer(hash: B.Hash, v: View, ids: seq<Id>, now: u64, keep: Id -> bool, missing: seq<Id>)
    requires (forall id :: keep(id) <==> id !in v.store.db) && missing == Select(ids[..Min(256, |ids|)], keep)
    ensures IsSelection(missing, ids[..Min(256, |ids|)], keep)
    ensures Reply(hash, v, SyncIds(ids), now) == if missing == [] then None else Some(SyncRequest(missing))
  {
    AbsentIsSelect(v.store.db, Take(ids, 256), keep);
    assert Take(ids, 256) == ids[..Min(256, |ids|)];
    SelectIsSelection(ids[..Min(256, |ids|)], keep, missing);
  }

  /** A request is answered with the stored messages among the first 128 ids, in order. */
  lemma RequestAnswer(hash: B.Hash, v: View, ids: seq<Id>, now: u64, keep: Id -> bool, held: seq<Id>)
    requires (forall id :: keep(id) <==> id in v.store.db) && held == Select(ids[..Min(128, |ids|)], keep)
    ensures IsSelection(held, ids[..Min(128, |ids|)], keep)
    ensures var reply := Reply(hash, v, SyncRequest(ids), now);
            if held == [] then reply.None?
            else
              && reply.Some? && reply.value.SyncData? && |reply.value.messages| == |held|
              && forall i :: 0 <= i < |held| ==> held[i] in v.store.db && reply.value.messages[i] == v.store.db[held[i]]
  {
    assert Take(ids, 128) == ids[..Min(128, |ids|)];
    LoadIsSelect(v.store.db, Take(ids, 128), keep, held);
    SelectIsSelection(ids[..Min(128, |ids|)], keep, held);
  }

  // -------------------------------------------------------- what is offered

  lemma {:induction false} UnknownMembers(hash: B.Hash, f: B.Filter, ids: seq<Id>)
    ensures forall id :: id in Unknown(hash, f, ids) <==> id in ids && !B.Contains(hash, f, id)
    decreases |ids|
  {
    if ids != [] {
      UnknownMembers(hash, f, ids[..|ids| - 1]);
      assert ids == ids[..|ids| - 1] + [ids[|ids| - 1]];
    }
  }

  /** Ids offered against the filter of `advertised` are own ids outside it. */
  lemma OffersUnadvertised(hash: B.Hash, own: seq<Id>, advertised: seq<Id>, f: B.Filter, id: Id)
    requires f == B.FilterOf(hash, advertised) && id in Take(Unknown(hash, f, own), 256)
    ensures id in own && id !in advertised
  {
    UnknownMembers(hash, f, own);
    TakeMembers(Unknown(hash, f, own), 256);
    B.NoFalseNegatives(hash, advertised, advertised, id);
  }

  /** An announced filter is answered with ids only if they are recent here, and with none of the
  ids that went into the filter. */
  lemma NeverOffersAdvertised(hash: B.Hash, v: View, advertised: seq<Id>, bytes: seq<bv8>, count: nat, now: u64)
    requires bytes == B.ToBytes(B.FilterOf(hash, advertised))
    ensures var reply := Reply(hash, v, SyncBloom(bytes, count), now);
            reply.Some? && reply.value.SyncIds? ==>
              |reply.value.ids| <= 256 && forall id :: id in reply.value.ids ==> id in OwnIds(v, now) && id !in advertised
  {
    var f, own := B.FilterOf(hash, advertised), OwnIds(v, now);
    assert B.FromBytes(bytes) == Some(f) by {
      B.FilterRoundTrip(f, []);
    }
    forall id | id in Take(Unknown(hash, f, own), 256)
      ensures id in own && id !in advertised
    {
      OffersUnadvertised(hash, own, advertised, f, id);
    }
  }

  lemma TakeMembers(ids: seq<Id>, n: nat)
    ensures forall id :: id in Take(ids, n) ==> id in ids
  {}

  // ------------------------------------------------------- chains are finite

  function RankOf(w: Wire): nat {
    match w
    case SyncBloom(_, count) => 4 + count
    case SyncIds(_) => 3
    case SyncRequest(_) => 2
    case SyncData(_) => 1
  }

  /** Whatever the answering node holds at that moment, its answer ranks below the question, and
  an answering filter carries less than 0.8 of the count it answers. */
  lemma RepliesDescend(hash: B.Hash, v: View, w: Wire, now: u64)
    requires Reply(hash, v, w, now).Some?
    ensures RankOf(Reply(hash, v, w, now).value) < RankOf(w)
    ensures w.SyncBloom? && Reply(hash, v, w, now).value.SyncBloom? ==> 5 * Reply(hash, v, w, now).value.count < 4 * w.count
  {}

  /** Some node, in some state, at some time answers `w` with `w'`. */
  ghost predicate Answers(hash: B.Hash, w: Wire, w': Wire) {
    exists v, now :: Reply(hash, v, w, now) == Some(w')
  }

  /** A chain of replies in which the answering nodes may change arbitrarily between answers. */
  ghost predicate ReplyChain(hash: B.Hash, chain: seq<Wire>) {
    forall i :: 0 <= i < |chain| - 1 ==> Answers(hash, chain[i], chain[i + 1])
  }

  /** Every chain of replies is finite: it is no longer than the rank of the message that starts it. */
  lemma {:induction false} ReplyChainFinite(hash: B.Hash, chain: seq<Wire>)
    requires chain != [] && ReplyChain(hash, chain)
    ensures |chain| <= RankOf(chain[0])
    ensures RankOf(chain[|chain| - 1]) + |chain| - 1 <= RankOf(chain[0])
    decreases |chain|
  {
    if |chain| > 1 {
      var n := |chain| - 2;
      var earlier := chain[..n + 1];
      ReplyChainFinite(hash, earlier);
      assert Answers(hash, chain[n], chain[n + 1]);
      AnswersDescend(hash, chain[n], chain[n + 1]);
    }
  }

  lemma AnswersDescend(hash: B.Hash, w: Wire, w': Wire)
    requires Answers(hash, w, w')
    ensures RankOf(w') < RankOf(w)
    ensures w'.SyncBloom? ==> w.SyncBloom? && 5 * w'.count < 4 * w.count
  {
    var v, now :| Reply(hash, v, w, now) == Some(w');
    RepliesDescend(hash, v, w, now);
  }

  lemma ShrinkMore(a: nat, b: nat, c: nat, c': nat, c0: nat)
    requires a * c <= b * c0 && 5 * c' <= 4 * c
    ensures 5 * a * c' <= 4 * b * c0
  {
    assert a * (5 * c') <= a * (4 * c);
    assert 4 * (a * c) <= 4 * (b * c0);
  }

  /** Filters that answer filters shrink geometrically: the `n`-th carries at most 0.8 to the power
  of `n` of the first count, and everything before a filter in a chain is a filter. */
  lemma {:induction false} FiltersShrink(hash: B.Hash, chain: seq<Wire>, n: nat)
    requires n < |chain| && ReplyChain(hash, chain) && chain[n].SyncBloom?
    ensures chain[0].SyncBloom? && Power(5, n) * chain[n].count <= Power(4, n) * chain[0].count
    decreases n
  {
    if n > 0 {
      assert Answers(hash, chain[n - 1], chain[n - 1 + 1]);
      AnswersDescend(hash, chain[n - 1], chain[n]);
      FiltersShrink(hash, chain, n - 1);
      ShrinkMore(Power(5, n - 1), Power(4, n - 1), chain[n - 1].count, chain[n].count, chain[0].count);
    }
  }

  lemma {:induction false} AfterFilters(hash: B.Hash, chain: seq<Wire>, n: nat)
    requires n < |chain| && ReplyChain(hash, chain) && !chain[n].SyncBloom?
    ensures |chain| <= n + 3
  {
    var tail := chain[n..];
    forall i | 0 <= i < |tail| - 1
      ensures Answers(hash, tail[i], tail[i + 1])
    {
      assert Answers(hash, chain[n + i], chain[n + i + 1]);
    }
    ReplyChainFinite(hash, tail);
  }

  /** Every chain of replies is logarithmic in the first count: a chain that starts with a filter of
  `count` ids and is longer than `n + 4` satisfies (5/4)^n <= count. */
  lemma ReplyChainLogarithmic(hash: B.Hash, chain: seq<Wire>, n: nat)
    requires chain != [] && chain[0].SyncBloom? && ReplyChain(hash, chain) && |chain| > n + 4
    ensures Power(5, n) <= Power(4, n) * chain[0].count
  {
    if !chain[n + 1].SyncBloom? {
      AfterFilters(hash, chain, n + 1);
    } else {
      assert Answers(hash, chain[n], chain[n + 1]);
      AnswersDescend(hash, chain[n], chain[n + 1]);
      FiltersShrink(hash, chain, n);
      AtLeastOnce(Power(5, n), chain[n].count);
    }
  }

  lemma AtLeastOnce(a: nat, c: nat)
    requires c >= 1
    ensures a <= a * c
  {
    assert a * c == a + a * (c - 1);
  }

  /** Node `x` handles `w`, which came from `y`; the two answer each other until one has nothing to say. */
  function Dialog(cfg: Config, hash: B.Hash, x: View, y: View, w: Wire, clock: nat -> u64, k: nat): (r: (View, View))
    decreases RankOf(w)
  {
    var x', reply := Absorb(cfg, x, w, clock(k)), Reply(hash, x, w, clock(k));
    if reply.None? then (x', y)
    else
      RepliesDescend(hash, x, w, clock(k));
      var (y', x'') := Dialog(cfg, hash, y, x', reply.value, clock, k + 1);
      (x'', y')
  }

  /** `x` announces its ids to `y`, unless it has none. */
  function Announce(cfg: Config, hash: B.Hash, x: View, y: View, clock: nat -> u64): (View, View) {
    var ids := OwnIds(x, clock(0));
    if ids == [] then (x, y)
    else
      var (y', x') := Dialog(cfg, hash, y, x, Announcement(hash, ids), clock, 1);
      (x', y')
  }

  /** Both nodes announce once. */
  function Round(cfg: Config, hash: B.Hash, x: View, y: View, clock: nat -> u64, clock': nat -> u64): (View, View) {
    var (x1, y1) := Announce(cfg, hash, x, y, clock);
    var (y2, x2) := Announce(cfg, hash, y1, x1, clock');
    (x2, y2)
  }

  /** With both stores as they are, an announcement is answered by at most one filter: a node whose
  filter is answered by a filter does not answer that one with a filter. */
  lemma OneFilterReply(hash: B.Hash, x: seq<Id>, y: seq<Id>, fx: B.Filter, fy: B.Filter)
    requires BloomReply(hash, y, fx, |x|).Some? && BloomReply(hash, y, fx, |x|).value.SyncBloom?
    ensures BloomReply(hash, x, fy, |y|).Some? ==> BloomReply(hash, x, fy, |y|).value.SyncIds?
  {
    FilterReplyCount(hash, y, fx, |x|);
    FilterReplyCount(hash, x, fy, |y|);
  }

  lemma FilterReplyCount(hash: B.Hash, own: seq<Id>, f: B.Filter, count: nat)
    ensures var reply := BloomReply(hash, own, f, count);
            reply.Some? ==> reply.value.SyncIds? || (reply.value.SyncBloom? && 5 * |own| < 4 * count)
  {}
}
