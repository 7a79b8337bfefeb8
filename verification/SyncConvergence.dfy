/** Two nodes that keep announcing to each other end up with the same messages. */
module SyncConvergence {
  import opened Words
  import opened Mesh
  import opened Sequences
  import opened IngestGuard
  import opened MessageStore
  import opened Forwarding
  import opened Delivery
  import opened Sync

  function Keys(v: View): set<Id> {
    v.store.db.Keys
  }

  function Listing(v: View): seq<Id> {
    Ids(v.store.order)
  }

  /** Between `t0` and `t1` the node has lost nothing: everything in its database is listed, inside
  the sync window and not about to expire, and the seen cache holds only stored ids. */
  ghost predicate Ready(v: View, t0: u64, t1: u64) {
    && WellFormed(v.store)
    && Keys(v) == Elements(Listing(v))
    && Agrees(v.seen) && v.seen.members <= Keys(v)
    && (forall id :: id in v.store.db ==> v.store.db[id].id == id && v.store.db[id].Expiry() > t1)
    && (forall i :: 0 <= i < |v.store.order| ==> v.store.order[i].timestamp >= t0)
  }

  /** A stretch of time no longer than the sync window, and a clock that stays inside it. */
  ghost predicate Span(t0: u64, t1: u64) {
    t0 <= t1 <= t0 + SYNC_WINDOW_MS
  }

  ghost predicate Within(clock: nat -> u64, t0: u64, t1: u64) {
    forall k :: t0 <= clock(k) <= t1
  }

  // ------------------------------------------------------------ one node

  lemma {:induction false} RecentIsAll(order: seq<Entry>, now: u64, t0: u64)
    requires SatSub(now, SYNC_WINDOW_MS) <= t0
    requires forall i :: 0 <= i < |order| ==> order[i].timestamp >= t0
    ensures Recent(order, now, SYNC_WINDOW_MS) == Ids(order)
    decreases |order|
  {
    if order != [] {
      RecentIsAll(order[..|order| - 1], now, t0);
    }
  }

  lemma OwnIdsAll(v: View, now: u64, t0: u64, t1: u64)
    requires Ready(v, t0, t1) && Span(t0, t1) && t0 <= now <= t1
    ensures OwnIds(v, now) == Listing(v)
  {
    RecentIsAll(v.store.order, now, t0);
  }

  lemma IngestOne(cfg: Config, v: View, m: Message, now: u64, t0: u64, t1: u64)
    requires Ready(v, t0, t1) && t0 <= now <= t1 && m.Expiry() > t1
    ensures var v' := After(cfg, v, SyncIn(m, now, now));
            && Ready(v', t0, t1)
            && v'.store.db == (if m.id in v.store.db then v.store.db else v.store.db[m.id := m])
  {
    if m.id !in v.store.db {
      PersistWellFormed(v.store, m, now);
      RecordAgrees(v.seen, m.id, cfg.seenCap);
      IdsPush(v.store.order, Entry(now, m.id));
      RecordWithin(v.seen, m.id, cfg.seenCap, Keys(v));
    }
  }

  /** A node that starts with an empty database is ready, and by `IngestBatch` it stays so while it
  takes in messages. */
  lemma StartsReady(guard: Guard, t0: u64, t1: u64)
    ensures Ready(View(NO_IDS, guard, Store(map[], [])), t0, t1)
  {
    assert Elements(Ids([])) == {};
  }

  lemma RecordWithin(r: RecentIds, id: Id, cap: nat, keys: set<Id>)
    requires Agrees(r) && r.members <= keys
    ensures Record(r, id, cap).members <= keys + {id}
  {
    forall x | x in r.order
      ensures x in keys
    {
      assert x in Elements(r.order);
    }
  }

  function IdsOfAll(messages: seq<Message>): (r: seq<Id>)
    ensures |r| == |messages| && forall i :: 0 <= i < |r| ==> r[i] == messages[i].id
  {
    seq(|messages|, i requires 0 <= i < |messages| => messages[i].id)
  }

  /** `later` holds everything of `earlier`, and the rest of it comes from `source`. */
  ghost predicate ExtendsFrom(earlier: map<Id, Message>, later: map<Id, Message>, source: map<Id, Message>) {
    && (forall id :: id in earlier ==> id in later && later[id] == earlier[id])
    && (forall id :: id in later && id !in earlier ==> id in source && later[id] == source[id])
  }

  /** The node has taken in messages with exactly these ids, all of them as `source` has them. */
  ghost predicate TookIn(v: View, v': View, ids: set<Id>, source: map<Id, Message>, t0: u64, t1: u64) {
    && Ready(v', t0, t1)
    && Keys(v') == Keys(v) + ids
    && ExtendsFrom(v.store.db, v'.store.db, source)
  }

  lemma TakeInOne(cfg: Config, v: View, v1: View, ids: set<Id>, m: Message, now: u64, t0: u64, t1: u64, source: map<Id, Message>)
    requires TookIn(v, v1, ids, source, t0, t1) && t0 <= now <= t1
    requires m.id in source && source[m.id] == m && m.Expiry() > t1
    ensures TookIn(v, After(cfg, v1, SyncIn(m, now, now)), ids + {m.id}, source, t0, t1)
  {
    IngestOne(cfg, v1, m, now, t0, t1);
  }

  ghost predicate FromSource(messages: seq<Message>, source: map<Id, Message>, t1: u64) {
    forall i :: 0 <= i < |messages| ==>
      messages[i].id in source && source[messages[i].id] == messages[i] && messages[i].Expiry() > t1
  }

  lemma {:induction false} IngestBatch(cfg: Config, v: View, messages: seq<Message>, now: u64, t0: u64, t1: u64, source: map<Id, Message>)
    requires Ready(v, t0, t1) && t0 <= now <= t1 && FromSource(messages, source, t1)
    ensures TookIn(v, IngestAll(cfg, v, messages, now), Elements(IdsOfAll(messages)), source, t0, t1)
    decreases |messages|
  {
    if messages == [] {
      assert Elements(IdsOfAll(messages)) == {};
    } else {
      var earlier, last := messages[..|messages| - 1], messages[|messages| - 1];
      assert messages == earlier + [last];
      var v1 := IngestAll(cfg, v, earlier, now);
      var v2 := After(cfg, v1, SyncIn(last, now, now));
      assert IngestAll(cfg, v, messages, now) == v2;
      assert TookIn(v, v2, Elements(IdsOfAll(messages)), source, t0, t1) by {
        IngestBatch(cfg, v, earlier, now, t0, t1, source);
        BatchStep(cfg, v, v1, earlier, last, now, t0, t1, source);
      }
    }
  }

  lemma BatchStep(cfg: Config, v: View, v1: View, earlier: seq<Message>, m: Message, now: u64, t0: u64, t1: u64, source: map<Id, Message>)
    requires TookIn(v, v1, Elements(IdsOfAll(earlier)), source, t0, t1) && t0 <= now <= t1
    requires m.id in source && source[m.id] == m && m.Expiry() > t1
    ensures TookIn(v, After(cfg, v1, SyncIn(m, now, now)), Elements(IdsOfAll(earlier + [m])), source, t0, t1)
  {
    IdsOfAllPush(earlier, m);
    TakeInOne(cfg, v, v1, Elements(IdsOfAll(earlier)), m, now, t0, t1, source);
  }

  lemma IdsOfAllPush(messages: seq<Message>, m: Message)
    ensures Elements(IdsOfAll(messages + [m])) == Elements(IdsOfAll(messages)) + {m.id}
  {
    assert IdsOfAll(messages + [m]) == IdsOfAll(messages) + [m.id];
  }

  lemma {:induction false} LoadAll(db: map<Id, Message>, ids: seq<Id>)
    requires forall i :: 0 <= i < |ids| ==> ids[i] in db && db[ids[i]].id == ids[i]
    ensures |Load(db, ids)| == |ids|
    ensures forall i :: 0 <= i < |ids| ==> Load(db, ids)[i] == db[ids[i]]
    decreases |ids|
  {
    if ids != [] {
      LoadAll(db, ids[..|ids| - 1]);
    }
  }

  lemma {:induction false} AbsentAll(db: map<Id, Message>, ids: seq<Id>)
    requires forall i :: 0 <= i < |ids| ==> ids[i] !in db
    ensures Absent(db, ids) == ids
    decreases |ids|
  {
    if ids != [] {
      AbsentAll(db, ids[..|ids| - 1]);
    }
  }

  // -------------------------------------------------------------- offers

  /** What `y` would offer to `x`: its ids that the filter of `x` does not accept. */
  function Offers(hash: B.Hash, x: View, y: View): seq<Id> {
    Unknown(hash, B.FilterOf(hash, Listing(x)), Listing(y))
  }

  lemma {:induction false} UnknownDistinct(hash: B.Hash, f: B.Filter, ids: seq<Id>)
    requires Distinct(ids)
    ensures Distinct(Unknown(hash, f, ids))
    decreases |ids|
  {
    if ids != [] {
      var earlier, last := ids[..|ids| - 1], ids[|ids| - 1];
      UnknownDistinct(hash, f, earlier);
      UnknownMembers(hash, f, earlier);
      var u := Unknown(hash, f, earlier);
      forall i | 0 <= i < |u|
        ensures u[i] != last
      {
        assert u[i] in earlier;
      }
    }
  }

  /** Offers are distinct ids that `y` has and `x` lacks. */
  lemma OffersAreMissing(hash: B.Hash, x: View, y: View, t0: u64, t1: u64)
    requires Ready(x, t0, t1) && Ready(y, t0, t1)
    ensures Distinct(Offers(hash, x, y))
    ensures forall i :: 0 <= i < |Offers(hash, x, y)| ==> Offers(hash, x, y)[i] in Keys(y) && Offers(hash, x, y)[i] !in Keys(x)
  {
    var f := B.FilterOf(hash, Listing(x));
    UnknownDistinct(hash, f, Listing(y));
    UnknownMembers(hash, f, Listing(y));
    var offers := Offers(hash, x, y);
    forall i | 0 <= i < |offers|
      ensures offers[i] in Keys(y) && offers[i] !in Keys(x)
    {
      assert offers[i] in offers;
      assert offers[i] in Listing(y);
      B.NoFalseNegatives(hash, Listing(x), Listing(x), offers[i]);
    }
  }

  // ----------------------------------------------------------- one transfer

  /** `x` after fetching the first 128 of the offered ids from `y`. */
  function Fetched(cfg: Config, x: View, y: View, offers: seq<Id>, now: u64): View {
    IngestAll(cfg, x, Load(y.store.db, Take(offers, 128)), now)
  }

  lemma LoadedFromSource(db: map<Id, Message>, ids: seq<Id>, t1: u64)
    requires forall i :: 0 <= i < |ids| ==> ids[i] in db && db[ids[i]].id == ids[i] && db[ids[i]].Expiry() > t1
    ensures FromSource(Load(db, ids), db, t1) && IdsOfAll(Load(db, ids)) == ids
  {
    LoadAll(db, ids);
  }

  lemma FetchEffect(cfg: Config, hash: B.Hash, x: View, y: View, now: u64, t0: u64, t1: u64)
    requires Ready(x, t0, t1) && Ready(y, t0, t1) && t0 <= now <= t1
    ensures TookIn(x, Fetched(cfg, x, y, Offers(hash, x, y), now), Elements(Take(Offers(hash, x, y), 128)), y.store.db, t0, t1)
  {
    var some := Take(Offers(hash, x, y), 128);
    OffersAreMissing(hash, x, y, t0, t1);
    LoadedFromSource(y.store.db, some, t1);
    IngestBatch(cfg, x, Load(y.store.db, some), now, t0, t1, y.store.db);
  }

  lemma DialogGoesOn(cfg: Config, hash: B.Hash, x: View, y: View, w: Wire, reply: Wire, clock: nat -> u64, k: nat, r: (View, View))
    requires !w.SyncData? && Reply(hash, x, w, clock(k)) == Some(reply)
    requires Dialog(cfg, hash, y, x, reply, clock, k + 1) == r
    ensures Dialog(cfg, hash, x, y, w, clock, k) == (r.1, r.0)
  {}

  lemma DialogEnds(cfg: Config, hash: B.Hash, x: View, y: View, w: Wire, clock: nat -> u64, k: nat)
    requires Reply(hash, x, w, clock(k)).None?
    ensures Dialog(cfg, hash, x, y, w, clock, k) == (Absorb(cfg, x, w, clock(k)), y)
  {}

  /** All offered ids are requested. */
  lemma OfferRequested(hash: B.Hash, x: View, y: View, now: u64, t0: u64, t1: u64)
    requires Ready(x, t0, t1) && Ready(y, t0, t1) && Offers(hash, x, y) != []
    ensures var ids := Take(Offers(hash, x, y), 256);
            Reply(hash, x, SyncIds(ids), now) == Some(SyncRequest(ids))
  {
    var ids := Take(Offers(hash, x, y), 256);
    OffersAreMissing(hash, x, y, t0, t1);
    AbsentAll(x.store.db, ids);
    assert Take(ids, 256) == ids;
  }

  /** The first 128 of the requested ids are sent. */
  lemma RequestServed(hash: B.Hash, y: View, offers: seq<Id>, now: u64, t0: u64, t1: u64)
    requires Ready(y, t0, t1) && offers != [] && forall i :: 0 <= i < |offers| ==> offers[i] in Keys(y)
    ensures Reply(hash, y, SyncRequest(Take(offers, 256)), now) == Some(SyncData(Load(y.store.db, Take(offers, 128))))
  {
    assert Take(Take(offers, 256), 128) == Take(offers, 128);
    LoadAll(y.store.db, Take(offers, 128));
  }

  /** `SyncIds`, `SyncRequest` and `SyncData` in turn: of 256 offered ids 128 arrive. */
  lemma FetchDialog(cfg: Config, hash: B.Hash, x: View, y: View, clock: nat -> u64, k: nat, t0: u64, t1: u64)
    requires Ready(x, t0, t1) && Ready(y, t0, t1) && Offers(hash, x, y) != []
    ensures Dialog(cfg, hash, x, y, SyncIds(Take(Offers(hash, x, y), 256)), clock, k) ==
            (Fetched(cfg, x, y, Offers(hash, x, y), clock(k + 2)), y)
  {
    var offers := Offers(hash, x, y);
    var ids, messages := Take(offers, 256), Load(y.store.db, Take(offers, 128));
    var x' := Fetched(cfg, x, y, offers, clock(k + 2));
    OfferRequested(hash, x, y, clock(k), t0, t1);
    OffersAreMissing(hash, x, y, t0, t1);
    RequestServed(hash, y, offers, clock(k + 1), t0, t1);
    DialogEnds(cfg, hash, x, y, SyncData(messages), clock, k + 2);
    DialogGoesOn(cfg, hash, y, x, SyncRequest(ids), SyncData(messages), clock, k + 1, (x', y));
    DialogGoesOn(cfg, hash, x, y, SyncIds(ids), SyncRequest(ids), clock, k, (y, x'));
  }

  // ------------------------------------------------------ one announcement

  /** What an announcement by `x` to `y` leads to. */
  ghost function Outcome(cfg: Config, hash: B.Hash, x: View, y: View, clock: nat -> u64): (View, View) {
    var nx, ny := |Listing(x)|, |Listing(y)|;
    if nx == 0 then (x, y)
    else if 5 * ny > 4 * nx && Offers(hash, x, y) != [] then (Fetched(cfg, x, y, Offers(hash, x, y), clock(4)), y)
    else if 5 * ny < 4 * nx && Offers(hash, y, x) != [] then (x, Fetched(cfg, y, x, Offers(hash, y, x), clock(5)))
    else (x, y)
  }

  /** How `y` answers the filter of `x`, when its own filter is `own`. */
  function Answer(hash: B.Hash, x: View, y: View, own: Wire): Option<Wire> {
    var nx, ny := |Listing(x)|, |Listing(y)|;
    if 5 * ny > 4 * nx && Offers(hash, x, y) != [] then Some(SyncIds(Take(Offers(hash, x, y), 256)))
    else if 5 * ny < 4 * nx then Some(own)
    else None
  }

  lemma FilterReply(hash: B.Hash, v: View, other: View, now: u64, t0: u64, t1: u64)
    requires Ready(v, t0, t1) && Span(t0, t1) && t0 <= now <= t1
    ensures Reply(hash, v, Announcement(hash, Listing(other)), now) ==
            Answer(hash, other, v, Announcement(hash, Listing(v)))
  {
    OwnIdsAll(v, now, t0, t1);
    B.FilterRoundTrip(B.FilterOf(hash, Listing(other)), []);
  }

  /** `x` handles a message `w` of `y` and answers with its offers: `y` fetches. */
  lemma OffersFetched(cfg: Config, hash: B.Hash, x: View, y: View, w: Wire, clock: nat -> u64, k: nat, t0: u64, t1: u64)
    requires Ready(x, t0, t1) && Ready(y, t0, t1) && Offers(hash, y, x) != []
    requires !w.SyncData? && Reply(hash, x, w, clock(k)) == Some(SyncIds(Take(Offers(hash, y, x), 256)))
    ensures Dialog(cfg, hash, x, y, w, clock, k) == (x, Fetched(cfg, y, x, Offers(hash, y, x), clock(k + 3)))
  {
    var offers := Offers(hash, y, x);
    FetchDialog(cfg, hash, y, x, clock, k + 1, t0, t1);
    DialogGoesOn(cfg, hash, x, y, w, SyncIds(Take(offers, 256)), clock, k, (Fetched(cfg, y, x, offers, clock(k + 3)), x));
  }

  /** `y` holds far less than `x` and answers `w` with its own filter `w'`: it fetches if `x` has offers. */
  lemma FilterAnswered(cfg: Config, hash: B.Hash, x: View, y: View, w: Wire, w': Wire, clock: nat -> u64, k: nat, t0: u64, t1: u64)
    requires Ready(x, t0, t1) && Ready(y, t0, t1)
    requires !w.SyncData? && Reply(hash, y, w, clock(k)) == Some(w') && !w'.SyncData?
    requires Reply(hash, x, w', clock(k + 1)) ==
             if Offers(hash, y, x) != [] then Some(SyncIds(Take(Offers(hash, y, x), 256))) else None
    ensures Dialog(cfg, hash, y, x, w, clock, k) ==
            if Offers(hash, y, x) != [] then (Fetched(cfg, y, x, Offers(hash, y, x), clock(k + 4)), x) else (y, x)
  {
    var r := if Offers(hash, y, x) != [] then (x, Fetched(cfg, y, x, Offers(hash, y, x), clock(k + 4))) else (x, y);
    if Offers(hash, y, x) != [] {
      OffersFetched(cfg, hash, x, y, w', clock, k + 1, t0, t1);
    } else {
      DialogEnds(cfg, hash, x, y, w', clock, k + 1);
    }
    DialogGoesOn(cfg, hash, y, x, w, w', clock, k, r);
  }

  /** What an announcement by `x` leads to, given how each side answers the filters. */
  lemma Answered(cfg: Config, hash: B.Hash, x: View, y: View, w: Wire, w': Wire, clock: nat -> u64, t0: u64, t1: u64)
    requires Ready(x, t0, t1) && Ready(y, t0, t1) && |Listing(x)| > 0 && w.SyncBloom? && w'.SyncBloom?
    requires var nx, ny := |Listing(x)|, |Listing(y)|;
             && Reply(hash, y, w, clock(1)) == Answer(hash, x, y, w')
             && (5 * ny < 4 * nx ==> Reply(hash, x, w', clock(2)) == Answer(hash, y, x, w))
    ensures var r := Outcome(cfg, hash, x, y, clock);
            Dialog(cfg, hash, y, x, w, clock, 1) == (r.1, r.0)
  {
    var nx, ny := |Listing(x)|, |Listing(y)|;
    if 5 * ny > 4 * nx && Offers(hash, x, y) != [] {
      OffersFetched(cfg, hash, y, x, w, clock, 1, t0, t1);
    } else if 5 * ny < 4 * nx {
      FilterAnswered(cfg, hash, x, y, w, w', clock, 1, t0, t1);
    } else {
      DialogEnds(cfg, hash, y, x, w, clock, 1);
    }
  }

  lemma AnnounceOutcome(cfg: Config, hash: B.Hash, x: View, y: View, clock: nat -> u64, t0: u64, t1: u64)
    requires Ready(x, t0, t1) && Ready(y, t0, t1) && Span(t0, t1) && Within(clock, t0, t1)
    ensures Announce(cfg, hash, x, y, clock) == Outcome(cfg, hash, x, y, clock)
  {
    assert t0 <= clock(0) <= t1;
    OwnIdsAll(x, clock(0), t0, t1);
    if |Listing(x)| > 0 {
      assert t0 <= clock(1) <= t1 && t0 <= clock(2) <= t1;
      FilterReply(hash, y, x, clock(1), t0, t1);
      FilterReply(hash, x, y, clock(2), t0, t1);
      Answered(cfg, hash, x, y, Announcement(hash, Listing(x)), Announcement(hash, Listing(y)), clock, t0, t1);
    }
  }

  // --------------------------------------------------------------- progress

  lemma ListingCount(v: View, t0: u64, t1: u64)
    requires Ready(v, t0, t1)
    ensures |Listing(v)| == |Keys(v)|
  {
    DistinctSize(Listing(v));
  }

  /** A fetch changes something and takes only what the other side has. */
  lemma FetchGains(cfg: Config, hash: B.Hash, x: View, y: View, now: u64, t0: u64, t1: u64)
    requires Ready(x, t0, t1) && Ready(y, t0, t1) && t0 <= now <= t1 && Offers(hash, x, y) != []
    ensures var x' := Fetched(cfg, x, y, Offers(hash, x, y), now);
            Keys(x) < Keys(x') <= Keys(x) + Keys(y)
  {
    var offers := Offers(hash, x, y);
    FetchEffect(cfg, hash, x, y, now, t0, t1);
    OffersAreMissing(hash, x, y, t0, t1);
    assert offers[0] in Elements(Take(offers, 128));
    forall id | id in Take(offers, 128)
      ensures id in Keys(y)
    {
      var i :| 0 <= i < |Take(offers, 128)| && Take(offers, 128)[i] == id;
      assert offers[i] == id;
    }
  }

  /** Both nodes stay ready, nothing is lost, nothing is invented and what is new is a copy. */
  ghost predicate Safe(x: View, y: View, x': View, y': View, t0: u64, t1: u64) {
    && Ready(x', t0, t1) && Ready(y', t0, t1)
    && Keys(x) <= Keys(x') && Keys(y) <= Keys(y')
    && Keys(x') + Keys(y') == Keys(x) + Keys(y)
    && ExtendsFrom(x.store.db, x'.store.db, y.store.db) && ExtendsFrom(y.store.db, y'.store.db, x.store.db)
  }

  /** With any filter, false positives included, an announcement is safe. */
  lemma AnnounceSafe(cfg: Config, hash: B.Hash, x: View, y: View, clock: nat -> u64, t0: u64, t1: u64)
    requires Ready(x, t0, t1) && Ready(y, t0, t1) && Span(t0, t1) && Within(clock, t0, t1)
    ensures var r := Announce(cfg, hash, x, y, clock); Safe(x, y, r.0, r.1, t0, t1)
  {
    AnnounceOutcome(cfg, hash, x, y, clock, t0, t1);
    assert t0 <= clock(4) <= t1 && t0 <= clock(5) <= t1;
    SafeStill(x, y, t0, t1);
    if Offers(hash, x, y) != [] {
      SafeFetch(cfg, hash, x, y, clock(4), t0, t1);
    }
    if Offers(hash, y, x) != [] {
      SafeFetch(cfg, hash, y, x, clock(5), t0, t1);
      SafeSymmetric(y, x, Fetched(cfg, y, x, Offers(hash, y, x), clock(5)), x, t0, t1);
    }
  }

  lemma SafeStill(x: View, y: View, t0: u64, t1: u64)
    requires Ready(x, t0, t1) && Ready(y, t0, t1)
    ensures Safe(x, y, x, y, t0, t1)
  {}

  lemma SafeSymmetric(x: View, y: View, x': View, y': View, t0: u64, t1: u64)
    requires Safe(x, y, x', y', t0, t1)
    ensures Safe(y, x, y', x', t0, t1)
  {}

  lemma SafeFetch(cfg: Config, hash: B.Hash, x: View, y: View, now: u64, t0: u64, t1: u64)
    requires Ready(x, t0, t1) && Ready(y, t0, t1) && t0 <= now <= t1 && Offers(hash, x, y) != []
    ensures Safe(x, y, Fetched(cfg, x, y, Offers(hash, x, y), now), y, t0, t1)
  {
    FetchGains(cfg, hash, x, y, now, t0, t1);
    FetchEffect(cfg, hash, x, y, now, t0, t1);
  }

  lemma SafeTransitive(x: View, y: View, x1: View, y1: View, x2: View, y2: View, t0: u64, t1: u64)
    requires Safe(x, y, x1, y1, t0, t1) && Safe(x1, y1, x2, y2, t0, t1)
    ensures Safe(x, y, x2, y2, t0, t1)
  {}

  /** A round never loses or invents a message, whatever the filters accept. */
  lemma RoundSafe(cfg: Config, hash: B.Hash, x: View, y: View, clock: nat -> u64, clock': nat -> u64, t0: u64, t1: u64)
    requires Ready(x, t0, t1) && Ready(y, t0, t1) && Span(t0, t1) && Within(clock, t0, t1) && Within(clock', t0, t1)
    ensures var r := Round(cfg, hash, x, y, clock, clock'); Safe(x, y, r.0, r.1, t0, t1)
  {
    var (x1, y1) := Announce(cfg, hash, x, y, clock);
    var (y2, x2) := Announce(cfg, hash, y1, x1, clock');
    AnnounceSafe(cfg, hash, x, y, clock, t0, t1);
    AnnounceSafe(cfg, hash, y1, x1, clock', t0, t1);
    SafeSymmetric(y1, x1, y2, x2, t0, t1);
    SafeTransitive(x, y, x1, y1, x2, y2, t0, t1);
  }

  /** One side has offers and is not far smaller than the other. */
  ghost predicate CanProgress(hash: B.Hash, x: View, y: View) {
    var nx, ny := |Listing(x)|, |Listing(y)|;
    (5 * ny > 4 * nx && Offers(hash, x, y) != []) || (5 * nx > 4 * ny && Offers(hash, y, x) != [])
  }

  /** The first announcement moves something. */
  lemma AnnounceMoves(cfg: Config, hash: B.Hash, x: View, y: View, clock: nat -> u64, t0: u64, t1: u64)
    requires Ready(x, t0, t1) && Ready(y, t0, t1) && Span(t0, t1) && Within(clock, t0, t1)
    ensures var (x', y') := Announce(cfg, hash, x, y, clock);
            var nx, ny := |Listing(x)|, |Listing(y)|;
            if nx > 0 && ((5 * ny > 4 * nx && Offers(hash, x, y) != []) || (5 * ny < 4 * nx && Offers(hash, y, x) != []))
            then Keys(x) < Keys(x') || Keys(y) < Keys(y')
            else (x', y') == (x, y)
  {
    AnnounceOutcome(cfg, hash, x, y, clock, t0, t1);
    assert t0 <= clock(4) <= t1 && t0 <= clock(5) <= t1;
    if Offers(hash, x, y) != [] {
      FetchGains(cfg, hash, x, y, clock(4), t0, t1);
    }
    if Offers(hash, y, x) != [] {
      FetchGains(cfg, hash, y, x, clock(5), t0, t1);
    }
  }

  /** A round changes something exactly when one side has offers and is not far smaller than the
  other. With false positives this is what decides whether two nodes are stuck. */
  lemma RoundProgressIff(cfg: Config, hash: B.Hash, x: View, y: View, clock: nat -> u64, clock': nat -> u64, t0: u64, t1: u64)
    requires Ready(x, t0, t1) && Ready(y, t0, t1) && Span(t0, t1) && Within(clock, t0, t1) && Within(clock', t0, t1)
    ensures Round(cfg, hash, x, y, clock, clock') != (x, y) <==> CanProgress(hash, x, y)
  {
    var (x1, y1) := Announce(cfg, hash, x, y, clock);
    AnnounceMoves(cfg, hash, x, y, clock, t0, t1);
    AnnounceSafe(cfg, hash, x, y, clock, t0, t1);
    AnnounceMoves(cfg, hash, y1, x1, clock', t0, t1);
    AnnounceSafe(cfg, hash, y1, x1, clock', t0, t1);
    NoOffersWhenEmpty(hash, x, y);
    NoOffersWhenEmpty(hash, y, x);
  }

  lemma NoOffersWhenEmpty(hash: B.Hash, x: View, y: View)
    ensures |Listing(y)| == 0 ==> Offers(hash, x, y) == []
  {}

  // ------------------------------------------------------------ convergence

  /** Transfers of 128 ids needed for `n` ids. */
  function Packets(n: nat): nat {
    (n + 127) / 128
  }

  /** Transfers needed to make two sets of ids equal. */
  function Gap(a: set<Id>, b: set<Id>): nat {
    Packets(|a - b|) + Packets(|b - a|)
  }

  function Distance(x: View, y: View): nat {
    Gap(Keys(x), Keys(y))
  }

  /** On a separated universe the offers are exactly what is missing. */
  lemma OffersExact(hash: B.Hash, x: View, y: View, universe: set<Id>, t0: u64, t1: u64)
    requires Ready(x, t0, t1) && Ready(y, t0, t1) && B.Separated(hash, universe) && Keys(x) + Keys(y) <= universe
    ensures Elements(Offers(hash, x, y)) == Keys(y) - Keys(x)
    ensures |Offers(hash, x, y)| == |Keys(y) - Keys(x)|
  {
    var offers := Offers(hash, x, y);
    OffersAreMissing(hash, x, y, t0, t1);
    UnknownMembers(hash, B.FilterOf(hash, Listing(x)), Listing(y));
    forall id | id in Keys(y) && id !in Keys(x)
      ensures id in offers
    {
      assert id in Listing(y) && id !in Listing(x);
      assert forall z :: z in Listing(x) ==> z in Keys(x);
      B.SeparatedIsExact(hash, universe, Listing(x), id);
    }
    DistinctSize(offers);
  }

  lemma SubsetCount(a: set<Id>, t: set<Id>)
    requires t <= a
    ensures |a - t| == |a| - |t|
  {
    assert a == (a - t) + t;
  }

  lemma TakeCount(offers: seq<Id>)
    requires Distinct(offers)
    ensures |Elements(Take(offers, 128))| == Min(128, |offers|)
  {
    DistinctSize(Take(offers, 128));
  }

  lemma PacketSent(n: nat)
    requires n > 0
    ensures Packets(n - Min(128, n)) == Packets(n) - 1
  {}

  lemma GapCloses(a: set<Id>, b: set<Id>, some: set<Id>)
    requires some <= b - a && |b - a| > 0 && |some| == Min(128, |b - a|)
    ensures Gap(a + some, b) == Gap(a, b) - 1
  {
    assert a + some - b == a - b;
    assert b - (a + some) == b - a - some;
    SubsetCount(b - a, some);
    PacketSent(|b - a|);
  }

  lemma TakeWithin(offers: seq<Id>, missing: set<Id>)
    requires Distinct(offers) && Elements(offers) == missing
    ensures Elements(Take(offers, 128)) <= missing && |Elements(Take(offers, 128))| == Min(128, |offers|)
  {
    TakeCount(offers);
    forall id | id in Take(offers, 128)
      ensures id in missing
    {
      assert id in offers;
    }
  }

  /** One fetch brings the nodes exactly one transfer closer. */
  lemma FetchCloses(cfg: Config, hash: B.Hash, x: View, y: View, now: u64, universe: set<Id>, t0: u64, t1: u64)
    requires Ready(x, t0, t1) && Ready(y, t0, t1) && t0 <= now <= t1 && Offers(hash, x, y) != []
    requires B.Separated(hash, universe) && Keys(x) + Keys(y) <= universe
    ensures Distance(Fetched(cfg, x, y, Offers(hash, x, y), now), y) == Distance(x, y) - 1
  {
    var offers := Offers(hash, x, y);
    assert Distinct(offers) by {
      OffersAreMissing(hash, x, y, t0, t1);
    }
    OffersExact(hash, x, y, universe, t0, t1);
    TakeWithin(offers, Keys(y) - Keys(x));
    GapCloses(Keys(x), Keys(y), Elements(Take(offers, 128)));
    FetchEffect(cfg, hash, x, y, now, t0, t1);
  }

  lemma DistanceSymmetric(x: View, y: View)
    ensures Distance(x, y) == Distance(y, x)
  {}

  /** An announcement brings the nodes one transfer closer or changes nothing. */
  lemma AnnounceCloses(cfg: Config, hash: B.Hash, x: View, y: View, clock: nat -> u64, universe: set<Id>, t0: u64, t1: u64)
    requires Ready(x, t0, t1) && Ready(y, t0, t1) && Span(t0, t1) && Within(clock, t0, t1)
    requires B.Separated(hash, universe) && Keys(x) + Keys(y) <= universe
    ensures var (x', y') := Announce(cfg, hash, x, y, clock);
            (x', y') == (x, y) || Distance(x', y') == Distance(x, y) - 1
  {
    AnnounceOutcome(cfg, hash, x, y, clock, t0, t1);
    assert t0 <= clock(4) <= t1 && t0 <= clock(5) <= t1;
    if Offers(hash, x, y) != [] {
      FetchCloses(cfg, hash, x, y, clock(4), universe, t0, t1);
    }
    if Offers(hash, y, x) != [] {
      FetchCloses(cfg, hash, y, x, clock(5), universe, t0, t1);
      DistanceSymmetric(x, y);
      DistanceSymmetric(x, Fetched(cfg, y, x, Offers(hash, y, x), clock(5)));
    }
  }

  /** Two different stores on a separated universe always make progress. */
  lemma DifferentCanProgress(hash: B.Hash, x: View, y: View, universe: set<Id>, t0: u64, t1: u64)
    requires Ready(x, t0, t1) && Ready(y, t0, t1) && B.Separated(hash, universe) && Keys(x) + Keys(y) <= universe
    requires Keys(x) != Keys(y)
    ensures CanProgress(hash, x, y)
  {
    ListingCount(x, t0, t1);
    ListingCount(y, t0, t1);
    OffersExact(hash, x, y, universe, t0, t1);
    OffersExact(hash, y, x, universe, t0, t1);
    LargerHasMore(Keys(x), Keys(y));
    LargerHasMore(Keys(y), Keys(x));
  }

  lemma LargerHasMore(a: set<Id>, b: set<Id>)
    requires a != b
    ensures |a| >= |b| ==> |a - b| > 0 && |a| > 0
  {
    if a <= b {
      SubsetCount(b, a);
    } else {
      var id :| id in a && id !in b;
      assert id in a - b;
    }
  }

  lemma RoundClosesOrStays(cfg: Config, hash: B.Hash, x: View, y: View, clock: nat -> u64, clock': nat -> u64, universe: set<Id>, t0: u64, t1: u64)
    requires Ready(x, t0, t1) && Ready(y, t0, t1) && Span(t0, t1) && Within(clock, t0, t1) && Within(clock', t0, t1)
    requires B.Separated(hash, universe) && Keys(x) + Keys(y) <= universe
    ensures var r := Round(cfg, hash, x, y, clock, clock');
            r == (x, y) || Distance(r.0, r.1) < Distance(x, y)
  {
    var (x1, y1) := Announce(cfg, hash, x, y, clock);
    var (y2, x2) := Announce(cfg, hash, y1, x1, clock');
    AnnounceCloses(cfg, hash, x, y, clock, universe, t0, t1);
    assert Ready(x1, t0, t1) && Ready(y1, t0, t1) && Keys(y1) + Keys(x1) <= universe by {
      AnnounceSafe(cfg, hash, x, y, clock, t0, t1);
    }
    AnnounceCloses(cfg, hash, y1, x1, clock', universe, t0, t1);
    DistanceSymmetric(x1, y1);
    DistanceSymmetric(x2, y2);
    assert Round(cfg, hash, x, y, clock, clock') == (x2, y2);
  }

  /** A round brings different stores closer and leaves equal ones alone. */
  lemma RoundCloses(cfg: Config, hash: B.Hash, x: View, y: View, clock: nat -> u64, clock': nat -> u64, universe: set<Id>, t0: u64, t1: u64)
    requires Ready(x, t0, t1) && Ready(y, t0, t1) && Span(t0, t1) && Within(clock, t0, t1) && Within(clock', t0, t1)
    requires B.Separated(hash, universe) && Keys(x) + Keys(y) <= universe
    ensures var r := Round(cfg, hash, x, y, clock, clock');
            && (Keys(x) != Keys(y) ==> Distance(r.0, r.1) < Distance(x, y))
            && (Keys(x) == Keys(y) ==> r == (x, y))
  {
    RoundProgressIff(cfg, hash, x, y, clock, clock', t0, t1);
    if Keys(x) != Keys(y) {
      DifferentCanProgress(hash, x, y, universe, t0, t1);
      RoundClosesOrStays(cfg, hash, x, y, clock, clock', universe, t0, t1);
    } else {
      OffersExact(hash, x, y, universe, t0, t1);
      OffersExact(hash, y, x, universe, t0, t1);
    }
  }

  type Pair = (View, View)

  /** One round leads from the pair of states `p` to `q`, under some clock readings in the span. */
  ghost predicate IsRound(cfg: Config, hash: B.Hash, p: Pair, q: Pair, t0: u64, t1: u64) {
    exists clock, clock' :: Within(clock, t0, t1) && Within(clock', t0, t1) && q == Round(cfg, hash, p.0, p.1, clock, clock')
  }

  /** The states of two nodes before and after each of a sequence of rounds. */
  ghost predicate IsRun(cfg: Config, hash: B.Hash, run: seq<Pair>, t0: u64, t1: u64) {
    run != [] && forall i :: 0 <= i < |run| - 1 ==> IsRound(cfg, hash, run[i], run[i + 1], t0, t1)
  }

  /** A step of a run is safe. */
  lemma StepSafe(cfg: Config, hash: B.Hash, p: Pair, q: Pair, t0: u64, t1: u64)
    requires Ready(p.0, t0, t1) && Ready(p.1, t0, t1) && Span(t0, t1) && IsRound(cfg, hash, p, q, t0, t1)
    ensures Safe(p.0, p.1, q.0, q.1, t0, t1)
  {
    var clock, clock' :| Within(clock, t0, t1) && Within(clock', t0, t1) && q == Round(cfg, hash, p.0, p.1, clock, clock');
    RoundSafe(cfg, hash, p.0, p.1, clock, clock', t0, t1);
  }

  /** Whatever the filters accept, over a whole run nothing is lost and nothing is invented. */
  lemma {:induction false} RunSafe(cfg: Config, hash: B.Hash, run: seq<Pair>, n: nat, t0: u64, t1: u64)
    requires IsRun(cfg, hash, run, t0, t1) && Span(t0, t1) && n < |run|
    requires Ready(run[0].0, t0, t1) && Ready(run[0].1, t0, t1)
    ensures Safe(run[0].0, run[0].1, run[n].0, run[n].1, t0, t1)
    decreases n
  {
    if n == 0 {
      SafeStill(run[0].0, run[0].1, t0, t1);
    } else {
      RunSafe(cfg, hash, run, n - 1, t0, t1);
      assert IsRound(cfg, hash, run[n - 1], run[n - 1 + 1], t0, t1);
      StepSafe(cfg, hash, run[n - 1], run[n], t0, t1);
      SafeTransitive(run[0].0, run[0].1, run[n - 1].0, run[n - 1].1, run[n].0, run[n].1, t0, t1);
    }
  }

  /** Safe, and closer by at least `n` transfers unless the stores are already equal. */
  ghost predicate Approached(p: Pair, q: Pair, n: nat, t0: u64, t1: u64) {
    && Safe(p.0, p.1, q.0, q.1, t0, t1)
    && Distance(q.0, q.1) <= Max(0, Distance(p.0, p.1) - n)
  }

  lemma StepApproaches(cfg: Config, hash: B.Hash, p: Pair, q: Pair, universe: set<Id>, t0: u64, t1: u64)
    requires Ready(p.0, t0, t1) && Ready(p.1, t0, t1) && Span(t0, t1) && IsRound(cfg, hash, p, q, t0, t1)
    requires B.Separated(hash, universe) && Keys(p.0) + Keys(p.1) <= universe
    ensures Approached(p, q, 1, t0, t1)
  {
    StepSafe(cfg, hash, p, q, t0, t1);
    var clock, clock' :| Within(clock, t0, t1) && Within(clock', t0, t1) && q == Round(cfg, hash, p.0, p.1, clock, clock');
    RoundCloses(cfg, hash, p.0, p.1, clock, clock', universe, t0, t1);
    GapZero(Keys(p.0), Keys(p.1));
  }

  lemma ApproachedTransitive(p: Pair, q: Pair, r: Pair, m: nat, n: nat, t0: u64, t1: u64)
    requires Approached(p, q, m, t0, t1) && Approached(q, r, n, t0, t1)
    ensures Approached(p, r, m + n, t0, t1)
  {
    SafeTransitive(p.0, p.1, q.0, q.1, r.0, r.1, t0, t1);
  }

  lemma {:induction false} RunApproaches(cfg: Config, hash: B.Hash, run: seq<Pair>, n: nat, universe: set<Id>, t0: u64, t1: u64)
    requires IsRun(cfg, hash, run, t0, t1) && Span(t0, t1) && n < |run|
    requires Ready(run[0].0, t0, t1) && Ready(run[0].1, t0, t1)
    requires B.Separated(hash, universe) && Keys(run[0].0) + Keys(run[0].1) <= universe
    ensures Approached(run[0], run[n], n, t0, t1)
    decreases n
  {
    if n == 0 {
      SafeStill(run[0].0, run[0].1, t0, t1);
    } else {
      RunApproaches(cfg, hash, run, n - 1, universe, t0, t1);
      assert IsRound(cfg, hash, run[n - 1], run[n - 1 + 1], t0, t1);
      StepApproaches(cfg, hash, run[n - 1], run[n], universe, t0, t1);
      ApproachedTransitive(run[0], run[n - 1], run[n], n - 1, 1, t0, t1);
    }
  }

  /** Two nodes converge: in every run of rounds each round brings them closer, and after as many
  rounds as there are transfers of 128 ids to make, both hold exactly the union of what they held. */
  lemma Converges(cfg: Config, hash: B.Hash, run: seq<Pair>, n: nat, t0: u64, t1: u64)
    requires IsRun(cfg, hash, run, t0, t1) && Span(t0, t1) && n < |run|
    requires Ready(run[0].0, t0, t1) && Ready(run[0].1, t0, t1)
    requires B.Separated(hash, Keys(run[0].0) + Keys(run[0].1))
    ensures var ((x, y), (x', y')) := (run[0], run[n]);
            && Safe(x, y, x', y', t0, t1)
            && Distance(x', y') <= Max(0, Distance(x, y) - n)
            && (n >= Distance(x, y) ==> Keys(x') == Keys(y') == Keys(x) + Keys(y))
  {
    RunApproaches(cfg, hash, run, n, Keys(run[0].0) + Keys(run[0].1), t0, t1);
    GapZero(Keys(run[n].0), Keys(run[n].1));
  }

  lemma GapZero(a: set<Id>, b: set<Id>)
    ensures Gap(a, b) == 0 <==> a == b
  {
    if Gap(a, b) == 0 {
      assert |a - b| == 0 && |b - a| == 0;
      assert a - b == {} && b - a == {};
    }
  }
}
