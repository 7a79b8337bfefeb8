/** The persistent message store of one process lifetime (crates/mycelium-node/src/storage.rs).

The database may already hold messages when the process starts; the arrival list starts empty.
*/
module MessageStore {
  import opened Words
  import opened Mesh
  import opened Sequences

  const RETENTION_MS: u64 := 7 * 24 * 60 * 60 * 1000

  datatype Entry = Entry(timestamp: u64, id: Id)

  datatype Store = Store(db: map<Id, Message>, order: seq<Entry>)

  function Ids(order: seq<Entry>): (r: seq<Id>)
    ensures |r| == |order|
    ensures forall i :: 0 <= i < |order| ==> r[i] == order[i].id
  {
    seq(|order|, i requires 0 <= i < |order| => order[i].id)
  }

  predicate Outdated(e: Entry, now: u64) {
    SatSub(now, e.timestamp) > RETENTION_MS
  }

  /** The entries that are (`outdated`) or are not outdated at `now`, in order. */
  function Sift(order: seq<Entry>, now: u64, outdated: bool): seq<Entry> {
    if order == [] then [] else
      var last := order[|order| - 1];
      Sift(order[..|order| - 1], now, outdated) + (if Outdated(last, now) == outdated then [last] else [])
  }

  function Persisted(s: Store, m: Message, now: u64): Store {
    Store(s.db[m.id := m], s.order + [Entry(now, m.id)])
  }

  function Collected(s: Store, now: u64): Store {
    Store(s.db - Elements(Ids(Sift(s.order, now, true))), Sift(s.order, now, false))
  }

  /** Ids that arrived no earlier than `window` before `now`. */
  function Recent(order: seq<Entry>, now: u64, window: u64): seq<Id> {
    if order == [] then [] else
      var last := order[|order| - 1];
      Recent(order[..|order| - 1], now, window) + (if last.timestamp >= SatSub(now, window) then [last.id] else [])
  }

  lemma {:induction false} SiftKeeps(order: seq<Entry>, now: u64, outdated: bool)
    ensures forall e :: e in Sift(order, now, outdated) <==> e in order && Outdated(e, now) == outdated
    decreases |order|
  {
    if order != [] {
      SiftKeeps(order[..|order| - 1], now, outdated);
      assert order == order[..|order| - 1] + [order[|order| - 1]];
    }
  }

  /** The ids listed for the window are those of exactly the entries no older than it, in order. */
  lemma {:induction false} RecentExactly(order: seq<Entry>, now: u64, window: u64, keep: Entry -> bool)
    requires forall e :: keep(e) <==> now <= e.timestamp + window
    ensures Recent(order, now, window) == Ids(Select(order, keep))
    decreases |order|
  {
    if order != [] {
      var earlier, last := order[..|order| - 1], order[|order| - 1];
      RecentExactly(earlier, now, window, keep);
      var kept := Select(earlier, keep);
      assert Ids(kept + [last]) == Ids(kept) + [last.id];
      assert kept + [] == kept && Ids(kept) + [] == Ids(kept);
    }
  }

  ghost predicate DistinctIds(order: seq<Entry>) {
    forall i, j :: 0 <= i < j < |order| ==> order[i].id != order[j].id
  }

  /** Every listed id occurs once and is in the database. */
  ghost predicate WellFormed(s: Store) {
    && DistinctIds(s.order)
    && (forall e :: e in s.order ==> e.id in s.db)
  }

  lemma DistinctPush(order: seq<Entry>, e: Entry)
    requires DistinctIds(order) && forall i :: 0 <= i < |order| ==> order[i].id != e.id
    ensures DistinctIds(order + [e])
  {}

  lemma {:induction false} SiftDistinct(order: seq<Entry>, now: u64, outdated: bool)
    requires DistinctIds(order)
    ensures DistinctIds(Sift(order, now, outdated))
    decreases |order|
  {
    if order != [] {
      var earlier, last := order[..|order| - 1], order[|order| - 1];
      SiftDistinct(earlier, now, outdated);
      SiftKeeps(earlier, now, outdated);
      var r := Sift(earlier, now, outdated);
      forall i | 0 <= i < |r|
        ensures r[i].id != last.id
      {
        assert r[i] in earlier;
      }
      DistinctPush(r, last);
      assert r + [] == r;
    }
  }

  lemma PersistWellFormed(s: Store, m: Message, now: u64)
    requires WellFormed(s) && m.id !in s.db
    ensures WellFormed(Persisted(s, m, now))
  {
    forall i | 0 <= i < |s.order|
      ensures s.order[i].id != m.id
    {
      assert s.order[i] in s.order;
    }
  }

  /** Collecting removes exactly the outdated entries, from the list and from the database. */
  lemma CollectEntry(s: Store, now: u64, e: Entry)
    requires WellFormed(s) && e in s.order
    ensures e in Collected(s, now).order <==> !Outdated(e, now)
    ensures e.id in Collected(s, now).db <==> !Outdated(e, now)
  {
    SiftKeeps(s.order, now, false);
    DroppedIff(s, now, e);
  }

  /** Ids that are not listed, such as those from an earlier process, are never collected. */
  lemma CollectUnlisted(s: Store, now: u64, id: Id)
    requires id in s.db && forall e :: e in s.order ==> e.id != id
    ensures id in Collected(s, now).db
  {
    var dropped := Sift(s.order, now, true);
    SiftKeeps(s.order, now, true);
    assert forall k :: 0 <= k < |dropped| ==> dropped[k] in s.order;
  }

  lemma CollectWellFormed(s: Store, now: u64)
    requires WellFormed(s)
    ensures WellFormed(Collected(s, now))
    ensures forall e :: e in Collected(s, now).order ==> e in s.order
  {
    SiftDistinct(s.order, now, false);
    SiftKeeps(s.order, now, false);
    forall e | e in Collected(s, now).order
      ensures e.id in Collected(s, now).db
    {
      CollectEntry(s, now, e);
    }
  }

  lemma DroppedIff(s: Store, now: u64, e: Entry)
    requires WellFormed(s) && e in s.order
    ensures e.id in Elements(Ids(Sift(s.order, now, true))) <==> Outdated(e, now)
  {
    var dropped := Sift(s.order, now, true);
    SiftKeeps(s.order, now, true);
    if Outdated(e, now) {
      assert e in dropped;
      var k :| 0 <= k < |dropped| && dropped[k] == e;
      assert Ids(dropped)[k] == e.id;
    }
    if e.id in Ids(dropped) {
      var k :| 0 <= k < |dropped| && Ids(dropped)[k] == e.id;
      assert dropped[k] in s.order;
      var i :| 0 <= i < |s.order| && s.order[i] == e;
      var j :| 0 <= j < |s.order| && s.order[j] == dropped[k];
    }
  }

  class SledMessageStore {
    var db: map<Id, Message>
    var order: seq<Entry>

    ghost function Contents(): Store
      reads this
    {
      Store(db, order)
    }

    constructor (db: map<Id, Message>)
      ensures Contents() == Store(db, []) && WellFormed(Contents())
    {
      this.db, order := db, [];
    }

    method Persist(m: Message, now: u64)
      modifies this
      ensures Contents() == Persisted(old(Contents()), m, now)
      ensures old(WellFormed(Contents()) && m.id !in db) ==> WellFormed(Contents())
    {
      if WellFormed(Contents()) && m.id !in db {
        PersistWellFormed(Contents(), m, now);
      }
      db := db[m.id := m];
      order := order + [Entry(now, m.id)];
    }

    method RemoveAll(entries: seq<Entry>)
      modifies this`db
      ensures db == old(db) - Elements(Ids(entries))
    {
      for i := 0 to |entries|
        invariant db == old(db) - Elements(Ids(entries[..i]))
      {
        assert entries[..i + 1] == entries[..i] + [entries[i]];
        IdsPush(entries[..i], entries[i]);
        db := db - {entries[i].id};
      }
      assert entries[..|entries|] == entries;
    }

    method GcExpired(now: u64) returns (deleted: nat)
      modifies this
      ensures Contents() == Collected(old(Contents()), now)
      ensures old(WellFormed(Contents())) ==> WellFormed(Contents())
      ensures deleted == |Sift(old(order), now, true)|
    {
      if WellFormed(Contents()) {
        CollectWellFormed(Contents(), now);
      }
      var kept, toDelete: seq<Entry> := [], [];
      for i := 0 to |order|
        invariant order == old(order) && db == old(db)
        invariant kept == Sift(order[..i], now, false) && toDelete == Sift(order[..i], now, true)
      {
        assert order[..i + 1][..i] == order[..i];
        if Outdated(order[i], now) {
          toDelete := toDelete + [order[i]];
        } else {
          kept := kept + [order[i]];
        }
      }
      assert order[..|order|] == order;
      order := kept;
      RemoveAll(toDelete);
      deleted := |toDelete|;
    }

    method ListIdsWindow(now: u64, window: u64) returns (ids: seq<Id>)
      ensures ids == Recent(order, now, window)
    {
      var cutoff := SatSub(now, window);
      ids := [];
      for i := 0 to |order|
        invariant ids == Recent(order[..i], now, window)
      {
        assert order[..i + 1][..i] == order[..i];
        if order[i].timestamp >= cutoff {
          ids := ids + [order[i].id];
        }
      }
      assert order[..|order|] == order;
    }
  }

  lemma IdsPush(order: seq<Entry>, e: Entry)
    ensures Elements(Ids(order + [e])) == Elements(Ids(order)) + {e.id}
  {
    assert Ids(order + [e]) == Ids(order) + [e.id];
  }
}
