/** The cap on direct peers (crates/mycelium-node/src/transport.rs): a set and a table of times that
together behave like a list of peers by recency.
*/
module PeerCap {
  import opened Words
  import opened Mesh
  import opened Sequences

  // ----------------------------------------------------------- recency lists

  /** Dropping a listed peer closes the gap it leaves. */
  lemma {:induction false} DroppedAt(list: seq<Peer>, k: nat)
    requires Distinct(list) && k < |list|
    ensures Without(list, list[k]) == list[..k] + list[k + 1..]
    decreases |list|
  {
    var n := |list| - 1;
    var earlier := list[..n];
    if k == n {
      WithoutAbsent(earlier, list[k]);
    } else {
      DroppedAt(earlier, k);
      assert list[..k] + list[k + 1..] == earlier[..k] + earlier[k + 1..] + [list[n]];
    }
  }

  /** A peer connects: it becomes the most recent, and with no room the least recent one goes. */
  function Connected(list: seq<Peer>, p: Peer, max: nat): seq<Peer> {
    if p in list then Without(list, p) + [p]
    else if max == 0 then list
    else (if |list| >= max then list[1..] else list) + [p]
  }

  function Touched(list: seq<Peer>, p: Peer): seq<Peer> {
    if p in list then Without(list, p) + [p] else list
  }

  function ListAfter(connects: seq<Peer>, max: nat): seq<Peer> {
    if connects == [] then [] else Connected(ListAfter(connects[..|connects| - 1], max), connects[|connects| - 1], max)
  }

  /** The peers that connected after the last time `p` did. */
  function Since(connects: seq<Peer>, p: Peer): set<Peer> {
    if connects == [] || connects[|connects| - 1] == p then {}
    else Since(connects[..|connects| - 1], p) + {connects[|connects| - 1]}
  }

  /** Behind the `i`-th listed peer stand exactly those that connected since. */
  ghost predicate Follows(connects: seq<Peer>, list: seq<Peer>, i: nat)
    requires i < |list|
  {
    list[i] in connects && Since(connects, list[i]) == Elements(list[i + 1..])
  }

  /** The list tells who connected since whom, and whoever is missing had too many after it. */
  ghost predicate Explains(connects: seq<Peer>, list: seq<Peer>, max: nat) {
    && Distinct(list) && |list| <= max
    && (forall i :: 0 <= i < |list| ==> Follows(connects, list, i))
    && (forall p :: p in connects && p !in list ==> |Since(connects, p)| >= max)
  }

  lemma SincePush(connects: seq<Peer>, x: Peer, p: Peer)
    ensures Since(connects + [x], p) == if x == p then {} else Since(connects, p) + {x}
  {
    assert (connects + [x])[..|connects|] == connects;
  }

  lemma MissingStays(connects: seq<Peer>, x: Peer, p: Peer, max: nat)
    requires |Since(connects, p)| >= max && x != p
    ensures |Since(connects + [x], p)| >= max
  {
    SincePush(connects, x, p);
    var s := Since(connects, p);
    assert s + {x} == if x in s then s else s + {x};
  }

  /** The list with its `k`-th peer moved to the end. */
  function Moved(list: seq<Peer>, k: nat): seq<Peer>
    requires k < |list|
  {
    list[..k] + list[k + 1..] + [list[k]]
  }

  lemma MovedMembers(list: seq<Peer>, k: nat, p: Peer)
    requires k < |list|
    ensures p in Moved(list, k) <==> p in list
  {
    assert list == list[..k] + [list[k]] + list[k + 1..];
  }

  lemma MovedDistinct(list: seq<Peer>, k: nat)
    requires Distinct(list) && k < |list|
    ensures Distinct(Moved(list, k))
  {
    var r := Moved(list, k);
    assert forall i :: 0 <= i < |list| - 1 ==> r[i] == list[if i < k then i else i + 1];
  }

  lemma MovedFollows(connects: seq<Peer>, list: seq<Peer>, k: nat, i: nat)
    requires Distinct(list) && k < |list| && i < |list|
    requires forall j :: 0 <= j < |list| ==> Follows(connects, list, j)
    ensures Follows(connects + [list[k]], Moved(list, k), i)
  {
    var x, r := list[k], Moved(list, k);
    SincePush(connects, x, r[i]);
    if i < k {
      assert Follows(connects, list, i);
      assert r[i] == list[i];
      assert r[i + 1..] == list[i + 1..k] + list[k + 1..] + [x];
      assert list[i + 1..] == list[i + 1..k] + [x] + list[k + 1..];
    } else if i < |list| - 1 {
      assert Follows(connects, list, i + 1);
      assert r[i] == list[i + 1];
      assert r[i + 1..] == list[i + 2..] + [x];
    } else {
      assert r[i] == x && r[i + 1..] == [];
    }
  }

  /** A listed peer connects again. */
  lemma ReconnectExplained(connects: seq<Peer>, list: seq<Peer>, k: nat, max: nat)
    requires Explains(connects, list, max) && k < |list|
    ensures Explains(connects + [list[k]], Moved(list, k), max)
  {
    var x, connects' := list[k], connects + [list[k]];
    MovedDistinct(list, k);
    forall i | 0 <= i < |list|
      ensures Follows(connects', Moved(list, k), i)
    {
      MovedFollows(connects, list, k, i);
    }
    forall p | p in connects' && p !in Moved(list, k)
      ensures |Since(connects', p)| >= max
    {
      MovedMembers(list, k, p);
      MissingStays(connects, x, p, max);
    }
  }

  /** The list with its first `d` peers gone and `x` behind the others. */
  function Joined(list: seq<Peer>, d: nat, x: Peer): seq<Peer>
    requires d <= |list|
  {
    list[d..] + [x]
  }

  lemma JoinedFollows(connects: seq<Peer>, list: seq<Peer>, d: nat, x: Peer, i: nat)
    requires x !in list && d <= |list| && i < |list| - d + 1
    requires forall j :: 0 <= j < |list| ==> Follows(connects, list, j)
    ensures Follows(connects + [x], Joined(list, d, x), i)
  {
    var r := Joined(list, d, x);
    SincePush(connects, x, r[i]);
    if i < |r| - 1 {
      assert Follows(connects, list, i + d);
      assert r[i] == list[i + d];
      assert r[i + 1..] == list[i + d + 1..] + [x];
    } else {
      assert r[i] == x && r[i + 1..] == [];
    }
  }

  /** A peer that is not listed connects. */
  lemma NewcomerExplained(connects: seq<Peer>, list: seq<Peer>, x: Peer, max: nat)
    requires Explains(connects, list, max) && x !in list && max > 0
    ensures Explains(connects + [x], Joined(list, if |list| >= max then 1 else 0, x), max)
  {
    var connects', d := connects + [x], if |list| >= max then 1 else 0;
    var list' := Joined(list, d, x);
    forall i | 0 <= i < |list'|
      ensures Follows(connects', list', i)
    {
      JoinedFollows(connects, list, d, x, i);
    }
    forall p | p in connects' && p !in list'
      ensures |Since(connects', p)| >= max
    {
      if p in list {
        assert list == list[..d] + list[d..];
        EvictedHadEnough(connects, list, x, max);
      } else {
        MissingStays(connects, x, p, max);
      }
    }
  }

  lemma EvictedHadEnough(connects: seq<Peer>, list: seq<Peer>, x: Peer, max: nat)
    requires Explains(connects, list, max) && x !in list && 0 < max == |list|
    ensures |Since(connects + [x], list[0])| >= max
  {
    assert Follows(connects, list, 0);
    SincePush(connects, x, list[0]);
    DistinctSize(list[1..]);
    assert x !in list[1..];
  }

  lemma {:induction false} ListExplained(connects: seq<Peer>, max: nat)
    requires max > 0
    ensures Explains(connects, ListAfter(connects, max), max)
    decreases |connects|
  {
    if connects != [] {
      var earlier, x := connects[..|connects| - 1], connects[|connects| - 1];
      assert connects == earlier + [x];
      ListExplained(earlier, max);
      var list := ListAfter(earlier, max);
      if x in list {
        var k :| 0 <= k < |list| && list[k] == x;
        DroppedAt(list, k);
        ReconnectExplained(earlier, list, k, max);
      } else {
        NewcomerExplained(earlier, list, x, max);
        assert list[0..] == list;
      }
    }
  }

  /** A peer is kept exactly when fewer than `max` others have connected since it last did. */
  lemma KeptIffRecent(connects: seq<Peer>, p: Peer, max: nat)
    requires max > 0
    ensures p in ListAfter(connects, max) <==> p in connects && |Since(connects, p)| < max
  {
    ListExplained(connects, max);
    var list := ListAfter(connects, max);
    if p in list {
      var i :| 0 <= i < |list| && list[i] == p;
      assert Follows(connects, list, i);
      DistinctSize(list[i + 1..]);
    }
  }

  // ---------------------------------------------------------------- the object

  datatype Admission = Admitted | Evict(victim: Peer) | Reject

  class DirectPeerCap {
    const max: nat
    var peers: set<Peer>
    var lastSeen: map<Peer, nat>
    var rejections: u64
    /** Peers by recency, the most recent last. */
    ghost var recency: seq<Peer>

    ghost predicate Valid()
      reads this
    {
      peers == lastSeen.Keys && |peers| <= max
    }

    /** The times agree with the recency list. */
    ghost predicate Ranked()
      reads this
    {
      RankedBy(recency, lastSeen)
    }

    /** The clock has moved on since every recorded time. */
    ghost predicate Later(now: nat)
      reads this
    {
      forall p :: p in lastSeen ==> lastSeen[p] < now
    }

    constructor (max: nat)
      ensures Valid() && Ranked() && this.max == max && peers == {} && recency == [] && rejections == 0
    {
      this.max, peers, lastSeen, rejections, recency := max, {}, map[], 0, [];
    }

    method Touch(p: Peer, now: nat)
      requires Valid()
      modifies this`lastSeen, this`recency
      ensures Valid()
      ensures lastSeen == if p in peers then old(lastSeen)[p := now] else old(lastSeen)
      ensures old(Ranked() && Later(now)) ==> Ranked() && recency == Touched(old(recency), p)
    {
      if p in peers {
        if Ranked() && Later(now) {
          RankRefresh(recency, lastSeen, p, now);
        }
        lastSeen := lastSeen[p := now];
        recency := Touched(recency, p);
      }
    }

    method Remove(p: Peer)
      requires Valid()
      modifies this`peers, this`lastSeen, this`recency
      ensures Valid() && peers == old(peers) - {p} && lastSeen == old(lastSeen) - {p}
      ensures recency == Without(old(recency), p)
      ensures old(Ranked()) ==> Ranked()
    {
      if Ranked() {
        RankDrop(recency, lastSeen, p);
      }
      peers := peers - {p};
      lastSeen := lastSeen - {p};
      recency := Without(recency, p);
      assert peers <= old(peers);
      SubsetSize(peers, old(peers));
    }

    /** Some peer whose time is least; there is none only when nobody is tracked. */
    method FindLeastRecentlyUsed() returns (r: Option<Peer>)
      requires Valid()
      ensures r.None? <==> peers == {}
      ensures r.Some? ==> r.value in peers && forall q :: q in peers ==> lastSeen[r.value] <= lastSeen[q]
    {
      r := None;
      var rest := lastSeen.Keys;
      while rest != {}
        invariant rest <= lastSeen.Keys
        invariant r.None? <==> rest == lastSeen.Keys
        invariant r.Some? ==> r.value in lastSeen && forall q :: q in lastSeen && q !in rest ==> lastSeen[r.value] <= lastSeen[q]
        decreases rest
      {
        var p :| p in rest;
        rest := rest - {p};
        if r.None? || lastSeen[p] < lastSeen[r.value] {
          r := Some(p);
        }
      }
    }

    /** Makes room if need be. Only a cap of zero rejects, and the victim is least recently used. */
    method Admit(p: Peer, now: nat) returns (a: Admission)
      requires Valid()
      modifies this
      ensures Valid() && (a.Reject? <==> max == 0)
      ensures a.Evict? <==> p !in old(peers) && |old(peers)| == max > 0
      ensures a.Evict? ==> a.victim in old(peers) && peers == old(peers) - {a.victim} && lastSeen == old(lastSeen) - {a.victim}
      ensures a.Evict? ==> forall q :: q in old(peers) ==> old(lastSeen)[a.victim] <= old(lastSeen)[q]
      ensures !a.Evict? ==> peers == old(peers)
      ensures !a.Evict? && p !in peers ==> lastSeen == old(lastSeen) && recency == old(recency)
      ensures p in old(peers) ==> lastSeen == old(lastSeen)[p := now]
      ensures a.Evict? ==> recency == Without(old(recency), a.victim)
      ensures old(Ranked()) && (a.Evict? || p !in old(peers) || old(Later(now))) ==> Ranked()
      ensures p in old(peers) && old(Ranked() && Later(now)) ==> recency == Touched(old(recency), p)
      ensures rejections == if a.Reject? then SatAdd(old(rejections), 1) else old(rejections)
    {
      if p in peers {
        assert max > 0 by {
          SubsetSize({p}, peers);
        }
        Touch(p, now);
        return Admitted;
      }
      if |peers| >= max {
        var victim := FindLeastRecentlyUsed();
        if victim.Some? {
          SubsetSize({victim.value}, peers);
          Remove(victim.value);
          return Evict(victim.value);
        }
        rejections := SatAdd(rejections, 1);
        return Reject;
      }
      return Admitted;
    }

    method Insert(p: Peer, now: nat)
      requires Valid()
      modifies this`peers, this`lastSeen, this`recency
      ensures peers == old(peers) + {p} && lastSeen == old(lastSeen)[p := now]
      ensures Valid() <==> |old(peers) + {p}| <= max
      ensures recency == Without(old(recency), p) + [p]
      ensures old(Ranked() && Later(now)) ==> Ranked()
    {
      if Ranked() && Later(now) {
        RankRefresh(recency, lastSeen, p, now);
      }
      peers := peers + {p};
      lastSeen := lastSeen[p := now];
      recency := Without(recency, p) + [p];
    }

    /** `handle_connection_established` for a peer that is neither the node itself nor a relay. */
    method Connect(p: Peer, now: nat, insertNow: nat) returns (fresh': bool)
      requires Valid()
      modifies this
      ensures Valid() && fresh' == (p !in old(peers) && max > 0)
      ensures p in peers <==> max > 0
      ensures old(Ranked() && Later(now)) && now <= insertNow ==> Ranked() && recency == Connected(old(recency), p, max)
    {
      ghost var list, times := recency, lastSeen;
      if p in peers {
        assert max > 0 by {
          SubsetSize({p}, peers);
        }
        if Ranked() {
          RankedLength(list, times);
        }
        Touch(p, now);
        return false;
      }
      var a := Admit(p, now);
      if a.Reject? {
        if RankedBy(list, times) {
          RankedLength(list, times);
        }
        return false;
      }
      Insert(p, insertNow);
      if RankedBy(list, times) {
        AdmissionList(list, times, a, p, max);
      }
      return true;
    }
  }

  lemma RankedLength(list: seq<Peer>, times: map<Peer, nat>)
    requires RankedBy(list, times)
    ensures |list| == |times.Keys|
    ensures forall p :: p in list <==> p in times
  {
    DistinctSize(list);
    assert forall p :: p in list <==> p in Elements(list);
  }

  /** Admission and insertion together are one step of the recency list. */
  lemma AdmissionList(list: seq<Peer>, times: map<Peer, nat>, a: Admission, p: Peer, max: nat)
    requires RankedBy(list, times) && p !in times && |times.Keys| <= max && max > 0
    requires a.Evict? <==> |times.Keys| == max
    requires a.Evict? ==> a.victim in times && forall q :: q in times ==> times[a.victim] <= times[q]
    ensures Without(if a.Evict? then Without(list, a.victim) else list, p) + [p] == Connected(list, p, max)
  {
    assert |list| == |times.Keys| && p !in list by {
      RankedLength(list, times);
    }
    if a.Evict? {
      assert list[0] == a.victim by {
        VictimIsFirst(list, times, a.victim);
      }
      DroppedFirst(list);
      WithoutAbsent(list[1..], p);
    } else {
      WithoutAbsent(list, p);
    }
  }

  lemma DroppedFirst(list: seq<Peer>)
    requires Distinct(list) && list != []
    ensures Without(list, list[0]) == list[1..]
  {
    DroppedAt(list, 0);
    assert list[..0] + list[1..] == list[1..];
  }

  lemma SubsetSize(a: set<Peer>, b: set<Peer>)
    requires a <= b
    ensures |a| <= |b|
  {
    assert b == a + (b - a);
  }

  ghost predicate RankedBy(list: seq<Peer>, times: map<Peer, nat>) {
    Elements(list) == times.Keys && Increasing(list, times)
  }

  lemma DroppedMembers(list: seq<Peer>, p: Peer)
    ensures Elements(Without(list, p)) == Elements(list) - {p}
  {
    WithoutMembers(list, p);
  }

  ghost predicate Increasing(list: seq<Peer>, times: map<Peer, nat>) {
    && (forall i :: 0 <= i < |list| ==> list[i] in times)
    && (forall i, j :: 0 <= i < j < |list| ==> times[list[i]] < times[list[j]])
  }

  lemma {:induction false} DroppedIncreasing(list: seq<Peer>, times: map<Peer, nat>, p: Peer)
    requires Increasing(list, times)
    ensures Increasing(Without(list, p), times)
    decreases |list|
  {
    if list != [] {
      var earlier, last := list[..|list| - 1], list[|list| - 1];
      DroppedIncreasing(earlier, times, p);
      var r := Without(earlier, p);
      forall i | 0 <= i < |r|
        ensures times[r[i]] < times[last]
      {
        DroppedMembers(earlier, p);
        assert r[i] in Elements(r);
        var j :| 0 <= j < |earlier| && earlier[j] == r[i];
        assert list[j] == r[i];
      }
    }
  }

  lemma RankDrop(list: seq<Peer>, times: map<Peer, nat>, p: Peer)
    requires RankedBy(list, times)
    ensures RankedBy(Without(list, p), times - {p})
  {
    ListedHasTime(list, times);
    DroppedIncreasing(list, times, p);
    DroppedMembers(list, p);
    var r := Without(list, p);
    forall i | 0 <= i < |r|
      ensures r[i] != p
    {
      assert r[i] in Elements(r);
    }
  }

  lemma ListedHasTime(list: seq<Peer>, times: map<Peer, nat>)
    requires Elements(list) == times.Keys
    ensures forall i :: 0 <= i < |list| ==> list[i] in times
  {
    forall i | 0 <= i < |list|
      ensures list[i] in times
    {
      assert list[i] in Elements(list);
    }
  }

  lemma RankRefresh(list: seq<Peer>, times: map<Peer, nat>, p: Peer, now: nat)
    requires RankedBy(list, times) && forall q :: q in times ==> times[q] < now
    ensures RankedBy(Without(list, p) + [p], times[p := now])
  {
    RankDrop(list, times, p);
    RankPush(Without(list, p), times - {p}, p, now);
    assert (times - {p})[p := now] == times[p := now];
  }

  lemma RankPush(list: seq<Peer>, times: map<Peer, nat>, p: Peer, now: nat)
    requires RankedBy(list, times) && p !in times && forall q :: q in times ==> times[q] < now
    ensures RankedBy(list + [p], times[p := now])
  {
    ListedHasTime(list, times);
    assert Elements(list + [p]) == Elements(list) + {p};
  }

  lemma VictimIsFirst(list: seq<Peer>, times: map<Peer, nat>, victim: Peer)
    requires RankedBy(list, times) && victim in times && forall q :: q in times ==> times[victim] <= times[q]
    ensures list != [] && list[0] == victim
  {
    var k :| 0 <= k < |list| && list[k] == victim;
  }
}
