/** Hop-limited flooding of encrypted direct messages through a network of nodes
(crates/mycelium-node/src/node.rs, the `EncryptedDirect` arm and `forward_wire_to_others`).

A copy in flight is on its way to one node. Signature checks, throttling and failing sends are
arbitrary verdicts of each reception.
*/
module Flood {
  import opened Words
  import opened Mesh
  import opened Sequences

  datatype Copy = Copy(at: Peer, from: Peer, to: Peer, hops: u8, maxHops: u8)

  /** What a node finds when it takes up a copy: whether the copy is let in, whom the node knows
  and which of its sends arrive. */
  datatype Reception = Reception(pass: bool, known: seq<Peer>, reaches: Peer -> bool)

  /** One copy for each peer that a send reaches, one hop further. */
  function Relayed(c: Copy, peers: seq<Peer>, reaches: Peer -> bool): seq<Copy> {
    if peers == [] then [] else
      var p := peers[|peers| - 1];
      Relayed(c, peers[..|peers| - 1], reaches) +
      (if reaches(p) then [Copy(p, c.at, c.to, if c.hops == 255 then 255 else c.hops + 1, c.maxHops)] else [])
  }

  /** The copies that handling `c` puts into flight. */
  function Spread(c: Copy, r: Reception): seq<Copy> {
    if !r.pass || c.to == c.at || c.hops >= c.maxHops then [] else Relayed(c, Without(r.known, c.from), r.reaches)
  }

  method HandleEncrypted(c: Copy, r: Reception) returns (out: seq<Copy>)
    ensures out == Spread(c, r)
  {
    out := [];
    if !r.pass || c.to == c.at || c.hops >= c.maxHops {
      return;
    }
    var peers := Without(r.known, c.from);
    for i := 0 to |peers|
      invariant out == Relayed(c, peers[..i], r.reaches)
    {
      assert peers[..i + 1][..i] == peers[..i];
      if r.reaches(peers[i]) {
        out := out + [Copy(peers[i], c.at, c.to, if c.hops == 255 then 255 else c.hops + 1, c.maxHops)];
      }
    }
    assert peers[..|peers|] == peers;
  }

  lemma {:induction false} RelayedCopies(c: Copy, peers: seq<Peer>, reaches: Peer -> bool)
    requires c.hops < c.maxHops
    ensures |Relayed(c, peers, reaches)| <= |peers|
    ensures forall i :: 0 <= i < |Relayed(c, peers, reaches)| ==>
              var d := Relayed(c, peers, reaches)[i];
              d.hops == c.hops + 1 && d.maxHops == c.maxHops && d.to == c.to && d.from == c.at && d.at in peers
    decreases |peers|
  {
    if peers != [] {
      RelayedCopies(c, peers[..|peers| - 1], reaches);
      assert peers == peers[..|peers| - 1] + [peers[|peers| - 1]];
    }
  }

  /** A copy never goes back to the hop it came from, gains exactly one hop and stays within its limit. */
  lemma SpreadCopies(c: Copy, r: Reception)
    ensures |Spread(c, r)| <= |r.known|
    ensures forall i :: 0 <= i < |Spread(c, r)| ==>
              var d := Spread(c, r)[i];
              && d.hops == c.hops + 1 <= d.maxHops == c.maxHops && d.to == c.to
              && d.from == c.at && d.at != c.from && d.at in r.known
  {
    if c.hops < c.maxHops {
      RelayedCopies(c, Without(r.known, c.from), r.reaches);
      WithoutMembers(r.known, c.from);
    }
  }

  ghost predicate Reached(copies: seq<Copy>, p: Peer) {
    exists i :: 0 <= i < |copies| && copies[i].at == p
  }

  /** A peer gets a copy exactly when the copy is let in, is meant for someone else and has hops
  left, and the peer is known, is not the previous hop and is reached. */
  lemma SpreadReaches(c: Copy, r: Reception, p: Peer)
    ensures Reached(Spread(c, r), p) <==>
            r.pass && c.to != c.at && c.hops < c.maxHops && p in r.known && p != c.from && r.reaches(p)
  {
    WithoutMembers(r.known, c.from);
    RelayedReaches(c, Without(r.known, c.from), r.reaches, p);
  }

  lemma {:induction false} RelayedReaches(c: Copy, peers: seq<Peer>, reaches: Peer -> bool, p: Peer)
    ensures Reached(Relayed(c, peers, reaches), p) <==> p in peers && reaches(p)
    decreases |peers|
  {
    if peers != [] {
      var earlier, last := peers[..|peers| - 1], peers[|peers| - 1];
      RelayedReaches(c, earlier, reaches, p);
      assert peers == earlier + [last];
      var (a, b) := (Relayed(c, earlier, reaches), Relayed(c, peers, reaches));
      if i :| 0 <= i < |a| && a[i].at == p {
        assert b[i].at == p;
      }
      if reaches(last) {
        assert b[|a|].at == last;
      }
    }
  }

  // ---------------------------------------------------------------- weights

  /** Hops a copy may still make. */
  function Left(c: Copy): nat {
    if c.hops < c.maxHops then c.maxHops - c.hops else 0
  }

  /** Nodes of the full tree of the given degree and depth. */
  function Tree(degree: nat, depth: nat): (n: nat)
    ensures n >= 1
  {
    if depth == 0 then 1 else 1 + degree * Tree(degree, depth - 1)
  }

  lemma {:induction false} TreeWithinPower(degree: nat, depth: nat)
    ensures Tree(degree, depth) <= Power(degree + 1, depth)
    decreases depth
  {
    if depth > 0 {
      TreeWithinPower(degree, depth - 1);
      OneMore(degree, Tree(degree, depth - 1), Power(degree + 1, depth - 1));
    }
  }

  lemma OneMore(k: nat, t: nat, p: nat)
    requires t <= p && p >= 1
    ensures 1 + k * t <= (k + 1) * p
  {
    Scale(t, p, k);
    assert (k + 1) * p == p * k + p && k * t == t * k;
  }

  function Weight(degree: nat, net: seq<Copy>): nat {
    if net == [] then 0 else Weight(degree, net[..|net| - 1]) + Tree(degree, Left(net[|net| - 1]))
  }

  lemma {:induction false} WeightAppend(degree: nat, a: seq<Copy>, b: seq<Copy>)
    ensures Weight(degree, a + b) == Weight(degree, a) + Weight(degree, b)
    decreases |b|
  {
    if b == [] {
      assert a + b == a;
    } else {
      var earlier, last := b[..|b| - 1], b[|b| - 1];
      WeightAppend(degree, a, earlier);
      assert (a + b)[..|a + b| - 1] == a + earlier;
    }
  }

  lemma {:induction false} WeightUniform(degree: nat, net: seq<Copy>, left: nat)
    requires forall i :: 0 <= i < |net| ==> Left(net[i]) == left
    ensures Weight(degree, net) == |net| * Tree(degree, left)
    decreases |net|
  {
    if net != [] {
      WeightUniform(degree, net[..|net| - 1], left);
      assert (|net| - 1) * Tree(degree, left) + Tree(degree, left) == |net| * Tree(degree, left);
    }
  }

  /** The copies a node puts into flight weigh less than the one it took, and exactly one less
  when every one of `degree` sends is made. */
  lemma SpreadWeighsLess(degree: nat, c: Copy, r: Reception)
    requires |r.known| <= degree
    ensures Weight(degree, Spread(c, r)) <= Tree(degree, Left(c)) - 1
    ensures |Spread(c, r)| == (if c.hops < c.maxHops then degree else 0) ==>
              Weight(degree, Spread(c, r)) == Tree(degree, Left(c)) - 1
  {
    var out := Spread(c, r);
    SpreadCopies(c, r);
    if c.hops < c.maxHops {
      WeightUniform(degree, out, Left(c) - 1);
      Scale(|out|, degree, Tree(degree, Left(c) - 1));
    } else {
      assert out == [];
    }
  }

  lemma Scale(a: nat, b: nat, t: nat)
    requires a <= b
    ensures a * t <= b * t
  {
    assert (b - a) * t >= 0;
  }

  // ------------------------------------------------------------------- runs

  datatype Action = Inject(copy: Copy) | Process(i: nat, r: Reception)

  function Without1(net: seq<Copy>, i: nat): seq<Copy>
    requires i < |net|
  {
    net[..i] + net[i + 1..]
  }

  predicate Handles(net: seq<Copy>, a: Action) {
    a.Process? && a.i < |net|
  }

  function After(net: seq<Copy>, a: Action): seq<Copy> {
    if a.Inject? then net + [a.copy]
    else if a.i < |net| then Without1(net, a.i) + Spread(net[a.i], a.r)
    else net
  }

  /** The copies in flight after a run, in which nodes take up copies in any order. */
  function Net(actions: seq<Action>): seq<Copy> {
    if actions == [] then [] else After(Net(actions[..|actions| - 1]), actions[|actions| - 1])
  }

  /** Copies taken up so far. */
  function Processed(actions: seq<Action>): nat {
    if actions == [] then 0 else
      var earlier := actions[..|actions| - 1];
      Processed(earlier) + (if Handles(Net(earlier), actions[|actions| - 1]) then 1 else 0)
  }

  function InjectedWeight(degree: nat, actions: seq<Action>): nat {
    if actions == [] then 0 else
      var a := actions[|actions| - 1];
      InjectedWeight(degree, actions[..|actions| - 1]) + (if a.Inject? then Tree(degree, Left(a.copy)) else 0)
  }

  /** No node knows more than `degree` peers. */
  ghost predicate DegreeBound(degree: nat, actions: seq<Action>) {
    forall i :: 0 <= i < |actions| && actions[i].Process? ==> |actions[i].r.known| <= degree
  }

  lemma RemoveWeight(degree: nat, net: seq<Copy>, i: nat)
    requires i < |net|
    ensures Weight(degree, Without1(net, i)) == Weight(degree, net) - Tree(degree, Left(net[i]))
  {
    var head, tail := net[..i], net[i + 1..];
    assert net == head + [net[i]] + tail;
    WeightAppend(degree, head + [net[i]], tail);
    WeightAppend(degree, head, [net[i]]);
    WeightAppend(degree, head, tail);
    assert [net[i]][..0] == [];
  }

  /** Every copy taken up costs at least one unit of weight, whichever copy it is. */
  lemma ProcessCosts(degree: nat, net: seq<Copy>, a: Action)
    requires Handles(net, a) && |a.r.known| <= degree
    ensures Weight(degree, After(net, a)) + 1 <= Weight(degree, net)
    ensures |Spread(net[a.i], a.r)| == (if net[a.i].hops < net[a.i].maxHops then degree else 0) ==>
              Weight(degree, After(net, a)) + 1 == Weight(degree, net)
  {
    RemoveWeight(degree, net, a.i);
    SpreadWeighsLess(degree, net[a.i], a.r);
    WeightAppend(degree, Without1(net, a.i), Spread(net[a.i], a.r));
  }

  lemma InjectAdds(degree: nat, net: seq<Copy>, c: Copy)
    ensures Weight(degree, net + [c]) == Weight(degree, net) + Tree(degree, Left(c))
  {
    assert (net + [c])[..|net|] == net;
  }

  /** Floods die out: the copies taken up in any run, together with the weight still in flight,
  never exceed the weight that was injected. */
  lemma {:induction false} FloodsDieOut(degree: nat, actions: seq<Action>)
    requires DegreeBound(degree, actions)
    ensures Processed(actions) + Weight(degree, Net(actions)) <= InjectedWeight(degree, actions)
    decreases |actions|
  {
    if actions != [] {
      var earlier, a := actions[..|actions| - 1], actions[|actions| - 1];
      FloodsDieOut(degree, earlier);
      var net := Net(earlier);
      if a.Inject? {
        InjectAdds(degree, net, a.copy);
      } else if a.i < |net| {
        ProcessCosts(degree, net, a);
      }
    }
  }

  /** Every node that relays relays to exactly `degree` others, and nothing is refused. */
  ghost predicate Lossless(degree: nat, actions: seq<Action>) {
    forall k :: 0 <= k < |actions| ==> FullStep(degree, Net(actions[..k]), actions[k])
  }

  ghost predicate FullStep(degree: nat, net: seq<Copy>, a: Action) {
    Handles(net, a) ==> |Spread(net[a.i], a.r)| == if net[a.i].hops < net[a.i].maxHops then degree else 0
  }

  /** The bound is exact: a flood in which nothing is lost takes precisely the injected weight. */
  lemma {:induction false} LosslessFloodExact(degree: nat, actions: seq<Action>)
    requires DegreeBound(degree, actions) && Lossless(degree, actions)
    ensures Processed(actions) + Weight(degree, Net(actions)) == InjectedWeight(degree, actions)
    decreases |actions|
  {
    if actions != [] {
      var n := |actions| - 1;
      var earlier, a := actions[..n], actions[n];
      assert Lossless(degree, earlier) by {
        forall k | 0 <= k < n
          ensures FullStep(degree, Net(earlier[..k]), earlier[k])
        {
          assert earlier[..k] == actions[..k];
          assert FullStep(degree, Net(actions[..k]), actions[k]);
        }
      }
      LosslessFloodExact(degree, earlier);
      assert FullStep(degree, Net(actions[..n]), actions[n]);
      if a.Inject? {
        InjectAdds(degree, Net(earlier), a.copy);
      } else if a.i < |Net(earlier)| {
        ProcessCosts(degree, Net(earlier), a);
      }
    }
  }

  /** The `i`-th of the peers that a node on a tree knows; its name is longer than the others'. */
  function Neighbour(c: Copy, i: nat): (r: Peer)
    ensures r != c.from && r != c.to
  {
    var r := c.at + c.from + c.to + seq(i + 1, _ => 'x');
    assert |r| > |c.from| && |r| > |c.to|;
    r
  }

  /** `degree` peers that are neither the previous hop nor the destination. */
  function Neighbours(c: Copy, degree: nat): (r: seq<Peer>)
    ensures |r| == degree && c.from !in r && c.to !in r
  {
    if degree == 0 then [] else Neighbours(c, degree - 1) + [Neighbour(c, degree - 1)]
  }

  function AllReached(c: Copy, degree: nat): Reception {
    Reception(true, Neighbours(c, degree), _ => true)
  }

  lemma {:induction false} RelayedToAll(c: Copy, peers: seq<Peer>, reaches: Peer -> bool)
    requires forall i :: 0 <= i < |peers| ==> reaches(peers[i]) && peers[i] != c.to
    ensures |Relayed(c, peers, reaches)| == |peers| && Astray(Relayed(c, peers, reaches))
    decreases |peers|
  {
    if peers != [] {
      var earlier, last := peers[..|peers| - 1], peers[|peers| - 1];
      RelayedToAll(c, earlier, reaches);
      assert reaches(last) && last != c.to;
      AstrayPush(Relayed(c, earlier, reaches), Copy(last, c.at, c.to, if c.hops == 255 then 255 else c.hops + 1, c.maxHops));
    }
  }

  lemma AstrayPush(net: seq<Copy>, c: Copy)
    requires Astray(net) && c.at != c.to
    ensures Astray(net + [c])
  {}

  /** No copy in flight is on its way to its destination. */
  ghost predicate Astray(net: seq<Copy>) {
    forall i :: 0 <= i < |net| ==> net[i].at != net[i].to
  }

  /** Nothing is lost when a node knows `degree` others, none of them the destination, and reaches all. */
  lemma FullSpread(c: Copy, degree: nat)
    requires c.at != c.to
    ensures |Spread(c, AllReached(c, degree))| == (if c.hops < c.maxHops then degree else 0)
    ensures Astray(Spread(c, AllReached(c, degree)))
  {
    var r := AllReached(c, degree);
    WithoutAbsent(r.known, c.from);
    RelayedToAll(c, r.known, r.reaches);
  }

  lemma LosslessPush(degree: nat, actions: seq<Action>, a: Action)
    requires Lossless(degree, actions) && FullStep(degree, Net(actions), a)
    ensures Lossless(degree, actions + [a])
  {
    var all := actions + [a];
    forall k | 0 <= k < |all|
      ensures FullStep(degree, Net(all[..k]), all[k])
    {
      assert all[..k] == actions[..k];
      if k < |actions| {
        assert FullStep(degree, Net(actions[..k]), actions[k]);
      } else {
        assert actions[..k] == actions;
      }
    }
  }

  /** A run of one injection in which nothing has been lost so far. */
  ghost predicate FullRun(degree: nat, c: Copy, actions: seq<Action>) {
    && actions != [] && actions[0] == Inject(c) && (forall k :: 0 < k < |actions| ==> actions[k].Process?)
    && DegreeBound(degree, actions) && Lossless(degree, actions) && Astray(Net(actions))
  }

  lemma NetPush(actions: seq<Action>, a: Action)
    ensures Net(actions + [a]) == After(Net(actions), a)
  {
    assert (actions + [a])[..|actions|] == actions;
  }

  /** The copies in flight once the first one has been handled without loss. */
  function NetAfterFirst(net: seq<Copy>, degree: nat): seq<Copy>
    requires net != []
  {
    net[1..] + Spread(net[0], AllReached(net[0], degree))
  }

  lemma FirstHandled(net: seq<Copy>, degree: nat)
    requires net != [] && Astray(net)
    ensures var a := Process(0, AllReached(net[0], degree));
            && After(net, a) == NetAfterFirst(net, degree) && FullStep(degree, net, a)
            && Astray(NetAfterFirst(net, degree))
            && Weight(degree, NetAfterFirst(net, degree)) < Weight(degree, net)
  {
    var a := Process(0, AllReached(net[0], degree));
    FullSpread(net[0], degree);
    assert Without1(net, 0) == net[1..];
    ProcessCosts(degree, net, a);
  }

  lemma FullRunPush(degree: nat, c: Copy, actions: seq<Action>, net: seq<Copy>)
    requires FullRun(degree, c, actions) && net == Net(actions) && net != []
    ensures FullRun(degree, c, actions + [Process(0, AllReached(net[0], degree))])
    ensures Net(actions + [Process(0, AllReached(net[0], degree))]) == NetAfterFirst(net, degree)
  {
    var a := Process(0, AllReached(net[0], degree));
    FirstHandled(net, degree);
    assert Net(actions + [a]) == NetAfterFirst(net, degree) by {
      NetPush(actions, a);
    }
    assert Lossless(degree, actions + [a]) by {
      LosslessPush(degree, actions, a);
    }
    assert DegreeBound(degree, actions + [a]);
  }

  /** Such a run goes on until nothing is in flight. */
  lemma {:induction false} FullRunEnds(degree: nat, c: Copy, actions: seq<Action>, net: seq<Copy>) returns (all: seq<Action>)
    requires FullRun(degree, c, actions) && net == Net(actions)
    ensures FullRun(degree, c, all) && Net(all) == []
    decreases Weight(degree, net)
  {
    if net == [] {
      all := actions;
    } else {
      FullRunPush(degree, c, actions, net);
      FirstHandled(net, degree);
      all := FullRunEnds(degree, c, actions + [Process(0, AllReached(net[0], degree))], NetAfterFirst(net, degree));
    }
  }

  /** The bound is reached: for every degree and every copy that is not yet at its destination some
  run handles precisely as many copies as the full tree has nodes, and ends with none in flight. */
  lemma FloodBoundReached(degree: nat, c: Copy) returns (actions: seq<Action>)
    requires c.at != c.to
    ensures actions != [] && actions[0] == Inject(c) && (forall k :: 0 < k < |actions| ==> actions[k].Process?)
    ensures DegreeBound(degree, actions) && Net(actions) == []
    ensures Processed(actions) == Tree(degree, Left(c))
  {
    var start := [Inject(c)];
    assert start[..0] == [];
    assert Net(start) == [c];
    actions := FullRunEnds(degree, c, start, [c]);
    LosslessFloodExact(degree, actions);
    OnlyOneInjected(degree, c, actions);
  }

  /** One injected copy causes at most (degree + 1) to the power of its hop limit steps, in any
  order of handling, and in fact no more than the full tree of that depth has nodes. */
  lemma OneFloodBounded(degree: nat, c: Copy, actions: seq<Action>)
    requires DegreeBound(degree, actions) && actions != [] && actions[0] == Inject(c)
    requires forall k :: 0 < k < |actions| ==> actions[k].Process?
    ensures Processed(actions) <= Tree(degree, Left(c)) <= Power(degree + 1, c.maxHops)
  {
    FloodsDieOut(degree, actions);
    OnlyOneInjected(degree, c, actions);
    TreeWithinPower(degree, Left(c));
    PowerGrows(degree + 1, Left(c), c.maxHops);
  }

  lemma {:induction false} OnlyOneInjected(degree: nat, c: Copy, actions: seq<Action>)
    requires actions != [] && actions[0] == Inject(c)
    requires forall k :: 0 < k < |actions| ==> actions[k].Process?
    ensures InjectedWeight(degree, actions) == Tree(degree, Left(c))
    decreases |actions|
  {
    if |actions| > 1 {
      OnlyOneInjected(degree, c, actions[..|actions| - 1]);
    } else {
      assert actions[..0] == [];
    }
  }

  lemma {:induction false} PowerGrows(b: nat, m: nat, n: nat)
    requires b >= 1 && m <= n
    ensures Power(b, m) <= Power(b, n)
    decreases n
  {
    if m < n {
      PowerGrows(b, m, n - 1);
      Scale(1, b, Power(b, n - 1));
    }
  }

  /** No copy in flight has made more hops than its limit. */
  lemma {:induction false} HopsWithinLimit(actions: seq<Action>)
    requires forall k :: 0 <= k < |actions| && actions[k].Inject? ==> actions[k].copy.hops <= actions[k].copy.maxHops
    ensures forall i :: 0 <= i < |Net(actions)| ==> Net(actions)[i].hops <= Net(actions)[i].maxHops
    decreases |actions|
  {
    if actions != [] {
      var earlier, a := actions[..|actions| - 1], actions[|actions| - 1];
      HopsWithinLimit(earlier);
      if Handles(Net(earlier), a) {
        SpreadCopies(Net(earlier)[a.i], a.r);
      }
    }
  }
}
