/** The mail boxes (crates/mycelium-app/src/storage.rs): entries under textual keys that sort by time.

A tree is the list of its entries in the byte order of their keys, which is the order in which it
iterates. Mails are stored as values; their serialization is not modelled.
*/
module MailIndex {
  import opened Words
  import opened Numerals

  type Uuid = b: seq<u8> | |b| == 16 witness seq(16, _ => 0)

  datatype Mail = Mail(timestamp: u64, id: Uuid, text: string)

  // ------------------------------------------------------- lexicographic order

  predicate LexLess(a: Text, b: Text) {
    b != [] && (a == [] || a[0] < b[0] || (a[0] == b[0] && LexLess(a[1..], b[1..])))
  }

  lemma {:induction false} LexTotal(a: Text, b: Text)
    ensures LexLess(a, b) || LexLess(b, a) || a == b
    ensures !(LexLess(a, b) && LexLess(b, a)) && !LexLess(a, a)
    decreases |a| + |b|
  {
    if a != [] && b != [] {
      LexTotal(a[1..], b[1..]);
      assert a == [a[0]] + a[1..] && b == [b[0]] + b[1..];
    }
    LexIrreflexive(a);
  }

  lemma {:induction false} LexIrreflexive(a: Text)
    ensures !LexLess(a, a)
    decreases |a|
  {
    if a != [] {
      LexIrreflexive(a[1..]);
    }
  }

  lemma {:induction false} LexTransitive(a: Text, b: Text, c: Text)
    requires LexLess(a, b) && LexLess(b, c)
    ensures LexLess(a, c)
    decreases |a|
  {
    if a != [] && a[0] == b[0] == c[0] {
      LexTransitive(a[1..], b[1..], c[1..]);
    }
  }

  /** Behind fronts of equal length, the order is decided by the fronts first. */
  lemma {:induction false} LexAppend(a: Text, b: Text, x: Text, y: Text)
    requires |a| == |b|
    ensures LexLess(a + x, b + y) <==> LexLess(a, b) || (a == b && LexLess(x, y))
    decreases |a|
  {
    if a == [] {
      assert a + x == x && b + y == y;
    } else {
      LexAppend(a[1..], b[1..], x, y);
      assert (a + x)[1..] == a[1..] + x && (b + y)[1..] == b[1..] + y;
      assert a == [a[0]] + a[1..] && b == [b[0]] + b[1..];
    }
  }

  // ----------------------------------------------------------------- numerals

  /** The `width` last decimal digits of `n`. */
  function FixedDecimal(n: nat, width: nat): (r: Text)
    ensures |r| == width
  {
    if width == 0 then [] else FixedDecimal(n / 10, width - 1) + ['0' as int + n % 10]
  }

  lemma DivideBound(n: nat, p: nat)
    requires n < 10 * p
    ensures n / 10 < p
  {}

  lemma SingleOrder(x: u8, y: u8)
    ensures LexLess([x], [y]) <==> x < y
  {}

  /** Fixed-width numerals sort like the numbers they stand for. */
  lemma {:induction false} FixedDecimalOrder(m: nat, n: nat, width: nat)
    requires m < Power(10, width) && n < Power(10, width)
    ensures LexLess(FixedDecimal(m, width), FixedDecimal(n, width)) <==> m < n
    ensures FixedDecimal(m, width) == FixedDecimal(n, width) <==> m == n
    decreases width
  {
    if width > 0 {
      DivideBound(m, Power(10, width - 1));
      DivideBound(n, Power(10, width - 1));
      var (a, b) := (FixedDecimal(m / 10, width - 1), FixedDecimal(n / 10, width - 1));
      var (x, y) := ('0' as int + m % 10, '0' as int + n % 10);
      FixedDecimalOrder(m / 10, n / 10, width - 1);
      LexAppend(a, b, [x], [y]);
      SingleOrder(x, y);
      assert a + [x] == b + [y] <==> a == b && x == y by {
        if a + [x] == b + [y] {
          assert (a + [x])[..|a|] == a && (b + [y])[..|b|] == b;
          assert (a + [x])[|a|] == x && (b + [y])[|b|] == y;
        }
      }
    }
  }

  /** `{:020}`: the decimal numeral with leading zeros up to the width. */
  function Padded(n: nat, width: nat): Text {
    var d := Decimal(n);
    if |d| >= width then d else Zeros(width - |d|) + d
  }

  lemma {:induction false} DecimalFits(n: nat, width: nat)
    requires n < Power(10, width) && width > 0
    ensures |Decimal(n)| <= width
    decreases width
  {
    if n >= 10 {
      DivideBound(n, Power(10, width - 1));
      assert width > 1;
      DecimalFits(n / 10, width - 1);
    }
  }

  lemma {:induction false} FixedZero(width: nat)
    ensures FixedDecimal(0, width) == Zeros(width)
    decreases width
  {
    if width > 0 {
      FixedZero(width - 1);
      ZerosPush(width - 1);
    }
  }

  /** Padding gives the fixed-width numeral whenever the number fits. */
  lemma {:induction false} PaddedIsFixed(n: nat, width: nat)
    requires n < Power(10, width) && width > 0
    ensures Padded(n, width) == FixedDecimal(n, width)
    decreases width
  {
    DecimalFits(n, width);
    if n < 10 {
      FixedZero(width - 1);
      assert FixedDecimal(n, width) == Zeros(width - 1) + ['0' as int + n];
    } else {
      assert width > 1;
      DivideBound(n, Power(10, width - 1));
      PaddedIsFixed(n / 10, width - 1);
      DecimalFits(n / 10, width - 1);
      var d := Decimal(n / 10);
      assert Zeros(width - 1 - |d|) + d + ['0' as int + n % 10] == Zeros(width - 1 - |d|) + Decimal(n);
    }
  }

  lemma TwentyDigits(n: u64)
    ensures n < Power(10, 20)
  {
    assert Power(10, 20) == 100_000_000_000_000_000_000 by {
      assert Power(10, 5) == 100_000;
      assert Power(10, 10) == 100_000 * Power(10, 5);
      assert Power(10, 15) == 100_000 * Power(10, 10);
    }
  }

  // --------------------------------------------------------------- identifiers

  function LowerHex(v: nat): u8
    requires v < 16
  {
    if v < 10 then '0' as int + v else 'a' as int + v - 10
  }

  function Hex(bytes: seq<u8>): (r: Text)
    ensures |r| == 2 * |bytes|
  {
    if bytes == [] then [] else [LowerHex(bytes[0] / 16), LowerHex(bytes[0] % 16)] + Hex(bytes[1..])
  }

  lemma HexPairOrder(x: u8, y: u8)
    ensures LexLess([LowerHex(x / 16), LowerHex(x % 16)], [LowerHex(y / 16), LowerHex(y % 16)]) <==> x < y
    ensures [LowerHex(x / 16), LowerHex(x % 16)] == [LowerHex(y / 16), LowerHex(y % 16)] <==> x == y
  {
    var (a, b) := (LowerHex(x / 16), LowerHex(y / 16));
    LexAppend([a], [b], [LowerHex(x % 16)], [LowerHex(y % 16)]);
    assert [a] + [LowerHex(x % 16)] == [a, LowerHex(x % 16)] && [b] + [LowerHex(y % 16)] == [b, LowerHex(y % 16)];
    SingleOrder(a, b);
    SingleOrder(LowerHex(x % 16), LowerHex(y % 16));
    assert [a, LowerHex(x % 16)] == [b, LowerHex(y % 16)] ==> a == b && LowerHex(x % 16) == LowerHex(y % 16) by {
      assert [a, LowerHex(x % 16)][0] == a && [b, LowerHex(y % 16)][0] == b;
      assert [a, LowerHex(x % 16)][1] == LowerHex(x % 16) && [b, LowerHex(y % 16)][1] == LowerHex(y % 16);
    }
  }

  /** Hexadecimal text sorts like the bytes it stands for. */
  lemma {:induction false} HexOrder(x: seq<u8>, y: seq<u8>)
    requires |x| == |y|
    ensures LexLess(Hex(x), Hex(y)) <==> LexLess(x, y)
    ensures Hex(x) == Hex(y) <==> x == y
    decreases |x|
  {
    if x != [] {
      var (a, b) := ([LowerHex(x[0] / 16), LowerHex(x[0] % 16)], [LowerHex(y[0] / 16), LowerHex(y[0] % 16)]);
      HexOrder(x[1..], y[1..]);
      HexPairOrder(x[0], y[0]);
      LexAppend(a, b, Hex(x[1..]), Hex(y[1..]));
      assert x == [x[0]] + x[1..] && y == [y[0]] + y[1..];
      assert Hex(x) == Hex(y) ==> a == b && Hex(x[1..]) == Hex(y[1..]) by {
        assert Hex(x)[..2] == a && Hex(x)[2..] == Hex(x[1..]);
        assert Hex(y)[..2] == b && Hex(y)[2..] == Hex(y[1..]);
      }
    }
  }

  const HYPHEN: u8 := '-' as int
  const COLON: u8 := ':' as int

  /** Groups of bytes in hexadecimal, joined by hyphens. */
  function Grouped(bytes: seq<u8>, sizes: seq<nat>): Text {
    if sizes == [] || sizes[0] > |bytes| then Hex(bytes)
    else Hex(bytes[..sizes[0]]) + ([HYPHEN] + Grouped(bytes[sizes[0]..], sizes[1..]))
  }

  function UuidText(id: Uuid): Text {
    Grouped(id, [4, 2, 2, 2])
  }

  lemma {:induction false} GroupedOrder(x: seq<u8>, y: seq<u8>, sizes: seq<nat>)
    requires |x| == |y|
    ensures LexLess(Grouped(x, sizes), Grouped(y, sizes)) <==> LexLess(x, y)
    ensures Grouped(x, sizes) == Grouped(y, sizes) <==> x == y
    decreases |sizes|
  {
    if sizes == [] || sizes[0] > |x| {
      HexOrder(x, y);
    } else {
      var k := sizes[0];
      var (a, b, c, d) := (x[..k], y[..k], x[k..], y[k..]);
      assert x == a + c && y == b + d;
      HexOrder(a, b);
      GroupedOrder(c, d, sizes[1..]);
      JoinOrder(Hex(a), Hex(b), Grouped(c, sizes[1..]), Grouped(d, sizes[1..]), HYPHEN);
      LexAppend(a, b, c, d);
      AppendInjective(a, b, c, d);
    }
  }

  lemma AppendInjective(a: Text, b: Text, x: Text, y: Text)
    requires |a| == |b|
    ensures a + x == b + y <==> a == b && x == y
  {
    if a + x == b + y {
      assert (a + x)[..|a|] == a && (b + y)[..|b|] == b;
      assert (a + x)[|a|..] == x && (b + y)[|b|..] == y;
    }
  }

  /** A separator at a fixed place does not affect the order. */
  lemma JoinOrder(a: Text, b: Text, x: Text, y: Text, separator: u8)
    requires |a| == |b|
    ensures LexLess(a + ([separator] + x), b + ([separator] + y)) <==> LexLess(a, b) || (a == b && LexLess(x, y))
    ensures a + ([separator] + x) == b + ([separator] + y) <==> a == b && x == y
  {
    LexAppend(a, b, [separator] + x, [separator] + y);
    LexAppend([separator], [separator], x, y);
    LexIrreflexive([separator]);
    AppendInjective(a, b, [separator] + x, [separator] + y);
    AppendInjective([separator], [separator], x, y);
  }

  // ---------------------------------------------------------------------- keys

  function Key(m: Mail): Text {
    Padded(m.timestamp, 20) + ([COLON] + UuidText(m.id))
  }

  /** Older first, and by id within the same millisecond. */
  predicate Older(a: Mail, b: Mail) {
    a.timestamp < b.timestamp || (a.timestamp == b.timestamp && LexLess(a.id, b.id))
  }

  predicate SameSlot(a: Mail, b: Mail) {
    a.timestamp == b.timestamp && a.id == b.id
  }

  /** The byte order of keys is the order of the mails, for every timestamp and id. */
  lemma KeyOrder(a: Mail, b: Mail)
    ensures LexLess(Key(a), Key(b)) <==> Older(a, b)
    ensures Key(a) == Key(b) <==> SameSlot(a, b)
  {
    TwentyDigits(a.timestamp);
    TwentyDigits(b.timestamp);
    PaddedIsFixed(a.timestamp, 20);
    PaddedIsFixed(b.timestamp, 20);
    FixedDecimalOrder(a.timestamp, b.timestamp, 20);
    GroupedOrder(a.id, b.id, [4, 2, 2, 2]);
    JoinOrder(FixedDecimal(a.timestamp, 20), FixedDecimal(b.timestamp, 20), UuidText(a.id), UuidText(b.id), COLON);
  }

  // --------------------------------------------------------------------- trees

  ghost predicate Ordered(tree: seq<Mail>) {
    forall i, j :: 0 <= i < j < |tree| ==> Older(tree[i], tree[j])
  }

  /** The tree after an insertion, which finds its place by comparing keys. */
  function Put(tree: seq<Mail>, m: Mail): seq<Mail> {
    if tree == [] then [m]
    else
      var earlier, last := tree[..|tree| - 1], tree[|tree| - 1];
      if Key(last) == Key(m) then earlier + [m]
      else if LexLess(Key(last), Key(m)) then tree + [m]
      else Put(earlier, m) + [last]
  }

  lemma OlderTransitive(a: Mail, b: Mail, c: Mail)
    requires Older(a, b) && Older(b, c)
    ensures Older(a, c)
  {
    if a.timestamp == b.timestamp == c.timestamp {
      LexTransitive(a.id, b.id, c.id);
    }
  }

  lemma OlderTotal(a: Mail, b: Mail)
    ensures Older(a, b) || Older(b, a) || SameSlot(a, b)
    ensures !(Older(a, b) && Older(b, a)) && !(Older(a, b) && SameSlot(a, b))
  {
    LexTotal(a.id, b.id);
  }

  /** What an insertion leaves at each place: the new mail, or an old one from another slot. */
  lemma {:induction false} PutMembers(tree: seq<Mail>, m: Mail)
    requires Ordered(tree)
    ensures forall x :: x in Put(tree, m) <==> x == m || (x in tree && !SameSlot(x, m))
    decreases |tree|
  {
    if tree != [] {
      var earlier, last := tree[..|tree| - 1], tree[|tree| - 1];
      assert tree == earlier + [last];
      KeyOrder(last, m);
      KeyOrder(m, last);
      OlderTotal(last, m);
      forall x | x in earlier
        ensures Older(x, last)
      {
        var i :| 0 <= i < |earlier| && earlier[i] == x;
        assert tree[i] == x && tree[|tree| - 1] == last;
      }
      if Key(last) == Key(m) {
        forall x | x in earlier
          ensures !SameSlot(x, m)
        {
          OlderTotal(x, last);
        }
      } else if LexLess(Key(last), Key(m)) {
        forall x | x in earlier
          ensures !SameSlot(x, m)
        {
          OlderTransitive(x, last, m);
          OlderTotal(x, m);
        }
      } else {
        PutMembers(earlier, m);
      }
    }
  }

  lemma OrderedPush(tree: seq<Mail>, m: Mail)
    requires Ordered(tree) && forall x :: x in tree ==> Older(x, m)
    ensures Ordered(tree + [m])
  {}

  lemma {:induction false} PutOrdered(tree: seq<Mail>, m: Mail)
    requires Ordered(tree)
    ensures Ordered(Put(tree, m))
    decreases |tree|
  {
    if tree != [] {
      var earlier, last := tree[..|tree| - 1], tree[|tree| - 1];
      assert forall i :: 0 <= i < |earlier| ==> Older(tree[i], tree[|tree| - 1]);
      KeyOrder(last, m);
      OlderTotal(last, m);
      if Key(last) == Key(m) {
        OrderedPush(earlier, m);
      } else if LexLess(Key(last), Key(m)) {
        forall x | x in tree
          ensures Older(x, m)
        {
          var i :| 0 <= i < |tree| && tree[i] == x;
          if i < |tree| - 1 {
            OlderTransitive(x, last, m);
          }
        }
        OrderedPush(tree, m);
      } else {
        PutOrdered(earlier, m);
        PutMembers(earlier, m);
        forall x | x in Put(earlier, m)
          ensures Older(x, last)
        {
          assert x == m || x in earlier;
        }
        OrderedPush(Put(earlier, m), last);
      }
    }
  }

  /** The last mail saved in every slot. */
  ghost predicate IsLatest(saved: seq<Mail>, m: Mail) {
    exists i :: 0 <= i < |saved| && saved[i] == m && forall j :: i < j < |saved| ==> !SameSlot(saved[j], m)
  }

  function TreeOf(saved: seq<Mail>): seq<Mail> {
    if saved == [] then [] else Put(TreeOf(saved[..|saved| - 1]), saved[|saved| - 1])
  }

  lemma LatestPush(saved: seq<Mail>, m: Mail, x: Mail)
    ensures IsLatest(saved + [m], x) <==> x == m || (IsLatest(saved, x) && !SameSlot(m, x))
  {
    var all := saved + [m];
    if IsLatest(all, x) {
      var i :| 0 <= i < |all| && all[i] == x && forall j :: i < j < |all| ==> !SameSlot(all[j], x);
      if i < |saved| {
        assert all[|saved|] == m;
        assert saved[i] == x && forall j :: i < j < |saved| ==> !SameSlot(saved[j], x) by {
          assert forall j :: i < j < |saved| ==> all[j] == saved[j];
        }
      }
    }
    if x == m {
      assert all[|saved|] == x;
    } else if IsLatest(saved, x) && !SameSlot(m, x) {
      var i :| 0 <= i < |saved| && saved[i] == x && forall j :: i < j < |saved| ==> !SameSlot(saved[j], x);
      assert all[i] == x;
    }
  }

  /** After any saves the box holds exactly the last mail of every slot, ordered by time and id. */
  lemma {:induction false} TreeHoldsLatest(saved: seq<Mail>)
    ensures Ordered(TreeOf(saved))
    ensures forall m :: m in TreeOf(saved) <==> IsLatest(saved, m)
    decreases |saved|
  {
    if saved != [] {
      var earlier, last := saved[..|saved| - 1], saved[|saved| - 1];
      TreeHoldsLatest(earlier);
      PutOrdered(TreeOf(earlier), last);
      PutMembers(TreeOf(earlier), last);
      assert saved == earlier + [last];
      forall m
        ensures m in TreeOf(saved) <==> IsLatest(saved, m)
      {
        LatestPush(earlier, last, m);
      }
    }
  }

  // -------------------------------------------------------------------- newest

  /** `r` is the newest `limit` mails of the box, newest first. */
  ghost predicate IsNewest(tree: seq<Mail>, limit: nat, r: seq<Mail>) {
    && |r| == Min(limit, |tree|)
    && (forall i :: 0 <= i < |r| ==> r[i] in tree)
    && (forall i, j :: 0 <= i < j < |r| ==> Older(r[j], r[i]))
    && (forall m, i :: m in tree && m !in r && 0 <= i < |r| ==> Older(m, r[i]))
  }

  /** `newest_mails`: iterate backwards and stop after `limit` entries. */
  method NewestMails(tree: seq<Mail>, limit: nat) returns (out: seq<Mail>)
    requires Ordered(tree)
    ensures IsNewest(tree, limit, out)
  {
    out := [];
    var n := |tree|;
    while n > 0 && |out| < limit
      invariant 0 <= n <= |tree| && |out| == |tree| - n <= limit
      invariant forall i :: 0 <= i < |out| ==> out[i] == tree[|tree| - 1 - i]
    {
      n := n - 1;
      out := out + [tree[n]];
    }
    forall k | n <= k < |tree|
      ensures tree[k] in out
    {
      assert out[|tree| - 1 - k] == tree[k];
    }
  }

  class MailBox {
    var tree: seq<Mail>
    ghost var saved: seq<Mail>

    ghost predicate Valid()
      reads this
    {
      tree == TreeOf(saved)
    }

    constructor ()
      ensures Valid() && saved == []
    {
      tree, saved := [], [];
    }

    method Save(m: Mail)
      requires Valid()
      modifies this
      ensures Valid() && saved == old(saved) + [m] && tree == Put(old(tree), m)
    {
      assert (saved + [m])[..|saved|] == saved;
      tree := Put(tree, m);
      saved := saved + [m];
    }

    /** The newest `limit` of all mails saved so far, newest first. */
    method Newest(limit: nat) returns (r: seq<Mail>)
      requires Valid()
      ensures IsNewest(tree, limit, r)
      ensures forall i :: 0 <= i < |r| ==> IsLatest(saved, r[i])
      ensures forall m, i :: IsLatest(saved, m) && m !in r && 0 <= i < |r| ==> Older(m, r[i])
    {
      TreeHoldsLatest(saved);
      r := NewestMails(tree, limit);
    }
  }
}
