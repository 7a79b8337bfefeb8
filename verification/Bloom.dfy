/** The Bloom filter used by anti-entropy sync, at bit level (crates/mycelium-core/src/sync.rs).

A filter is 128 words of 64 bits. The hash is an arbitrary function of the id and the seed.
*/
module Bloom {
  import opened Words

  type Id = string
  type Hash = (Id, nat) -> bv64

  const HASHES: nat := 3

  type Filter = f: seq<bv64> | |f| == 128 witness seq(128, _ => 0 as bv64)

  /** A bit position: a word of the filter and an offset inside it. */
  datatype Position = Position(word: nat, offset: bv64)
  type Bit = p: Position | p.word < 128 && p.offset < 64 witness Position(0, 0)

  function EmptyFilter(): (f: Filter)
    ensures forall i :: 0 <= i < 128 ==> f[i] == 0
  {
    seq(128, _ => 0 as bv64)
  }

  // ------------------------------------------------------------- single bits

  /** Where seed `i` puts an id: bit `hash % 8192`, in word `bit / 64` at offset `bit % 64`. */
  function BitOf(hash: Hash, id: Id, i: nat): Bit {
    var bit := hash(id, i) % 8192;
    Position((bit / 64) as nat, bit % 64)
  }

  function Mask(offset: bv64): bv64
    requires offset < 64
  {
    (1 as bv64) << offset
  }

  predicate Has(f: Filter, b: Bit) {
    f[b.word] & Mask(b.offset) != 0
  }

  function Set(f: Filter, b: Bit): Filter {
    f[b.word := f[b.word] | Mask(b.offset)]
  }

  lemma MaskBits(w: bv64, b: bv64, c: bv64)
    requires b < 64 && c < 64
    ensures (w | Mask(b)) & Mask(c) != 0 <==> b == c || w & Mask(c) != 0
  {}

  /** Setting one bit adds exactly that bit. */
  lemma SetAdds(f: Filter, b: Bit, c: Bit)
    ensures Has(Set(f, b), c) <==> b == c || Has(f, c)
  {
    if b.word == c.word {
      MaskBits(f[b.word], b.offset, c.offset);
    }
  }

  lemma EmptyHasNothing(b: Bit)
    ensures !Has(EmptyFilter(), b)
  {
    var w := EmptyFilter()[b.word];
    assert w == 0;
    assert w & Mask(b.offset) == 0;
  }

  // ---------------------------------------------------------------- filters

  function InsertUpTo(hash: Hash, f: Filter, id: Id, n: nat): Filter {
    if n == 0 then f else Set(InsertUpTo(hash, f, id, n - 1), BitOf(hash, id, n - 1))
  }

  function Insert(hash: Hash, f: Filter, id: Id): Filter {
    InsertUpTo(hash, f, id, HASHES)
  }

  predicate Contains(hash: Hash, f: Filter, id: Id) {
    forall i :: 0 <= i < HASHES ==> Has(f, BitOf(hash, id, i))
  }

  function FilterOf(hash: Hash, ids: seq<Id>): Filter {
    if ids == [] then EmptyFilter() else Insert(hash, FilterOf(hash, ids[..|ids| - 1]), ids[|ids| - 1])
  }

  /** Bit `b` is one of the bits of `id`. */
  ghost predicate Marks(hash: Hash, id: Id, b: Bit) {
    exists i :: 0 <= i < HASHES && BitOf(hash, id, i) == b
  }

  /** Bit `b` is a bit of some member of `ids`. */
  ghost predicate MarkedBy(hash: Hash, ids: set<Id>, b: Bit) {
    exists id :: id in ids && Marks(hash, id, b)
  }

  /** Every bit of `id` is also a bit of some member of `ids`. */
  ghost predicate Covered(hash: Hash, ids: set<Id>, id: Id) {
    forall i :: 0 <= i < HASHES ==> MarkedBy(hash, ids, BitOf(hash, id, i))
  }

  lemma CoveredMonotone(hash: Hash, ids: set<Id>, more: set<Id>, id: Id)
    requires ids <= more && Covered(hash, ids, id)
    ensures Covered(hash, more, id)
  {
    forall i | 0 <= i < HASHES
      ensures MarkedBy(hash, more, BitOf(hash, id, i))
    {
      assert MarkedBy(hash, ids, BitOf(hash, id, i));
    }
  }

  lemma CoversItself(hash: Hash, ids: set<Id>, id: Id)
    requires id in ids
    ensures Covered(hash, ids, id)
  {
    forall i | 0 <= i < HASHES
      ensures MarkedBy(hash, ids, BitOf(hash, id, i))
    {
      assert Marks(hash, id, BitOf(hash, id, i));
    }
  }

  lemma {:induction false} InsertUpToAdds(hash: Hash, f: Filter, id: Id, n: nat, b: Bit)
    ensures Has(InsertUpTo(hash, f, id, n), b) <==> Has(f, b) || exists i :: 0 <= i < n && BitOf(hash, id, i) == b
  {
    if n > 0 {
      InsertUpToAdds(hash, f, id, n - 1, b);
      SetAdds(InsertUpTo(hash, f, id, n - 1), BitOf(hash, id, n - 1), b);
    }
  }

  /** A bit is set in the filter of `ids` exactly when it is a bit of one of them. */
  lemma {:induction false} FilterBits(hash: Hash, ids: seq<Id>, b: Bit)
    ensures Has(FilterOf(hash, ids), b) <==> MarkedBy(hash, Elements(ids), b)
    decreases |ids|
  {
    if ids == [] {
      EmptyHasNothing(b);
    } else {
      var earlier, last := ids[..|ids| - 1], ids[|ids| - 1];
      assert ids == earlier + [last];
      assert Elements(ids) == Elements(earlier) + {last};
      FilterBits(hash, earlier, b);
      InsertUpToAdds(hash, FilterOf(hash, earlier), last, HASHES, b);
      assert Marks(hash, last, b) <==> exists i :: 0 <= i < HASHES && BitOf(hash, last, i) == b;
    }
  }

  /** The filter built from `ids` accepts an id exactly when they cover all of its bits: it
  depends on the set of ids alone, not on their order or repetition. */
  lemma ContainsIffCovered(hash: Hash, ids: seq<Id>, id: Id)
    ensures Contains(hash, FilterOf(hash, ids), id) <==> Covered(hash, Elements(ids), id)
  {
    forall i | 0 <= i < HASHES
      ensures Has(FilterOf(hash, ids), BitOf(hash, id, i)) <==> MarkedBy(hash, Elements(ids), BitOf(hash, id, i))
    {
      FilterBits(hash, ids, BitOf(hash, id, i));
    }
  }

  /** Inserted ids are always accepted, and accepting is monotone in the ids inserted. */
  lemma NoFalseNegatives(hash: Hash, ids: seq<Id>, more: seq<Id>, id: Id)
    requires forall x :: x in ids ==> x in more
    ensures id in ids ==> Contains(hash, FilterOf(hash, ids), id)
    ensures Contains(hash, FilterOf(hash, ids), id) ==> Contains(hash, FilterOf(hash, more), id)
  {
    ContainsIffCovered(hash, ids, id);
    ContainsIffCovered(hash, more, id);
    if id in ids {
      CoversItself(hash, Elements(ids), id);
    }
    if Covered(hash, Elements(ids), id) {
      CoveredMonotone(hash, Elements(ids), Elements(more), id);
    }
  }

  ghost predicate HasOwnBit(hash: Hash, universe: set<Id>, id: Id) {
    !Covered(hash, universe - {id}, id)
  }

  /** Every id of the universe has a bit of its own. */
  ghost predicate Separated(hash: Hash, universe: set<Id>) {
    forall id {:trigger HasOwnBit(hash, universe, id)} :: id in universe ==> HasOwnBit(hash, universe, id)
  }

  /** On a separated universe every filter is exact, whichever ids of it were inserted. */
  lemma SeparatedIsExact(hash: Hash, universe: set<Id>, ids: seq<Id>, id: Id)
    requires Separated(hash, universe) && id in universe
    requires forall x :: x in ids ==> x in universe
    ensures Contains(hash, FilterOf(hash, ids), id) <==> id in ids
  {
    assert HasOwnBit(hash, universe, id);
    ContainsIffCovered(hash, ids, id);
    if id in ids {
      CoversItself(hash, Elements(ids), id);
    } else if Covered(hash, Elements(ids), id) {
      CoveredMonotone(hash, Elements(ids), universe - {id}, id);
    }
  }

  // ------------------------------------------------------------------ bytes

  function ToLittleEndian(w: bv64): seq<bv8> {
    [(w & 0xff) as bv8, ((w >> 8) & 0xff) as bv8, ((w >> 16) & 0xff) as bv8, ((w >> 24) & 0xff) as bv8,
     ((w >> 32) & 0xff) as bv8, ((w >> 40) & 0xff) as bv8, ((w >> 48) & 0xff) as bv8, ((w >> 56) & 0xff) as bv8]
  }

  function FromLittleEndian(b: seq<bv8>): bv64
    requires |b| == 8
  {
    (b[0] as bv64) | ((b[1] as bv64) << 8) | ((b[2] as bv64) << 16) | ((b[3] as bv64) << 24) |
    ((b[4] as bv64) << 32) | ((b[5] as bv64) << 40) | ((b[6] as bv64) << 48) | ((b[7] as bv64) << 56)
  }

  lemma WordRoundTrip(w: bv64)
    ensures FromLittleEndian(ToLittleEndian(w)) == w
  {}

  lemma ByteRoundTrip(b: seq<bv8>)
    requires |b| == 8
    ensures ToLittleEndian(FromLittleEndian(b)) == b
  {}

  function ToBytes(words: seq<bv64>): (r: seq<bv8>)
    ensures |r| == 8 * |words|
  {
    if words == [] then [] else ToBytes(words[..|words| - 1]) + ToLittleEndian(words[|words| - 1])
  }

  function WordsFrom(bytes: seq<bv8>): (r: seq<bv64>)
    requires |bytes| % 8 == 0
    ensures 8 * |r| == |bytes|
  {
    if bytes == [] then [] else WordsFrom(bytes[..|bytes| - 8]) + [FromLittleEndian(bytes[|bytes| - 8..])]
  }

  function FromBytes(bytes: seq<bv8>): Option<Filter> {
    if |bytes| != 1024 then None else Some(WordsFrom(bytes))
  }

  lemma WordsFromPush(bytes: seq<bv8>, last: seq<bv8>)
    requires |bytes| % 8 == 0 && |last| == 8
    ensures WordsFrom(bytes + last) == WordsFrom(bytes) + [FromLittleEndian(last)]
  {
    var all := bytes + last;
    assert all[..|all| - 8] == bytes && all[|all| - 8..] == last;
  }

  lemma ToBytesPush(words: seq<bv64>, w: bv64)
    ensures ToBytes(words + [w]) == ToBytes(words) + ToLittleEndian(w)
  {
    assert (words + [w])[..|words|] == words;
  }

  lemma {:induction false} WordsRoundTrip(words: seq<bv64>)
    ensures WordsFrom(ToBytes(words)) == words
    decreases |words|
  {
    if words != [] {
      var earlier, w := words[..|words| - 1], words[|words| - 1];
      assert words == earlier + [w];
      WordsRoundTrip(earlier);
      WordAppended(ToBytes(earlier), w);
      ToBytesPush(earlier, w);
    }
  }

  lemma WordAppended(bytes: seq<bv8>, w: bv64)
    requires |bytes| % 8 == 0
    ensures WordsFrom(bytes + ToLittleEndian(w)) == WordsFrom(bytes) + [w]
  {
    var last := ToLittleEndian(w);
    assert FromLittleEndian(last) == w by {
      WordRoundTrip(w);
    }
    WordsFromPush(bytes, last);
  }

  lemma {:induction false} BytesRoundTrip(bytes: seq<bv8>)
    requires |bytes| % 8 == 0
    ensures ToBytes(WordsFrom(bytes)) == bytes
    decreases |bytes|
  {
    if bytes != [] {
      var earlier, last := bytes[..|bytes| - 8], bytes[|bytes| - 8..];
      assert bytes == earlier + last;
      BytesRoundTrip(earlier);
      WordsFromPush(earlier, last);
      ToBytesPush(WordsFrom(earlier), FromLittleEndian(last));
      ByteRoundTrip(last);
    }
  }

  /** `to_bytes` and `from_bytes` are inverse to each other on filters and 1024-byte strings. */
  lemma FilterRoundTrip(f: Filter, bytes: seq<bv8>)
    ensures FromBytes(ToBytes(f)) == Some(f)
    ensures FromBytes(bytes).Some? <==> |bytes| == 1024
    ensures FromBytes(bytes).Some? ==> ToBytes(FromBytes(bytes).value) == bytes
  {
    WordsRoundTrip(f);
    if |bytes| == 1024 {
      BytesRoundTrip(bytes);
    }
  }

  // -------------------------------------------------------------- the object

  class BloomFilter {
    const hash: Hash
    var bits: Filter

    constructor (hash: Hash)
      ensures bits == EmptyFilter() && this.hash == hash
    {
      this.hash, bits := hash, EmptyFilter();
    }

    method Add(id: Id)
      modifies this
      ensures bits == Insert(hash, old(bits), id)
    {
      for i := 0 to HASHES
        invariant bits == InsertUpTo(hash, old(bits), id, i)
      {
        bits := Set(bits, BitOf(hash, id, i));
      }
    }

    method Query(id: Id) returns (found: bool)
      ensures found == Contains(hash, bits, id)
    {
      for i := 0 to HASHES
        invariant forall j :: 0 <= j < i ==> Has(bits, BitOf(hash, id, j))
      {
        var bit := BitOf(hash, id, i);
        if bits[bit.word] & Mask(bit.offset) == 0 {
          assert !Has(bits, bit);
          return false;
        }
      }
      return true;
    }
  }

  method Decode(bytes: seq<bv8>) returns (r: Option<Filter>)
    ensures r == FromBytes(bytes)
  {
    if |bytes| != 1024 {
      return None;
    }
    var words: seq<bv64> := [];
    while 8 * |words| < |bytes|
      invariant 8 * |words| <= |bytes|
      invariant words == WordsFrom(bytes[..8 * |words|])
    {
      var n := 8 * |words|;
      var chunk := bytes[n..n + 8];
      assert bytes[..n + 8][..n] == bytes[..n] && bytes[..n + 8][n..] == chunk;
      words := words + [FromLittleEndian(chunk)];
    }
    assert bytes[..8 * |words|] == bytes;
    return Some(words);
  }
}
