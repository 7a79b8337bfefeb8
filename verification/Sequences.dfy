/** Sequences as lists without repetition, without one element, and cut to their end. */
module Sequences {
  import opened Words

  ghost predicate Distinct<T(!new)>(s: seq<T>) {
    forall i, j :: 0 <= i < j < |s| ==> s[i] != s[j]
  }

  lemma {:induction false} DistinctSize<T(!new)>(s: seq<T>)
    requires Distinct(s)
    ensures |Elements(s)| == |s|
    decreases |s|
  {
    if s == [] {
      assert Elements(s) == {};
    } else {
      var earlier, last := s[..|s| - 1], s[|s| - 1];
      DistinctSize(earlier);
      assert s == earlier + [last];
      assert last !in earlier;
      assert Elements(s) == Elements(earlier) + {last};
    }
  }

  /** The sequence without `x`. */
  function Without<T(==)>(s: seq<T>, x: T): seq<T> {
    if s == [] then [] else
      var last := s[|s| - 1];
      Without(s[..|s| - 1], x) + (if last != x then [last] else [])
  }

  lemma {:induction false} WithoutMembers<T(!new)>(s: seq<T>, x: T)
    ensures forall y :: y in Without(s, x) <==> y in s && y != x
    ensures |Without(s, x)| <= |s|
    decreases |s|
  {
    if s != [] {
      WithoutMembers(s[..|s| - 1], x);
      assert s == s[..|s| - 1] + [s[|s| - 1]];
    }
  }

  lemma {:induction false} WithoutAbsent<T(!new)>(s: seq<T>, x: T)
    requires x !in s
    ensures Without(s, x) == s
    decreases |s|
  {
    if s != [] {
      WithoutAbsent(s[..|s| - 1], x);
    }
  }

  /** The last `n` elements, or all of them. */
  function LastN<T>(s: seq<T>, n: nat): (r: seq<T>)
    ensures |r| <= n
  {
    if |s| <= n then s else s[|s| - n..]
  }

  /** Cutting at every push equals cutting once. */
  lemma LastNPush<T>(s: seq<T>, x: T, n: nat)
    ensures LastN(s + [x], n) == LastN(LastN(s, n) + [x], n)
  {
    if |s| > n {
      var tail := s[|s| - n..];
      assert (tail + [x])[1..] == (s + [x])[|s| + 1 - n..];
    }
  }

  // ------------------------------------------------------------- selections

  /** `s` is what is left of `t` after removing some items: the survivors keep their order. */
  ghost predicate Subsequence<T>(s: seq<T>, t: seq<T>) {
    s == [] || (t != [] && (Subsequence(s, t[..|t| - 1]) || (s[|s| - 1] == t[|t| - 1] && Subsequence(s[..|s| - 1], t[..|t| - 1]))))
  }

  lemma {:induction false} SubsequenceSelf<T>(s: seq<T>)
    ensures Subsequence(s, s)
    decreases |s|
  {
    if s != [] {
      SubsequenceSelf(s[..|s| - 1]);
    }
  }

  lemma {:induction false} SubsequencePush<T>(s: seq<T>, t: seq<T>, x: T)
    requires Subsequence(s, t)
    ensures Subsequence(s + [x], t + [x]) && Subsequence(s, t + [x])
  {
    assert (s + [x])[..|s|] == s && (t + [x])[..|t|] == t;
  }

  lemma {:induction false} SubsequenceTransitive<T>(r: seq<T>, s: seq<T>, t: seq<T>)
    requires Subsequence(r, s) && Subsequence(s, t)
    ensures Subsequence(r, t)
    decreases |t|, |s|
  {
    if r != [] {
      if s == [] {
      } else if Subsequence(s, t[..|t| - 1]) {
        SubsequenceTransitive(r, s, t[..|t| - 1]);
      } else if Subsequence(r, s[..|s| - 1]) {
        SubsequenceTransitive(r, s[..|s| - 1], t[..|t| - 1]);
      } else {
        SubsequenceTransitive(r[..|r| - 1], s[..|s| - 1], t[..|t| - 1]);
      }
    }
  }

  lemma {:induction false} RemoveOneSurvives<T>(q: seq<T>, i: nat)
    requires i < |q|
    ensures Subsequence(q[..i] + q[i + 1..], q)
    decreases |q|
  {
    var n := |q| - 1;
    var earlier, last := q[..n], q[n];
    assert q == earlier + [last];
    if i == n {
      assert q[..i] + q[i + 1..] == earlier;
      SubsequenceSelf(earlier);
      SubsequencePush(earlier, earlier, last);
    } else {
      RemoveOneSurvives(earlier, i);
      assert q[..i] + q[i + 1..] == earlier[..i] + earlier[i + 1..] + [last];
      SubsequencePush(earlier[..i] + earlier[i + 1..], earlier, last);
    }
  }

  /** `r` is `s` without the elements that `keep` refuses: every other one is there, as often and
  in the same order. */
  ghost predicate IsSelection<T(!new)>(r: seq<T>, s: seq<T>, keep: T -> bool) {
    Subsequence(r, s) && forall x :: multiset(r)[x] == if keep(x) then multiset(s)[x] else 0
  }

  lemma SelectionEmpty<T(!new)>(s: seq<T>, keep: T -> bool)
    requires s == []
    ensures IsSelection([], s, keep)
  {}

  lemma SelectionPush<T(!new)>(r: seq<T>, s: seq<T>, keep: T -> bool, x: T)
    requires IsSelection(r, s, keep)
    ensures IsSelection(r + if keep(x) then [x] else [], s + [x], keep)
  {
    SubsequencePush(r, s, x);
    assert r + [] == r;
  }

  lemma SelectionStep<T(!new)>(r: seq<T>, s: seq<T>, keep: T -> bool, x: T, r': seq<T>, s': seq<T>)
    requires IsSelection(r, s, keep) && s' == s + [x] && r' == r + if keep(x) then [x] else []
    ensures IsSelection(r', s', keep)
  {
    SelectionPush(r, s, keep, x);
  }

  /** The elements that `keep` accepts, in order. */
  function Select<T>(s: seq<T>, keep: T -> bool): seq<T> {
    if s == [] then [] else
      Select(s[..|s| - 1], keep) + if keep(s[|s| - 1]) then [s[|s| - 1]] else []
  }

  lemma {:induction false} SelectIsSelection<T(!new)>(s: seq<T>, keep: T -> bool, r: seq<T>)
    requires r == Select(s, keep)
    ensures IsSelection(r, s, keep) && |r| <= |s|
    decreases |s|
  {
    if s == [] {
      SelectionEmpty(s, keep);
    } else {
      var earlier, last := s[..|s| - 1], s[|s| - 1];
      var before := Select(earlier, keep);
      SelectIsSelection(earlier, keep, before);
      SelectionStep(before, earlier, keep, last, r, s);
    }
  }

  lemma SelectionMembers<T(!new)>(r: seq<T>, s: seq<T>, keep: T -> bool, x: T)
    requires IsSelection(r, s, keep)
    ensures x in r <==> x in s && keep(x)
  {
    assert x in r <==> multiset(r)[x] > 0;
    assert x in s <==> multiset(s)[x] > 0;
  }

  lemma {:induction false} SubsequenceCounts<T(!new)>(r: seq<T>, s: seq<T>)
    requires Subsequence(r, s)
    ensures |r| <= |s| && multiset(r) <= multiset(s)
    decreases |s|
  {
    if r != [] {
      assert s == s[..|s| - 1] + [s[|s| - 1]];
      assert r == r[..|r| - 1] + [r[|r| - 1]];
      if Subsequence(r, s[..|s| - 1]) {
        SubsequenceCounts(r, s[..|s| - 1]);
      } else {
        SubsequenceCounts(r[..|r| - 1], s[..|s| - 1]);
      }
    }
  }

  /** A selection that refuses something is shorter. */
  lemma SelectionShorter<T(!new)>(r: seq<T>, s: seq<T>, keep: T -> bool, i: nat)
    requires IsSelection(r, s, keep) && i < |s| && !keep(s[i])
    ensures |r| < |s|
  {
    SubsequenceCounts(r, s);
    assert multiset(s)[s[i]] > 0 && multiset(r)[s[i]] == 0;
    assert |multiset(s)| == |s| && |multiset(r)| == |r|;
    assert multiset(s) == multiset(r) + (multiset(s) - multiset(r));
    assert s[i] in multiset(s) - multiset(r);
  }
}
