/** Finite sums over sets, used to say what a table adds up to. */
module Sums {
  ghost function SumOver<T(!new)>(s: set<T>, f: T -> int): int {
    if s == {} then 0 else
      var x :| x in s;
      f(x) + SumOver(s - {x}, f)
  }

  lemma {:induction false} SumRemove<T(!new)>(s: set<T>, f: T -> int, x: T)
    requires x in s
    ensures SumOver(s, f) == f(x) + SumOver(s - {x}, f)
    decreases |s|
  {
    var y :| y in s && SumOver(s, f) == f(y) + SumOver(s - {y}, f);
    if y != x {
      SumRemove(s - {y}, f, x);
      SumRemove(s - {x}, f, y);
      assert s - {y} - {x} == s - {x} - {y};
    }
  }

  lemma SumInsert<T(!new)>(s: set<T>, f: T -> int, x: T)
    requires x !in s
    ensures SumOver(s + {x}, f) == SumOver(s, f) + f(x)
  {
    SumRemove(s + {x}, f, x);
    assert s + {x} - {x} == s;
  }

  lemma {:induction false} SumCongruent<T(!new)>(s: set<T>, f: T -> int, g: T -> int)
    requires forall x :: x in s ==> f(x) == g(x)
    ensures SumOver(s, f) == SumOver(s, g)
    decreases |s|
  {
    if s != {} {
      var y :| y in s;
      SumRemove(s, f, y);
      SumRemove(s, g, y);
      SumCongruent(s - {y}, f, g);
    }
  }

  /** Changing the summand at one point moves the sum by the difference there. */
  lemma SumChange<T(!new)>(s: set<T>, f: T -> int, g: T -> int, x: T)
    requires x in s
    requires forall y :: y in s && y != x ==> f(y) == g(y)
    ensures SumOver(s, g) == SumOver(s, f) - f(x) + g(x)
  {
    SumRemove(s, f, x);
    SumRemove(s, g, x);
    SumCongruent(s - {x}, f, g);
  }

  lemma {:induction false} SumNonNegative<T(!new)>(s: set<T>, f: T -> int)
    requires forall x :: x in s ==> f(x) >= 0
    ensures SumOver(s, f) >= 0
    ensures forall x :: x in s ==> f(x) <= SumOver(s, f)
    decreases |s|
  {
    forall y | y in s
      ensures f(y) <= SumOver(s, f)
    {
      SumRemove(s, f, y);
      SumNonNegative(s - {y}, f);
    }
    if s != {} {
      var y :| y in s;
      assert f(y) <= SumOver(s, f);
    }
  }

  lemma {:induction false} SumAtMost<T(!new)>(s: set<T>, f: T -> int, bound: nat)
    requires forall x :: x in s ==> f(x) <= bound
    ensures SumOver(s, f) <= bound * |s|
    decreases |s|
  {
    if s != {} {
      var y :| y in s;
      SumRemove(s, f, y);
      SumAtMost(s - {y}, f, bound);
      assert bound * |s| == bound * (|s| - 1) + bound;
    }
  }
}
