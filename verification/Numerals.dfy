/** Texts as byte sequences, and decimal numerals in them. */
module Numerals {
  import opened Words

  type Text = seq<u8>

  predicate IsDigit(c: u8) {
    '0' as int <= c <= '9' as int
  }

  function Decimal(n: nat): Text {
    if n < 10 then ['0' as int + n] else Decimal(n / 10) + ['0' as int + n % 10]
  }

  predicate AllDigits(s: Text) {
    forall i :: 0 <= i < |s| ==> IsDigit(s[i])
  }

  function ValueOf(s: Text): nat
    requires AllDigits(s)
  {
    if s == [] then 0 else 10 * ValueOf(s[..|s| - 1]) + (s[|s| - 1] - '0' as int)
  }

  lemma {:induction false} DecimalValue(n: nat)
    ensures Decimal(n) != [] && AllDigits(Decimal(n)) && ValueOf(Decimal(n)) == n
    decreases n
  {
    if n >= 10 {
      DecimalValue(n / 10);
      var front := Decimal(n / 10);
      assert Decimal(n)[..|front|] == front;
    }
  }

  function Zeros(n: nat): Text {
    if n == 0 then [] else ['0' as int] + Zeros(n - 1)
  }

  lemma {:induction false} ZerosPush(n: nat)
    ensures Zeros(n) + ['0' as int] == Zeros(n + 1)
    decreases n
  {
    if n > 0 {
      ZerosPush(n - 1);
      assert Zeros(n) + ['0' as int] == ['0' as int] + (Zeros(n - 1) + ['0' as int]);
    }
  }

  /** Leading zeros do not change the value. */
  lemma {:induction false} ZerosValue(k: nat, n: nat)
    ensures AllDigits(Zeros(k) + Decimal(n)) && ValueOf(Zeros(k) + Decimal(n)) == n
    decreases n
  {
    if n < 10 {
      ZerosAreZero(k);
      assert (Zeros(k) + Decimal(n))[..k] == Zeros(k);
    } else {
      ZerosValue(k, n / 10);
      var front := Zeros(k) + Decimal(n / 10);
      assert Zeros(k) + Decimal(n) == front + ['0' as int + n % 10];
      assert (front + ['0' as int + n % 10])[..|front|] == front;
    }
  }

  lemma {:induction false} ZerosAreZero(k: nat)
    ensures |Zeros(k)| == k && AllDigits(Zeros(k)) && ValueOf(Zeros(k)) == 0
    decreases k
  {
    if k > 0 {
      ZerosAreZero(k - 1);
      ZerosPush(k - 1);
      assert (Zeros(k - 1) + ['0' as int])[..k - 1] == Zeros(k - 1);
    }
  }

  /** Every nonempty string of digits is the numeral of its value behind some zeros. */
  lemma {:induction false} DigitsAreNumeral(d: Text) returns (k: nat)
    requires d != [] && AllDigits(d)
    ensures d == Zeros(k) + Decimal(ValueOf(d))
    decreases |d|
  {
    var front, c := d[..|d| - 1], d[|d| - 1] - '0' as int;
    assert IsDigit(d[|d| - 1]);
    if front == [] {
      k := 0;
    } else {
      k := DigitsAreNumeral(front);
      if ValueOf(front) == 0 {
        ZerosPush(k);
        k := k + 1;
      } else {
        assert Decimal(ValueOf(d)) == Decimal(ValueOf(front)) + ['0' as int + c];
      }
      assert d == front + [d[|d| - 1]];
    }
  }
}
