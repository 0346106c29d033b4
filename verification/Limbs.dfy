/** Radix-2^16 numbers: the value of a limb array, and what one carry pass does to it. */
module Limbs {

  type int64 = x: int | -0x8000_0000_0000_0000 <= x < 0x8000_0000_0000_0000

  const RADIX := 0x1_0000

  /** The weight of limb i. */
  function Weight(i: nat): (w: nat)
    ensures w > 0
  {
    if i == 0 then 1 else RADIX * Weight(i - 1)
  }

  /** The number the first n limbs stand for; limbs may be negative or exceed 16 bits. */
  function ValueOf(s: seq<int>, n: nat): int
    requires n <= |s|
  {
    if n == 0 then 0 else ValueOf(s, n - 1) + Weight(n - 1) * s[n - 1]
  }

  function Value(s: seq<int>): int {
    ValueOf(s, |s|)
  }

  ghost predicate Within(s: seq<int>, bound: int) {
    forall i :: 0 <= i < |s| ==> -bound <= s[i] <= bound
  }

  /** Every limb is a proper 16-bit digit. */
  ghost predicate Digital(s: seq<int>) {
    forall i :: 0 <= i < |s| ==> 0 <= s[i] < RADIX
  }

  lemma {:induction false} WeightAdd(i: nat, j: nat)
    ensures Weight(i + j) == Weight(i) * Weight(j)
  {
    if j > 0 {
      WeightAdd(i, j - 1);
      calc {
        Weight(i + j);
        RADIX * (Weight(i) * Weight(j - 1));
        Weight(i) * (RADIX * Weight(j - 1));
      }
    }
  }

  lemma {:induction false} ValueOfSame(s: seq<int>, t: seq<int>, n: nat)
    requires n <= |s| && n <= |t|
    requires forall i :: 0 <= i < n ==> s[i] == t[i]
    ensures ValueOf(s, n) == ValueOf(t, n)
  {
    if n > 0 {
      ValueOfSame(s, t, n - 1);
    }
  }

  lemma {:induction false} ValueOfUpdate(s: seq<int>, k: nat, x: int, n: nat)
    requires k < n <= |s|
    ensures ValueOf(s[k := x], n) == ValueOf(s, n) + Weight(k) * (x - s[k])
  {
    if k == n - 1 {
      ValueOfSame(s, s[k := x], n - 1);
      assert Weight(k) * x == Weight(k) * s[k] + Weight(k) * (x - s[k]);
    } else {
      ValueOfUpdate(s, k, x, n - 1);
    }
  }

  /** Digits bound the value: 0 <= value < weight of the next limb. */
  lemma {:induction false} DigitalRange(s: seq<int>, n: nat)
    requires n <= |s|
    requires forall i :: 0 <= i < n ==> 0 <= s[i] < RADIX
    ensures 0 <= ValueOf(s, n) < Weight(n)
  {
    if n > 0 {
      DigitalRange(s, n - 1);
      var w := Weight(n - 1);
      assert 0 <= w * s[n - 1] <= w * (RADIX - 1) by {
        Scale(w, s[n - 1], RADIX - 1);
        Scale(w, 0, s[n - 1]);
      }
    }
  }

  lemma Scale(w: nat, a: int, b: int)
    requires a <= b
    ensures w * a <= w * b
  {
    if w > 0 {
      Scale(w - 1, a, b);
      assert w * a == (w - 1) * a + a;
      assert w * b == (w - 1) * b + b;
    }
  }

  // ------------------------------------------------------------------ carries

  /** The carry that has rippled into limb i when limbs 0..i-1 have been reduced. */
  function CarryInto(s: seq<int>, i: nat): int
    requires i <= |s|
  {
    if i == 0 then 0 else (s[i - 1] + CarryInto(s, i - 1)) / RADIX
  }

  function Digit(s: seq<int>, i: nat): (d: int)
    requires i < |s|
    ensures 0 <= d < RADIX
  {
    (s[i] + CarryInto(s, i)) % RADIX
  }

  function Digits(s: seq<int>): seq<int> {
    seq(|s|, i requires 0 <= i < |s| => Digit(s, i))
  }

  /** Rippling is division with remainder by the weight of the next limb. */
  lemma {:induction false} DigitsValue(s: seq<int>, n: nat)
    requires n <= |s|
    ensures ValueOf(s, n) == ValueOf(Digits(s), n) + Weight(n) * CarryInto(s, n)
  {
    if n > 0 {
      DigitsValue(s, n - 1);
      Split(Weight(n - 1), s[n - 1], CarryInto(s, n - 1), Digits(s)[n - 1], CarryInto(s, n));
    }
  }

  lemma Split(w: int, x: int, c: int, d: int, out: int)
    requires x + c == d + RADIX * out
    ensures w * x + w * c == w * d + (RADIX * w) * out
  {
    assert w * x + w * c == w * (x + c);
    assert w * (d + RADIX * out) == w * d + w * (RADIX * out);
    assert w * (RADIX * out) == (RADIX * w) * out;
  }

  /** Carries out of 64-bit limbs never exceed 2^47, so no carry step can overflow. */
  lemma {:induction false} CarryBound(s: seq<int>, n: nat)
    requires n <= |s|
    requires Within(s, 0x4000_0000_0000_0000)
    ensures -0x8000_0000_0000 <= CarryInto(s, n) <= 0x8000_0000_0000
  {
    if n > 0 {
      CarryBound(s, n - 1);
    }
  }
}
