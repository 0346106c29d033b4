/** Arithmetic modulo 2^255 - 19 on sixteen signed 64-bit limbs of radix 2^16. */
module Field25519 {
  import opened Limbs

  const P: nat := 0x7fff_ffff_ffff_ffff_ffff_ffff_ffff_ffff_ffff_ffff_ffff_ffff_ffff_ffff_ffff_ffed

  // ------------------------------------------------------- the field Z/p itself

  function Add(x: int, y: int): int { (x + y) % P }
  function Sub(x: int, y: int): int { (x - y) % P }
  function Mul(x: int, y: int): int { (x * y) % P }
  function Power(x: int, n: nat): int { if n == 0 then 1 else Mul(x, Power(x, n - 1)) }

  /** The field element sixteen limbs stand for. */
  function Element(s: seq<int>): (e: int)
    ensures 0 <= e < P
  {
    Value(s) % P
  }

  lemma AddMod(x: int, y: int)
    ensures Add(x % P, y % P) == Add(x, y)
    ensures Sub(x % P, y % P) == Sub(x, y)
  {
    var i, j := x / P, y / P;
    assert x == x % P + P * i && y == y % P + P * j;
    Shift(x % P + y % P, i + j);
    Shift(x % P - y % P, i - j);
  }

  lemma MulMod(x: int, y: int)
    ensures Mul(x % P, y % P) == Mul(x, y)
  {
    var a, b, i, j := x % P, y % P, x / P, y / P;
    assert x == a + P * i && y == b + P * j;
    var k := i * b + a * j + P * (i * j);
    assert x * y == a * b + P * k by {
      calc {
        x * y;
        (a + P * i) * (b + P * j);
        a * b + a * (P * j) + (P * i) * b + (P * i) * (P * j);
        { assert a * (P * j) == P * (a * j) && (P * i) * b == P * (i * b); }
        { assert (P * i) * (P * j) == P * (P * (i * j)); }
        a * b + P * (a * j) + P * (i * b) + P * (P * (i * j));
      }
    }
    Shift(a * b, k);
  }

  lemma Shift(x: int, k: int)
    ensures (x + P * k) % P == x % P
  {
  }

  lemma {:induction false} PowerAdd(x: int, m: nat, n: nat)
    ensures Power(x, m + n) == Mul(Power(x, m), Power(x, n))
  {
    if m == 0 {
      PowerReduced(x, n);
    } else {
      PowerAdd(x, m - 1, n);
      MulAssoc(x, Power(x, m - 1), Power(x, n));
    }
  }

  lemma PowerReduced(x: int, n: nat)
    ensures 0 <= Power(x, n) < P
  {
  }

  lemma MulModRight(x: int, y: int)
    ensures Mul(x, y % P) == Mul(x, y)
    ensures Mul(y % P, x) == Mul(y, x)
  {
    var j := y / P;
    assert x * y == x * (y % P) + P * (x * j) by {
      assert y == y % P + P * j;
      assert x * (P * j) == P * (x * j);
    }
    Shift(x * (y % P), x * j);
  }

  lemma MulAssoc(x: int, y: int, z: int)
    ensures Mul(x, Mul(y, z)) == Mul(Mul(x, y), z)
  {
    MulModRight(x, y * z);
    MulModRight(z, x * y);
    assert x * (y * z) == (x * y) * z;
  }

  // -------------------------------------------------------------- one carry pass

  /** Sixteen limbs after one carry pass: 16-bit digits, with the carry out of limb 15 folded
      into limb 0 by 2^256 = 38 (mod p). */
  function CarryPass(s: seq<int>): seq<int>
    requires |s| == 16
  {
    var d := Digits(s);
    d[0 := d[0] + 38 * CarryInto(s, |s|)]
  }

  lemma Weight16()
    ensures Weight(16) == 2 * P + 38
  {
    assert Weight(4) == 0x1_0000_0000_0000_0000;
    WeightAdd(4, 4);
    assert Weight(8) == 0x1_0000_0000_0000_0000_0000_0000_0000_0000;
    WeightAdd(8, 8);
  }

  /** Replacing limb 0 moves the value by the difference. */
  lemma SetLow(s: seq<int>, x: int)
    requires |s| == 16
    ensures Value(s[0 := x]) == Value(s) + x - s[0]
  {
    ValueOfUpdate(s, 0, x, |s|);
  }

  lemma CarryPassSum(s: seq<int>)
    requires |s| == 16
    ensures Value(CarryPass(s)) == Value(Digits(s)) + 38 * CarryInto(s, |s|)
  {
    SetLow(Digits(s), CarryPass(s)[0]);
  }

  /** A pass keeps the field element: it subtracts a multiple of 2p from the value. */
  lemma CarryPassValue(s: seq<int>)
    requires |s| == 16
    ensures Value(CarryPass(s)) == Value(s) - 2 * P * CarryInto(s, |s|)
    ensures Element(CarryPass(s)) == Element(s)
  {
    CarryPassSum(s);
    DigitsValue(s, |s|);
    Weight16();
    FoldsToZero(Value(s), Value(Digits(s)), CarryInto(s, |s|), Weight(|s|));
  }

  lemma FoldsToZero(v: int, low: int, c: int, w: int)
    requires w == 2 * P + 38 && v == low + w * c
    ensures low + 38 * c == v - 2 * P * c
    ensures (low + 38 * c) % P == v % P
  {
    Shift(low + 38 * c, 2 * c);
  }

  /** The range every multiplication leaves its result in. */
  ghost predicate Tight(s: seq<int>) {
    && |s| == 16
    && -38 <= s[0] < RADIX + 38
    && forall i :: 1 <= i < 16 ==> 0 <= s[i] < RADIX
  }

  /** The carry out of the top limb and the digits left are quotient and remainder by 2^256. */
  lemma CarryOutOf(s: seq<int>)
    requires |s| == 16
    ensures Value(s) == Weight(16) * CarryInto(s, |s|) + Value(Digits(s))
    ensures 0 <= Value(Digits(s)) < Weight(16)
  {
    DigitsValue(s, |s|);
    DigitalRange(Digits(s), |s|);
  }

  lemma OneCarry(v: int, c: int, low: int, slack: int)
    requires v == (2 * P + 38) * c + low
    requires 0 <= low < 2 * P + 38
    requires -slack <= v < 2 * P + 38 + slack
    requires 0 <= slack < P
    ensures -1 <= c <= 1
    ensures c == 1 ==> low < slack
    ensures c == -1 ==> low >= 2 * P + 38 - slack
  {
    if c > 1 {
      Scale(2 * P + 38, 2, c);
    } else if c < -1 {
      Scale(2 * P + 38, c, -2);
    }
  }

  /** The value of limbs that are digits but for limb 0. */
  lemma NearlyDigital(s: seq<int>, slack: int)
    requires |s| == 16 && slack >= 0
    requires -slack <= s[0] < RADIX + slack
    requires forall i :: 1 <= i < 16 ==> 0 <= s[i] < RADIX
    ensures -slack <= Value(s) < Weight(16) + slack
  {
    var low := if s[0] < 0 then 0 else if s[0] >= RADIX then RADIX - 1 else s[0];
    DigitalRange(s[0 := low], |s|);
    SetLow(s, low);
  }

  /** Two passes tighten any limbs below 2^62. */
  lemma TwoPasses(s: seq<int>)
    requires |s| == 16 && Within(s, 0x4000_0000_0000_0000)
    ensures Within(CarryPass(s), 0x4000_0000_0000_0000)
    ensures Tight(CarryPass(CarryPass(s)))
    ensures Element(CarryPass(CarryPass(s))) == Element(s)
  {
    CarryBound(s, |s|);
    var t := CarryPass(s);
    CarryPassValue(s);
    CarryPassValue(t);
    NearlyDigital(t, 38 * 0x8000_0000_0000);
    CarryOutOf(t);
    Weight16();
    OneCarry(Value(t), CarryInto(t, |t|), Value(Digits(t)), 38 * 0x8000_0000_0000);
  }

  /** A third pass makes every limb a digit. */
  lemma ThirdPass(t: seq<int>)
    requires Tight(t)
    ensures Digital(CarryPass(t))
    ensures Element(CarryPass(t)) == Element(t)
  {
    hide CarryInto, ValueOf, Weight;
    CarryPassValue(t);
    ThirdCarry(t);
    LowDigit(Digits(t), |t|);
    assert Digits(t)[0] % RADIX == Digits(t)[0];
    LowDigitNearEnds(Value(Digits(t)), Digits(t)[0]);
  }

  lemma ThirdCarry(t: seq<int>)
    requires Tight(t)
    ensures 0 <= Value(Digits(t)) < 2 * P + 38 && -1 <= CarryInto(t, |t|) <= 1
    ensures CarryInto(t, |t|) == 1 ==> Value(Digits(t)) < 38
    ensures CarryInto(t, |t|) == -1 ==> Value(Digits(t)) >= 2 * P
  {
    hide CarryInto, ValueOf, Weight;
    NearlyDigital(t, 38);
    CarryOutOf(t);
    Weight16();
    OneCarry(Value(t), CarryInto(t, |t|), Value(Digits(t)), 38);
  }

  lemma LowDigitNearEnds(low: int, d: int)
    requires 0 <= low < 2 * P + 38 && 0 <= d < RADIX && low % RADIX == d
    ensures low < 38 ==> d < 38
    ensures low >= 2 * P ==> d >= RADIX - 38
  {
    assert (2 * P + 38) % RADIX == 0;
  }

  /** Limb 0 is the value modulo the radix, up to a multiple of the radix. */
  lemma {:induction false} LowDigit(s: seq<int>, n: nat)
    requires 0 < n <= |s|
    ensures ValueOf(s, n) % RADIX == s[0] % RADIX
  {
    assert ValueOf(s, n) == ValueOf(s, n - 1) + Weight(n - 1) * s[n - 1];
    if n > 1 {
      LowDigit(s, n - 1);
      assert Weight(n - 1) == RADIX * Weight(n - 2);
      AddRadixMultiple(ValueOf(s, n - 1), Weight(n - 2), s[n - 1]);
    } else {
      assert ValueOf(s, 0) == 0 && Weight(0) == 1;
    }
  }

  lemma AddRadixMultiple(v: int, w: int, x: int)
    ensures (v + (RADIX * w) * x) % RADIX == v % RADIX
  {
    assert (RADIX * w) * x == RADIX * (w * x);
  }

  // ------------------------------------------------------------ limbs in memory

  /** The shift, subtract and multiply of one carry step, and why none of it overflows. */
  lemma CarryStep(s: seq<int>, i: nat)
    requires i < |s| && Within(s, 0x4000_0000_0000_0000)
    ensures var x := s[i] + CarryInto(s, i) + RADIX;
            && -0x4001_0000_0000_0000 <= x <= 0x4001_0000_0000_0000
            && x / RADIX - 1 == CarryInto(s, i + 1)
            && x - x / RADIX * RADIX == Digit(s, i)
    ensures -0x8000_0000_0000 <= CarryInto(s, i + 1) <= 0x8000_0000_0000
  {
    CarryBound(s, i);
    CarryBound(s, i + 1);
  }

  /** The array after the first i limbs have been carried: what flows out of the top limb has gone
      38-fold to the bottom. */
  ghost predicate Carried(o: array<int64>, s: seq<int>, i: nat)
    requires o.Length == 16 == |s| && i <= 16
    reads o
  {
    && (forall k :: i < k < 16 ==> o[k] == s[k])
    && (i < 16 ==> o[i] == s[i] + CarryInto(s, i))
    && (forall k :: 1 <= k < i ==> o[k] == Digit(s, k))
    && (i > 0 ==> o[0] == Digit(s, 0) + (if i == 16 then 38 * CarryInto(s, i) else 0))
  }

  method CarryLimb(o: array<int64>, i: nat, ghost s: seq<int>)
    requires o.Length == 16 == |s| && i < 16 && Within(s, 0x4000_0000_0000_0000) && Carried(o, s, i)
    modifies o
    ensures Carried(o, s, i + 1)
  {
    hide CarryInto, Digit, Within;
    CarryStep(s, i);
    o[i] := o[i] + RADIX;
    var c: int64 := o[i] / RADIX;
    ghost var carry := CarryInto(s, i + 1);
    assert c - 1 == carry;
    var next := if i < 15 then i + 1 else 0;
    var fold: int64 := if i == 15 then 37 * (c - 1) else 0;
    InRange(s, next);
    LowDigitRange(s);
    o[next] := o[next] + c - 1 + fold;
    var back: int64 := c * RADIX;
    o[i] := o[i] - back;
  }

  lemma InRange(s: seq<int>, k: nat)
    requires k < |s| && Within(s, 0x4000_0000_0000_0000)
    ensures -0x4000_0000_0000_0000 <= s[k] <= 0x4000_0000_0000_0000
  {
  }

  lemma LowDigitRange(s: seq<int>)
    requires s != []
    ensures 0 <= Digit(s, 0) < RADIX
  {
  }

  /** One carry pass in place (`car25519`): the shifts are floor divisions. */
  method Carry(o: array<int64>)
    requires o.Length == 16 && Within(o[..], 0x4000_0000_0000_0000)
    modifies o
    ensures o[..] == CarryPass(old(o[..]))
  {
    hide Digit;
    ghost var s: seq<int> := o[..];
    for i := 0 to 16
      invariant Carried(o, s, i)
    {
      CarryLimb(o, i, s);
    }
    assert o[..] == CarryPass(s);
  }
}
