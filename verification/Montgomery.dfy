/** The curve behind the ladder of X25519: its steps double and add points, and the whole of it computes
    the multiple of the point. */
module Montgomery {
  import opened Field25519
  import opened X25519
  import opened LittleEndian
  import opened Bitwise

  /** Doubling of x/z on v^2 = u^3 + 486662 u^2 + u, by the formulas of Montgomery. */
  function Doubled(x: int, z: int): (int, int) {
    (((x * x - z * z) * (x * x - z * z)) % P, (4 * (x * z) * (x * x + 486662 * (x * z) + z * z)) % P)
  }

  /** The sum of two points whose difference is u/1. */
  function Summed(u: int, r: Rung): (int, int) {
    var plus, minus := r.x2 * r.x3 - r.z2 * r.z3, r.x2 * r.z3 - r.z2 * r.x3;
    ((4 * (plus * plus)) % P, (u * (4 * (minus * minus))) % P)
  }

  /** One step of the ladder doubles the first point and adds the two. */
  lemma StepIsDoubling(u: int, r: Rung)
    ensures var d, s := Doubled(r.x2, r.z2), Summed(u, r);
            Step(u, r) == Rung(d.0, d.1, s.0, s.1)
  {
    hide Mul, Add, Sub;
    DoublingHalf(r.x2, r.z2);
    SummingHalf(u, r);
  }

  lemma DoublingHalf(x: int, z: int)
    ensures var A, B := Add(x, z), Sub(x, z);
            var AA, BB := Mul(A, A), Mul(B, B);
            var E := Sub(AA, BB);
            (Mul(AA, BB), Mul(E, Add(AA, Mul(121665, E)))) == Doubled(x, z)
  {
    var a, b := x + z, x - z;
    MulMod(a, a);
    MulMod(b, b);
    MulMod(a * a, b * b);
    AddMod(a * a, b * b);
    var e := a * a - b * b;
    MulModRight(121665, e);
    AddMod(a * a, 121665 * e);
    MulMod(e, a * a + 121665 * e);
    Squares(x, z);
  }

  lemma Squares(x: int, z: int)
    ensures var a, b := x + z, x - z;
            var e := a * a - b * b;
            && (a * a) * (b * b) == (x * x - z * z) * (x * x - z * z)
            && e * (a * a + 121665 * e) == 4 * (x * z) * (x * x + 486662 * (x * z) + z * z)
  {
    var a, b := x + z, x - z;
    assert a * a == x * x + 2 * (x * z) + z * z;
    assert b * b == x * x - 2 * (x * z) + z * z;
    assert a * b == x * x - z * z;
    assert (a * a) * (b * b) == (a * b) * (a * b);
  }

  lemma SummingHalf(u: int, r: Rung)
    ensures var A, B := Add(r.x2, r.z2), Sub(r.x2, r.z2);
            var C, D := Add(r.x3, r.z3), Sub(r.x3, r.z3);
            var DA, CB := Mul(D, A), Mul(C, B);
            (Mul(Add(DA, CB), Add(DA, CB)), Mul(u, Mul(Sub(DA, CB), Sub(DA, CB)))) == Summed(u, r)
  {
    var a, b, c, d := r.x2 + r.z2, r.x2 - r.z2, r.x3 + r.z3, r.x3 - r.z3;
    MulMod(d, a);
    MulMod(c, b);
    AddMod(d * a, c * b);
    var s, t := d * a + c * b, d * a - c * b;
    MulMod(s, s);
    MulMod(t, t);
    MulModRight(u, t * t);
    Products(r.x2, r.z2, r.x3, r.z3);
  }

  lemma Products(x: int, z: int, x': int, z': int)
    ensures var a, b, c, d := x + z, x - z, x' + z', x' - z';
            var s, t, plus, minus := d * a + c * b, d * a - c * b, x * x' - z * z', x * z' - z * x';
            s * s == 4 * (plus * plus) && t * t == 4 * (minus * minus)
  {
    var a, b, c, d := x + z, x - z, x' + z', x' - z';
    var plus, minus := x * x' - z * z', x * z' - z * x';
    assert d * a == x * x' + z * x' - x * z' - z * z';
    assert c * b == x * x' - z * x' + x * z' - z * z';
    TwiceSquared(plus);
    TwiceSquared(-minus);
    assert minus * minus == (-minus) * (-minus);
  }

  lemma TwiceSquared(p: int)
    ensures (2 * p) * (2 * p) == 4 * (p * p)
  {
  }

  /** The multiples k and k+1 of the point u, by doubling and adding on the halves of k. */
  function Multiples(k: nat, u: int): Rung {
    if k == 0 then Rung(1, 0, u, 1)
    else
      var r := Multiples(k / 2, u);
      var s := Summed(u, r);
      if k % 2 == 0 then
        var d := Doubled(r.x2, r.z2);
        Rung(d.0, d.1, s.0, s.1)
      else
        var d := Doubled(r.x3, r.z3);
        Rung(s.0, s.1, d.0, d.1)
  }

  /** One more bit of the scalar. */
  lemma NextMultiple(k: nat, u: int)
    requires k > 0
    ensures Multiples(k, u) == Step(u, Multiples(k / 2, u).Swap(k % 2)).Swap(k % 2)
  {
    hide Step, Doubled;
    var r := Multiples(k / 2, u);
    StepIsDoubling(u, r.Swap(k % 2));
    if k % 2 == 1 {
      SumCommutes(u, r);
    }
  }

  lemma SumCommutes(u: int, r: Rung)
    ensures Summed(u, r.Swap(1)) == Summed(u, r)
  {
    var plus, minus := r.x2 * r.x3 - r.z2 * r.z3, r.x2 * r.z3 - r.z2 * r.x3;
    var q := r.Swap(1);
    assert q.x2 * q.x3 - q.z2 * q.z3 == plus && q.x2 * q.z3 - q.z2 * q.x3 == -minus;
    assert (-minus) * (-minus) == minus * minus;
  }

  /** All binary digits of k but the last i. */
  function Top(k: nat, i: nat): nat {
    QuotientOfNat(k, Pow2(i));
    k / Pow2(i)
  }

  lemma QuotientOfNat(k: nat, p: nat)
    requires p > 0
    ensures k / p >= 0
    ensures p <= k ==> k / p > 0
  {
    var q := k / p;
    assert k == p * q + k % p;
    if q < 0 {
      AtLeast(p, -q);
    }
  }

  /** A number of n binary digits. */
  ghost predicate HasBits(k: nat, n: nat) {
    n > 0 && Pow2(n - 1) <= k < Pow2(n)
  }

  lemma ScalarIsClamped(s: seq<uint8>)
    requires |s| == 32
    ensures HasBits(DecodeScalar(s), 255)
  {
    hide Pow2, Decode;
    ScalarDecoded(s);
    Pow2Add(3, 251);
    Pow2Add(1, 254);
    Pow2Known();
  }

  /** For every scalar the ladder of the RFC computes the multiple of the point. */
  lemma LadderMultiplies(s: seq<uint8>, u: nat)
    requires |s| == 32
    ensures var k := DecodeScalar(s);
            var m := Multiples(k, u);
            Rfc7748(k, u) == Mul(m.x2, Power(m.z2, P - 2))
  {
    hide Step, Pow2, Mul, Power, Ladder, SwapBack, Multiples, HasBits;
    var k := DecodeScalar(s);
    ScalarIsClamped(s);
    DelayedSwaps(k, u, 255, Rung(1, 0, u, 1), 0);
    LadderFromTop(k, u, 255, 0);
    AllBits(k, u);
  }

  lemma AllBits(k: nat, u: nat)
    ensures Top(k, 0) == k && SwapBack(k, u, 0, Multiples(k, u)) == Multiples(k, u)
  {
  }

  /** With the bits from i up done, the ladder stands at the multiple of the point by the top of the scalar. */
  lemma {:induction false} LadderFromTop(k: nat, u: nat, n: nat, i: nat)
    requires HasBits(k, n) && i <= n
    ensures SwapBack(k, u, n, Rung(1, 0, u, 1)) == SwapBack(k, u, i, Multiples(Top(k, i), u))
    decreases n - i
  {
    hide Step, Pow2, Multiples;
    if i == n {
      RemainderIs(k, Pow2(n), 0, k);
      NoMultiple(u);
    } else {
      LadderFromTop(k, u, n, i + 1);
      TopPart(k, n, i);
      NextMultiple(Top(k, i), u);
    }
  }

  lemma NoMultiple(u: int)
    ensures Multiples(0, u) == Rung(1, 0, u, 1)
  {
  }

  lemma TopPart(k: nat, n: nat, i: nat)
    requires HasBits(k, n) && i < n
    ensures Top(k, i) > 0 && Top(k, i) / 2 == Top(k, i + 1) && Top(k, i) % 2 == Bit(k, i)
  {
    hide Pow2;
    DivideTwice(k, Pow2(i), 2);
    Pow2Rises(i, n - 1);
    QuotientOfNat(k, Pow2(i));
    Pow2Add(i, 1);
    Pow2Known();
  }

  lemma {:induction false} Pow2Rises(i: nat, j: nat)
    requires i <= j
    ensures Pow2(i) <= Pow2(j)
  {
    if i < j {
      Pow2Rises(i, j - 1);
    }
  }
}
