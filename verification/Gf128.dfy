/** The field GF(2^128) of GCM: polynomials over two elements modulo
    1 + x + x^2 + x^7 + x^128, coefficient of x^i at index i (section 6.3 of NIST SP 800-38D). */
module Gf128 {

  type Poly = seq<bool>

  function Zero(n: nat): (z: Poly)
    ensures |z| == n && forall i :: 0 <= i < n ==> !z[i]
  {
    seq(n, _ => false)
  }

  function Add(a: Poly, b: Poly): (c: Poly)
    requires |a| == |b|
    ensures |c| == |a| && forall i :: 0 <= i < |a| ==> c[i] == (a[i] != b[i])
  {
    seq(|a|, i requires 0 <= i < |a| => a[i] != b[i])
  }

  function Scale(s: bool, v: Poly): (r: Poly)
    ensures |r| == |v|
  {
    if s then v else Zero(|v|)
  }

  /** x^128 modulo the field polynomial: 1 + x + x^2 + x^7, the byte 0xe1 and fifteen zeros. */
  function Tail(): (r: Poly)
    ensures |r| == 128
  {
    seq(128, i => i == 0 || i == 1 || i == 2 || i == 7)
  }

  /** Multiplication by x in the field. */
  function TimesX(v: Poly): (r: Poly)
    requires |v| == 128
    ensures |r| == 128
  {
    Add([false] + v[..127], Scale(v[127], Tail()))
  }

  /** The block product: bit by bit of a, adding v, x v, x^2 v, ... */
  function Product(a: Poly, v: Poly): (r: Poly)
    requires |v| == 128
    ensures |r| == 128
    decreases |a|
  {
    if a == [] then Zero(128) else Add(Scale(a[0], v), Product(a[1..], TimesX(v)))
  }

  // ----------------------------------------------------------------- linearity

  lemma TimesXAdd(a: Poly, b: Poly)
    requires |a| == 128 && |b| == 128
    ensures TimesX(Add(a, b)) == Add(TimesX(a), TimesX(b))
  {
  }

  lemma TimesXScale(s: bool, v: Poly)
    requires |v| == 128
    ensures TimesX(Scale(s, v)) == Scale(s, TimesX(v))
  {
  }

  lemma Regroup(a: Poly, b: Poly, c: Poly, d: Poly)
    requires |a| == |b| == |c| == |d|
    ensures Add(Add(a, b), Add(c, d)) == Add(Add(a, c), Add(b, d))
  {
  }

  lemma ScaleAdd(s: bool, t: bool, v: Poly)
    ensures Scale(s != t, v) == Add(Scale(s, v), Scale(t, v))
  {
  }

  /** The product is linear in its first argument. */
  lemma {:induction false} ProductAddLeft(a: Poly, b: Poly, v: Poly)
    requires |a| == |b| && |v| == 128
    ensures Product(Add(a, b), v) == Add(Product(a, v), Product(b, v))
    decreases |a|
  {
    if a == [] {
      assert Add(a, b) == [];
      assert Add(Zero(128), Zero(128)) == Zero(128);
    } else {
      hide TimesX;
      ProductAddLeft(a[1..], b[1..], TimesX(v));
      assert Add(a, b)[1..] == Add(a[1..], b[1..]);
      ScaleAdd(a[0], b[0], v);
      Regroup(Scale(a[0], v), Product(a[1..], TimesX(v)), Scale(b[0], v), Product(b[1..], TimesX(v)));
    }
  }

  /** ... and in its second. */
  lemma {:induction false} ProductAddRight(a: Poly, v: Poly, w: Poly)
    requires |v| == 128 && |w| == 128
    ensures Product(a, Add(v, w)) == Add(Product(a, v), Product(a, w))
    decreases |a|
  {
    if a == [] {
      assert Add(Zero(128), Zero(128)) == Zero(128);
    } else {
      TimesXAdd(v, w);
      ProductAddRight(a[1..], TimesX(v), TimesX(w));
      assert Scale(a[0], Add(v, w)) == Add(Scale(a[0], v), Scale(a[0], w));
      Regroup(Scale(a[0], v), Product(a[1..], TimesX(v)), Scale(a[0], w), Product(a[1..], TimesX(w)));
    }
  }

  lemma {:induction false} ProductTimesX(a: Poly, v: Poly)
    requires |v| == 128
    ensures Product(a, TimesX(v)) == TimesX(Product(a, v))
    decreases |a|
  {
    if a == [] {
      assert TimesX(Zero(128)) == Zero(128);
    } else {
      ProductTimesX(a[1..], TimesX(v));
      TimesXScale(a[0], v);
      TimesXAdd(Scale(a[0], v), Product(a[1..], TimesX(v)));
    }
  }

  // ------------------------------------------ multiply as polynomials, then reduce

  /** Remainder modulo the field polynomial, by Horner's rule. */
  function Reduce(p: Poly): (r: Poly)
    ensures |r| == 128
  {
    if p == [] then Zero(128) else Add(Constant(p[0]), TimesX(Reduce(p[1..])))
  }

  function Constant(c: bool): (r: Poly)
    ensures |r| == 128
  {
    seq(128, i => c && i == 0)
  }

  /** The sum of two polynomials of any length. */
  function Sum(a: Poly, b: Poly): (r: Poly)
    decreases |a|
  {
    if a == [] then b
    else if b == [] then a
    else [a[0] != b[0]] + Sum(a[1..], b[1..])
  }

  /** Ordinary multiplication of polynomials. */
  function PolyProduct(a: Poly, b: Poly): Poly {
    if a == [] then [] else Sum(Scale(a[0], b), [false] + PolyProduct(a[1..], b))
  }

  lemma {:induction false} ZeroProduct(n: nat, v: Poly)
    requires |v| == 128
    ensures Product(Zero(n), v) == Zero(128)
  {
    hide TimesX;
    if n > 0 {
      ZeroProduct(n - 1, TimesX(v));
      assert Zero(n)[1..] == Zero(n - 1);
      AddZero(Zero(128));
    }
  }

  /** The polynomial 1, with any number of leading zero coefficients, is the unit. */
  lemma OneProduct(n: nat, v: Poly)
    requires |v| == 128
    ensures Product([true] + Zero(n), v) == v
  {
    hide TimesX;
    ZeroProduct(n, TimesX(v));
    assert ([true] + Zero(n))[1..] == Zero(n);
    AddZero(v);
  }

  lemma AddZero(a: Poly)
    ensures Add(Zero(|a|), a) == a && Add(a, Zero(|a|)) == a
  {
  }

  lemma ConstantSum(s: bool, t: bool)
    ensures Constant(s != t) == Add(Constant(s), Constant(t))
  {
  }

  lemma {:induction false} ReduceSum(a: Poly, b: Poly)
    ensures Reduce(Sum(a, b)) == Add(Reduce(a), Reduce(b))
    decreases |a|
  {
    hide TimesX, Add;
    if a == [] {
      AddZero(Reduce(b));
    } else if b == [] {
      AddZero(Reduce(a));
    } else {
      ReduceSum(a[1..], b[1..]);
      assert Sum(a, b)[1..] == Sum(a[1..], b[1..]);
      TimesXAdd(Reduce(a[1..]), Reduce(b[1..]));
      ConstantSum(a[0], b[0]);
      Regroup(Constant(a[0]), TimesX(Reduce(a[1..])), Constant(b[0]), TimesX(Reduce(b[1..])));
    }
  }

  /** A polynomial of degree below 128 is its own remainder. */
  lemma {:induction false} ReduceSmall(p: Poly)
    requires |p| <= 128
    ensures Reduce(p) == p + Zero(128 - |p|)
    decreases |p|
  {
    if p != [] {
      ReduceSmall(p[1..]);
      assert !Reduce(p[1..])[127];
    }
  }

  /** The field polynomial 1 + x + x^2 + x^7 + x^128 itself has remainder zero. */
  lemma ReduceModulus()
    ensures Reduce(Tail() + [true]) == Zero(128)
  {
    var g := Tail() + [true];
    ReduceSmall(g[1..]);
    assert g[1..] + Zero(0) == g[1..];
    assert [false] + g[1..][..127] == [false] + Tail()[1..];
    assert Constant(true) == [true] + Zero(127);
  }

  /** The shift-and-add product is the polynomial product modulo the field polynomial. */
  lemma {:induction false} ProductIsReduced(a: Poly, v: Poly)
    requires |v| == 128
    ensures Product(a, v) == Reduce(PolyProduct(a, v))
    decreases |a|
  {
    if a != [] {
      var rest := PolyProduct(a[1..], v);
      ProductIsReduced(a[1..], v);
      ReduceSum(Scale(a[0], v), [false] + rest);
      ReduceSmall(Scale(a[0], v));
      assert Scale(a[0], v) + Zero(0) == Scale(a[0], v);
      assert ([false] + rest)[1..] == rest;
      assert Add(Constant(false), TimesX(Reduce(rest))) == TimesX(Reduce(rest));
      ProductTimesX(a[1..], v);
    }
  }
}
