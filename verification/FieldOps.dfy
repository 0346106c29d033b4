/** The field operations on limb arrays: addition, multiplication, inversion. */
module FieldOps {
  import opened Limbs
  import opened Field25519

  /** The limb magnitude up to which products cannot overflow: 2^26. */
  const LOOSE := 0x400_0000
  /** The magnitude of a tight limb. */
  const SMALL := RADIX + 37
  const LOOSE2 := 0x10_0000_0000_0000

  // ------------------------------------------------------ addition, subtraction

  lemma {:induction false} ValueOfSum(a: seq<int>, b: seq<int>, s: seq<int>, sign: int, n: nat)
    requires n <= |a| && n <= |b| && n <= |s|
    requires forall i :: 0 <= i < n ==> s[i] == a[i] + sign * b[i]
    ensures ValueOf(s, n) == ValueOf(a, n) + sign * ValueOf(b, n)
  {
    if n > 0 {
      ValueOfSum(a, b, s, sign, n - 1);
      Distribute(Weight(n - 1), a[n - 1], sign, b[n - 1], ValueOf(b, n - 1));
    }
  }

  lemma Distribute(w: int, x: int, k: int, y: int, v: int)
    ensures w * (x + k * y) + k * v == w * x + k * (v + w * y)
  {
    calc {
      w * (x + k * y);
      w * x + w * (k * y);
      { assert w * (k * y) == k * (w * y); }
      w * x + k * (w * y);
    }
  }

  method FieldAdd(o: array<int64>, a: array<int64>, b: array<int64>, ghost m: int)
    requires o.Length == 16 && a.Length == 16 && b.Length == 16
    requires 0 <= m <= LOOSE && Within(a[..], m) && Within(b[..], m)
    modifies o
    ensures Within(o[..], 2 * m)
    ensures Element(o[..]) == Add(Element(old(a[..])), Element(old(b[..])))
  {
    ghost var x: seq<int>, y: seq<int> := a[..], b[..];
    for i := 0 to 16
      invariant forall k :: 0 <= k < i ==> o[k] == x[k] + y[k]
      invariant forall k :: i <= k < 16 ==> a[k] == x[k] && b[k] == y[k]
    {
      o[i] := a[i] + b[i];
    }
    ValueOfSum(x, y, o[..], 1, 16);
    AddMod(Value(x), Value(y));
  }

  method FieldSub(o: array<int64>, a: array<int64>, b: array<int64>, ghost m: int)
    requires o.Length == 16 && a.Length == 16 && b.Length == 16
    requires 0 <= m <= LOOSE && Within(a[..], m) && Within(b[..], m)
    modifies o
    ensures Within(o[..], 2 * m)
    ensures Element(o[..]) == Sub(Element(old(a[..])), Element(old(b[..])))
  {
    ghost var x: seq<int>, y: seq<int> := a[..], b[..];
    for i := 0 to 16
      invariant forall k :: 0 <= k < i ==> o[k] == x[k] - y[k]
      invariant forall k :: i <= k < 16 ==> a[k] == x[k] && b[k] == y[k]
    {
      o[i] := a[i] - b[i];
    }
    ValueOfSum(x, y, o[..], -1, 16);
    AddMod(Value(x), Value(y));
  }

  // -------------------------------------------------------------- multiplication

  /** What the product array holds once rows 0..i-1 and j entries of row i are in. */
  ghost predicate Accumulated(t: seq<int>, a: seq<int>, b: seq<int>, i: nat, j: nat)
    requires i < |a| && j <= |b|
  {
    ValueOf(t, |t|) == ValueOf(a, i) * ValueOf(b, |b|) + (Weight(i) * a[i]) * ValueOf(b, j)
  }

  lemma AccumulateStep(t: seq<int>, a: seq<int>, b: seq<int>, i: nat, j: nat)
    requires i < |a| && j < |b| && i + j < |t|
    requires Accumulated(t, a, b, i, j)
    ensures Accumulated(t[i + j := t[i + j] + a[i] * b[j]], a, b, i, j + 1)
  {
    ValueOfUpdate(t, i + j, t[i + j] + a[i] * b[j], |t|);
    WeightAdd(i, j);
    FourFactors(Weight(i), Weight(j), a[i], b[j]);
    RowGrows(Weight(i) * a[i], ValueOf(b, j), Weight(j) * b[j]);
  }

  lemma RowGrows(row: int, v: int, x: int)
    ensures row * (v + x) == row * v + row * x
  {
  }

  lemma FourFactors(u: int, v: int, x: int, y: int)
    ensures (u * v) * (x * y) == (u * x) * (v * y)
  {
    calc {
      (u * v) * (x * y);
      u * (v * (x * y));
      { assert v * (x * y) == x * (v * y); }
      u * (x * (v * y));
      (u * x) * (v * y);
    }
  }

  lemma RowDone(va: int, w: int, vb: int)
    ensures (va + w) * vb == va * vb + w * vb
  {
  }

  lemma ProductBound(x: int, y: int)
    requires -LOOSE <= x <= LOOSE && -LOOSE <= y <= LOOSE
    ensures -LOOSE2 <= x * y <= LOOSE2
  {
    var p, q := if x < 0 then -x else x, if y < 0 then -y else y;
    Scale(p, q, LOOSE);
    Scale(LOOSE, p, LOOSE);
    Signs(x, y);
  }

  lemma Signs(x: int, y: int)
    ensures (-x) * y == -(x * y) && x * (-y) == -(x * y) && (-x) * (-y) == x * y
  {
  }

  lemma {:induction false} ZeroValue(t: seq<int>, n: nat)
    requires n <= |t| && forall k :: 0 <= k < n ==> t[k] == 0
    ensures ValueOf(t, n) == 0
  {
    if n > 0 {
      ZeroValue(t, n - 1);
    }
  }

  /** The schoolbook product: 31 columns, none of which leaves 64 bits. */
  method Columns(a: array<int64>, b: array<int64>) returns (t: array<int64>)
    requires a.Length == 16 && b.Length == 16
    requires Within(a[..], LOOSE) && Within(b[..], LOOSE)
    ensures fresh(t) && t.Length == 31
    ensures Value(t[..]) == Value(a[..]) * Value(b[..])
    ensures Within(t[..], 16 * LOOSE2)
  {
    t := new int64[31](_ => 0);
    ghost var x: seq<int>, y: seq<int> := a[..], b[..];
    ZeroValue(t[..], 31);
    for i := 0 to 16
      invariant a[..] == x && b[..] == y
      invariant Value(t[..]) == ValueOf(x, i) * Value(y)
      invariant Within(t[..], i * LOOSE2)
    {
      assert Accumulated(t[..], x, y, i, 0);
      for j := 0 to 16
        invariant a[..] == x && b[..] == y
        invariant Accumulated(t[..], x, y, i, j)
        invariant forall k :: 0 <= k < 31 ==>
          var bound := if k < i + j then (i + 1) * LOOSE2 else i * LOOSE2; -bound <= t[k] <= bound
      {
        ProductBound(x[i], y[j]);
        AccumulateStep(t[..], x, y, i, j);
        ghost var u := t[..][i + j := t[i + j] + x[i] * y[j]];
        var p: int64 := a[i] * b[j];
        t[i + j] := t[i + j] + p;
        assert t[..] == u;
      }
      RowDone(ValueOf(x, i), Weight(i) * x[i], Value(y));
    }
  }

  /** Limbs from m on weigh the weight of m times what they would weigh from 0 on. */
  lemma {:induction false} HighColumns(t: seq<int>, m: nat, n: nat)
    requires m + n <= |t|
    ensures ValueOf(t, m + n) == ValueOf(t, m) + Weight(m) * ValueOf(t[m..], n)
  {
    if n > 0 {
      HighColumns(t, m, n - 1);
      WeightAdd(m, n - 1);
      AppendHigh(Weight(m), ValueOf(t[m..], n - 1), Weight(n - 1), t[m + n - 1]);
    }
  }

  lemma AppendHigh(w: int, v: int, u: int, x: int)
    ensures w * (v + u * x) == w * v + (w * u) * x
  {
  }

  /** Columns 16..30 weigh 2^256 = 38 (mod p) times columns 0..14. */
  ghost predicate Folded(o: seq<int>, t: seq<int>) {
    && |t| == 31 && |o| == 16 && o[15] == t[15]
    && forall k :: 0 <= k < 15 ==> o[k] == t[k] + 38 * t[k + 16]
  }

  lemma FoldValue(o: seq<int>, t: seq<int>)
    requires Folded(o, t)
    ensures Element(o) == Value(t) % P
  {
    var m, n := |o|, |o| - 1;
    HighColumns(t, m, n);
    ValueOfSum(t, t[m..], o, 38, n);
    Weight16();
    FoldsHigh(ValueOf(t, m), ValueOf(t[m..], n), Weight(m), Value(t));
  }

  lemma FoldsHigh(low: int, h: int, w: int, v: int)
    requires w == 2 * P + 38 && v == low + w * h
    ensures (low + 38 * h) % P == v % P
  {
    Shift(low + 38 * h, 2 * h);
  }

  method FoldColumns(o: array<int64>, t: array<int64>)
    requires o.Length == 16 && t.Length == 31 && o != t
    requires Within(t[..], 16 * LOOSE2)
    modifies o, t
    ensures Folded(o[..], old(t[..]))
  {
    ghost var p: seq<int> := t[..];
    for i := 0 to 15
      invariant forall k :: 0 <= k < i ==> t[k] == p[k] + 38 * p[k + 16]
      invariant forall k :: i <= k < 31 ==> t[k] == p[k]
    {
      assert p[i] == t[i] && p[i + 16] == t[i + 16];
      var high: int64 := 38 * t[i + 16];
      t[i] := t[i] + high;
    }
    for i := 0 to 16
      invariant forall k :: 0 <= k < 15 ==> t[k] == p[k] + 38 * p[k + 16]
      invariant t[15] == p[15]
      invariant forall k :: 0 <= k < i ==> o[k] == t[k]
    {
      o[i] := t[i];
    }
  }

  /** `fmul`: the operands may be the same arrays as the result. */
  method FieldMul(o: array<int64>, a: array<int64>, b: array<int64>)
    requires o.Length == 16 && a.Length == 16 && b.Length == 16
    requires Within(a[..], LOOSE) && Within(b[..], LOOSE)
    modifies o
    ensures Tight(o[..]) && Within(o[..], SMALL)
    ensures Element(o[..]) == Mul(Element(old(a[..])), Element(old(b[..])))
  {
    var t := Columns(a, b);
    MulMod(Value(a[..]), Value(b[..]));
    ghost var p: seq<int> := t[..];
    FoldColumns(o, t);
    FoldValue(o[..], p);
    assert Within(o[..], 0x4000_0000_0000_0000) by {
      FoldBound(o[..], p);
    }
    TwoPasses(o[..]);
    Carry(o);
    Carry(o);
  }

  lemma FoldBound(o: seq<int>, t: seq<int>)
    requires Folded(o, t) && Within(t, 16 * LOOSE2)
    ensures Within(o, 0x4000_0000_0000_0000)
  {
    forall k | 0 <= k < 16
      ensures -0x4000_0000_0000_0000 <= o[k] <= 0x4000_0000_0000_0000
    {
      assert -16 * LOOSE2 <= t[k] <= 16 * LOOSE2;
      assert k < 15 ==> -16 * LOOSE2 <= t[k + 16] <= 16 * LOOSE2;
    }
  }
}
