/** Selection without branches, inversion, and the byte encoding of field elements. */
module FieldCodec {
  import opened Limbs
  import opened Field25519
  import opened FieldOps
  import opened Bitwise
  import opened LittleEndian

  // ------------------------------------------------------------------- selection

  /** `sel25519`: swaps the two numbers when b is 1, by masks instead of a branch. */
  method Select(p: array<int64>, q: array<int64>, b: int)
    requires p.Length == 16 && q.Length == 16 && p != q && (b == 0 || b == 1)
    modifies p, q
    ensures p[..] == (if b == 1 then old(q[..]) else old(p[..]))
    ensures q[..] == (if b == 1 then old(p[..]) else old(q[..]))
  {
    var c := Not(b - 1);
    ghost var x, y := p[..], q[..];
    for i := 0 to 16
      invariant forall k :: 0 <= k < i ==> p[k] == (if b == 1 then y[k] else x[k])
      invariant forall k :: 0 <= k < i ==> q[k] == (if b == 1 then x[k] else y[k])
      invariant forall k :: i <= k < 16 ==> p[k] == x[k] && q[k] == y[k]
    {
      MaskedSwap(p[i], q[i], b);
      var t := And(c, Xor(p[i], q[i]));
      p[i] := Xor(p[i], t);
      q[i] := Xor(q[i], t);
    }
  }

  lemma MaskedSwap(x: int, y: int, b: int)
    requires b == 0 || b == 1
    ensures var t := And(Not(b - 1), Xor(x, y));
            && Xor(x, t) == (if b == 1 then y else x)
            && Xor(y, t) == (if b == 1 then x else y)
  {
    AndOnes(Xor(x, y));
    XorBack(x, y);
    XorBack(y, x);
    XorSymmetric(x, y);
    XorZero(x);
    XorZero(y);
  }

  // ------------------------------------------------------------------- inversion

  /** The exponent reached when exponent bit a has just been processed. */
  function Exponent(a: nat): nat
    requires a <= 254
    decreases 254 - a
  {
    if a == 254 then 1 else 2 * Exponent(a + 1) + (if a != 2 && a != 4 then 1 else 0)
  }

  lemma {:induction false} ExponentRun(a: nat)
    requires 5 <= a <= 254
    ensures Exponent(a) == Pow2(255 - a) - 1
    decreases 254 - a
  {
    if a < 254 {
      ExponentRun(a + 1);
    }
  }

  lemma Pow2Product(m: nat, n: nat, x: nat, y: nat)
    requires Pow2(m) == x && Pow2(n) == y
    ensures Pow2(m + n) == x * y
  {
    Pow2Add(m, n);
  }

  lemma Pow255()
    ensures Pow2(255) == P + 19
  {
    Pow2Known();
    var two30, two60 := 0x4000_0000, 0x1000_0000_0000_0000;
    var two120 := 0x100_0000_0000_0000_0000_0000_0000_0000;
    var two240 := 0x1_0000_0000_0000_0000_0000_0000_0000_0000_0000_0000_0000_0000_0000_0000_0000;
    Pow2Product(15, 15, 0x8000, 0x8000);
    Pow2Product(30, 30, two30, two30);
    Pow2Product(60, 60, two60, two60);
    Pow2Product(120, 120, two120, two120);
    Pow2Product(240, 15, two240, 0x8000);
  }

  /** All exponent bits but 2 and 4 set: the exponent is p - 2. */
  lemma ExponentIsInverse()
    ensures Exponent(0) == P - 2
  {
    ExponentRun(5);
    Pow255();
    Pow2Add(250, 5);
    Pow2Known();
    assert Exponent(2) == 2 * Exponent(3) && Exponent(4) == 2 * Exponent(5);
    assert Exponent(0) == 2 * Exponent(1) + 1 && Exponent(1) == 2 * Exponent(2) + 1;
  }

  lemma SquareStep(x: int, e: nat)
    ensures Mul(Power(x, e), Power(x, e)) == Power(x, 2 * e)
    ensures Mul(Power(x, 2 * e), x % P) == Power(x, 2 * e + 1)
  {
    PowerAdd(x, e, e);
    MulModRight(Power(x, 2 * e), x);
    assert Power(x, 2 * e + 1) == Mul(x, Power(x, 2 * e));
  }

  method Copy(o: array<int64>, i: array<int64>)
    requires o.Length == 16 && i.Length == 16
    modifies o
    ensures o[..] == old(i[..])
  {
    for k := 0 to 16
      invariant forall l :: 0 <= l < k ==> o[l] == old(i[l])
      invariant forall l :: 0 <= l < 16 ==> i[l] == old(i[l])
    {
      o[k] := i[k];
    }
  }

  /** `finv`: raises to p - 2. */
  method Invert(o: array<int64>, i: array<int64>)
    requires o.Length == 16 && i.Length == 16 && Within(i[..], LOOSE)
    modifies o
    ensures Element(o[..]) == Power(Element(old(i[..])), P - 2)
    ensures Within(o[..], LOOSE)
  {
    ghost var x := Element(i[..]);
    var c := new int64[16];
    Copy(c, i);
    assert Power(x, 1) == x;
    for a := 254 downto 0
      invariant Element(i[..]) == x && Within(i[..], LOOSE) && Within(c[..], LOOSE)
      invariant Element(c[..]) == Power(x, Exponent(a))
    {
      SquareStep(x, Exponent(a + 1));
      FieldMul(c, c, c);
      if a != 2 && a != 4 {
        FieldMul(c, c, i);
      }
    }
    ExponentIsInverse();
    Copy(o, c);
  }

  // -------------------------------------------------------------- byte encoding

  /** Limb i of the prime. */
  function PrimeLimb(i: nat): int
  {
    if i == 0 then 0xffed else if i < 15 then 0xffff else 0x7fff
  }

  function PrimeLimbs(): (p: seq<int>)
    ensures |p| == 16 && forall i :: 0 <= i < 16 ==> p[i] == PrimeLimb(i)
  {
    seq(16, i requires 0 <= i < 16 => PrimeLimb(i))
  }

  lemma {:induction false} OnesRun(n: nat)
    requires 1 <= n <= 15
    ensures ValueOf(PrimeLimbs(), n) == Weight(n) - 19
  {
    if n == 1 {
      assert ValueOf(PrimeLimbs(), 0) == 0 && Weight(0) == 1 && Weight(1) == RADIX;
    } else {
      OnesRun(n - 1);
    }
  }

  lemma PrimeValue(s: seq<int>)
    requires s == PrimeLimbs()
    ensures Value(s) == P
  {
    var n := |s| - 1;
    OnesRun(n);
    Weight16();
    assert Weight(n + 1) == RADIX * Weight(n);
  }

  ghost predicate LessPrime(d: seq<int>, t: seq<int>) {
    |d| == 16 && |t| == 16 && forall i :: 0 <= i < 16 ==> d[i] == t[i] - PrimeLimb(i)
  }

  lemma LessPrimeValue(d: seq<int>, t: seq<int>)
    requires LessPrime(d, t)
    ensures Value(d) == Value(t) - P
  {
    PrimeValue(PrimeLimbs());
    ValueDifference(d, t, PrimeLimbs());
  }

  lemma ValueDifference(d: seq<int>, t: seq<int>, p: seq<int>)
    requires |d| == |t| == |p| && forall i :: 0 <= i < |d| ==> d[i] == t[i] - p[i]
    ensures Value(d) == Value(t) - Value(p)
  {
    ValueOfSum(t, p, d, -1, |d|);
  }

  lemma {:induction false} BorrowRange(d: seq<int>, t: seq<int>, i: nat)
    requires LessPrime(d, t) && Digital(t) && i <= 16
    ensures -1 <= CarryInto(d, i) <= 0
  {
    if i > 0 {
      BorrowRange(d, t, i - 1);
    }
  }

  /** The borrow bit and the masked digit of one subtraction step. */
  lemma BorrowStep(d: seq<int>, i: nat)
    requires i < |d| && -1 <= CarryInto(d, i + 1) <= 0
    ensures And((d[i] + CarryInto(d, i)) / RADIX, 1) == -CarryInto(d, i + 1)
    ensures And(d[i] + CarryInto(d, i), 0xffff) == Digit(d, i)
  {
    AndMask(CarryInto(d, i + 1), 1);
    Pow2Known();
    AndMask(d[i] + CarryInto(d, i), 16);
  }

  /** The raw difference, digits below limb 15, is negative exactly when its top limb is. */
  lemma TopLimbSign(d: seq<int>, t: seq<int>)
    requires LessPrime(d, t) && Digital(t)
    ensures CarryInto(d, |d|) == if Value(t) < P then -1 else 0
    ensures Value(t) >= P ==> Value(Digits(d)) == Value(t) - P
  {
    BorrowRange(d, t, |d|);
    LessPrimeValue(d, t);
    CarryOutOf(d);
    Weight16();
    SignOf(Value(d), Weight(16), CarryInto(d, |d|), Value(Digits(d)));
  }

  lemma SignOf(v: int, w: int, c: int, low: int)
    requires v == w * c + low && 0 <= low < w && -1 <= c <= 0
    ensures c == (if v < 0 then -1 else 0)
    ensures v >= 0 ==> low == v
  {
    assert c == 0 || c == -1;
  }

  lemma LessPrimeAt(d: seq<int>, t: seq<int>, i: nat)
    requires LessPrime(d, t) && Digital(t) && i < 16
    ensures |d| == 16 && |t| == 16 && 0 <= t[i] < RADIX
    ensures d[i] == t[i] - (if i == 0 then 0xffed else if i == 15 then 0x7fff else 0xffff)
    ensures i == 0 ==> CarryInto(d, i) == 0
    ensures 0 <= Digit(d, i) < RADIX
  {
  }

  method BorrowLimb(m: array<int64>, t: array<int64>, ghost d: seq<int>, i: nat)
    requires t.Length == 16 && m.Length == 16 && t != m && 1 <= i < 15
    requires Digital(t[..]) && LessPrime(d, t[..])
    requires m[i - 1] == d[i - 1] + CarryInto(d, i - 1)
    modifies m
    ensures m[i] == d[i] + CarryInto(d, i) && m[i - 1] == Digit(d, i - 1)
    ensures forall k :: 0 <= k < i - 1 ==> m[k] == old(m[k])
  {
    ghost var s: seq<int> := t[..];
    hide And, CarryInto, Digit, LessPrime, Digital;
    BorrowRange(d, s, i);
    BorrowStep(d, i - 1);
    LessPrimeAt(d, s, i);
    var borrow := And(m[i - 1] / RADIX, 1);
    var low := And(m[i - 1], 0xffff);
    assert t[i] == s[i];
    m[i] := t[i] - 0xffff - borrow;
    m[i - 1] := low;
  }

  /** The borrow chain of `pack25519`: digits of the difference, its top limb unmasked. */
  method Borrow(m: array<int64>, t: array<int64>, ghost d: seq<int>)
    requires t.Length == 16 && m.Length == 16 && t != m
    requires Digital(t[..]) && LessPrime(d, t[..])
    modifies m
    ensures forall k :: 0 <= k < 14 ==> m[k] == Digit(d, k)
    ensures m[14] == d[14] + CarryInto(d, 14)
    ensures m[15] == d[15] + CarryInto(d, 15)
  {
    ghost var s: seq<int> := t[..];
    hide And, CarryInto, Digit, LessPrime, Digital;
    LessPrimeAt(d, s, 0);
    m[0] := t[0] - 0xffed;
    for i := 1 to 15
      invariant t[..] == s
      invariant m[i - 1] == d[i - 1] + CarryInto(d, i - 1)
      invariant forall k :: 0 <= k < i - 1 ==> m[k] == Digit(d, k)
    {
      BorrowLimb(m, t, d, i);
    }
    BorrowRange(d, s, 15);
    BorrowStep(d, 14);
    assert t[15] == s[15];
    LessPrimeAt(d, s, 15);
    m[15] := t[15] - 0x7fff - And(m[14] / RADIX, 1);
  }

  lemma BorrowResult(m: seq<int>, d: seq<int>, t: seq<int>)
    requires LessPrime(d, t) && Digital(t) && |m| == 16
    requires forall k :: 0 <= k < 15 ==> m[k] == Digit(d, k)
    requires m[15] == d[15] + CarryInto(d, 15)
    ensures And(m[15] / RADIX, 1) == (if Value(t) < P then 1 else 0)
    ensures Value(t) >= P ==> Digital(m) && Value(m) == Value(t) - P
  {
    var n := |d| - 1;
    BorrowRange(d, t, n + 1);
    BorrowStep(d, n);
    TopLimbSign(d, t);
    if Value(t) >= P {
      assert CarryInto(d, n + 1) == 0;
      assert m[n] == Digit(d, n);
      assert m == Digits(d);
    }
  }

  /** One round of `pack25519`: t becomes t - p unless that is negative. */
  method SubtractPrime(t: array<int64>, m: array<int64>)
    requires t.Length == 16 && m.Length == 16 && t != m && Digital(t[..])
    modifies t, m
    ensures Digital(t[..])
    ensures Value(t[..]) == old(Value(t[..])) - (if old(Value(t[..])) < P then 0 else P)
  {
    ghost var s: seq<int> := t[..];
    ghost var d := seq(16, i requires 0 <= i < 16 => s[i] - PrimeLimb(i));
    Borrow(m, t, d);
    assert -1 <= CarryInto(d, 15) <= 0 by {
      BorrowRange(d, s, 15);
    }
    BorrowStep(d, 14);
    var b := And(m[15] / RADIX, 1);
    m[14] := And(m[14], 0xffff);
    BorrowResult(m[..], d, s);
    assert t[..] == s;
    Select(t, m, 1 - b);
  }

  // -------------------------------------------------------------- pack and unpack

  lemma {:induction false} WeightIsPow2(i: nat)
    ensures Weight(i) == Pow2(16 * i)
  {
    if i > 0 {
      WeightIsPow2(i - 1);
      Pow2Add(16, 16 * (i - 1));
      Pow2Known();
    }
  }

  /** Bytes 2i and 2i+1 are the low and high byte of limb i. */
  ghost predicate BytesOf(b: seq<uint8>, t: seq<int>, n: nat) {
    && 2 * n <= |b| && n <= |t|
    && forall i :: 0 <= i < n ==> b[2 * i] as int + 0x100 * b[2 * i + 1] as int == t[i]
  }

  lemma {:induction false} BytesValue(b: seq<uint8>, t: seq<int>, n: nat)
    requires BytesOf(b, t, n)
    ensures Decode(b[..2 * n]) == ValueOf(t, n)
  {
    if n > 0 {
      BytesValue(b, t, n - 1);
      var m := 2 * (n - 1);
      var low, high := b[m], b[m + 1];
      assert b[..m + 1] == b[..m] + [low];
      assert b[..m + 2] == b[..m + 1] + [high];
      DecodeAppend(b[..m], low);
      DecodeAppend(b[..m + 1], high);
      WeightIsPow2(n - 1);
      Pow2Add(8 * m, 8);
      Pow2Known();
      TwoBytes(Weight(n - 1), low, high, t[n - 1]);
    }
  }

  lemma TwoBytes(w: int, low: int, high: int, x: int)
    requires low + 0x100 * high == x
    ensures w * low + (w * 0x100) * high == w * x
  {
  }

  const BIT255: nat := P + 19

  /** The number an encoded point stands for, its top bit masked (section 5 of RFC 7748). */
  function DecodePoint(b: seq<uint8>): nat {
    Decode(b) % BIT255
  }

  /** The top bit of the last octet does not count, all others do. */
  lemma PointMasked(b: seq<uint8>)
    requires |b| == 32
    ensures DecodePoint(b) == Decode(b[31 := b[31] % 0x80])
  {
    hide Decode, Pow2;
    var low, x := b[..31], b[31];
    assert b == low + [x] && b[31 := x % 0x80] == low + [x % 0x80];
    DecodeAppend(low, x);
    DecodeAppend(low, x % 0x80);
    DecodeRange(low);
    Pow2Add(248, 7);
    Pow2Known();
    BitCount();
    var w := Pow2(248);
    assert w * x == BIT255 * (x / 0x80) + w * (x % 0x80);
    assert w * (x % 0x80) <= w * 0x7f by { Monotone(w, x % 0x80, 0x7f); }
    RemainderIs(Decode(b), BIT255, x / 0x80, Decode(low) + w * (x % 0x80));
  }

  lemma BitCount()
    ensures Pow2(255) == BIT255
  {
    WeightIsPow2(15);
    Weight16();
    Pow2Add(240, 15);
    Pow2Known();
  }

  lemma MaskTop(o: seq<int>, raw: seq<int>)
    requires |o| == |raw| == 16 && Digital(raw)
    requires o == raw[15 := raw[15] % 0x8000]
    ensures Value(o) == Value(raw) % BIT255
  {
    var n := |o| - 1;
    ValueOfSame(o, raw, n);
    DigitalRange(o, n);
    Weight16();
    assert Weight(n + 1) == RADIX * Weight(n);
    TopBit(ValueOf(o, n), Weight(n), raw[n], BIT255);
  }

  lemma TopBit(low: int, w: nat, x: int, p: nat)
    requires 0 <= low < w && 0 <= x < RADIX && p == 0x8000 * w
    ensures low + w * (x % 0x8000) == (low + w * x) % p
  {
    var r, q := x % 0x8000, x / 0x8000;
    assert x == 0x8000 * q + r;
    assert w * x == p * q + w * r by {
      assert w * (0x8000 * q + r) == (0x8000 * w) * q + w * r;
    }
    Scale(w, r, 0x7fff);
    Scale(w, 0, r);
    RemainderIs(low + w * x, p, q, low + w * r);
  }

  /** `unpack25519` */
  method Unpack(o: array<int64>, n: array<uint8>)
    requires o.Length == 16 && n.Length == 32
    modifies o
    ensures Digital(o[..]) && Within(o[..], SMALL)
    ensures Element(o[..]) == DecodePoint(n[..]) % P
  {
    for i := 0 to 16
      invariant forall k :: 0 <= k < i ==> o[k] == n[2 * k] as int + 0x100 * n[2 * k + 1] as int
    {
      o[i] := n[2 * i] as int64 + n[2 * i + 1] as int64 * 0x100;
    }
    ghost var raw: seq<int> := o[..];
    hide And;
    AndMask(o[15], 15);
    Pow2Known();
    o[15] := And(o[15], 0x7fff);
    assert o[..] == raw[15 := raw[15] % 0x8000];
    Unpacked(o[..], raw, n[..]);
  }

  lemma Unpacked(o: seq<int>, raw: seq<int>, n: seq<uint8>)
    requires |o| == |raw| == 16 && |n| == 32 && BytesOf(n, raw, 16)
    requires o == raw[15 := raw[15] % 0x8000]
    ensures Digital(o) && Within(o, SMALL) && Element(o) == DecodePoint(n) % P
  {
    hide Value, ValueOf;
    BytesValue(n, raw, 16);
    assert n[..32] == n;
    MaskTop(o, raw);
    ValueIsWhole(raw);
  }

  lemma ValueIsWhole(s: seq<int>)
    requires |s| == 16
    ensures Value(s) == ValueOf(s, 16)
  {
    hide ValueOf;
  }

  lemma TwoSubtractions(v0: int, v1: int, v2: int)
    requires 0 <= v0 < 2 * P + 38
    requires v1 == v0 - (if v0 < P then 0 else P)
    requires v2 == v1 - (if v1 < P then 0 else P)
    ensures v2 == v0 % P
  {
    if v0 >= 2 * P {
      RemainderIs(v0, P, 2, v2);
    } else if v0 >= P {
      RemainderIs(v0, P, 1, v2);
    }
  }

  /** Three carries and two conditional subtractions leave the least residue. */
  method Canonical(t: array<int64>)
    requires t.Length == 16 && Within(t[..], 0x4000_0000_0000_0000)
    modifies t
    ensures Digital(t[..])
    ensures Value(t[..]) == Element(old(t[..]))
  {
    TwoPasses(t[..]);
    ThirdPass(CarryPass(CarryPass(t[..])));
    Carry(t);
    Carry(t);
    assert Within(t[..], 0x4000_0000_0000_0000);
    Carry(t);
    ghost var v := Value(t[..]);
    DigitalRange(t[..], 16);
    Weight16();
    var m := new int64[16];
    SubtractPrime(t, m);
    ghost var v1 := Value(t[..]);
    SubtractPrime(t, m);
    TwoSubtractions(v, v1, Value(t[..]));
  }

  /** The digits as bytes, two a limb. */
  method Split(o: array<uint8>, t: array<int64>)
    requires o.Length == 32 && t.Length == 16 && Digital(t[..])
    modifies o
    ensures Decode(o[..]) == Value(t[..])
  {
    ghost var s: seq<int> := t[..];
    for i := 0 to 16
      invariant t[..] == s
      invariant forall k :: 0 <= k < i ==> o[2 * k] as int + 0x100 * o[2 * k + 1] as int == s[k]
    {
      assert t[i] == s[i];
      AndMask(t[i], 8);
      Pow2Known();
      o[2 * i] := And(t[i], 0xff);
      o[2 * i + 1] := t[i] / 0x100;
    }
    BytesValue(o[..], s, |s|);
    assert o[..][..2 * |s|] == o[..];
  }

  /** `pack25519`: the bytes of the unique representative below p. */
  method Pack(o: array<uint8>, n: array<int64>)
    requires o.Length == 32 && n.Length == 16 && Within(n[..], 0x4000_0000_0000_0000)
    modifies o
    ensures o[..] == Encode(Element(n[..]), 32)
    ensures Decode(o[..]) == Element(n[..])
  {
    var t := new int64[16];
    Copy(t, n);
    Canonical(t);
    Split(o, t);
    EncodeDecode(o[..]);
  }

  /** Packing an unpacked value gives its bytes back exactly when they were reduced. */
  lemma PackUnpack(b: seq<uint8>)
    requires |b| == 32
    ensures Encode(DecodePoint(b) % P, 32) == b <==> Decode(b) < P
  {
    SmallResidue(Decode(b));
    EncodeDecode(b);
    EncodeResidue(DecodePoint(b) % P);
  }

  lemma SmallResidue(v: nat)
    ensures v < P ==> v % BIT255 % P == v
  {
  }

  lemma EncodeResidue(x: nat)
    requires x < P
    ensures Decode(Encode(x, 32)) == x
  {
    WeightIsPow2(16);
    Weight16();
    DecodeEncode(x, 32);
  }

  lemma {:induction false} DecodeEncode(v: nat, n: nat)
    requires v < Pow2(8 * n)
    ensures Decode(Encode(v, n)) == v
  {
    if n > 0 {
      Pow2Add(8, 8 * (n - 1));
      Pow2Known();
      DecodeEncode(v / 0x100, n - 1);
    } else {
      Pow2Known();
    }
  }
}
