/** Little-endian byte strings and the numbers they stand for. */
module LittleEndian {
  import opened Bitwise

  function Decode(b: seq<uint8>): nat {
    if b == [] then 0 else b[0] + 0x100 * Decode(b[1..])
  }

  function Encode(v: nat, n: nat): (b: seq<uint8>)
    ensures |b| == n
  {
    if n == 0 then [] else [v % 0x100] + Encode(v / 0x100, n - 1)
  }

  lemma {:induction false} EncodeDecode(b: seq<uint8>)
    ensures Encode(Decode(b), |b|) == b
  {
    if b != [] {
      var d := Decode(b[1..]);
      EncodeDecode(b[1..]);
      EncodeStep(b[0], d, |b| - 1);
      assert Decode(b) == b[0] + 0x100 * d;
      assert b == [b[0]] + b[1..];
    }
  }

  lemma EncodeStep(x: uint8, d: nat, n: nat)
    ensures Encode(x + 0x100 * d, n + 1) == [x] + Encode(d, n)
  {
    var v: nat := x + 0x100 * d;
    assert v % 0x100 == x && v / 0x100 == d;
    assert Encode(v, n + 1) == [v % 0x100] + Encode(v / 0x100, n);
  }

  lemma {:induction false} DecodeAppend(b: seq<uint8>, x: uint8)
    ensures Decode(b + [x]) == Decode(b) + Pow2(8 * |b|) * x
  {
    if b != [] {
      DecodeAppend(b[1..], x);
      assert (b + [x])[1..] == b[1..] + [x];
      Pow2Add(8, 8 * |b[1..]|);
      Pow2Known();
      Regroup(b[0], Decode(b[1..]), Pow2(8 * |b[1..]|), x);
    } else {
      Pow2Known();
      assert (b + [x])[1..] == [];
    }
  }

  lemma {:induction false} DecodeRange(b: seq<uint8>)
    ensures Decode(b) < Pow2(8 * |b|)
  {
    Pow2Known();
    if b != [] {
      DecodeRange(b[1..]);
      Pow2Add(8, 8 * |b[1..]|);
    }
  }

  lemma Regroup(b: int, d: int, p: int, x: int)
    ensures b + 0x100 * (d + p * x) == b + 0x100 * d + (0x100 * p) * x
  {
  }

  /** The bits of a little-endian number are the bits of its bytes, low bit first. */
  lemma {:induction false} BitOfByte(b: seq<uint8>, i: nat)
    requires i < 8 * |b|
    ensures b[i / 8] / Pow2(i % 8) % 2 == Decode(b) / Pow2(i) % 2
  {
    if i < 8 {
      assert i / 8 == 0 && i % 8 == i;
      LowBits(b[0], Decode(b[1..]), i);
    } else {
      var j := i - 8;
      assert j / 8 == i / 8 - 1 && j % 8 == i % 8;
      BitOfByte(b[1..], j);
      assert Decode(b) / 0x100 == Decode(b[1..]);
      SkipByte(Decode(b), i);
    }
  }

  lemma SkipByte(v: nat, i: nat)
    requires i >= 8
    ensures v / Pow2(i) == v / 0x100 / Pow2(i - 8)
  {
    Pow2Add(8, i - 8);
    Pow2Known();
    DivideTwice(v, 0x100, Pow2(i - 8));
  }

  lemma DivideTwice(x: nat, c: nat, d: nat)
    requires c > 0 && d > 0
    ensures c * d > 0 && x / (c * d) == x / c / d
  {
    var y, s := x / c, x % c;
    var q, r := y / d, y % d;
    Expand(c, d, q, r);
    Monotone(c, r + 1, d);
    RemainderIs(x, c * d, q, c * r + s);
  }

  lemma Expand(c: int, d: int, q: int, r: int)
    ensures c * (d * q + r) == (c * d) * q + c * r
    ensures c * (r + 1) == c * r + c
  {
  }

  lemma Monotone(c: nat, x: int, y: int)
    requires x <= y
    ensures c * x <= c * y
  {
  }

  lemma LowBits(x: int, rest: int, i: nat)
    requires i < 8
    ensures (x + 0x100 * rest) / Pow2(i) % 2 == x / Pow2(i) % 2
  {
    Complement(i);
    LowPart(x, rest, Pow2(i), Pow2(7 - i));
  }

  lemma LowPart(x: int, rest: int, p: nat, q: nat)
    requires p > 0 && p * (2 * q) == 0x100
    ensures (x + 0x100 * rest) / p % 2 == x / p % 2
  {
    ThreeFactors(p, q, rest);
    AddMultiple(x, p, 2 * (q * rest));
  }

  lemma {:induction false} Complement(i: nat)
    requires i < 8
    ensures Pow2(i) * (2 * Pow2(7 - i)) == 0x100
  {
    if i == 0 {
      assert Pow2(7) == 0x80;
    } else {
      Complement(i - 1);
      assert Pow2(8 - i) == 2 * Pow2(7 - i);
      assert Pow2(i) * Pow2(8 - i) == Pow2(i - 1) * (2 * Pow2(8 - i));
    }
  }

  lemma ThreeFactors(p: int, q: int, r: int)
    requires p * (2 * q) == 0x100
    ensures 0x100 * r == p * (2 * (q * r))
  {
  }

  lemma AddMultiple(x: int, p: nat, k: int)
    requires p > 0
    ensures (x + p * k) / p == x / p + k
  {
    assert x + p * k == p * (x / p + k) + x % p;
    RemainderIs(x + p * k, p, x / p + k, x % p);
  }
}
