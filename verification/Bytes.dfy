/** Octet strings and the big-endian numbers they stand for. */
module Bytes {
  import opened Bitwise

  /** A 128-bit block; a block cipher under a fixed key is any function between blocks. */
  type Block = b: seq<uint8> | |b| == 16 witness seq(16, _ => 0)
  type Cipher = Block -> Block

  function Zeros(n: nat): (z: seq<uint8>)
    ensures |z| == n && forall i :: 0 <= i < n ==> z[i] == 0
  {
    seq(n, _ => 0)
  }

  function XorBytes(a: seq<uint8>, b: seq<uint8>): (c: seq<uint8>)
    requires |a| == |b|
    ensures |c| == |a|
  {
    seq(|a|, i requires 0 <= i < |a| => XorByte(a[i], b[i]))
  }

  /** Adding the same string twice gives the first one back. */
  lemma XorTwice(a: seq<uint8>, b: seq<uint8>)
    requires |a| == |b|
    ensures XorBytes(XorBytes(a, b), b) == a
  {
    forall i | 0 <= i < |a|
      ensures XorBytes(XorBytes(a, b), b)[i] == a[i]
    {
      XorByteTwice(a[i], b[i]);
    }
  }

  /** The number a big-endian string stands for. */
  function Number(b: seq<uint8>): nat {
    if b == [] then 0 else 0x100 * Number(b[..|b| - 1]) + b[|b| - 1]
  }

  /** The last n bytes of the big-endian form of a number. */
  function BigEndian(v: nat, n: nat): (b: seq<uint8>)
    ensures |b| == n
  {
    if n == 0 then [] else BigEndian(v / 0x100, n - 1) + [v % 0x100]
  }

  lemma {:induction false} NumberRange(b: seq<uint8>)
    ensures Number(b) < Pow2(8 * |b|)
  {
    if b != [] {
      NumberRange(b[..|b| - 1]);
      Pow2Add(8, 8 * (|b| - 1));
      Pow2Known();
    } else {
      Pow2Known();
    }
  }

  /** A string is the big-endian form of its own number. */
  lemma {:induction false} BigEndianOfNumber(b: seq<uint8>)
    ensures BigEndian(Number(b), |b|) == b
  {
    if b != [] {
      BigEndianOfNumber(b[..|b| - 1]);
    }
  }

  lemma {:induction false} NumberOfBigEndian(v: nat, n: nat)
    requires v < Pow2(8 * n)
    ensures Number(BigEndian(v, n)) == v
  {
    Pow2Known();
    if n > 0 {
      Pow2Add(8, 8 * (n - 1));
      NumberOfBigEndian(v / 0x100, n - 1);
      assert BigEndian(v, n)[..n - 1] == BigEndian(v / 0x100, n - 1);
    }
  }

  lemma TwoBytes(v: nat)
    requires v < 0x1_0000
    ensures BigEndian(v, 2) == [v / 0x100, v % 0x100]
  {
    assert BigEndian(v / 0x100, 1) == BigEndian(v / 0x100 / 0x100, 0) + [v / 0x100];
  }

  /** Only the low n bytes of the number show. */
  lemma {:induction false} BigEndianMod(v: nat, n: nat)
    ensures BigEndian(v, n) == BigEndian(v % Pow2(8 * n), n)
  {
    if n > 0 {
      var p := Pow2(8 * (n - 1));
      Pow2Add(8, 8 * (n - 1));
      Pow2Known();
      ByteOfRemainder(v, p);
      BigEndianMod(v / 0x100, n - 1);
    }
  }

  lemma ByteOfRemainder(v: nat, p: nat)
    requires p > 0
    ensures v % (0x100 * p) / 0x100 == v / 0x100 % p && v % (0x100 * p) % 0x100 == v % 0x100
  {
    var q, r, x := v / 0x100 / p, v / 0x100 % p, v % 0x100;
    assert v / 0x100 == p * q + r;
    assert 0x100 * (p * q) == (0x100 * p) * q;
    RemainderIs(v, 0x100 * p, q, 0x100 * r + x);
  }

  lemma {:induction false} NumberAppend(p: seq<uint8>, q: seq<uint8>)
    ensures Number(p + q) == Number(p) * Pow2(8 * |q|) + Number(q)
  {
    Pow2Known();
    if q == [] {
      assert p + q == p;
    } else {
      var r := q[..|q| - 1];
      assert (p + q)[..|p + q| - 1] == p + r;
      NumberAppend(p, r);
      Pow2Add(8, 8 * |r|);
      Reassociate(Number(p), Pow2(8 * |r|));
    }
  }

  lemma Reassociate(x: int, y: int)
    ensures 0x100 * (x * y) == x * (0x100 * y)
  {
  }

  lemma {:induction false} NumberOfZeros(q: seq<uint8>)
    requires forall i :: 0 <= i < |q| ==> q[i] == 0
    ensures Number(q) == 0
  {
    if q != [] {
      NumberOfZeros(q[..|q| - 1]);
    }
  }

  lemma {:induction false} NumberOfOnes(q: seq<uint8>)
    requires forall i :: 0 <= i < |q| ==> q[i] == 0xff
    ensures Number(q) == Pow2(8 * |q|) - 1
  {
    Pow2Known();
    if q != [] {
      NumberOfOnes(q[..|q| - 1]);
      Pow2Add(8, 8 * (|q| - 1));
    }
  }

  /** Counting up: trailing 0xff bytes wrap to zero and the byte before them grows by one. */
  lemma Successor(p: seq<uint8>, x: uint8, q: seq<uint8>, r: seq<uint8>)
    requires x < 0xff && |q| == |r|
    requires forall k :: 0 <= k < |q| ==> q[k] == 0xff && r[k] == 0
    ensures Number(p + [x + 1] + r) == Number(p + [x] + q) + 1
  {
    hide Number, Pow2;
    NumberOfOnes(q);
    NumberOfZeros(r);
    NumberAppend(p + [x], q);
    NumberAppend(p + [x + 1], r);
    NumberSnoc(p, x);
    NumberSnoc(p, x + 1);
    OneMore(Number(p + [x]), Pow2(8 * |q|));
  }

  lemma NumberSnoc(p: seq<uint8>, x: uint8)
    ensures Number(p + [x]) == 0x100 * Number(p) + x
  {
    assert (p + [x])[..|p|] == p;
  }

  lemma NumberOfTwo(b: seq<uint8>)
    requires |b| == 2
    ensures Number(b) == 0x100 * b[0] as int + b[1] as int
  {
    assert b == [] + [b[0]] + [b[1]];
    NumberSnoc([], b[0]);
    NumberSnoc([b[0]], b[1]);
  }

  lemma OneMore(n: int, w: int)
    ensures (n + 1) * w == n * w + w
  {
  }

  /** Ripple-carry increment of the bytes lo .. hi-1 as one big-endian counter. */
  method Increment(c: array<uint8>, lo: nat, hi: nat)
    requires lo < hi <= c.Length
    modifies c
    ensures c[..lo] == old(c[..lo]) && c[hi..] == old(c[hi..])
    ensures Number(c[lo..hi]) == (old(Number(c[lo..hi])) + 1) % Pow2(8 * (hi - lo))
  {
    hide Number, Pow2;
    ghost var b := c[lo..hi];
    var i := hi;
    while i > lo
      invariant lo <= i <= hi
      invariant forall k :: 0 <= k < i || hi <= k < c.Length ==> c[k] == old(c[k])
      invariant forall k :: i <= k < hi ==> old(c[k]) == 0xff && c[k] == 0
    {
      i := i - 1;
      c[i] := (c[i] as int + 1) % 0x100;
      if c[i] != 0 {
        Stepped(b, c[lo..hi], i - lo);
        return;
      }
    }
    AllOnes(b, c[lo..hi]);
  }

  lemma AllOnes(b: seq<uint8>, c: seq<uint8>)
    requires |b| == |c| && forall k :: 0 <= k < |b| ==> b[k] == 0xff && c[k] == 0
    ensures Number(c) == (Number(b) + 1) % Pow2(8 * |b|)
  {
    hide Number, Pow2;
    NumberOfOnes(b);
    NumberOfZeros(c);
    RemainderIs(Pow2(8 * |b|), Pow2(8 * |b|), 1, 0);
  }

  lemma Stepped(b: seq<uint8>, c: seq<uint8>, i: nat)
    requires |b| == |c| && i < |b| && b[i] < 0xff && c[i] == b[i] + 1
    requires forall k :: 0 <= k < i ==> b[k] == c[k]
    requires forall k :: i < k < |b| ==> b[k] == 0xff && c[k] == 0
    ensures Number(c) == (Number(b) + 1) % Pow2(8 * |b|)
  {
    assert b == b[..i] + [b[i]] + b[i + 1..];
    assert c == b[..i] + [b[i] + 1] + c[i + 1..];
    Successor(b[..i], b[i], b[i + 1..], c[i + 1..]);
    NumberRange(c);
    RemainderIs(Number(c), Pow2(8 * |c|), 0, Number(c));
  }

  /** Copies n bytes from one array to another. */
  method CopyBytes(src: array<uint8>, from: nat, n: nat, out: array<uint8>, at: nat)
    requires src != out && from + n <= src.Length && at + n <= out.Length
    modifies out
    ensures out[at..at + n] == src[from..from + n]
    ensures out[..at] == old(out[..at]) && out[..at + n] == out[..at] + out[at..at + n]
    ensures out[at + n..] == old(out[at + n..])
  {
    ghost var bytes := src[from..from + n];
    for i := 0 to n
      invariant forall k :: 0 <= k < at || at + n <= k < out.Length ==> out[k] == old(out[k])
      invariant forall k :: 0 <= k < i ==> out[at + k] == bytes[k]
    {
      assert src[from + i] == bytes[i];
      out[at + i] := src[from + i];
    }
    assert out[at..at + n] == bytes;
  }
}
