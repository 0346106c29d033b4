/** GHASH over bytes: the shift-and-xor loop on a 16-byte array is the block product. */
module Ghash {
  import opened Bitwise
  import opened Bytes
  import Gf = Gf128

  // ------------------------------------------------------- bytes as bit strings

  /** The low n bits of a number, most significant first. */
  function ByteBits(x: int, n: nat): (b: seq<bool>)
    ensures |b| == n
    decreases n, x
  {
    if n == 0 then [] else ByteBits(x / 2, n - 1) + [x % 2 == 1]
  }

  function BitsByte(b: seq<bool>): nat {
    if b == [] then 0 else 2 * BitsByte(b[..|b| - 1]) + (if b[|b| - 1] then 1 else 0)
  }

  function Bits(b: seq<uint8>): (p: Gf.Poly)
    ensures |p| == 8 * |b|
  {
    seq<bool>(8 * |b|, i requires 0 <= i < 8 * |b| => ByteBits(b[i / 8], 8)[i % 8])
  }

  function FromBits(p: Gf.Poly): (b: seq<uint8>)
    requires |p| == 128
    ensures |b| == 16
  {
    seq<uint8>(16, i requires 0 <= i < 16 => OneByte(p[8 * i..8 * i + 8]))
  }

  function OneByte(p: seq<bool>): uint8
    requires |p| == 8
  {
    BitsByteRange(p);
    Pow2Known();
    BitsByte(p)
  }

  lemma {:induction false} BitsByteRange(p: seq<bool>)
    ensures 0 <= BitsByte(p) < Pow2(|p|)
  {
    if p != [] {
      BitsByteRange(p[..|p| - 1]);
    }
  }

  lemma {:induction false} ByteBitsOfBits(p: seq<bool>)
    ensures ByteBits(BitsByte(p), |p|) == p
  {
    if p != [] {
      ByteBitsOfBits(p[..|p| - 1]);
    }
  }

  lemma {:induction false} BitsByteOfBits(x: int, n: nat)
    requires 0 <= x < Pow2(n)
    ensures BitsByte(ByteBits(x, n)) == x
    decreases n
  {
    if n > 0 {
      BitsByteOfBits(x / 2, n - 1);
      assert ByteBits(x, n)[..n - 1] == ByteBits(x / 2, n - 1);
    }
  }

  lemma BitsFromBits(p: Gf.Poly)
    requires |p| == 128
    ensures Bits(FromBits(p)) == p
  {
    forall i | 0 <= i < 128
      ensures Bits(FromBits(p))[i] == p[i]
    {
      var j := i / 8;
      ByteBitsOfBits(p[8 * j..8 * j + 8]);
    }
  }

  /** A block is determined by its bits. */
  lemma FromBitsBits(b: seq<uint8>)
    requires |b| == 16
    ensures FromBits(Bits(b)) == b
  {
    hide ByteBits, BitsByte;
    Pow2Known();
    forall j | 0 <= j < 16
      ensures FromBits(Bits(b))[j] == b[j]
    {
      assert Bits(b)[8 * j..8 * j + 8] == ByteBits(b[j], 8);
      BitsByteOfBits(b[j], 8);
    }
  }

  /** Bit k of a byte, counted from the top, is what the shift and mask pick out. */
  lemma {:induction false} BitAt(x: int, n: nat, k: nat)
    requires k < n
    ensures ByteBits(x, n)[k] <==> x / Pow2(n - 1 - k) % 2 == 1
    decreases n
  {
    Pow2Known();
    if k < n - 1 {
      BitAt(x / 2, n - 1, k);
      Halve(x, Pow2(n - 2 - k));
    }
  }

  lemma Halve(x: int, p: nat)
    requires p > 0
    ensures x / (2 * p) == x / 2 / p
  {
    var y := x / 2;
    assert x == 2 * y + x % 2 && y == p * (y / p) + y % p;
    assert 2 * (p * (y / p)) == (2 * p) * (y / p);
    RemainderIs(x, 2 * p, y / p, 2 * (y % p) + x % 2);
  }

  lemma {:induction false} XorBits(x: int, y: int, n: nat)
    ensures ByteBits(Xor(x, y), n) == Gf.Add(ByteBits(x, n), ByteBits(y, n))
    decreases n
  {
    hide Xor;
    if n > 0 {
      XorHalves(x, y);
      OddSum(x, y);
      XorBits(x / 2, y / 2, n - 1);
    }
  }

  lemma OddSum(x: int, y: int)
    ensures (x + y) % 2 == 1 <==> (x % 2 == 1) != (y % 2 == 1)
  {
  }

  lemma OneBitOfXor(x: uint8, y: uint8, k: nat)
    requires k < 8
    ensures ByteBits(XorByte(x, y), 8)[k] == (ByteBits(x, 8)[k] != ByteBits(y, 8)[k])
  {
    hide ByteBits;
    XorBits(x, y, 8);
  }

  lemma BitsOfXor(a: seq<uint8>, b: seq<uint8>)
    requires |a| == |b|
    ensures Bits(XorBytes(a, b)) == Gf.Add(Bits(a), Bits(b))
  {
    hide ByteBits, XorByte, Gf.Add;
    forall i | 0 <= i < 8 * |a|
      ensures Bits(XorBytes(a, b))[i] == Gf.Add(Bits(a), Bits(b))[i]
    {
      OneBitOfXor(a[i / 8], b[i / 8], i % 8);
    }
  }

  /** Putting a bit on top of n low bits. */
  lemma {:induction false} TopBit(x: int, c: bool, n: nat)
    requires 0 <= x < Pow2(n)
    ensures ByteBits(x + (if c then Pow2(n) else 0), n + 1) == [c] + ByteBits(x, n)
    decreases n
  {
    var y := x + (if c then Pow2(n) else 0);
    if n > 0 {
      TopBit(x / 2, c, n - 1);
      assert y / 2 == x / 2 + (if c then Pow2(n - 1) else 0) && y % 2 == x % 2;
    } else {
      assert ByteBits(y / 2, 0) == [];
    }
  }

  // ---------------------------------------------------------------- shift and xor

  /** One byte of the shifted block: its own upper seven bits below its neighbour's last bit. */
  function ShiftedByte(x: uint8, before: uint8): uint8 {
    ShiftedIs(x, before);
    Or(x / 2, And(before, 1) * 0x80)
  }

  lemma ShiftedIs(x: uint8, before: uint8)
    ensures Or(x / 2, And(before, 1) * 0x80) == x / 2 + before % 2 * 0x80
    ensures And(before, 1) == before % 2
  {
    hide Or, And;
    AndMask(before, 1);
    Pow2Known();
    if before % 2 == 1 {
      OrSets(x / 2, 7);
    } else {
      OrZero(x / 2);
    }
  }

  lemma {:induction false} OrZero(x: int)
    ensures Or(x, 0) == x
    decreases Magnitude(x)
  {
    OrUnfold(x, 0);
    if x != 0 && x != -1 {
      OrZero(x / 2);
    } else {
      assert And(Not(x), Not(0)) == Not(x);
    }
  }

  lemma ShiftedBits(x: uint8, before: uint8)
    ensures ByteBits(ShiftedByte(x, before), 8) == [before % 2 == 1] + ByteBits(x, 8)[..7]
  {
    hide ByteBits, And, Or, Pow2;
    ShiftedIs(x, before);
    Pow2Known();
    TopBit(x / 2, before % 2 == 1, 7);
    LowBitLast(x);
  }

  lemma LowBitLast(x: uint8)
    ensures ByteBits(x, 8)[..7] == ByteBits(x / 2, 7)
  {
  }

  function Shifted(v: seq<uint8>): (r: seq<uint8>)
    ensures |r| == |v|
  {
    seq<uint8>(|v|, j requires 0 <= j < |v| => ShiftedByte(v[j], if j == 0 then 0 else v[j - 1]))
  }

  /** Shifting the bytes shifts the bit string by one. */
  lemma BitsOfShifted(v: seq<uint8>)
    requires |v| == 16
    ensures Bits(Shifted(v)) == [false] + Bits(v)[..127]
  {
    forall i | 0 <= i < 128
      ensures Bits(Shifted(v))[i] == ([false] + Bits(v)[..127])[i]
    {
      BitOfShifted(v, i);
    }
  }

  lemma BitOfShifted(v: seq<uint8>, i: nat)
    requires |v| == 16 && i < 128
    ensures Bits(Shifted(v))[i] == (if i == 0 then false else Bits(v)[i - 1])
  {
    hide ShiftedByte, ByteBits;
    var j, k := i / 8, i % 8;
    BitOfShiftedByte(v[j], if j == 0 then 0 else v[j - 1], k);
    if k == 0 && i > 0 {
      assert (i - 1) / 8 == j - 1 && (i - 1) % 8 == 7;
    } else if i > 0 {
      assert (i - 1) / 8 == j && (i - 1) % 8 == k - 1;
    }
  }

  lemma BitOfShiftedByte(x: uint8, before: uint8, k: nat)
    requires k < 8
    ensures ByteBits(ShiftedByte(x, before), 8)[k]
         == if k == 0 then ByteBits(before, 8)[7] else ByteBits(x, 8)[k - 1]
    ensures !ByteBits(0, 8)[7]
  {
    hide ShiftedByte;
    ShiftedBits(x, before);
    assert ByteBits(before, 8)[7] == (before % 2 == 1);
    assert ByteBits(0, 8)[7] == (0 % 2 == 1);
  }

  /** The byte 0xe1 and fifteen zeros. */
  function TailBytes(): (r: seq<uint8>)
    ensures |r| == 16
  {
    [0xe1] + Zeros(15)
  }

  lemma {:induction false} ZeroBits(n: nat)
    ensures ByteBits(0, n) == Gf.Zero(n)
  {
    if n > 0 {
      ZeroBits(n - 1);
    }
  }

  lemma BitsOfTail()
    ensures Bits(TailBytes()) == Gf.Tail()
  {
    ZeroBits(8);
    assert ByteBits(0xe1, 8) == [true, true, true, false, false, false, false, true];
    forall i | 0 <= i < 128
      ensures Bits(TailBytes())[i] == Gf.Tail()[i]
    {
      if i >= 8 {
        assert TailBytes()[i / 8] == 0;
      }
    }
  }

  lemma BitsOfZeros(n: nat)
    ensures Bits(Zeros(n)) == Gf.Zero(8 * n)
  {
    ZeroBits(8);
  }

  // -------------------------------------------------------------------- the loops

  method XorInto(z: array<uint8>, v: array<uint8>)
    requires z.Length == 16 && v.Length == 16 && z != v
    modifies z
    ensures z[..] == XorBytes(old(z[..]), v[..])
  {
    hide XorByte;
    for j := 0 to 16
      invariant forall k :: 0 <= k < j ==> z[k] == XorByte(old(z[k]), v[k])
      invariant forall k :: j <= k < 16 ==> z[k] == old(z[k])
    {
      z[j] := XorByte(z[j], v[j]);
    }
  }

  lemma LastBit(v: seq<uint8>)
    requires |v| == 16
    ensures Bits(v)[127] <==> v[15] % 2 == 1
  {
    assert ByteBits(v[15], 8)[7] == (v[15] % 2 == 1);
  }

  lemma TimesXBytes(v: seq<uint8>, r: seq<uint8>)
    requires |v| == 16
    requires r == if v[15] % 2 == 1 then XorBytes(Shifted(v), TailBytes()) else Shifted(v)
    ensures Bits(r) == Gf.TimesX(Bits(v))
  {
    hide ByteBits, ShiftedByte, XorByte;
    LastBit(v);
    BitsOfShifted(v);
    BitsOfXor(Shifted(v), TailBytes());
    BitsOfTail();
    assert Gf.Add(Bits(Shifted(v)), Gf.Zero(128)) == Bits(Shifted(v));
  }

  /** Multiplies a block by x in place. */
  method TimesX(v: array<uint8>)
    requires v.Length == 16
    modifies v
    ensures Bits(v[..]) == Gf.TimesX(old(Bits(v[..])))
  {
    hide ShiftedByte, ByteBits, Bits;
    ghost var s := v[..];
    ShiftedIs(s[0], v[15]);
    var lsb := And(v[15], 1);
    for j := 16 downto 1
      invariant forall k :: j <= k < 16 ==> v[k] == ShiftedByte(s[k], s[k - 1])
      invariant forall k :: 0 <= k < j ==> v[k] == s[k]
    {
      v[j] := ShiftedByte(v[j], v[j - 1]);
    }
    ShiftFirst(s[0]);
    v[0] := v[0] / 2;
    assert v[..] == Shifted(s);
    if lsb == 1 {
      v[0] := XorByte(v[0], 0xe1);
      TailAtFront(Shifted(s), v[..]);
    }
    TimesXBytes(s, v[..]);
  }

  lemma ShiftFirst(x: uint8)
    ensures ShiftedByte(x, 0) == x / 2
  {
    ShiftedIs(x, 0);
  }

  lemma TailAtFront(s: seq<uint8>, r: seq<uint8>)
    requires |s| == 16 && r == s[0 := XorByte(s[0], 0xe1)]
    ensures r == XorBytes(s, TailBytes())
  {
    forall j | 1 <= j < 16
      ensures XorByte(s[j], TailBytes()[j]) == s[j]
    {
      XorZero(s[j]);
    }
  }

  /** The product of two blocks. */
  function BlockProduct(x: Block, h: Block): Block {
    FromBits(Gf.Product(Bits(x), Bits(h)))
  }

  /** The block of a one bit and zeros is the unit: the first bit of a block is its highest. */
  lemma OneIsUnit(h: Block)
    ensures BlockProduct([0x80] + Zeros(15), h) == h
  {
    hide Gf.Product;
    BitsOfOne();
    Gf.OneProduct(127, Bits(h));
    FromBitsBits(h);
  }

  lemma BitsOfOne()
    ensures Bits([0x80] + Zeros(15)) == [true] + Gf.Zero(127)
  {
    hide ByteBits;
    var one, bits := [0x80] + Zeros(15), [true] + Gf.Zero(127);
    TopByte();
    ZeroBits(8);
    forall i | 0 <= i < 128
      ensures Bits(one)[i] == bits[i]
    {
    }
  }

  lemma TopByte()
    ensures ByteBits(0x80, 8) == [true] + Gf.Zero(7)
  {
    hide ByteBits;
    Pow2Known();
    TopBit(0, true, 7);
    ZeroBits(7);
  }

  /** `ghash_mul` is linear in the block it multiplies. */
  lemma BlockProductLinear(a: Block, b: Block, h: Block)
    ensures BlockProduct(XorBytes(a, b), h) == XorBytes(BlockProduct(a, h), BlockProduct(b, h))
  {
    hide Bits, FromBits, Gf.Product, XorByte;
    var p, q := Gf.Product(Bits(a), Bits(h)), Gf.Product(Bits(b), Bits(h));
    BitsOfXor(a, b);
    Gf.ProductAddLeft(Bits(a), Bits(b), Bits(h));
    BitsFromBits(p);
    BitsFromBits(q);
    BitsOfXor(FromBits(p), FromBits(q));
    FromBitsBits(XorBytes(FromBits(p), FromBits(q)));
  }

  lemma BitOfBlock(x: seq<uint8>, i: nat)
    requires |x| == 16 && i < 128
    ensures And(x[i / 8] / Pow2(7 - i % 8), 1) == (if Bits(x)[i] then 1 else 0)
  {
    BitAt(x[i / 8], 8, i % 8);
    AndMask(x[i / 8] / Pow2(7 - i % 8), 1);
    Pow2Known();
  }

  lemma ProductStep(z: Gf.Poly, x: Gf.Poly, v: Gf.Poly)
    requires |z| == 128 && |v| == 128 && x != []
    ensures Gf.Add(z, Gf.Product(x, v))
         == Gf.Add(if x[0] then Gf.Add(z, v) else z, Gf.Product(x[1..], Gf.TimesX(v)))
  {
  }

  /** `ghash_mul`: multiplies the block in x by h, in place. */
  method Multiply(x: array<uint8>, h: Block)
    requires x.Length == 16
    modifies x
    ensures x[..] == BlockProduct(old(x[..]), h)
  {
    hide Bits, Gf.Product, Gf.TimesX, And, Pow2, XorByte;
    ghost var b, product := Bits(x[..]), Gf.Product(Bits(x[..]), Bits(h));
    var z := new uint8[16](_ => 0);
    var v := new uint8[16](j requires 0 <= j < 16 => h[j]);
    assert z[..] == Zeros(16) && v[..] == h;
    BitsOfZeros(16);
    assert Gf.Add(Gf.Zero(128), product) == product;
    assert b[0..] == b;
    for i := 0 to 128
      invariant x[..] == old(x[..])
      invariant product == Gf.Add(Bits(z[..]), Gf.Product(b[i..], Bits(v[..])))
    {
      BitOfBlock(x[..], i);
      ProductStep(Bits(z[..]), b[i..], Bits(v[..]));
      assert b[i..][1..] == b[i + 1..];
      BitsOfXor(z[..], v[..]);
      if And(x[i / 8] / Pow2(7 - i % 8), 1) == 1 {
        XorInto(z, v);
      }
      TimesX(v);
    }
    FinalProduct(product, z[..], b[128..], Bits(v[..]));
    for i := 0 to 16
      invariant z[..] == FromBits(product)
      invariant forall k :: 0 <= k < i ==> x[k] == z[k]
    {
      x[i] := z[i];
    }
    assert x[..] == z[..];
  }

  lemma FinalProduct(product: Gf.Poly, z: seq<uint8>, x: Gf.Poly, v: Gf.Poly)
    requires |z| == 16 && x == [] && |v| == 128
    requires product == Gf.Add(Bits(z), Gf.Product(x, v))
    ensures z == FromBits(product)
  {
    assert Gf.Add(Bits(z), Gf.Zero(128)) == Bits(z);
    FromBitsBits(z);
  }
}
