/** The X25519 function: the Montgomery ladder of section 5 of RFC 7748 and the one in place. */
module X25519 {
  import opened Limbs
  import opened Field25519
  import opened FieldOps
  import opened FieldCodec
  import opened LittleEndian
  import opened Bitwise

  // ------------------------------------------------------------------ RFC 7748

  /** The four coordinates of the ladder, as field elements. */
  datatype Rung = Rung(x2: int, z2: int, x3: int, z3: int) {
    function Swap(b: int): Rung {
      if b == 1 then Rung(x3, z3, x2, z2) else this
    }
  }

  /** The body of the ladder's loop as section 5 of RFC 7748 writes it. */
  function Step(u: int, r: Rung): Rung {
    var A := Add(r.x2, r.z2);
    var AA := Mul(A, A);
    var B := Sub(r.x2, r.z2);
    var BB := Mul(B, B);
    var E := Sub(AA, BB);
    var C := Add(r.x3, r.z3);
    var D := Sub(r.x3, r.z3);
    var DA := Mul(D, A);
    var CB := Mul(C, B);
    Rung(Mul(AA, BB), Mul(E, Add(AA, Mul(121665, E))),
         Mul(Add(DA, CB), Add(DA, CB)), Mul(u, Mul(Sub(DA, CB), Sub(DA, CB))))
  }

  function Bit(k: nat, t: nat): int { k / Pow2(t) % 2 }

  /** Bits t-1 .. 0 of the ladder, swapping only where adjacent scalar bits differ. */
  function Ladder(k: nat, u: int, t: nat, r: Rung, swap: int): Rung
    decreases t
  {
    if t == 0 then r.Swap(swap)
    else
      var kt := Bit(k, t - 1);
      Ladder(k, u, t - 1, Step(u, r.Swap(if swap == kt then 0 else 1)), kt)
  }

  /** X25519(k, u) of section 5 of RFC 7748 over decoded numbers. */
  function Rfc7748(k: nat, u: nat): int {
    var r := Ladder(k, u, 255, Rung(1, 0, u, 1), 0);
    Mul(r.x2, Power(r.z2, P - 2))
  }

  /** decodeScalar25519 of section 5 of RFC 7748. */
  function DecodeScalar(s: seq<uint8>): nat
    requires |s| == 32
  {
    Decode(Clamp(s))
  }

  function Clamp(s: seq<uint8>): (z: seq<uint8>)
    requires |s| == 32
    ensures |z| == 32
  {
    hide And, Or;
    ClampBytes(s[0]);
    ClampBytes(s[31]);
    s[31 := Or(And(s[31], 127), 64)][0 := And(s[0], 248)]
  }

  /** What the masks do to a byte: clear the low three bits; clear bit 7 and set bit 6. */
  lemma ClampBytes(x: uint8)
    ensures And(x, 248) == x - x % 8
    ensures Or(And(x, 127), 64) == 64 + x % 64
  {
    Pow2Known();
    ClearLow(x, 248, 5);
    MaskAndSet(x, 6);
  }

  /** The clamped scalar is a multiple of 8 with bit 254 set and bit 255 clear. */
  lemma ScalarShape(s: seq<uint8>)
    requires |s| == 32
    ensures DecodeScalar(s) % 8 == 0
    ensures Bit(DecodeScalar(s), 254) == 1 && Bit(DecodeScalar(s), 255) == 0
  {
    hide Pow2, And, Or, Decode;
    var z := Clamp(s);
    ClampBytes(s[0]);
    ClampBytes(s[31]);
    LowThreeBits(z);
    BitOfByte(z, 254);
    BitOfByte(z, 255);
    TopBits(s[31] % 64);
  }

  lemma LowThreeBits(z: seq<uint8>)
    requires z != [] && z[0] % 8 == 0
    ensures Decode(z) % 8 == 0
  {
    assert Decode(z) == z[0] + 0x100 * Decode(z[1..]);
  }

  lemma TopBits(r: int)
    requires 0 <= r < 64
    ensures (64 + r) / Pow2(6) % 2 == 1 && (64 + r) / Pow2(7) % 2 == 0
  {
    Pow2Known();
  }

  /** The scalar as a number: bits 3 to 253 are kept, bit 254 is set, all others are cleared. */
  lemma ScalarDecoded(s: seq<uint8>)
    requires |s| == 32
    ensures DecodeScalar(s) == Pow2(254) + 8 * (Decode(s) / 8 % Pow2(251))
  {
    hide Pow2, Clamp, Decode;
    ClampParts(s);
    Ends(s[0], s[1..31], s[31]);
    Ends(s[0] - s[0] % 8, s[1..31], 64 + s[31] % 64);
    KeptBits(s[0], Decode(s[1..31]), s[31]);
  }

  lemma ClampParts(s: seq<uint8>)
    requires |s| == 32
    ensures s == [s[0]] + s[1..31] + [s[31]]
    ensures Clamp(s) == [s[0] - s[0] % 8] + s[1..31] + [64 + s[31] % 64]
  {
    hide And, Or;
    ClampBytes(s[0]);
    ClampBytes(s[31]);
  }

  /** A string of 32 octets by its first, its last and the 30 between them. */
  lemma Ends(x: uint8, middle: seq<uint8>, y: uint8)
    requires |middle| == 30
    ensures Decode([x] + middle + [y]) == x + 0x100 * Decode(middle) + Pow2(248) * y
    ensures Decode(middle) < Pow2(240)
  {
    hide Pow2;
    var s := [x] + middle;
    DecodeAppend(s, y);
    assert s[1..] == middle && Decode(s) == x + 0x100 * Decode(middle);
    DecodeRange(middle);
  }

  lemma KeptBits(x: uint8, m: nat, y: uint8)
    requires m < Pow2(240)
    ensures x - x % 8 + 0x100 * m + Pow2(248) * (64 + y % 64)
         == Pow2(254) + 8 * ((x + 0x100 * m + Pow2(248) * y) / 8 % Pow2(251))
  {
    hide Pow2;
    Pow2Known();
    Pow2Add(8, 240);
    Pow2Add(3, 245);
    Pow2Add(6, 245);
    Pow2Add(6, 248);
    var w, low := Pow2(245), x / 8 + 0x20 * m;
    assert (x + 0x100 * m + Pow2(248) * y) / 8 == low + w * y by {
      assert x + 0x100 * m + 8 * w * y == 8 * (low + w * y) + x % 8 by { Eightfold(x, m, w, y); }
    }
    assert 0 <= low < w;
    SixBits(w, low, y);
    Eightfold(x - x % 8, m, w, y % 64);
  }

  lemma Eightfold(x: int, m: int, w: int, y: int)
    ensures x + 0x100 * m + 8 * w * y == 8 * (x / 8 + 0x20 * m + w * y) + x % 8
  {
    assert 8 * w * y == 8 * (w * y);
  }

  lemma SixBits(w: nat, low: nat, y: uint8)
    requires low < w
    ensures (low + w * y) % (64 * w) == low + w * (y % 64)
  {
    var q, r := y / 64, y % 64;
    assert w * y == (64 * w) * q + w * r by {
      assert y == 64 * q + r;
      assert w * (64 * q + r) == w * (64 * q) + w * r;
      assert w * (64 * q) == (64 * w) * q;
    }
    assert w * r <= w * 63 by { Monotone(w, r, 63); }
    RemainderIs(low + w * y, 64 * w, q, low + w * r);
  }

  // -------------------------------------------------------------- the loop in place

  /** The ladder of `x25519_scalarmult`: swap in and out again on every bit. */
  function SwapBack(k: nat, u: int, t: nat, r: Rung): Rung
    decreases t
  {
    if t == 0 then r
    else
      var kt := Bit(k, t - 1);
      SwapBack(k, u, t - 1, Step(u, r.Swap(kt)).Swap(kt))
  }

  /** Swapping out on every bit and delaying the swaps compute the same rungs. */
  lemma {:induction false} DelayedSwaps(k: nat, u: int, t: nat, r: Rung, swap: int)
    requires swap == 0 || swap == 1
    ensures Ladder(k, u, t, r, swap) == SwapBack(k, u, t, r.Swap(swap))
    decreases t
  {
    if t > 0 {
      var kt := Bit(k, t - 1);
      var now := r.Swap(if swap == kt then 0 else 1);
      assert now == r.Swap(swap).Swap(kt);
      DelayedSwaps(k, u, t - 1, Step(u, now), kt);
    }
  }

  lemma SquareOfNegation(x: int, y: int)
    ensures Mul(Sub(x, y), Sub(x, y)) == Mul(Sub(y, x), Sub(y, x))
  {
    MulMod(x - y, x - y);
    MulMod(y - x, y - x);
    assert (x - y) * (x - y) == (y - x) * (y - x);
  }

  ghost predicate Small(a: array<int64>)
    reads a
  {
    a.Length == 16 && Within(a[..], SMALL)
  }

  /** Six different work arrays. */
  ghost predicate Apart(a: array<int64>, b: array<int64>, c: array<int64>,
                        d: array<int64>, e: array<int64>, f: array<int64>) {
    b !in {a} && c !in {a, b} && d !in {a, b, c} && e !in {a, b, c, d} && f !in {a, b, c, d, e}
  }

  ghost function RungOf(a: array<int64>, b: array<int64>, c: array<int64>, d: array<int64>): Rung
    reads a, b, c, d
  {
    Rung(Element(a[..]), Element(c[..]), Element(b[..]), Element(d[..]))
  }

  lemma Commute(x: int, y: int)
    ensures Add(x, y) == Add(y, x) && Mul(x, y) == Mul(y, x)
  {
  }

  /** First half of the ladder step: d, f, c, a become AA, BB, DA, CB. */
  method LadderProducts(a: array<int64>, b: array<int64>, c: array<int64>, d: array<int64>,
                        e: array<int64>, f: array<int64>)
    requires Apart(a, b, c, d, e, f)
    requires Small(a) && Small(b) && Small(c) && Small(d) && e.Length == 16 && f.Length == 16
    modifies a, b, c, d, e, f
    ensures Small(a) && Small(c) && Small(d) && Small(f)
    ensures var A, B := Add(old(Element(a[..])), old(Element(c[..]))), Sub(old(Element(a[..])), old(Element(c[..])));
            var C, D := Add(old(Element(b[..])), old(Element(d[..]))), Sub(old(Element(b[..])), old(Element(d[..])));
            && Element(d[..]) == Mul(A, A) && Element(f[..]) == Mul(B, B)
            && Element(c[..]) == Mul(D, A) && Element(a[..]) == Mul(C, B)
  {
    hide Add, Sub, Mul, Element;
    FieldAdd(e, a, c, SMALL);
    FieldSub(a, a, c, SMALL);
    FieldAdd(c, b, d, SMALL);
    FieldSub(b, b, d, SMALL);
    FieldMul(d, e, e);
    FieldMul(f, a, a);
    FieldMul(a, c, a);
    FieldMul(c, b, e);
  }

  /** Second half: from AA, BB, DA, CB to the coordinates of the next rung. */
  method LadderSums(a: array<int64>, b: array<int64>, c: array<int64>, d: array<int64>,
                    e: array<int64>, f: array<int64>, x: array<int64>, k: array<int64>)
    requires Apart(a, b, c, d, e, f) && x !in {a, b, c, d, e, f} && k !in {a, b, c, d, e, f}
    requires Small(a) && Small(c) && Small(d) && Small(f) && Small(x) && Small(k)
    requires b.Length == 16 && e.Length == 16 && Element(k[..]) == 121665
    modifies a, b, c, d, e
    ensures Small(a) && Small(b) && Small(c) && Small(d)
    ensures var AA, BB := old(Element(d[..])), old(Element(f[..]));
            var DA, CB, E := old(Element(c[..])), old(Element(a[..])), Sub(AA, BB);
            && Element(a[..]) == Mul(AA, BB)
            && Element(c[..]) == Mul(E, Add(AA, Mul(121665, E)))
            && Element(b[..]) == Mul(Add(DA, CB), Add(DA, CB))
            && Element(d[..]) == Mul(Element(x[..]), Mul(Sub(DA, CB), Sub(DA, CB)))
  {
    hide Add, Sub, Mul, Element;
    ghost var AA, BB := Element(d[..]), Element(f[..]);
    ghost var DA, CB, E := Element(c[..]), Element(a[..]), Sub(AA, BB);
    FieldAdd(e, a, c, SMALL);
    Commute(DA, CB);
    FieldSub(a, a, c, SMALL);
    SquareOfNegation(DA, CB);
    FieldMul(b, a, a);
    FieldSub(c, d, f, SMALL);
    FieldMul(a, c, k);
    Commute(E, 121665);
    FieldAdd(a, a, d, SMALL);
    Commute(AA, Mul(121665, E));
    FieldMul(c, c, a);
    FieldMul(a, d, f);
    FieldMul(d, b, x);
    Commute(Element(b[..]), Element(x[..]));
    FieldMul(b, e, e);
  }

  /** The arithmetic of one ladder step, reusing the six arrays as the source does. */
  method LadderStep(a: array<int64>, b: array<int64>, c: array<int64>, d: array<int64>,
                    e: array<int64>, f: array<int64>, x: array<int64>, k: array<int64>)
    requires Apart(a, b, c, d, e, f) && x !in {a, b, c, d, e, f} && k !in {a, b, c, d, e, f}
    requires Small(a) && Small(b) && Small(c) && Small(d) && Small(x) && Small(k)
    requires e.Length == 16 && f.Length == 16 && Element(k[..]) == 121665
    modifies a, b, c, d, e, f
    ensures Small(a) && Small(b) && Small(c) && Small(d)
    ensures RungOf(a, b, c, d) == Step(Element(x[..]), old(RungOf(a, b, c, d)))
  {
    hide Add, Sub, Mul, Element;
    LadderProducts(a, b, c, d, e, f);
    LadderSums(a, b, c, d, e, f, x, k);
  }

  /** Scalar bit i as the loop reads it: byte i >> 3, shifted by i & 7, low bit. */
  lemma ScalarBit(z: seq<uint8>, i: nat)
    requires i < 8 * |z|
    ensures And(z[i / 8] / Pow2(i % 8), 1) == Bit(Decode(z), i)
  {
    BitOfByte(z, i);
    AndMask(z[i / 8] / Pow2(i % 8), 1);
    Pow2Known();
  }

  /** A small constant: x in the lowest limb, y in the next. */
  method SetDigits(o: array<int64>, x: int64, y: int64)
    requires o.Length == 16 && 0 <= x < RADIX && 0 <= y < RADIX
    modifies o
    ensures Small(o) && Element(o[..]) == x + RADIX * y
  {
    for i := 0 to 16
      invariant forall k :: 0 <= k < i ==> o[k] == (if k == 0 then x else if k == 1 then y else 0)
    {
      o[i] := if i == 0 then x else if i == 1 then y else 0;
    }
    ghost var s: seq<int> := o[..];
    TwoDigits(s, |s|);
  }

  lemma {:induction false} TwoDigits(s: seq<int>, n: nat)
    requires 2 <= n <= |s| && forall k :: 2 <= k < n ==> s[k] == 0
    ensures ValueOf(s, n) == s[0] + RADIX * s[1]
  {
    if n > 2 {
      TwoDigits(s, n - 1);
    } else {
      assert Weight(0) == 1 && Weight(1) == RADIX * Weight(0);
      assert ValueOf(s, 0) == 0;
      assert ValueOf(s, 1) == ValueOf(s, 0) + Weight(0) * s[0];
      assert ValueOf(s, 2) == ValueOf(s, 1) + Weight(1) * s[1];
    }
  }

  /** The main loop of `x25519_scalarmult`: bits 254 .. 0, swap in, step, swap out. */
  method RunLadder(z: array<uint8>, x: array<int64>, a: array<int64>, b: array<int64>,
                   c: array<int64>, d: array<int64>, e: array<int64>, f: array<int64>)
    requires Apart(a, b, c, d, e, f) && x !in {a, b, c, d, e, f}
    requires z.Length == 32 && Small(x)
    requires Small(a) && Small(b) && Small(c) && Small(d) && e.Length == 16 && f.Length == 16
    modifies a, b, c, d, e, f
    ensures Small(a) && Small(c)
    ensures RungOf(a, b, c, d)
         == SwapBack(Decode(z[..]), Element(x[..]), 255, old(RungOf(a, b, c, d)))
  {
    hide Add, Sub, Mul, Step, Element, Pow2, And, Decode, Limbs.ValueOf, Within;
    var g := new int64[16];
    SetDigits(g, 0xDB41, 1);
    ghost var n, u, start := Decode(z[..]), Element(x[..]), RungOf(a, b, c, d);
    for i := 255 downto 0
      invariant Small(a) && Small(b) && Small(c) && Small(d)
      invariant Small(g) && Element(g[..]) == 121665
      invariant SwapBack(n, u, 255, start) == SwapBack(n, u, i, RungOf(a, b, c, d))
    {
      ScalarBit(z[..], i);
      var r := And(z[i / 8] / Pow2(i % 8), 1);
      Select(a, b, r);
      Select(c, d, r);
      LadderStep(a, b, c, d, e, f, x, g);
      Select(a, b, r);
      Select(c, d, r);
    }
  }

  method ClampScalar(z: array<uint8>, scalar: array<uint8>)
    requires z.Length == 32 && scalar.Length == 32 && z != scalar
    modifies z
    ensures z[..] == Clamp(scalar[..])
  {
    hide And, Or;
    for i := 0 to 31
      invariant forall k :: 0 <= k < i ==> z[k] == scalar[k]
    {
      z[i] := scalar[i];
    }
    ClampBytes(scalar[31]);
    ClampBytes(z[0]);
    z[31] := Or(And(scalar[31], 127), 64);
    z[0] := And(z[0], 248);
  }

  /** The rung the loop starts from: (1 : 0) and (u : 1). */
  method FirstRung(x: array<int64>, a: array<int64>, b: array<int64>, c: array<int64>, d: array<int64>)
    requires b !in {a} && c !in {a, b} && d !in {a, b, c} && x !in {a, b, c, d}
    requires a.Length == 16 && b.Length == 16 && c.Length == 16 && d.Length == 16 && Small(x)
    modifies a, b, c, d
    ensures Small(a) && Small(b) && Small(c) && Small(d)
    ensures RungOf(a, b, c, d) == Rung(1, 0, Element(x[..]), 1)
  {
    hide Element;
    Copy(b, x);
    SetDigits(a, 1, 0);
    SetDigits(c, 0, 0);
    SetDigits(d, 1, 0);
  }

  /** The affine coordinate x/z of a rung, encoded. */
  method Affine(out: array<uint8>, a: array<int64>, c: array<int64>)
    requires out.Length == 32 && a != c && Small(a) && Small(c)
    modifies out, a, c
    ensures out[..] == Encode(Mul(old(Element(a[..])), Power(old(Element(c[..])), P - 2)), 32)
  {
    hide Mul, Power, Element, Encode;
    Invert(c, c);
    FieldMul(a, a, c);
    Pack(out, a);
  }

  /** `x25519_scalarmult`: the encoding of X25519(scalar, point) as RFC 7748 defines it. */
  method ScalarMult(out: array<uint8>, scalar: array<uint8>, point: array<uint8>)
    requires out.Length == 32 && scalar.Length == 32 && point.Length == 32
    modifies out
    ensures out[..] == Encode(Rfc7748(DecodeScalar(old(scalar[..])), DecodePoint(old(point[..])) % P), 32)
  {
    hide Element, Pow2, Decode, Clamp, Encode, DecodePoint, Within, Rfc7748;
    var z := new uint8[32];
    ClampScalar(z, scalar);
    var x := new int64[16];
    Unpack(x, point);
    LadderFrom(out, z, x);
  }

  /** Everything behind clamping and unpacking. */
  method LadderFrom(out: array<uint8>, z: array<uint8>, x: array<int64>)
    requires out.Length == 32 && z.Length == 32 && z != out && Small(x)
    modifies out
    ensures out[..] == Encode(Rfc7748(Decode(z[..]), Element(x[..])), 32)
  {
    hide Add, Sub, Mul, Power, Ladder, SwapBack, Step, Element, Pow2, Decode, Encode, Within;
    ghost var k, u := Decode(z[..]), Element(x[..]);
    var a, b, c, d := new int64[16], new int64[16], new int64[16], new int64[16];
    var e, f := new int64[16], new int64[16];
    FirstRung(x, a, b, c, d);
    RunLadder(z, x, a, b, c, d, e, f);
    DelayedSwaps(k, u, 255, Rung(1, 0, u, 1), 0);
    Affine(out, a, c);
  }
}
