/** Two's-complement bit operations on integers: an integer is its infinite sequence of bits,
    least significant first, ending in all zeros (0) or all ones (-1). */
module Bitwise {

  /** An unsigned byte. */
  type uint8 = x: int | 0 <= x < 0x100
  type uint16 = x: int | 0 <= x < 0x1_0000
  type uint32 = x: int | 0 <= x < 0x1_0000_0000

  ghost predicate Signs(x: int, y: int) {
    (x == 0 || x == -1) && (y == 0 || y == -1)
  }

  function Magnitude(x: int): nat { if x < 0 then -x else x }

  function Xor(x: int, y: int): int
    decreases Magnitude(x) + Magnitude(y)
  {
    if (x == 0 || x == -1) && (y == 0 || y == -1) then (if x == y then 0 else -1)
    else (x + y) % 2 + 2 * Xor(x / 2, y / 2)
  }

  function And(x: int, y: int): int
    decreases Magnitude(x) + Magnitude(y)
  {
    if (x == 0 || x == -1) && (y == 0 || y == -1) then (if x == y then x else 0)
    else (x % 2) * (y % 2) + 2 * And(x / 2, y / 2)
  }

  function Not(x: int): int { -1 - x }

  function Or(x: int, y: int): int { Not(And(Not(x), Not(y))) }

  /** The definition's last case also holds where the first applies. */
  lemma XorUnfold(x: int, y: int)
    ensures Xor(x, y) == (x + y) % 2 + 2 * Xor(x / 2, y / 2)
  {
  }

  lemma Parity(x: int, y: int, z: int)
    requires z % 2 == (x + y) % 2
    ensures (x + z) % 2 == y % 2
  {
  }

  lemma XorHalves(x: int, y: int)
    ensures Xor(x, y) / 2 == Xor(x / 2, y / 2) && Xor(x, y) % 2 == (x + y) % 2
  {
    XorUnfold(x, y);
  }

  lemma AndUnfold(x: int, y: int)
    ensures And(x, y) == (x % 2) * (y % 2) + 2 * And(x / 2, y / 2)
  {
    if Signs(x, y) {
      assert x / 2 == x && y / 2 == y;
    }
  }

  lemma AndEven(x: int, m: int)
    ensures And(x, 2 * m) == 2 * And(x / 2, m)
  {
    AndUnfold(x, 2 * m);
    assert 2 * m % 2 == 0 && 2 * m / 2 == m;
    assert x % 2 * 0 == 0;
  }

  lemma AndEight(x: int, m: int)
    ensures And(x, 8 * m) == 8 * And(x / 8, m)
  {
    hide And;
    AndEven(x, 4 * m);
    AndEven(x / 2, 2 * m);
    AndEven(x / 4, m);
    assert 8 * m == 2 * (4 * m) && 4 * m == 2 * (2 * m);
    assert x / 2 / 2 == x / 4 && x / 4 / 2 == x / 8;
  }

  lemma {:induction false} XorBack(x: int, y: int)
    ensures Xor(x, Xor(x, y)) == y
    decreases Magnitude(x) + Magnitude(y)
  {
    if !Signs(x, y) {
      XorBack(x / 2, y / 2);
      XorHalves(x, y);
      XorUnfold(x, Xor(x, y));
      Parity(x, y, Xor(x, y));
    }
  }

  lemma {:induction false} XorSymmetric(x: int, y: int)
    ensures Xor(x, y) == Xor(y, x)
    decreases Magnitude(x) + Magnitude(y)
  {
    if !Signs(x, y) {
      XorSymmetric(x / 2, y / 2);
    }
  }

  lemma {:induction false} XorZero(x: int)
    ensures Xor(x, 0) == x
    decreases Magnitude(x)
  {
    if !Signs(x, 0) {
      XorZero(x / 2);
    }
  }

  lemma {:induction false} AndOnes(x: int)
    ensures And(-1, x) == x
    ensures And(0, x) == 0
    decreases Magnitude(x)
  {
    if !Signs(-1, x) {
      AndOnes(x / 2);
    }
  }

  // ---------------------------------------------------------------- powers of two

  function Pow2(n: nat): (p: nat)
    ensures p > 0
  {
    if n == 0 then 1 else 2 * Pow2(n - 1)
  }

  lemma DoubleProduct(a: int, b: int)
    ensures 2 * a * b == 2 * (a * b)
  {
  }

  lemma {:induction false} Pow2Add(m: nat, n: nat)
    ensures Pow2(m + n) == Pow2(m) * Pow2(n)
  {
    if m > 0 {
      Pow2Add(m - 1, n);
      DoubleProduct(Pow2(m - 1), Pow2(n));
    }
  }

  lemma Pow2Known()
    ensures Pow2(0) == 1 && Pow2(1) == 2 && Pow2(5) == 0x20 && Pow2(8) == 0x100
    ensures Pow2(3) == 8 && Pow2(6) == 0x40 && Pow2(7) == 0x80 && Pow2(15) == 0x8000 && Pow2(16) == 0x1_0000
  {
    assert Pow2(5) == 0x20;
    Pow2Add(5, 3);
    Pow2Add(8, 8);
  }

  /** Masking with n ones keeps the remainder by 2^n, also for negative numbers. */
  lemma {:induction false} AndMask(x: int, n: nat)
    ensures And(x, Pow2(n) - 1) == x % Pow2(n)
    decreases n
  {
    hide And;
    if n == 0 {
      AndOnes(x);
      AndSymmetric(x, 0);
    } else {
      var p := Pow2(n - 1);
      AndUnfold(x, 2 * p - 1);
      AndMask(x / 2, n - 1);
      HalfRemainder(x, p);
      assert (2 * p - 1) / 2 == p - 1 && (2 * p - 1) % 2 == 1;
    }
  }

  lemma HalfRemainder(x: int, p: nat)
    requires p > 0
    ensures x % (2 * p) == x % 2 + 2 * (x / 2 % p)
  {
    var h, q := x / 2 % p, x / 2 / p;
    assert x / 2 == p * q + h;
    assert x == (2 * p) * q + (x % 2 + 2 * h) by {
      assert 2 * (p * q) == (2 * p) * q;
    }
    RemainderIs(x, 2 * p, q, x % 2 + 2 * h);
  }

  lemma RemainderIs(x: int, d: nat, q: int, r: int)
    requires 0 <= r < d && x == d * q + r
    ensures x % d == r && x / d == q
  {
    var p, s := x / d, x % d;
    assert x == d * p + s;
    assert d * (q - p) == s - r;
    if q > p {
      assert d * (q - p) >= d by { AtLeast(d, q - p); }
    } else if q < p {
      assert d * (p - q) >= d by { AtLeast(d, p - q); }
    }
  }

  lemma AtLeast(d: nat, k: int)
    requires k >= 1
    ensures d * k >= d
  {
  }

  lemma {:induction false} AndSymmetric(x: int, y: int)
    ensures And(x, y) == And(y, x)
    decreases Magnitude(x) + Magnitude(y)
  {
    if !Signs(x, y) {
      AndSymmetric(x / 2, y / 2);
    }
  }

  lemma OrUnfold(x: int, y: int)
    ensures Or(x, y) == 1 - (1 - x % 2) * (1 - y % 2) + 2 * Or(x / 2, y / 2)
  {
    NotHalf(x);
    NotHalf(y);
    AndUnfold(Not(x), Not(y));
  }

  lemma NotHalf(x: int)
    ensures Not(x) / 2 == Not(x / 2) && Not(x) % 2 == 1 - x % 2
  {
  }

  /** Masking with ones above bit 3 clears the low three bits of a number below 2^n. */
  lemma ClearLow(x: int, m: int, n: nat)
    requires 0 <= x < 8 * Pow2(n) && m == 8 * (Pow2(n) - 1)
    ensures And(x, m) == x - x % 8
  {
    AndEight(x, Pow2(n) - 1);
    AndMask(x / 8, n);
    RemainderIs(x / 8, Pow2(n), 0, x / 8);
  }

  lemma {:induction false} XorRange(x: int, y: int, n: nat)
    requires 0 <= x < Pow2(n) && 0 <= y < Pow2(n)
    ensures 0 <= Xor(x, y) < Pow2(n)
    decreases n
  {
    if n > 0 {
      XorUnfold(x, y);
      XorRange(x / 2, y / 2, n - 1);
    }
  }

  /** Exclusive or of two bytes. */
  function XorByte(x: uint8, y: uint8): uint8 {
    Pow2Known();
    XorRange(x, y, 8);
    Xor(x, y)
  }

  lemma XorByteTwice(x: uint8, y: uint8)
    ensures XorByte(XorByte(x, y), y) == x
    ensures XorByte(x, y) == XorByte(y, x)
  {
    XorSymmetric(x, y);
    XorSymmetric(Xor(x, y), y);
    XorBack(y, x);
  }

  /** Or with a single bit above the rest sets that bit. */
  lemma {:induction false} OrSets(x: int, n: nat)
    requires 0 <= x < 2 * Pow2(n)
    ensures Or(x, Pow2(n)) == Pow2(n) + x % Pow2(n)
    decreases n
  {
    OrUnfold(x, Pow2(n));
    if n > 0 {
      OrSets(x / 2, n - 1);
      HalfRemainder(x, Pow2(n - 1));
      assert Pow2(n) % 2 == 0 && Pow2(n) / 2 == Pow2(n - 1);
    }
  }

  lemma ModOfMod(x: int, p: nat)
    requires p > 0
    ensures x % (2 * p) % p == x % p
  {
    var q, r := x / (2 * p), x % (2 * p);
    var s, t := r / p, r % p;
    assert x == (2 * p) * q + r && r == p * s + t;
    assert (2 * p) * q == p * (2 * q);
    assert p * (2 * q) + p * s == p * (2 * q + s);
    RemainderIs(x, p, 2 * q + s, t);
  }

  /** Clearing all bits above n and setting bit n. */
  lemma MaskAndSet(x: int, n: nat)
    ensures Or(And(x, 2 * Pow2(n) - 1), Pow2(n)) == Pow2(n) + x % Pow2(n)
  {
    AndMask(x, n + 1);
    OrSets(x % (2 * Pow2(n)), n);
    ModOfMod(x, Pow2(n));
  }

  lemma {:induction false} AndAllOnes(x: int, y: int)
    ensures And(x, y) == -1 <==> x == -1 && y == -1
    decreases Magnitude(x) + Magnitude(y)
  {
    if !Signs(x, y) {
      AndAllOnes(x / 2, y / 2);
      BitProduct(x, y);
    }
  }

  lemma BitProduct(x: int, y: int)
    ensures x % 2 * (y % 2) == if x % 2 == 1 && y % 2 == 1 then 1 else 0
  {
  }

  /** Or-ing differences together stays zero exactly while they are all zero. */
  lemma OrIsZero(x: int, y: int)
    ensures Or(x, y) == 0 <==> x == 0 && y == 0
  {
    AndAllOnes(Not(x), Not(y));
  }

  lemma XorIsZero(x: int, y: int)
    ensures Xor(x, y) == 0 <==> x == y
  {
    XorBack(x, y);
    XorZero(x);
    XorBack(x, 0);
  }
}
