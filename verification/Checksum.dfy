/** The Internet checksum of RFC 1071, over IPv4 headers and over TCP with its pseudo-header. */
module Checksum {
  import opened Bitwise
  import opened Bytes

  /** The sum of big-endian words; an odd last byte is the high half of a word. */
  function Total(d: seq<uint8>): nat {
    if d == [] then 0
    else if |d| == 1 then 0x100 * d[0] as int
    else 0x100 * d[0] as int + d[1] + Total(d[2..])
  }

  /** The sum of whole words is the string as one number, modulo 65535. */
  lemma {:induction false} TotalIsNumber(d: seq<uint8>)
    requires |d| % 2 == 0
    ensures Total(d) % 0xffff == Number(d) % 0xffff
    decreases |d|
  {
    hide Number, Pow2, Total;
    if d == [] {
      NothingToAdd();
      NumberOfZeros([]);
    } else {
      var rest := d[2..];
      TotalIsNumber(rest);
      assert d == [d[0], d[1]] + rest;
      FirstWord(d[0], d[1], rest);
      NumberAppend([d[0], d[1]], rest);
      NumberOfTwo([d[0], d[1]]);
      RadixIsOne(|rest| / 2);
      assert 16 * (|rest| / 2) == 8 * |rest|;
      OneIsNeutral(Number([d[0], d[1]]), Pow2(8 * |rest|), Number(rest), Total(rest));
    }
  }

  /** An odd last octet counts as if a zero came behind it. */
  lemma {:induction false} TotalPads(d: seq<uint8>)
    requires |d| % 2 == 1
    ensures Total(d) == Total(d + [0])
    decreases |d|
  {
    if |d| == 1 {
      assert (d + [0])[2..] == [];
    } else {
      TotalPads(d[2..]);
      assert (d + [0])[2..] == d[2..] + [0];
    }
  }

  lemma {:induction false} RadixIsOne(k: nat)
    ensures Pow2(16 * k) % 0xffff == 1
  {
    Pow2Known();
    if k > 0 {
      RadixIsOne(k - 1);
      Pow2Add(16, 16 * (k - 1));
      SameResidue(Pow2(16 * k), Pow2(16 * (k - 1)), Pow2(16 * (k - 1)));
    }
  }

  lemma OneIsNeutral(a: nat, p: nat, n: nat, t: nat)
    requires p % 0xffff == 1 && n % 0xffff == t % 0xffff
    ensures (a * p + n) % 0xffff == (a + t) % 0xffff
  {
    var q, i, j := p / 0xffff, n / 0xffff, t / 0xffff;
    assert p == 0xffff * q + 1 && n == 0xffff * i + n % 0xffff && t == 0xffff * j + n % 0xffff;
    assert a * p == 0xffff * (a * q) + a by {
      assert a * (0xffff * q + 1) == a * (0xffff * q) + a;
      assert a * (0xffff * q) == 0xffff * (a * q);
    }
    SameResidue(a * p + n, a + t, a * q + i - j);
  }

  /** One's-complement value: the residue modulo 65535, with zero only for zero. */
  function OnesValue(n: nat): (r: uint16)
    ensures n == 0 <==> r == 0
    ensures n % 0xffff == r % 0xffff
  {
    if n == 0 then 0 else (n - 1) % 0xffff + 1
  }

  lemma {:induction false} TotalBound(d: seq<uint8>)
    ensures Total(d) <= 0xffff * ((|d| + 1) / 2)
  {
    if |d| > 1 {
      TotalBound(d[2..]);
    }
  }

  /** The fold loop terminates with the residue. */
  method Fold(start: uint32) returns (sum: uint16)
    ensures sum == OnesValue(start)
  {
    var s: uint32 := start;
    while s / 0x1_0000 != 0
      invariant OnesValue(s) == OnesValue(start)
      decreases s
    {
      FoldStep(s);
      s := s % 0x1_0000 + s / 0x1_0000;
    }
    sum := s;
  }

  lemma FoldStep(s: nat)
    ensures OnesValue(s % 0x1_0000 + s / 0x1_0000) == OnesValue(s)
  {
    var lo, hi := s % 0x1_0000, s / 0x1_0000;
    if s > 0 {
      assert s - 1 == 0xffff * hi + (lo + hi - 1);
      SameResidue(s - 1, lo + hi - 1, hi);
    }
  }

  lemma SameResidue(a: int, b: int, k: int)
    requires a == 0xffff * k + b
    ensures a % 0xffff == b % 0xffff
  {
  }

  /** Adds the words of a segment to a sum in 32 bits, which no 16-bit length can overflow. */
  method AddWords(data: seq<uint8>, start: uint32) returns (sum: uint32)
    requires |data| < 0x1_0000 && start <= 0x10_0000
    ensures sum == start + Total(data)
  {
    TotalBound(data);
    sum := start;
    var i: uint16 := 0;
    while i + 1 < |data|
      invariant i <= |data| && i % 2 == 0 && sum + Total(data[i..]) == start + Total(data)
    {
      assert data[i..][2..] == data[i + 2..];
      sum := sum + 0x100 * data[i] as int + data[i + 1];
      i := i + 2;
    }
    if |data| % 2 == 1 {
      assert data[i..] == [data[|data| - 1]];
      sum := sum + 0x100 * data[|data| - 1] as int;
    }
  }

  // --------------------------------------------------------------------- checksums

  /** The checksum of a segment whose pseudo-header sums to start. */
  function ChecksumOf(start: nat, d: seq<uint8>): uint16 {
    0xffff - OnesValue(start + Total(d))
  }

  /** Addresses, the protocol number 6 and the length, as words. */
  function PseudoHeader(src: uint32, dst: uint32, len: uint16): nat {
    src / 0x1_0000 + src % 0x1_0000 + dst / 0x1_0000 + dst % 0x1_0000 + 6 + len
  }

  /** It sums the twelve octets of section 3.1 of RFC 9293: both addresses, a zero, the protocol, the length. */
  lemma PseudoHeaderOctets(src: uint32, dst: uint32, len: uint16)
    ensures PseudoHeader(src, dst, len) == Total(BigEndian(src, 4) + BigEndian(dst, 4) + [0, 6] + BigEndian(len, 2))
  {
    hide BigEndian, Total;
    var tail := [0, 6, len / 0x100, len % 0x100];
    FourOctets(src);
    FourOctets(dst);
    TwoBytes(len);
    FirstWord(len / 0x100, len % 0x100, []);
    FirstWord(0, 6, [len / 0x100, len % 0x100]);
    FourSum(dst, tail);
    FourSum(src, FourOf(dst) + tail);
    assert [len / 0x100, len % 0x100] + [] == [len / 0x100, len % 0x100];
    assert [0, 6] + [len / 0x100, len % 0x100] == tail;
    assert BigEndian(src, 4) + BigEndian(dst, 4) + [0, 6] + BigEndian(len, 2) == FourOf(src) + (FourOf(dst) + tail);
    NothingToAdd();
  }

  lemma NothingToAdd()
    ensures Total([]) == 0
  {
  }

  lemma FirstWord(a: uint8, b: uint8, rest: seq<uint8>)
    ensures Total([a, b] + rest) == 0x100 * a as int + b as int + Total(rest)
  {
    assert ([a, b] + rest)[2..] == rest;
  }

  lemma FourSum(v: uint32, rest: seq<uint8>)
    ensures Total(FourOf(v) + rest) == v / 0x1_0000 + v % 0x1_0000 + Total(rest)
  {
    var f := FourOf(v);
    FirstWord(f[0], f[1], [f[2], f[3]] + rest);
    FirstWord(f[2], f[3], rest);
    assert f + rest == [f[0], f[1]] + ([f[2], f[3]] + rest);
    FourDigits(v);
  }

  lemma FourDigits(v: uint32)
    ensures 0x100 * (v / 0x100_0000) + v / 0x1_0000 % 0x100 == v / 0x1_0000
    ensures 0x100 * (v / 0x100 % 0x100) + v % 0x100 == v % 0x1_0000
  {
  }

  function FourOf(v: uint32): (b: seq<uint8>)
    ensures |b| == 4
  {
    [v / 0x100_0000, v / 0x1_0000 % 0x100, v / 0x100 % 0x100, v % 0x100]
  }

  lemma FourOctets(v: uint32)
    ensures BigEndian(v, 4) == FourOf(v)
  {
    TwoBytes(v / 0x1_0000);
    assert BigEndian(v, 4) == BigEndian(v / 0x100, 3) + [v % 0x100];
    assert BigEndian(v / 0x100, 3) == BigEndian(v / 0x100 / 0x100, 2) + [v / 0x100 % 0x100];
    assert v / 0x100 / 0x100 == v / 0x1_0000;
  }

  /** `checksum`, for the IPv4 header. */
  method Compute(data: seq<uint8>) returns (c: uint16)
    requires |data| < 0x1_0000
    ensures c == ChecksumOf(0, data)
  {
    var sum := AddWords(data, 0);
    var folded := Fold(sum);
    c := 0xffff - folded;
  }

  /** `tcpChecksum`. */
  method TcpChecksum(src: uint32, dst: uint32, tcp: seq<uint8>) returns (c: uint16)
    requires |tcp| < 0x1_0000
    ensures c == ChecksumOf(PseudoHeader(src, dst, |tcp|), tcp)
  {
    var sum := AddWords(tcp, PseudoHeader(src, dst, |tcp|));
    var folded := Fold(sum);
    c := 0xffff - folded;
  }

  /** The segment with a word in the field at k. */
  function Put16(d: seq<uint8>, k: nat, v: uint16): seq<uint8>
    requires k + 2 <= |d|
  {
    d[k := v / 0x100][k + 1 := v % 0x100]
  }

  lemma {:induction false} TotalWithField(d: seq<uint8>, k: nat, v: uint16)
    requires k % 2 == 0 && k + 2 <= |d| && d[k] == 0 && d[k + 1] == 0
    ensures Total(Put16(d, k, v)) == Total(d) + v
  {
    var p := Put16(d, k, v);
    if k == 0 {
      assert p[2..] == d[2..];
    } else {
      assert p[2..] == Put16(d[2..], k - 2, v);
      TotalWithField(d[2..], k - 2, v);
    }
  }

  /** A receiver finds zero exactly when the field holds the computed checksum, up to the two forms of
      zero in one's complement. */
  lemma AcceptedExactly(start: nat, d: seq<uint8>, k: nat, v: uint16)
    requires k % 2 == 0 && k + 2 <= |d| && d[k] == 0 && d[k + 1] == 0
    ensures ChecksumOf(start, Put16(d, k, v)) == 0 <==>
      v % 0xffff == ChecksumOf(start, d) % 0xffff && start + Total(d) + v > 0
  {
    hide Total, OnesValue, Put16;
    TotalWithField(d, k, v);
    ComplementExactly(start + Total(d), v);
    ZeroChecksum(start, Put16(d, k, v));
    assert start + Total(Put16(d, k, v)) == start + Total(d) + v;
  }

  lemma ZeroChecksum(start: nat, d: seq<uint8>)
    ensures ChecksumOf(start, d) == 0 <==> OnesValue(start + Total(d)) == 0xffff
  {
    hide Total, OnesValue;
  }

  lemma ComplementExactly(n: nat, v: uint16)
    ensures OnesValue(n + v) == 0xffff <==> v % 0xffff == (0xffff - OnesValue(n)) % 0xffff && n + v > 0
  {
    var r := OnesValue(n);
    AddResidues(n, r, v);
    if (n + v) % 0xffff == 0 && n + v > 0 {
      assert (n + v - 1) % 0xffff == 0xfffe by { Before(n + v); }
    }
  }

  lemma AddResidues(n: nat, r: uint16, v: uint16)
    requires n % 0xffff == r % 0xffff
    ensures (n + v) % 0xffff == 0 <==> v % 0xffff == (0xffff - r) % 0xffff
  {
    assert n + v == 0xffff * (n / 0xffff) + (n % 0xffff + v);
    SameResidue(n + v, n % 0xffff + v, n / 0xffff);
  }

  lemma Before(n: nat)
    requires n > 0 && n % 0xffff == 0
    ensures (n - 1) % 0xffff == 0xfffe
  {
  }

  /** Storing the checksum makes the receiver's recomputation zero, for odd and even lengths alike. */
  lemma StoredMakesZero(start: nat, d: seq<uint8>, k: nat)
    requires k % 2 == 0 && k + 2 <= |d| && d[k] == 0 && d[k + 1] == 0
    ensures ChecksumOf(start, Put16(d, k, ChecksumOf(start, d))) == 0
  {
    AcceptedExactly(start, d, k, ChecksumOf(start, d));
  }
}
