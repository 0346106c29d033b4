/** AES-128-GCM with a 12-byte IV: sealing and opening over shared counter and tag loops, and GHASH. */
module Gcm {
  import opened Bitwise
  import opened Bytes
  import opened Ghash
  import Ctr

  type Iv = b: seq<uint8> | |b| == 12 witness seq(12, _ => 0)

  // --------------------------------------------------------------- specification

  /** GHASH of data padded with zeros to whole blocks, from the running block s. */
  function Absorb(s: Block, h: Block, data: seq<uint8>): Block
    decreases |data|
  {
    if data == [] then s
    else
      var n := if |data| < 16 then |data| else 16;
      Absorb(BlockProduct(XorBytes(s, data[..n] + Zeros(16 - n)), h), h, data[n..])
  }

  function LengthBlock(aadLen: nat, dataLen: nat): Block {
    BigEndian(8 * aadLen, 8) + BigEndian(8 * dataLen, 8)
  }

  /** The pre-counter block for a 12-byte IV. */
  function J0(iv: Iv): Block {
    iv + [0, 0, 0, 1]
  }

  /** The n-th increment of the low 32 bits of a counter block. */
  function Inc32(j: Block, n: nat): Block {
    j[..12] + BigEndian((Number(j[12..]) + n) % Pow2(32), 4)
  }

  function GctrByte(aes: Cipher, j: Block, k: nat): uint8 {
    aes(Inc32(j, 1 + k / 16))[k % 16]
  }

  /** Counter-mode encryption starting at inc32(J0). */
  function Gctr(aes: Cipher, j: Block, data: seq<uint8>): (r: seq<uint8>)
    ensures |r| == |data|
  {
    seq<uint8>(|data|, k requires 0 <= k < |data| => XorByte(data[k], GctrByte(aes, j, k)))
  }

  function Tag(aes: Cipher, iv: Iv, aad: seq<uint8>, cipherText: seq<uint8>): Block {
    var h := aes(Zeros(16));
    var s := Absorb(Absorb(Zeros(16), h, aad), h, cipherText);
    XorBytes(aes(J0(iv)), BlockProduct(XorBytes(s, LengthBlock(|aad|, |cipherText|)), h))
  }

  datatype Sealed = Sealed(cipherText: seq<uint8>, tag: Block)
  datatype Opened = Refused | Plain(text: seq<uint8>)

  /** Authenticated encryption (section 7.1 of NIST SP 800-38D). */
  function Seal(aes: Cipher, iv: Iv, aad: seq<uint8>, plain: seq<uint8>): Sealed {
    var c := Gctr(aes, J0(iv), plain);
    Sealed(c, Tag(aes, iv, aad, c))
  }

  /** Authenticated decryption (section 7.2 of NIST SP 800-38D). */
  function Open(aes: Cipher, iv: Iv, aad: seq<uint8>, cipherText: seq<uint8>, tag: seq<uint8>): Opened {
    if tag == Tag(aes, iv, aad, cipherText) then Plain(Gctr(aes, J0(iv), cipherText)) else Refused
  }

  /** The two halves of the last block of GHASH: the numbers of bits of both inputs. */
  lemma LengthHalves(aadLen: nat, dataLen: nat)
    requires 8 * aadLen < Pow2(64) && 8 * dataLen < Pow2(64)
    ensures var l := LengthBlock(aadLen, dataLen);
            Number(l[..8]) == 8 * aadLen && Number(l[8..]) == 8 * dataLen
  {
    hide Pow2, BigEndian, Number;
    NumberOfBigEndian(8 * aadLen, 8);
    NumberOfBigEndian(8 * dataLen, 8);
  }

  /** A string in blocks, the last one filled up with zeros. */
  function InBlocks(d: seq<uint8>): (bs: seq<Block>)
    ensures |bs| == (|d| + 15) / 16
  {
    seq((|d| + 15) / 16, i requires 0 <= i => seq<uint8>(16, j requires 0 <= j => if 16 * i + j < |d| then d[16 * i + j] else 0))
  }

  /** GHASH (section 6.4 of NIST SP 800-38D): Y(i) = (Y(i-1) xor X(i)) h. */
  function GhashOf(h: Block, xs: seq<Block>): Block {
    if xs == [] then Zeros(16)
    else BlockProduct(XorBytes(GhashOf(h, xs[..|xs| - 1]), xs[|xs| - 1]), h)
  }

  /** Additional data, ciphertext and the two lengths (step 5 of section 7.1). */
  function GhashInput(aad: seq<uint8>, cipherText: seq<uint8>): seq<Block> {
    InBlocks(aad) + InBlocks(cipherText) + [LengthBlock(|aad|, |cipherText|)]
  }

  /** The counter block with the IV in front and a 32-bit number behind it. */
  function WithCounter(iv: Iv, n: nat): Block {
    iv + BigEndian(n, 4)
  }

  /** The tag of the standard: GHASH of its input, and the cipher of the counter block of one. */
  lemma TagIsGhash(aes: Cipher, iv: Iv, aad: seq<uint8>, cipherText: seq<uint8>)
    ensures Tag(aes, iv, aad, cipherText)
         == XorBytes(GhashOf(aes(Zeros(16)), GhashInput(aad, cipherText)), aes(WithCounter(iv, 1)))
  {
    hide BlockProduct, XorByte, Absorb, GhashOf, LengthBlock, InBlocks;
    var h, l := aes(Zeros(16)), LengthBlock(|aad|, |cipherText|);
    var xs := InBlocks(aad) + InBlocks(cipherText);
    NoGhash(h);
    AbsorbBlocks(h, [], aad);
    assert [] + InBlocks(aad) == InBlocks(aad);
    AbsorbBlocks(h, InBlocks(aad), cipherText);
    GhashSnoc(h, xs, l);
    XorCommutes(GhashOf(h, xs + [l]), aes(J0(iv)));
    StartsAtOne(iv);
  }

  lemma NoGhash(h: Block)
    ensures GhashOf(h, []) == Zeros(16)
  {
  }

  lemma GhashSnoc(h: Block, xs: seq<Block>, b: Block)
    ensures GhashOf(h, xs + [b]) == BlockProduct(XorBytes(GhashOf(h, xs), b), h)
  {
    assert (xs + [b])[..|xs|] == xs;
  }

  /** Absorbing from the front, as the code does, goes through the same products. */
  lemma {:induction false} AbsorbBlocks(h: Block, xs: seq<Block>, d: seq<uint8>)
    ensures Absorb(GhashOf(h, xs), h, d) == GhashOf(h, xs + InBlocks(d))
    decreases |d|
  {
    hide BlockProduct, XorByte, GhashOf, InBlocks;
    if d == [] {
      assert xs + InBlocks(d) == xs;
    } else {
      var n := if |d| < 16 then |d| else 16;
      var b: Block := d[..n] + Zeros(16 - n);
      GhashSnoc(h, xs, b);
      AbsorbBlocks(h, xs + [b], d[n..]);
      FirstInBlocks(d, n);
      assert xs + [b] + InBlocks(d[n..]) == xs + ([b] + InBlocks(d[n..]));
    }
  }

  lemma FirstInBlocks(d: seq<uint8>, n: nat)
    requires d != [] && n == if |d| < 16 then |d| else 16
    ensures InBlocks(d) == [d[..n] + Zeros(16 - n)] + InBlocks(d[n..])
  {
    var rest := InBlocks(d[n..]);
    assert |InBlocks(d)| == 1 + |rest|;
    assert InBlocks(d)[0] == d[..n] + Zeros(16 - n);
    forall i | 0 <= i < |rest|
      ensures InBlocks(d)[i + 1] == rest[i]
    {
    }
  }

  lemma XorCommutes(a: seq<uint8>, b: seq<uint8>)
    requires |a| == |b|
    ensures XorBytes(a, b) == XorBytes(b, a)
  {
    forall i | 0 <= i < |a|
      ensures XorByte(a[i], b[i]) == XorByte(b[i], a[i])
    {
      XorByteTwice(a[i], b[i]);
    }
  }

  /** Block n of the data is encrypted with the cipher of the counter block of n + 2. */
  lemma GctrBlock(aes: Cipher, iv: Iv, data: seq<uint8>, n: nat, m: nat)
    requires m <= 16 && 16 * n + m <= |data| && n + 2 < Pow2(32)
    ensures Gctr(aes, J0(iv), data)[16 * n..16 * n + m]
         == XorBytes(data[16 * n..16 * n + m], aes(WithCounter(iv, n + 2))[..m])
  {
    hide XorByte, Pow2, WithCounter, Inc32, GctrByte;
    var whole, block := Gctr(aes, J0(iv), data), XorBytes(data[16 * n..16 * n + m], aes(WithCounter(iv, n + 2))[..m]);
    forall i | 0 <= i < m
      ensures whole[16 * n..16 * n + m][i] == block[i]
    {
      GctrByteOf(aes, iv, n, i);
    }
  }

  lemma GctrByteOf(aes: Cipher, iv: Iv, n: nat, i: nat)
    requires i < 16 && n + 2 < Pow2(32)
    ensures GctrByte(aes, J0(iv), 16 * n + i) == aes(WithCounter(iv, n + 2))[i]
  {
    hide WithCounter, Inc32, Pow2;
    CounterOf(iv, n + 1);
    assert (16 * n + i) / 16 == n && (16 * n + i) % 16 == i;
  }

  lemma CounterOf(iv: Iv, n: nat)
    requires n + 1 < Pow2(32)
    ensures Inc32(J0(iv), n) == WithCounter(iv, n + 1)
  {
    hide Pow2, BigEndian;
    assert J0(iv)[12..] == [0, 0, 0, 1];
    NumberOfOne();
    RemainderIs(n + 1, Pow2(32), 0, n + 1);
  }

  lemma StartsAtOne(iv: Iv)
    ensures J0(iv) == WithCounter(iv, 1)
  {
    NumberOfOne();
    BigEndianOfNumber([0, 0, 0, 1]);
  }

  lemma NumberOfOne()
    ensures Number([0, 0, 0, 1]) == 1
  {
    NumberSnoc([0, 0, 0], 1);
    NumberOfZeros([0, 0, 0]);
    assert [0, 0, 0] + [1] == [0, 0, 0, 1];
  }

  lemma GctrTwice(aes: Cipher, j: Block, data: seq<uint8>)
    ensures Gctr(aes, j, Gctr(aes, j, data)) == data
  {
    forall k | 0 <= k < |data|
      ensures Gctr(aes, j, Gctr(aes, j, data))[k] == data[k]
    {
      XorByteTwice(data[k], GctrByte(aes, j, k));
    }
  }

  /** Opening accepts exactly the tag that sealing made, and then returns the plaintext. */
  lemma OpenSeal(aes: Cipher, iv: Iv, aad: seq<uint8>, plain: seq<uint8>, tag: seq<uint8>)
    ensures var s := Seal(aes, iv, aad, plain);
            Open(aes, iv, aad, s.cipherText, tag) == if tag == s.tag then Plain(plain) else Refused
  {
    GctrTwice(aes, J0(iv), plain);
  }

  // ------------------------------------------------------------------- the loops

  /** `ghash_data`: absorbs len bytes, sixteen at a time, into s. */
  method GhashData(s: array<uint8>, h: Block, d: seq<uint8>)
    requires s.Length == 16
    modifies s
    ensures s[..] == Absorb(old(s[..]), h, d)
  {
    hide BlockProduct, XorByte;
    ghost var start := s[..];
    var off := 0;
    while off < |d|
      invariant off <= |d|
      invariant Absorb(s[..], h, d[off..]) == Absorb(start, h, d)
    {
      var n := if |d| - off > 16 then 16 else |d| - off;
      ghost var before, rest := s[..], d[off..];
      for j := 0 to n
        invariant forall k :: 0 <= k < j ==> s[k] == XorByte(before[k], d[off + k])
        invariant forall k :: j <= k < 16 ==> s[k] == before[k]
      {
        s[j] := XorByte(s[j], d[off + j]);
      }
      PaddedXor(before, rest, n, s[..]);
      Multiply(s, h);
      off := off + n;
      assert rest[n..] == d[off..];
    }
    assert d[off..] == [];
  }

  lemma PaddedXor(s: seq<uint8>, d: seq<uint8>, n: nat, r: seq<uint8>)
    requires |s| == 16 && |r| == 16 && n <= 16 && n <= |d|
    requires forall k :: 0 <= k < n ==> r[k] == XorByte(s[k], d[k])
    requires forall k :: n <= k < 16 ==> r[k] == s[k]
    ensures r == XorBytes(s, d[..n] + Zeros(16 - n))
  {
    forall k | n <= k < 16
      ensures XorByte(s[k], 0) == s[k]
    {
      XorZero(s[k]);
    }
  }

  /** One block of keystream over the bytes off .. off+n-1. */
  method XorChunk(input: array<uint8>, output: array<uint8>, off: nat, n: nat, ks: Block)
    requires n <= 16 && off + n <= input.Length && off + n <= output.Length
    modifies output
    ensures forall k :: off <= k < off + n ==> output[k] == XorByte(old(input[k]), ks[k - off])
    ensures forall k :: 0 <= k < output.Length && !(off <= k < off + n) ==> output[k] == old(output[k])
  {
    hide XorByte;
    for i := 0 to n
      invariant forall k :: off <= k < off + i ==> output[k] == XorByte(old(input[k]), ks[k - off])
      invariant forall k :: off + i <= k < off + n ==> input[k] == old(input[k])
      invariant forall k :: 0 <= k < output.Length && !(off <= k < off + i) ==> output[k] == old(output[k])
    {
      output[off + i] := XorByte(input[off + i], ks[i]);
    }
  }

  /** Counter-mode encryption of len bytes; the source has this loop in both directions. */
  method CtrLoop(aes: Cipher, j: Block, input: array<uint8>, output: array<uint8>, len: nat)
    requires len <= input.Length && len <= output.Length
    modifies output
    ensures output[..len] == Gctr(aes, j, old(input[..len]))
    ensures output[len..] == old(output[len..])
  {
    hide XorByte, Inc32;
    var ctr := new uint8[16](i requires 0 <= i < 16 => j[i]);
    ghost var data, rest := input[..len], output[len..];
    StartCounter(j);
    assert ctr[..] == j;
    var off := 0;
    while off < len
      invariant off <= len && (off % 16 == 0 || off == len)
      invariant ctr[..] == Inc32(j, (off + 15) / 16)
      invariant forall k :: 0 <= k < off ==> output[k] == XorByte(data[k], GctrByte(aes, j, k))
      invariant forall k :: off <= k < len ==> input[k] == data[k]
      invariant output[len..] == rest
    {
      ghost var b := off / 16;
      StepInc32(ctr, j, b);
      var ks := aes(ctr[..]);
      var n := if len - off > 16 then 16 else len - off;
      XorChunk(input, output, off, n, ks);
      assert forall k :: off <= k < off + n ==> k / 16 == b && k % 16 == k - off;
      off := off + n;
      assert (off + 15) / 16 == b + 1;
    }
  }

  lemma StartCounter(j: Block)
    ensures Inc32(j, 0) == j
  {
    hide Pow2, Number, BigEndian;
    var low := j[12..];
    NumberRange(low);
    RemainderIs(Number(low), Pow2(32), 0, Number(low));
    BigEndianOfNumber(low);
    assert j[..12] + low == j;
  }

  /** The increment of counter bytes 15 down to 12. */
  method StepInc32(ctr: array<uint8>, ghost j: Block, ghost n: nat)
    requires ctr.Length == 16 && ctr[..] == Inc32(j, n)
    modifies ctr
    ensures ctr[..] == Inc32(j, n + 1)
  {
    hide Pow2, Number, BigEndian;
    ghost var v, m := Number(j[12..]) + n, Pow2(32);
    assert ctr[12..16] == BigEndian(v % m, 4) && ctr[..12] == j[..12];
    NumberOfBigEndian(v % m, 4);
    Increment(ctr, 12, 16);
    NextLow(v, m, ctr[12..16]);
    assert ctr[..] == ctr[..12] + ctr[12..16];
  }

  lemma NextLow(v: nat, m: nat, low: seq<uint8>)
    requires |low| == 4 && m > 0 && Number(low) == (v % m + 1) % m
    ensures low == BigEndian((v + 1) % m, 4)
  {
    Ctr.SuccessorMod(v, m);
    BigEndianOfNumber(low);
  }

  /** The tag both directions compute from the ciphertext. */
  method ComputeTag(aes: Cipher, iv: Iv, aad: seq<uint8>, cipherText: seq<uint8>) returns (tag: Block)
    ensures tag == Tag(aes, iv, aad, cipherText)
  {
    hide XorByte, BlockProduct, Absorb, BigEndian;
    var h := aes(Zeros(16));
    var s := new uint8[16](_ => 0);
    assert s[..] == Zeros(16);
    GhashData(s, h, aad);
    GhashData(s, h, cipherText);
    var lenBlock := new uint8[16](i requires 0 <= i < 16 => LengthBlock(|aad|, |cipherText|)[i]);
    assert lenBlock[..] == LengthBlock(|aad|, |cipherText|);
    XorInto(s, lenBlock);
    Multiply(s, h);
    var ej0 := aes(J0(iv));
    tag := XorBytes(ej0, s[..]);
  }

  /** `gcm_core` */
  method Encrypt(aes: Cipher, iv: Iv, aad: seq<uint8>, plain: array<uint8>, len: nat, output: array<uint8>)
    returns (tag: Block)
    requires len <= plain.Length && len <= output.Length
    modifies output
    ensures Sealed(output[..len], tag) == Seal(aes, iv, aad, old(plain[..len]))
    ensures output[len..] == old(output[len..])
  {
    hide Gctr, Tag, J0;
    CtrLoop(aes, J0(iv), plain, output, len);
    tag := ComputeTag(aes, iv, aad, output[..len]);
  }

  /** `crypto_equal`: collects all differences before deciding. */
  method Equal(a: seq<uint8>, b: seq<uint8>) returns (equal: bool)
    requires |a| == |b|
    ensures equal <==> a == b
  {
    hide Or, Xor;
    var diff := 0;
    for i := 0 to |a|
      invariant diff == 0 <==> a[..i] == b[..i]
    {
      XorIsZero(a[i], b[i]);
      OrIsZero(diff, XorByte(a[i], b[i]));
      assert a[..i + 1] == a[..i] + [a[i]] && b[..i + 1] == b[..i] + [b[i]];
      diff := Or(diff, XorByte(a[i], b[i]));
    }
    assert a[..|a|] == a && b[..|b|] == b;
    equal := diff == 0;
  }

  /** `aes128_gcm_decrypt`: writes plaintext only after the tag has been accepted. */
  method Decrypt(aes: Cipher, iv: Iv, aad: seq<uint8>, cipherText: array<uint8>, len: nat,
                 tag: seq<uint8>, output: array<uint8>) returns (accepted: bool)
    requires len <= cipherText.Length && len <= output.Length && |tag| == 16
    modifies output
    ensures Open(aes, iv, aad, old(cipherText[..len]), tag) == if accepted then Plain(output[..len]) else Refused
    ensures output[len..] == old(output[len..])
    ensures !accepted ==> output[..] == old(output[..])
  {
    hide Gctr, Tag, J0;
    var expected := ComputeTag(aes, iv, aad, cipherText[..len]);
    accepted := Equal(expected, tag);
    if accepted {
      CtrLoop(aes, J0(iv), cipherText, output, len);
    }
  }
}
