/** AES in counter mode as a stream: the keystream depends only on the position. */
module Ctr {
  import opened Bitwise
  import opened Bytes

  /** The n-th counter block after iv, counting modulo 2^128. */
  function CounterBlock(iv: Block, n: nat): Block {
    BigEndian((Number(iv) + n) % Pow2(128), 16)
  }

  /** Byte k of the keystream (section 6.5 of NIST SP 800-38A). */
  function KeystreamByte(aes: Cipher, iv: Block, k: nat): uint8 {
    aes(CounterBlock(iv, k / 16))[k % 16]
  }

  function Keystream(aes: Cipher, iv: Block, pos: nat, n: nat): (k: seq<uint8>)
    ensures |k| == n
  {
    seq<uint8>(n, i requires 0 <= i < n => KeystreamByte(aes, iv, pos + i))
  }

  /** Encryption, and decryption, of data that starts at position pos of the stream. */
  function Crypt(aes: Cipher, iv: Block, pos: nat, data: seq<uint8>): (r: seq<uint8>)
    ensures |r| == |data|
  {
    XorBytes(data, Keystream(aes, iv, pos, |data|))
  }

  /** Block n of the keystream is the cipher of the counter iv + n, high octet first, modulo 2^128. */
  lemma KeystreamBlock(aes: Cipher, iv: Block, n: nat)
    ensures Keystream(aes, iv, 16 * n, 16) == aes(CounterBlock(iv, n))
    ensures Number(CounterBlock(iv, n)) == (Number(iv) + n) % Pow2(128)
  {
    hide CounterBlock, KeystreamByte;
    CounterNumber(iv, n);
    forall i | 0 <= i < 16
      ensures Keystream(aes, iv, 16 * n, 16)[i] == aes(CounterBlock(iv, n))[i]
    {
      ByteOfBlock(aes, iv, n, i);
    }
  }

  lemma ByteOfBlock(aes: Cipher, iv: Block, n: nat, i: nat)
    requires i < 16
    ensures KeystreamByte(aes, iv, 16 * n + i) == aes(CounterBlock(iv, n))[i]
  {
    hide CounterBlock;
    assert (16 * n + i) / 16 == n && (16 * n + i) % 16 == i;
  }

  lemma CounterNumber(iv: Block, n: nat)
    ensures Number(CounterBlock(iv, n)) == (Number(iv) + n) % Pow2(128)
  {
    hide Pow2, Number, BigEndian;
    NumberOfBigEndian((Number(iv) + n) % Pow2(128), 16);
  }

  /** However a message is split over calls, the output is the same. */
  lemma CryptSplit(aes: Cipher, iv: Block, pos: nat, a: seq<uint8>, b: seq<uint8>)
    ensures Crypt(aes, iv, pos, a + b) == Crypt(aes, iv, pos, a) + Crypt(aes, iv, pos + |a|, b)
  {
    assert Keystream(aes, iv, pos, |a + b|) == Keystream(aes, iv, pos, |a|) + Keystream(aes, iv, pos + |a|, |b|);
  }

  /** Two states at the same position undo each other. */
  lemma CryptTwice(aes: Cipher, iv: Block, pos: nat, data: seq<uint8>)
    ensures Crypt(aes, iv, pos, Crypt(aes, iv, pos, data)) == data
  {
    XorTwice(data, Keystream(aes, iv, pos, |data|));
  }

  lemma NextBlock(iv: Block, n: nat, c: seq<uint8>)
    requires |c| == 16 && Number(c) == (Number(CounterBlock(iv, n)) + 1) % Pow2(128)
    ensures c == CounterBlock(iv, n + 1)
  {
    hide Pow2, Number, BigEndian;
    var v, m := Number(iv) + n, Pow2(128);
    NumberOfBigEndian(v % m, 16);
    SuccessorMod(v, m);
    BigEndianOfNumber(c);
  }

  lemma SuccessorMod(v: int, m: nat)
    requires m > 0
    ensures (v % m + 1) % m == (v + 1) % m
  {
    var q, r := v / m, v % m;
    assert v == m * q + r;
    if r + 1 < m {
      RemainderIs(v + 1, m, q, r + 1);
      RemainderIs(r + 1, m, 0, r + 1);
    } else {
      assert m * (q + 1) == m * q + m;
      RemainderIs(v + 1, m, q + 1, 0);
      RemainderIs(r + 1, m, 1, 0);
    }
  }

  lemma FirstBlock(iv: Block)
    ensures CounterBlock(iv, 0) == iv
  {
    hide Pow2;
    NumberRange(iv);
    RemainderIs(Number(iv), Pow2(128), 0, Number(iv));
    BigEndianOfNumber(iv);
  }

  /** `ctr_incr_full`: the next counter block in place. */
  method StepCounter(counter: array<uint8>, ghost iv: Block, ghost n: nat)
    requires counter.Length == 16 && counter[..] == CounterBlock(iv, n)
    modifies counter
    ensures counter[..] == CounterBlock(iv, n + 1)
  {
    hide Pow2, Number, CounterBlock;
    ghost var c := counter[..];
    assert counter[0..16] == c;
    Increment(counter, 0, 16);
    assert counter[0..16] == counter[..];
    NextBlock(iv, n, counter[..]);
  }

  /** The streaming state: counter of the next block, current keystream block, bytes used of it. */
  class CtrState {
    const aes: Cipher
    const counter: array<uint8>
    const keystream: array<uint8>
    var pos: nat
    ghost const iv: Block
    ghost var position: nat

    ghost predicate Valid()
      reads this, counter, keystream
    {
      && counter.Length == 16 && keystream.Length == 16 && counter != keystream
      && pos <= 16 && (position + 16 - pos) % 16 == 0
      && counter[..] == CounterBlock(iv, (position + 16 - pos) / 16)
      && (pos < 16 ==> keystream[..] == aes(CounterBlock(iv, position / 16)))
    }

    constructor (aes: Cipher, iv: Block)
      ensures Valid() && fresh(counter) && fresh(keystream)
      ensures this.aes == aes && this.iv == iv && position == 0
    {
      this.aes := aes;
      this.iv := iv;
      counter := new uint8[16](i requires 0 <= i < 16 => iv[i]);
      keystream := new uint8[16](_ => 0);
      pos := 16;
      position := 0;
      new;
      FirstBlock(iv);
      assert counter[..] == iv;
    }

    /** `aes128_ctr_crypt`: input and output may be the same array. */
    method Process(input: array<uint8>, output: array<uint8>, len: nat)
      requires Valid() && len <= input.Length && len <= output.Length
      requires input !in {counter, keystream} && output !in {counter, keystream}
      modifies this, counter, keystream, output
      ensures Valid() && position == old(position) + len
      ensures output[..len] == Crypt(aes, iv, old(position), old(input[..len]))
      ensures output[len..] == old(output[len..])
    {
      hide XorByte, KeystreamByte, CounterBlock;
      ghost var data, rest, start := input[..len], output[len..], position;
      for i := 0 to len
        invariant Valid() && position == start + i
        invariant forall k :: 0 <= k < i ==> output[k] == XorByte(data[k], KeystreamByte(aes, iv, start + k))
        invariant forall k :: i <= k < len ==> input[k] == data[k]
        invariant output[len..] == rest
      {
        var k := NextByte();
        output[i] := XorByte(input[i], k);
      }
    }

    /** The keystream byte at the current position, fetching a fresh block when needed. */
    method NextByte() returns (k: uint8)
      requires Valid()
      modifies this, counter, keystream
      ensures Valid() && position == old(position) + 1
      ensures k == KeystreamByte(aes, iv, old(position))
    {
      hide CounterBlock;
      if pos == 16 {
        Refill();
      }
      assert position % 16 == pos && keystream[pos] == keystream[..][pos];
      k := keystream[pos];
      pos := pos + 1;
      position := position + 1;
    }

    method Refill()
      requires Valid() && pos == 16
      modifies this`pos, counter, keystream
      ensures Valid() && pos == 0
    {
      hide Pow2, Number, CounterBlock;
      ghost var n := position / 16;
      var block := aes(counter[..]);
      for i := 0 to 16
        invariant counter[..] == CounterBlock(iv, n) && pos == 16
        invariant forall k :: 0 <= k < i ==> keystream[k] == block[k]
      {
        keystream[i] := block[i];
      }
      assert keystream[..] == block;
      StepCounter(counter, iv, n);
      assert (position + 16) / 16 == n + 1;
      pos := 0;
    }
  }
}
