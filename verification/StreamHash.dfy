/** The Merkle-Damgard hashes: byte-at-a-time buffering against the padded message of FIPS 180-4.
    SHA-256 and SHA-1 are this machine with different compression functions and word counts. */
module StreamHash {
  import opened Bitwise
  import opened Bytes

  type State = seq<uint32>
  type Compression = (State, seq<uint8>) -> State

  const SHA1_INIT: State := [0x67452301, 0xEFCDAB89, 0x98BADCFE, 0x10325476, 0xC3D2E1F0]

  // --------------------------------------------------------------- specification

  /** The padded message of section 5.1.1 of FIPS 180-4: a one bit, zeros, the 64-bit bit count. */
  function Pad(m: seq<uint8>): (p: seq<uint8>)
    ensures |p| % 64 == 0 && m <= p
  {
    PadCount(|m|);
    m + [0x80] + Zeros((119 - |m| % 64) % 64) + BigEndian(8 * |m|, 8)
  }

  lemma PadCount(n: nat)
    ensures (n + 1 + (119 - n % 64) % 64 + 8) % 64 == 0
  {
  }

  /** Compressing whole blocks in order. */
  function Chain(f: Compression, s: State, m: seq<uint8>): State
    decreases |m|
  {
    if |m| < 64 then s else Chain(f, f(s, m[..64]), m[64..])
  }

  function Words(s: State): (b: seq<uint8>)
    ensures |b| == 4 * |s|
  {
    if s == [] then [] else BigEndian(s[0], 4) + Words(s[1..])
  }

  /** The one-shot hash of a message. */
  function Hash(f: Compression, init: State, m: seq<uint8>): seq<uint8> {
    Words(Chain(f, init, Pad(m)))
  }

  lemma {:induction false} ChainSplit(f: Compression, s: State, a: seq<uint8>, b: seq<uint8>)
    requires |a| % 64 == 0
    ensures Chain(f, s, a + b) == Chain(f, Chain(f, s, a), b)
    decreases |a|
  {
    if a == [] {
      assert a + b == b;
    } else {
      assert (a + b)[..64] == a[..64] && (a + b)[64..] == a[64..] + b;
      ChainSplit(f, f(s, a[..64]), a[64..], b);
    }
  }

  /** Where Pad puts what: the message, a one bit, zeros, and in the last eight octets the number of bits;
      no more zeros than whole blocks need. */
  lemma PadLayout(m: seq<uint8>)
    requires 8 * |m| < Pow2(64)
    ensures var p := Pad(m);
            && m <= p && |p| % 64 == 0 && |m| + 9 <= |p| <= |m| + 72 && p[|m|] == 0x80
            && (forall i :: |m| < i < |p| - 8 ==> p[i] == 0)
            && Number(p[|p| - 8..]) == 8 * |m|
  {
    hide Pow2, BigEndian, Number;
    NumberOfBigEndian(8 * |m|, 8);
    PadCount(|m|);
    var z := (119 - |m| % 64) % 64;
    var p := Pad(m);
    assert p == m + [0x80] + Zeros(z) + BigEndian(8 * |m|, 8);
    assert p[|p| - 8..] == BigEndian(8 * |m|, 8);
  }

  /** Each block goes through the compression with the state the blocks before it left. */
  lemma ChainBlock(f: Compression, s: State, m: seq<uint8>, block: seq<uint8>)
    requires |m| % 64 == 0 && |block| == 64
    ensures Chain(f, s, []) == s && Chain(f, s, m + block) == f(Chain(f, s, m), block)
  {
    hide Chain;
    ChainSplit(f, s, m, block);
    OneBlock(f, Chain(f, s, m), block);
    NoBlocks(f, s);
  }

  lemma NoBlocks(f: Compression, s: State)
    ensures Chain(f, s, []) == s
  {
  }

  /** Word i of the state is octets 4i to 4i + 3 of the digest, high octet first. */
  lemma {:induction false} WordsAt(s: State, i: nat)
    requires i < |s|
    ensures Number(Words(s)[4 * i..4 * i + 4]) == s[i]
  {
    hide BigEndian, Number;
    if i == 0 {
      Pow2Known();
      Pow2Add(16, 16);
      NumberOfBigEndian(s[0], 4);
      assert Words(s)[0..4] == BigEndian(s[0], 4);
    } else {
      WordsAt(s[1..], i - 1);
      assert Words(s)[4 * i..4 * i + 4] == Words(s[1..])[4 * (i - 1)..4 * (i - 1) + 4];
    }
  }

  // ---------------------------------------------------------------------- context

  /** The part of a message that already fills whole blocks. */
  function Whole(m: seq<uint8>): (w: seq<uint8>)
    ensures |w| % 64 == 0
  {
    m[..|m| - |m| % 64]
  }

  function Partial(m: seq<uint8>): (p: seq<uint8>)
    ensures |p| == |m| % 64
  {
    m[|m| - |m| % 64..]
  }

  class HashCtx {
    const f: Compression
    const init: State
    var state: State
    var bitLen: nat
    const buffer: array<uint8>
    var bufferLen: nat
    ghost var message: seq<uint8>

    ghost predicate Valid()
      reads this, buffer
    {
      && buffer.Length == 64
      && bufferLen == |message| % 64
      && buffer[..bufferLen] == Partial(message)
      && state == Chain(f, init, Whole(message))
      && bitLen == 8 * |Whole(message)| % Pow2(64)
    }

    constructor (f: Compression, init: State)
      ensures Valid() && fresh(buffer) && message == []
      ensures this.f == f && this.init == init
    {
      hide Pow2, Chain, Whole, Partial;
      this.f, this.init, state := f, init, init;
      bitLen, bufferLen, message := 0, 0, [];
      buffer := new uint8[64](_ => 0);
      new;
      EmptyMessage(f, init);
    }

    /** A copy of the context: the source copies the struct before it finalises. */
    constructor Copy(c: HashCtx)
      requires c.Valid()
      ensures Valid() && fresh(buffer) && message == c.message
      ensures this.f == c.f && this.init == c.init
    {
      f, init, state := c.f, c.init, c.state;
      bitLen, bufferLen, message := c.bitLen, c.bufferLen, c.message;
      buffer := new uint8[64](i requires 0 <= i < c.buffer.Length reads c.buffer => c.buffer[i]);
      new;
      assert buffer[..bufferLen] == c.buffer[..c.bufferLen];
    }

    /** Struct assignment: this context becomes the other one. */
    method Assign(c: HashCtx)
      requires Valid() && c.Valid() && buffer != c.buffer && c != this
      requires f == c.f && init == c.init
      modifies this, buffer
      ensures Valid() && message == c.message
    {
      hide Pow2, Chain, Whole, Partial;
      for i := 0 to 64
        invariant forall k :: 0 <= k < i ==> buffer[k] == c.buffer[k]
        invariant c.Valid()
      {
        buffer[i] := c.buffer[i];
      }
      state, bitLen, bufferLen, message := c.state, c.bitLen, c.bufferLen, c.message;
      assert buffer[..bufferLen] == c.buffer[..bufferLen];
    }

    /** `sha256_update`, `sha1_update`: any chunking of the same bytes reaches the same message. */
    method Update(data: seq<uint8>)
      requires Valid()
      modifies this, buffer
      ensures Valid() && message == old(message) + data
    {
      ghost var m := message;
      for i := 0 to |data|
        invariant Valid() && message == m + data[..i]
      {
        assert data[..i + 1] == data[..i] + [data[i]];
        Add(data[i]);
      }
      assert data[..|data|] == data;
    }

    method Add(x: uint8)
      requires Valid()
      modifies this, buffer
      ensures Valid() && message == old(message) + [x]
    {
      hide Pow2, Chain, Whole, Partial;
      ghost var m := message;
      Extend(f, init, m, x);
      assert buffer[..bufferLen] == Partial(m);
      buffer[bufferLen] := x;
      bufferLen := bufferLen + 1;
      message := m + [x];
      assert buffer[..bufferLen] == Partial(m) + [x];
      if bufferLen == 64 {
        assert buffer[..] == buffer[..bufferLen];
        state := f(state, buffer[..]);
        ModAdd(8 * |Whole(m)|, 512, Pow2(64));
        bitLen := (bitLen + 512) % Pow2(64);
        bufferLen := 0;
      }
    }

    /** Appends zero bytes up to the given fill level. */
    method ZeroFill(upTo: nat)
      requires buffer.Length == 64 && bufferLen <= upTo <= 64
      modifies this`bufferLen, buffer
      ensures bufferLen == upTo
      ensures buffer[..upTo] == old(buffer[..bufferLen]) + Zeros(upTo - old(bufferLen))
    {
      ghost var head, start := buffer[..bufferLen], bufferLen;
      while bufferLen < upTo
        invariant start <= bufferLen <= upTo
        invariant buffer[..bufferLen] == head + Zeros(bufferLen - start)
      {
        buffer[bufferLen] := 0;
        bufferLen := bufferLen + 1;
      }
    }

    /** The last block: zeros up to byte 56, then the bit count. */
    method LastBlock(totalBits: nat)
      requires buffer.Length == 64 && bufferLen <= 56
      modifies this`bufferLen, this`state, buffer
      ensures state == f(old(state), old(buffer[..bufferLen]) + Zeros(56 - old(bufferLen)) + BigEndian(totalBits, 8))
    {
      hide Zeros, BigEndian;
      ghost var head := buffer[..bufferLen];
      ZeroFill(56);
      var be := BigEndian(totalBits, 8);
      for i := 0 to 8
        invariant state == old(state)
        invariant buffer[..56] == head + Zeros(56 - |head|)
        invariant forall k :: 0 <= k < i ==> buffer[56 + k] == be[k]
      {
        buffer[56 + i] := be[i];
      }
      assert buffer[..] == buffer[..56] + be;
      state := f(state, buffer[..]);
    }

    /** `sha256_final`, `sha1_final`: the hash of everything absorbed so far. */
    method Final() returns (out: seq<uint8>)
      requires Valid()
      modifies this, buffer
      ensures out == Hash(f, init, old(message))
    {
      hide Pow2, Chain, Whole, Partial, Pad, Zeros, BigEndian;
      ghost var m := message;
      TotalBits(m);
      var totalBits := (bitLen + bufferLen * 8) % Pow2(64);
      PadBlocks(f, init, m, totalBits);
      assert buffer[..bufferLen] == Partial(m);
      buffer[bufferLen] := 0x80;
      bufferLen := bufferLen + 1;
      assert buffer[..bufferLen] == Partial(m) + [0x80];
      if bufferLen > 56 {
        SpillBlock();
        assert buffer[..0] + Zeros(56) == Zeros(56);
      }
      LastBlock(totalBits);
      out := Words(state);
    }

    /** The extra block, when the bit count does not fit behind the message. */
    method SpillBlock()
      requires buffer.Length == 64 && 56 < bufferLen <= 64
      modifies this`bufferLen, this`state, buffer
      ensures bufferLen == 0
      ensures state == f(old(state), old(buffer[..bufferLen]) + Zeros(64 - old(bufferLen)))
    {
      hide Zeros;
      ZeroFill(64);
      assert buffer[..] == buffer[..64];
      state := f(state, buffer[..]);
      bufferLen := 0;
    }

    /** The digest so far, from a copy: the running context is not touched. */
    method Snapshot() returns (out: seq<uint8>)
      requires Valid()
      ensures out == Hash(f, init, message)
    {
      var c := new HashCtx.Copy(this);
      out := c.Final();
    }
  }

  function Concat(chunks: seq<seq<uint8>>): seq<uint8> {
    if chunks == [] then [] else Concat(chunks[..|chunks| - 1]) + chunks[|chunks| - 1]
  }

  /** Hashing any list of chunks, with a digest read before each of them: every digest is the one-shot
      hash of what came before, and the last that of the concatenation. */
  method InChunks(f: Compression, init: State, chunks: seq<seq<uint8>>)
    returns (digests: seq<seq<uint8>>, whole: seq<uint8>)
    ensures |digests| == |chunks|
    ensures forall i :: 0 <= i < |chunks| ==> digests[i] == Hash(f, init, Concat(chunks[..i]))
    ensures whole == Hash(f, init, Concat(chunks))
  {
    hide Hash, Concat, HashCtx.Valid;
    NoChunks();
    var c := new HashCtx(f, init);
    digests := [];
    for i := 0 to |chunks|
      invariant c.Valid() && c.f == f && c.init == init && c.message == Concat(chunks[..i])
      invariant fresh(c) && fresh(c.buffer)
      invariant |digests| == i && forall k :: 0 <= k < i ==> digests[k] == Hash(f, init, Concat(chunks[..k]))
    {
      var d := c.Snapshot();
      digests := digests + [d];
      c.Update(chunks[i]);
      NextChunk(chunks, i);
    }
    assert chunks[..|chunks|] == chunks;
    whole := c.Final();
  }

  lemma NoChunks()
    ensures Concat([]) == []
  {
  }

  lemma NextChunk(chunks: seq<seq<uint8>>, i: nat)
    requires i < |chunks|
    ensures Concat(chunks[..i + 1]) == Concat(chunks[..i]) + chunks[i]
  {
    assert chunks[..i + 1][..i] == chunks[..i];
  }

  lemma EmptyMessage(f: Compression, init: State)
    ensures Whole([]) == [] && Partial([]) == [] && Chain(f, init, []) == init
    ensures 8 * |Whole([])| % Pow2(64) == 0
  {
    hide Pow2;
    RemainderIs(0, Pow2(64), 0, 0);
  }

  lemma TotalBits(m: seq<uint8>)
    ensures (8 * |Whole(m)| % Pow2(64) + |m| % 64 * 8) % Pow2(64) == 8 * |m| % Pow2(64)
  {
    hide Pow2;
    ModAdd(8 * |Whole(m)|, |m| % 64 * 8, Pow2(64));
    assert 8 * |Whole(m)| + |m| % 64 * 8 == 8 * |m|;
  }

  function PadTail(m: seq<uint8>, bits: nat): seq<uint8> {
    Partial(m) + [0x80] + Zeros((119 - |m| % 64) % 64) + BigEndian(bits, 8)
  }

  lemma PadIsTail(m: seq<uint8>, bits: nat)
    requires bits == 8 * |m| % Pow2(64)
    ensures Pad(m) == Whole(m) + PadTail(m, bits)
  {
    hide Pow2, BigEndian, Zeros;
    BigEndianMod(8 * |m|, 8);
    assert m == Whole(m) + Partial(m);
  }

  /** The blocks the finalisation compresses are those of the padded message. */
  lemma PadBlocks(f: Compression, init: State, m: seq<uint8>, bits: nat)
    requires bits == 8 * |m| % Pow2(64)
    ensures Chain(f, init, Pad(m)) ==
      (if |m| % 64 < 56 then
        f(Chain(f, init, Whole(m)), Partial(m) + [0x80] + Zeros(55 - |m| % 64) + BigEndian(bits, 8))
      else
        f(f(Chain(f, init, Whole(m)), Partial(m) + [0x80] + Zeros(63 - |m| % 64)), Zeros(56) + BigEndian(bits, 8)))
  {
    hide Pow2, Chain, Pad, BigEndian, Zeros, Whole, Partial;
    var r, be, s := |m| % 64, BigEndian(bits, 8), Chain(f, init, Whole(m));
    PadIsTail(m, bits);
    ChainSplit(f, init, Whole(m), PadTail(m, bits));
    if r < 56 {
      OneBlock(f, s, Partial(m) + [0x80] + Zeros(55 - r) + be);
    } else {
      ZerosAdd(63 - r, 56);
      SplitTail(Partial(m) + [0x80], Zeros(63 - r), Zeros(56), be);
      TwoBlocks(f, s, Partial(m) + [0x80] + Zeros(63 - r), Zeros(56) + be);
    }
  }

  lemma ZerosAdd(m: nat, n: nat)
    ensures Zeros(m + n) == Zeros(m) + Zeros(n)
  {
  }

  lemma SplitTail(head: seq<uint8>, y: seq<uint8>, z: seq<uint8>, be: seq<uint8>)
    ensures head + (y + z) + be == (head + y) + (z + be)
  {
  }

  lemma TwoBlocks(f: Compression, s: State, a: seq<uint8>, b: seq<uint8>)
    requires |a| == 64 && |b| == 64
    ensures Chain(f, s, a + b) == f(f(s, a), b)
  {
    hide Chain;
    ChainSplit(f, s, a, b);
    OneBlock(f, s, a);
    OneBlock(f, f(s, a), b);
  }

  lemma Next64(n: nat)
    ensures (n + 1) % 64 == if n % 64 == 63 then 0 else n % 64 + 1
  {
  }

  /** One more byte: either the partial block grows or it completes and is compressed. */
  lemma Extend(f: Compression, init: State, m: seq<uint8>, x: uint8)
    ensures var n := m + [x];
            if |m| % 64 == 63 then
              && Partial(n) == [] && |n| % 64 == 0 && |Whole(n)| == |Whole(m)| + 64
              && Chain(f, init, Whole(n)) == f(Chain(f, init, Whole(m)), Partial(m) + [x])
            else
              Whole(n) == Whole(m) && Partial(n) == Partial(m) + [x] && |n| % 64 == |m| % 64 + 1
  {
    var n := m + [x];
    Next64(|m|);
    if |m| % 64 == 63 {
      var block := Partial(m) + [x];
      assert Whole(n) == Whole(m) + block;
      ChainSplit(f, init, Whole(m), block);
      OneBlock(f, Chain(f, init, Whole(m)), block);
    }
  }

  lemma OneBlock(f: Compression, s: State, block: seq<uint8>)
    requires |block| == 64
    ensures Chain(f, s, block) == f(s, block)
  {
    assert block[..64] == block && block[64..] == [];
  }

  lemma ModAdd(n: nat, k: nat, m: nat)
    requires m > 0
    ensures (n % m + k) % m == (n + k) % m
  {
    var q, r := n / m, n % m;
    var s, t := (r + k) / m, (r + k) % m;
    TwoQuotients(n, m, q, r, s, t, k);
    RemainderIs(n + k, m, q + s, t);
  }

  lemma TwoQuotients(n: int, m: int, q: int, r: int, s: int, t: int, k: int)
    requires n == m * q + r && r + k == m * s + t
    ensures n + k == m * (q + s) + t
  {
  }
}
