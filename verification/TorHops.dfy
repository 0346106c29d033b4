/** One hop as the client keeps it: two stream ciphers and two running digests. */
module TorHops {
  import opened Bitwise
  import opened Bytes
  import opened Ctr
  import opened StreamHash
  import opened RelayCells

  /** A compression function of SHA-1's shape keeps five words. */
  ghost predicate FiveWords(f: Compression) {
    forall s: State, b: seq<uint8> :: |s| == 5 ==> |f(s, b)| == 5
  }

  lemma {:induction false} ChainWords(f: Compression, s: State, m: seq<uint8>)
    requires FiveWords(f) && |s| == 5
    ensures |Chain(f, s, m)| == 5
    decreases |m|
  {
    if |m| >= 64 {
      ChainWords(f, f(s, m[..64]), m[64..]);
    }
  }

  function Sha1(f: Compression, m: seq<uint8>): Hash20
    requires FiveWords(f)
  {
    ChainWords(f, SHA1_INIT, Pad(m));
    Hash(f, SHA1_INIT, m)
  }

  function Digester(f: Compression): Hasher
    requires FiveWords(f)
  {
    m => Sha1(f, m)
  }

  ghost function CipherParts(c: CtrState): set<object> {
    {c, c.counter, c.keystream}
  }

  ghost function DigestParts(d: HashCtx): set<object> {
    {d, d.buffer}
  }

  method Seeded(f: Compression, seed: seq<uint8>) returns (d: HashCtx)
    ensures d.Valid() && fresh(DigestParts(d)) && d.f == f && d.init == SHA1_INIT && d.message == seed
  {
    d := new HashCtx(f, SHA1_INIT);
    d.Update(seed);
    assert [] + seed == seed;
  }

  method FromZero(aes: Cipher) returns (c: CtrState)
    ensures c.Valid() && fresh(CipherParts(c)) && c.aes == aes && c.iv == Zeros(16) && c.position == 0
  {
    hide CtrState.Valid;
    c := new CtrState(aes, Zeros(16));
  }

  class TorHop {
    const f: Compression
    const fwdCipher: CtrState
    const bwdCipher: CtrState
    const fwdDigest: HashCtx
    const bwdDigest: HashCtx

    ghost function Parts(): set<object> {
      CipherParts(fwdCipher) + CipherParts(bwdCipher) + DigestParts(fwdDigest) + DigestParts(bwdDigest)
    }

    ghost predicate Valid()
      reads Parts()
    {
      && FiveWords(f)
      && CipherParts(fwdCipher) !! CipherParts(bwdCipher) !! DigestParts(fwdDigest) !! DigestParts(bwdDigest)
      && fwdCipher.Valid() && bwdCipher.Valid() && fwdDigest.Valid() && bwdDigest.Valid()
      && fwdCipher.iv == Zeros(16) && bwdCipher.iv == Zeros(16)
      && fwdDigest.f == f && bwdDigest.f == f && fwdDigest.init == SHA1_INIT && bwdDigest.init == SHA1_INIT
    }

    ghost function Fwd(): Half
      reads Parts()
    {
      Half(fwdCipher.aes, fwdCipher.position, fwdDigest.message)
    }

    ghost function Bwd(): Half
      reads Parts()
    {
      Half(bwdCipher.aes, bwdCipher.position, bwdDigest.message)
    }

    /** The state a hop starts in: both digests seeded, both ciphers at the start of their streams. */
    constructor (f: Compression, fwdAes: Cipher, bwdAes: Cipher, df: seq<uint8>, db: seq<uint8>)
      requires FiveWords(f)
      ensures Valid() && fresh(Parts()) && this.f == f
      ensures Fwd() == Half(fwdAes, 0, df) && Bwd() == Half(bwdAes, 0, db)
    {
      this.f := f;
      hide CtrState.Valid, HashCtx.Valid;
      var fd := Seeded(f, df);
      var bd := Seeded(f, db);
      var fc := FromZero(fwdAes);
      var bc := FromZero(bwdAes);
      fwdDigest, bwdDigest, fwdCipher, bwdCipher := fd, bd, fc, bc;
    }

    /** The forward layer is put on in place. */
    method Encrypt(payload: array<uint8>)
      requires Valid() && payload.Length == SIZE && payload !in Parts()
      modifies Parts(), payload
      ensures Valid() && Fwd() == Moved(old(Fwd())) && Bwd() == old(Bwd())
      ensures payload[..] == Cover(old(Fwd()), old(payload[..]))
    {
      hide Chain, Pow2, CounterBlock, Number;
      assert payload[..SIZE] == payload[..];
      fwdCipher.Process(payload, payload, SIZE);
      assert payload[..SIZE] == payload[..];
    }

    /** The backward layer is taken off in place. */
    method Decrypt(payload: array<uint8>)
      requires Valid() && payload.Length == SIZE && payload !in Parts()
      modifies Parts(), payload
      ensures Valid() && Bwd() == Moved(old(Bwd())) && Fwd() == old(Fwd())
      ensures payload[..] == Cover(old(Bwd()), old(payload[..]))
    {
      hide Chain, Pow2, CounterBlock, Number;
      assert payload[..SIZE] == payload[..];
      bwdCipher.Process(payload, payload, SIZE);
      assert payload[..SIZE] == payload[..];
    }

    /** Puts the digest into a cell of this hop's own, and commits the running digest. */
    method Stamp(payload: array<uint8>)
      requires Valid() && payload.Length == SIZE && payload !in Parts()
      modifies Parts(), payload
      ensures Valid() && Bwd() == old(Bwd())
      ensures Fwd() == Absorb(old(Fwd()), old(payload[..]))
      ensures payload[..] == PutDigest(old(payload[..]), Mark(Digester(f), old(Fwd()), old(payload[..])))
    {
      hide CtrState.Valid, HashCtx.Valid, PutDigest, Sha1;
      var tmp, dg := Absorbing(fwdDigest, payload[..]);
      fwdDigest.Assign(tmp);
      PutFour(payload, dg[..4]);
    }

    /** Is a peeled cell this hop's own? If so the running digest is committed, otherwise the digest
        field is put back. */
    method Check(payload: array<uint8>) returns (ours: bool)
      requires Valid() && payload.Length == SIZE && payload !in Parts()
      modifies Parts(), payload
      ensures Valid() && Fwd() == old(Fwd())
      ensures ours == Recognized(Digester(f), old(Bwd()), old(payload[..]))
      ensures (if ours then
          Bwd() == Absorb(old(Bwd()), PutDigest(old(payload[..]), Zeros(4)))
          && payload[..] == PutDigest(old(payload[..]), Zeros(4))
        else Bwd() == old(Bwd()) && payload[..] == old(payload[..]))
    {
      hide CtrState.Valid, HashCtx.Valid, Sha1;
      ours := false;
      if payload[1] == 0 && payload[2] == 0 {
        ghost var p := payload[..];
        var saved := payload[5..9];
        PutFour(payload, Zeros(4));
        var tmp, dg := Absorbing(bwdDigest, payload[..]);
        if dg[..4] == saved {
          bwdDigest.Assign(tmp);
          ours := true;
        } else {
          PutFour(payload, saved);
          assert payload[..] == p;
        }
      }
    }
  }

  /** The running digest with one more cell, on a copy, and its value. */
  method Absorbing(d: HashCtx, p: seq<uint8>) returns (tmp: HashCtx, dg: seq<uint8>)
    requires d.Valid() && FiveWords(d.f) && d.init == SHA1_INIT
    ensures tmp.Valid() && fresh(DigestParts(tmp)) && tmp.f == d.f && tmp.init == d.init
    ensures tmp.message == d.message + p && dg == Sha1(d.f, d.message + p)
  {
    hide Chain, Pow2, Whole, Partial, Hash;
    tmp := new HashCtx.Copy(d);
    tmp.Update(p);
    dg := tmp.Snapshot();
  }

  /** Writes the digest field. */
  method PutFour(payload: array<uint8>, four: seq<uint8>)
    requires payload.Length == SIZE && |four| == 4
    modifies payload
    ensures payload[..] == PutDigest(old(payload[..]), four)
  {
    for i := 0 to 4
      invariant forall k :: 0 <= k < SIZE && !(5 <= k < 5 + i) ==> payload[k] == old(payload[k])
      invariant forall k :: 0 <= k < i ==> payload[5 + k] == four[k]
    {
      payload[5 + i] := four[i];
    }
    assert payload[5..9] == four && payload[9..] == old(payload[9..]) && payload[..5] == old(payload[..5]);
  }
}
