/** TLS 1.3 protected records (RFC 8446 section 5): nonces, padding, sealing and opening. */
module TlsRecords {
  import opened Bitwise
  import opened Bytes
  import opened Gcm
  import LittleEndian

  const CHANGE_CIPHER: uint8 := 0x14
  const ALERT: uint8 := 0x15
  const HANDSHAKE: uint8 := 0x16
  const APPDATA: uint8 := 0x17

  /** The bytes of a record buffer of the client. */
  const BUFFER: nat := 20480

  /** One direction's traffic keys: the block cipher under the key, and the static IV. */
  datatype Keys = Keys(aes: Cipher, iv: Iv)

  // -------------------------------------------------------------------- nonces

  /** The static IV with the 64-bit sequence number added to its tail (section 5.3). */
  function Nonce(iv: Iv, seqNo: nat): Iv {
    XorBytes(iv, Zeros(4) + BigEndian(seqNo, 8))
  }

  /** Under one key no two of the first 2^64 records share a nonce. */
  lemma NonceInjective(iv: Iv, m: nat, n: nat)
    requires m < Pow2(64) && n < Pow2(64) && Nonce(iv, m) == Nonce(iv, n)
    ensures m == n
  {
    hide Pow2, XorByte, BigEndian;
    var a, b := Zeros(4) + BigEndian(m, 8), Zeros(4) + BigEndian(n, 8);
    forall i | 0 <= i < 12
      ensures a[i] == b[i]
    {
      assert Nonce(iv, m)[i] == XorByte(iv[i], a[i]) && Nonce(iv, n)[i] == XorByte(iv[i], b[i]);
      XorCancels(iv[i], a[i], b[i]);
    }
    assert a == b;
    assert a[4..] == BigEndian(m, 8) && b[4..] == BigEndian(n, 8);
    NumberOfBigEndian(m, 8);
    NumberOfBigEndian(n, 8);
  }

  /** What is xored into the IV is the record number, its low octet in the last octet of the IV. */
  lemma NonceNumber(iv: Iv, n: nat)
    requires n < Pow2(64)
    ensures Number(XorBytes(Nonce(iv, n), iv)) == n
  {
    hide Pow2, XorByte, BigEndian, Number;
    var a := Zeros(4) + BigEndian(n, 8);
    forall i | 0 <= i < 12
      ensures XorByte(XorByte(iv[i], a[i]), iv[i]) == a[i]
    {
      XorByteTwice(a[i], iv[i]);
    }
    assert XorBytes(Nonce(iv, n), iv) == a;
    NumberAppend(Zeros(4), BigEndian(n, 8));
    NumberOfZeros(Zeros(4));
    NumberOfBigEndian(n, 8);
  }

  lemma XorCancels(x: uint8, a: uint8, b: uint8)
    requires XorByte(x, a) == XorByte(x, b)
    ensures a == b
  {
    hide XorByte;
    XorByteTwice(a, x);
    XorByteTwice(b, x);
  }

  /** `buildNonce`: xors the sequence number in from its low byte. */
  method BuildNonce(iv: Iv, seqNo: nat) returns (nonce: Iv)
    ensures nonce == Nonce(iv, seqNo)
  {
    hide XorByte;
    var n := new uint8[12](i requires 0 <= i < 12 => iv[i]);
    for i := 0 to 8
      invariant forall k :: 12 - i <= k < 12 ==> n[k] == XorByte(iv[k], BigEndian(seqNo, 8)[k - 4])
      invariant forall k :: 0 <= k < 12 - i ==> n[k] == iv[k]
    {
      LowByte(seqNo, 8, i);
      n[11 - i] := XorByte(n[11 - i], seqNo / Pow2(8 * i) % 0x100);
    }
    forall k | 0 <= k < 4
      ensures XorByte(iv[k], 0) == iv[k]
    {
      XorByteZero(iv[k]);
    }
    nonce := n[..];
  }

  lemma XorByteZero(x: uint8)
    ensures XorByte(x, 0) == x
  {
    XorZero(x);
  }

  /** Byte i from the end of a big-endian number is its i-th base-256 digit. */
  lemma {:induction false} LowByte(v: nat, n: nat, i: nat)
    requires i < n
    ensures BigEndian(v, n)[n - 1 - i] == v / Pow2(8 * i) % 0x100
    decreases i, v, n
  {
    Pow2Known();
    if i > 0 {
      LowByte(v / 0x100, n - 1, i - 1);
      DivideByByte(v, i);
    }
  }

  lemma DivideByByte(v: nat, i: nat)
    requires i > 0
    ensures v / Pow2(8 * i) == v / 0x100 / Pow2(8 * (i - 1))
  {
    LittleEndian.SkipByte(v, 8 * i);
  }

  // -------------------------------------------------------------------- records

  function Header(kind: uint8, len: nat): (h: seq<uint8>)
    ensures |h| == 5
  {
    [kind, 0x03, 0x03] + BigEndian(len, 2)
  }

  /** TLSInnerPlaintext: content, its type, zero padding. */
  function Inner(kind: uint8, content: seq<uint8>, pad: nat): seq<uint8> {
    content + [kind] + Zeros(pad)
  }

  /** A protected record on the wire; its header is the additional data. */
  function SealRecord(k: Keys, seqNo: nat, kind: uint8, content: seq<uint8>, pad: nat): seq<uint8> {
    var inner := Inner(kind, content, pad);
    var h := Header(APPDATA, |inner| + 16);
    var s := Seal(k.aes, Nonce(k.iv, seqNo), h, inner);
    h + (s.cipherText + s.tag)
  }

  datatype Content = Bad | Content(kind: uint8, data: seq<uint8>)

  /** Strips zero padding and the type byte behind the content. */
  function Strip(inner: seq<uint8>): Content {
    if inner == [] then Bad
    else if inner[|inner| - 1] == 0 then Strip(inner[..|inner| - 1])
    else Content(inner[|inner| - 1], inner[..|inner| - 1])
  }

  /** What a record body decrypts to under a sequence number. */
  function OpenRecord(k: Keys, seqNo: nat, body: seq<uint8>): Opened {
    if |body| < 17 then Refused
    else Open(k.aes, Nonce(k.iv, seqNo), Header(APPDATA, |body|), body[..|body| - 16], body[|body| - 16..])
  }

  lemma {:induction false} StripInner(kind: uint8, content: seq<uint8>, pad: nat)
    requires kind != 0
    ensures Strip(Inner(kind, content, pad)) == Content(kind, content)
    decreases pad
  {
    var inner := Inner(kind, content, pad);
    if pad > 0 {
      assert inner[..|inner| - 1] == Inner(kind, content, pad - 1);
      StripInner(kind, content, pad - 1);
    } else {
      assert inner[..|inner| - 1] == content;
    }
  }

  /** Opening a sealed record under the same key and number gives its plaintext back. */
  lemma OpenSealedRecord(k: Keys, seqNo: nat, kind: uint8, content: seq<uint8>, pad: nat)
    requires kind != 0
    ensures var r := SealRecord(k, seqNo, kind, content, pad);
            && |r| == 5 + |content| + 1 + pad + 16
            && r[..5] == Header(APPDATA, |r| - 5)
            && OpenRecord(k, seqNo, r[5..]) == Plain(Inner(kind, content, pad))
            && Strip(Inner(kind, content, pad)) == Content(kind, content)
  {
    hide Seal, Open, Nonce, XorByte;
    var inner := Inner(kind, content, pad);
    var h := Header(APPDATA, |inner| + 16);
    var s := Seal(k.aes, Nonce(k.iv, seqNo), h, inner);
    SealLength(k.aes, Nonce(k.iv, seqNo), h, inner);
    var r := SealRecord(k, seqNo, kind, content, pad);
    assert r[5..] == s.cipherText + s.tag;
    assert (s.cipherText + s.tag)[|inner|..] == s.tag;
    OpenSeal(k.aes, Nonce(k.iv, seqNo), h, inner, s.tag);
    StripInner(kind, content, pad);
  }

  /** A sealed record as section 5.2 of RFC 8446 reads it, offset by offset: type, version and length in the
      clear and authenticated, then what opens to the content, its type and zeros under the IV xored with
      the number, then the tag. */
  lemma SealedLayout(k: Keys, seqNo: nat, kind: uint8, content: seq<uint8>, pad: nat)
    requires |content| + 1 + pad + 16 < 0x1_0000
    ensures var r := SealRecord(k, seqNo, kind, content, pad);
            && |r| == 5 + |content| + 1 + pad + 16
            && r[0] == APPDATA && r[1] == 3 && r[2] == 3 && Number(r[3..5]) == |r| - 5
            && Open(k.aes, Nonce(k.iv, seqNo), r[..5], r[5..|r| - 16], r[|r| - 16..])
               == Plain(content + [kind] + Zeros(pad))
  {
    hide Seal, Open, Nonce, XorByte, Number, BigEndian;
    var inner := Inner(kind, content, pad);
    var h := Header(APPDATA, |inner| + 16);
    var s := Seal(k.aes, Nonce(k.iv, seqNo), h, inner);
    SealLength(k.aes, Nonce(k.iv, seqNo), h, inner);
    var r := SealRecord(k, seqNo, kind, content, pad);
    assert r[..5] == h && r[5..|r| - 16] == s.cipherText && r[|r| - 16..] == s.tag;
    OpenSeal(k.aes, Nonce(k.iv, seqNo), h, inner, s.tag);
    assert h[3..5] == BigEndian(|inner| + 16, 2) && r[3..5] == h[3..5];
    Pow2Known();
    NumberOfBigEndian(|inner| + 16, 2);
  }

  lemma SealLength(aes: Cipher, iv: Iv, aad: seq<uint8>, plain: seq<uint8>)
    ensures |Seal(aes, iv, aad, plain).cipherText| == |plain|
  {
  }
}
