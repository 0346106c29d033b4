/** Relay cells: the layout of section 6.1 of tor-spec and the running digest that marks them. */
module RelayCells {
  import opened Bitwise
  import opened Bytes
  import Ctr

  const SIZE := 509
  const MAX_DATA := 498

  /** The payload of a fixed-length cell. */
  type Payload = p: seq<uint8> | |p| == 509 witness seq(509, _ => 0)

  /** What a relay cell says. */
  datatype Relay = Relay(cmd: uint8, stream: uint16, data: seq<uint8>)
  type Message = r: Relay | |r.data| <= 498 witness Relay(0, 0, [])

  /** A message with the bytes that fill up its cell: the client sends zeros, relays what they like. */
  datatype Plain = Plain(message: Message, pad: seq<uint8>)
  type Padded = p: Plain | |p.message.data| + |p.pad| == 498 witness Plain(Relay(0, 0, []), seq(498, _ => 0))

  function ZeroPadded(r: Message): Padded {
    Plain(r, Zeros(MAX_DATA - |r.data|))
  }

  /** SHA-1 of everything absorbed so far. */
  type Hash20 = d: seq<uint8> | |d| == 20 witness seq(20, _ => 0)
  type Hasher = seq<uint8> -> Hash20

  // ------------------------------------------------------------------------ layout

  /** The payload with the digest field still zero. */
  function Encode(p: Padded): Payload {
    var r := p.message;
    [r.cmd, 0, 0] + BigEndian(r.stream, 2) + Zeros(4) + BigEndian(|r.data|, 2) + r.data + p.pad
  }

  /** What the receiver takes out: a length beyond the cell is cut to what fits. */
  function Decode(p: Payload): Message {
    var len := 0x100 * p[9] as int + p[10];
    Relay(p[0], 0x100 * p[3] as int + p[4], p[11..11 + if len > MAX_DATA then MAX_DATA else len])
  }

  function PutDigest(p: Payload, d: seq<uint8>): Payload
    requires |d| == 4
  {
    p[..5] + d + p[9..]
  }

  /** Whatever the padding and the digest that is put in, a message survives encoding. */
  lemma DecodeEncode(p: Padded, d: seq<uint8>)
    requires |d| == 4
    ensures Decode(PutDigest(Encode(p), d)) == p.message
    ensures PutDigest(PutDigest(Encode(p), d), Zeros(4)) == Encode(p)
  {
    hide BigEndian;
    TwoBytes(p.message.stream);
    TwoBytes(|p.message.data|);
    var r, e, q := p.message, Encode(p), PutDigest(Encode(p), d);
    var head := [r.cmd, 0, 0] + BigEndian(r.stream, 2) + Zeros(4) + BigEndian(|r.data|, 2);
    Middle(head, r.data, p.pad);
    SameSlice(q, e, 9, 11, 11 + |r.data|);
    assert q[9] == e[9] && q[10] == e[10] && e[9..11] == BigEndian(|r.data|, 2);
    assert e[5..9] == Zeros(4);
    PutBack(e, d);
    assert q[0] == e[0] == r.cmd && q[3] == e[3] == r.stream / 0x100 && q[4] == e[4] == r.stream % 0x100;
    assert q[9] == |r.data| / 0x100 && q[10] == |r.data| % 0x100;
    DecodeFields(q, r);
  }

  /** What decides the decoded message. */
  lemma DecodeFields(q: Payload, r: Message)
    requires q[0] == r.cmd && q[3] == r.stream / 0x100 && q[4] == r.stream % 0x100
    requires q[9] == |r.data| / 0x100 && q[10] == |r.data| % 0x100 && q[11..11 + |r.data|] == r.data
    ensures Decode(q) == r
  {
    assert 0x100 * q[3] as int + q[4] as int == r.stream;
    assert 0x100 * q[9] as int + q[10] as int == |r.data|;
  }

  lemma PutBack(p: Payload, d: seq<uint8>)
    requires |d| == 4 && p[5..9] == Zeros(4)
    ensures PutDigest(PutDigest(p, d), Zeros(4)) == p
  {
    var q := PutDigest(p, d);
    assert q[..5] == p[..5] && q[9..] == p[9..];
    assert p == p[..5] + p[5..9] + p[9..];
  }

  lemma Middle(a: seq<uint8>, b: seq<uint8>, c: seq<uint8>)
    ensures (a + b + c)[|a|..|a| + |b|] == b
  {
  }

  lemma SameSlice(s: seq<uint8>, t: seq<uint8>, from: nat, i: nat, j: nat)
    requires from <= i <= j <= |s| == |t| && s[from..] == t[from..]
    ensures s[i..j] == t[i..j]
  {
    forall k | i <= k < j
      ensures s[k] == t[k]
    {
      assert s[k] == s[from..][k - from] && t[k] == t[from..][k - from];
    }
  }

  /** Where a relay cell has its fields (section 6.1 of tor-spec), high octet first. */
  lemma CellLayout(p: Padded)
    ensures var e, r := Encode(p), p.message;
            && e[0] == r.cmd && e[1] == 0 && e[2] == 0 && Number(e[3..5]) == r.stream
            && e[5..9] == [0, 0, 0, 0] && Number(e[9..11]) == |r.data|
            && e[11..11 + |r.data|] == r.data && e[11 + |r.data|..] == p.pad
  {
    hide BigEndian, Number;
    var e, r := Encode(p), p.message;
    Pow2Known();
    NumberOfBigEndian(r.stream, 2);
    NumberOfBigEndian(|r.data|, 2);
    var head := [r.cmd, 0, 0] + BigEndian(r.stream, 2) + Zeros(4) + BigEndian(|r.data|, 2);
    assert e[3..5] == BigEndian(r.stream, 2) && e[9..11] == BigEndian(|r.data|, 2);
    Middle(head, r.data, p.pad);
    assert e == head + r.data + p.pad;
  }

  /** Where the receiver finds them: for every payload, a length beyond the cell cut to what is there. */
  lemma DecodedLayout(p: Payload)
    ensures var r, len := Decode(p), Number(p[9..11]);
            && r.cmd == p[0] && r.stream == Number(p[3..5])
            && r.data == if len <= 498 then p[11..11 + len] else p[11..]
  {
    hide Number;
    NumberOfTwo(p[3..5]);
    NumberOfTwo(p[9..11]);
  }

  // ------------------------------------------------------- one direction of one hop

  /** One end's state for one direction of a hop: the cipher, its position in the stream, and
      everything the running digest has absorbed. */
  datatype Half = Half(aes: Cipher, pos: nat, log: seq<uint8>)

  /** Adds or removes this hop's layer; the same operation does both. */
  function Cover(s: Half, p: Payload): Payload {
    Ctr.Crypt(s.aes, Zeros(16), s.pos, p)
  }

  /** The state after one cell has gone through the cipher. */
  function Moved(s: Half): Half {
    s.(pos := s.pos + SIZE)
  }

  /** The state after a cell of this hop's own, which the digest absorbs too. */
  function Absorb(s: Half, p: Payload): Half {
    s.(log := s.log + p)
  }

  /** The client learns of one more hop, in its starting state, if there is one. */
  function Grown(keys: seq<Half>, hops: seq<Half>): (g: seq<Half>)
    ensures |g| == if |hops| < |keys| then |hops| + 1 else |hops|
  {
    if |hops| < |keys| then hops + [keys[|hops|]] else hops
  }

  /** The first four bytes of the running digest once p is absorbed. */
  function Mark(hash: Hasher, s: Half, p: Payload): (d: seq<uint8>)
    ensures |d| == 4
  {
    hash(s.log + p)[..4]
  }

  function Seal(hash: Hasher, s: Half, p: Padded): Payload {
    PutDigest(Encode(p), Mark(hash, s, Encode(p)))
  }

  /** The check that a peeled cell is this hop's own. */
  predicate Recognized(hash: Hasher, s: Half, p: Payload) {
    p[1] == 0 && p[2] == 0 && p[5..9] == Mark(hash, s, PutDigest(p, Zeros(4)))
  }

  /** The sealing end and the checking end agree as long as their digests do. */
  lemma SealIsRecognized(hash: Hasher, s: Half, p: Padded)
    ensures Recognized(hash, s, Seal(hash, s, p)) && Decode(Seal(hash, s, p)) == p.message
    ensures PutDigest(Seal(hash, s, p), Zeros(4)) == Encode(p)
  {
    hide BigEndian;
    DecodeEncode(p, Mark(hash, s, Encode(p)));
    TwoBytes(p.message.stream);
  }

  /** The mark of a sealed cell: the first four octets of the digest of all own cells so far and this one,
      its digest field zero. */
  lemma MarkAt(hash: Hasher, s: Half, p: Padded)
    ensures var c := Seal(hash, s, p);
            c[5..9] == hash(s.log + Encode(p))[..4] && c[..5] == Encode(p)[..5] && c[9..] == Encode(p)[9..]
  {
    hide Encode;
  }

  /** Exactly the sealed cells are recognized, of those whose length field fits. */
  lemma RecognizedExactly(hash: Hasher, s: Half, c: Payload)
    requires Number(c[9..11]) <= MAX_DATA
    ensures Recognized(hash, s, c) <==> exists p: Padded :: c == Seal(hash, s, p)
  {
    hide Seal, Recognized, Encode, Number;
    if Recognized(hash, s, c) {
      SealOfRecognized(hash, s, c);
    }
    forall p: Padded | c == Seal(hash, s, p)
      ensures Recognized(hash, s, c)
    {
      SealIsRecognized(hash, s, p);
    }
  }

  /** The message and the padding a recognized cell was sealed from. */
  lemma SealOfRecognized(hash: Hasher, s: Half, c: Payload)
    requires Recognized(hash, s, c) && Number(c[9..11]) <= MAX_DATA
    ensures exists p: Padded :: c == Seal(hash, s, p)
  {
    hide Number, BigEndian;
    DecodedLayout(c);
    var r := Decode(c);
    var p: Padded := Plain(r, c[11 + |r.data|..]);
    BigEndianOfNumber(c[3..5]);
    BigEndianOfNumber(c[9..11]);
    assert c[..3] == [r.cmd, 0, 0];
    CellParts(c, |r.data|, Zeros(4));
    assert Encode(p) == PutDigest(c, Zeros(4));
    PutTwice(c, Zeros(4));
    assert c == Seal(hash, s, p);
  }

  lemma CellParts(c: Payload, n: nat, d: seq<uint8>)
    requires n <= MAX_DATA && |d| == 4
    ensures PutDigest(c, d) == c[..3] + c[3..5] + d + c[9..11] + c[11..11 + n] + c[11 + n..]
  {
    assert c[..5] == c[..3] + c[3..5];
    assert c[9..] == c[9..11] + (c[11..11 + n] + c[11 + n..]);
  }

  lemma PutTwice(c: Payload, d: seq<uint8>)
    requires |d| == 4
    ensures PutDigest(PutDigest(c, d), c[5..9]) == c
  {
    var q := PutDigest(c, d);
    assert q[..5] == c[..5] && q[9..] == c[9..];
    assert c == c[..5] + c[5..9] + c[9..];
  }

  /** A layer in octets: the counters start at zero and never begin again. */
  lemma CoverAt(s: Half, p: Payload, i: nat)
    requires i < SIZE
    ensures Cover(s, p)[i] == XorByte(p[i], Ctr.KeystreamByte(s.aes, Zeros(16), s.pos + i))
  {
    hide Ctr.KeystreamByte, XorByte;
  }

  lemma CoverTwice(s: Half, p: Payload)
    ensures Cover(s, Cover(s, p)) == p
  {
    Ctr.CryptTwice(s.aes, Zeros(16), s.pos, p);
  }
}
