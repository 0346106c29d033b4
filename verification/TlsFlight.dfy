/** The server's encrypted handshake flight: reassembly, the Finished check and the transcript. */
module TlsFlight {
  import opened Bitwise
  import opened Bytes
  import opened Gcm
  import opened TlsRecords
  import opened TlsClient

  const FINISHED: uint8 := 0x14

  type Digest = b: seq<uint8> | |b| == 32 witness seq(32, _ => 0)

  /** The transcript hash, HMAC and HKDF-Expand-Label, and the traffic keys of a secret. */
  datatype Schedule = Schedule(hash: seq<uint8> -> Digest,
                               hmac: (Digest, seq<uint8>) -> Digest,
                               expand: (Digest, string, seq<uint8>) -> Digest,
                               keys: Digest -> Keys)

  // --------------------------------------------------------- handshake messages

  /** The length of the message a byte string starts with, header included. */
  function MessageLen(b: seq<uint8>): nat
    requires |b| >= 4
  {
    4 + b[1] as int * 0x1_0000 + b[2] as int * 0x100 + b[3] as int
  }

  predicate IsMessage(m: seq<uint8>) {
    |m| >= 4 && MessageLen(m) == |m|
  }

  /** Section 4 of RFC 8446: octets 1 to 3 of a message are the number of octets behind them. */
  lemma MessageLayout(m: seq<uint8>)
    ensures IsMessage(m) <==> |m| >= 4 && Number(m[1..4]) == |m| - 4
  {
    hide Number;
    if |m| >= 4 {
      var a: seq<uint8> := [];
      assert m[1..4] == a + [m[1]] + [m[2]] + [m[3]];
      NumberSnoc(a, m[1]);
      NumberSnoc(a + [m[1]], m[2]);
      NumberSnoc(a + [m[1]] + [m[2]], m[3]);
      NoNumber();
    }
  }

  lemma NoNumber()
    ensures Number([]) == 0
  {
  }

  function Join(msgs: seq<seq<uint8>>): seq<uint8> {
    if msgs == [] then [] else Join(msgs[..|msgs| - 1]) + msgs[|msgs| - 1]
  }

  /** Messages none of which is a Finished. */
  predicate BeforeFinished(msgs: seq<seq<uint8>>) {
    forall m <- msgs :: IsMessage(m) && m[0] != FINISHED
  }

  /** A flight: messages of which the last, and only the last, is a Finished. */
  predicate IsFlight(msgs: seq<seq<uint8>>) {
    && msgs != [] && BeforeFinished(msgs[..|msgs| - 1])
    && IsMessage(msgs[|msgs| - 1]) && msgs[|msgs| - 1][0] == FINISHED
  }

  lemma JoinSnoc(msgs: seq<seq<uint8>>, m: seq<uint8>)
    ensures Join(msgs + [m]) == Join(msgs) + m
  {
    assert (msgs + [m])[..|msgs|] == msgs;
  }

  lemma {:induction false} JoinFront(m: seq<uint8>, rest: seq<seq<uint8>>)
    ensures Join([m] + rest) == m + Join(rest)
    decreases |rest|
  {
    hide Join;
    if rest == [] {
      NoMessages();
      JoinSnoc([], m);
      assert [m] + rest == [] + [m];
    } else {
      var n := |rest| - 1;
      JoinFront(m, rest[..n]);
      JoinSnoc(rest[..n], rest[n]);
      JoinSnoc([m] + rest[..n], rest[n]);
      assert rest == rest[..n] + [rest[n]] && [m] + rest == [m] + rest[..n] + [rest[n]];
    }
  }

  /** A byte stream has at most one flight as a prefix: how records cut it cannot matter. */
  lemma {:induction false} FlightUnique(s: seq<uint8>, a: seq<seq<uint8>>, b: seq<seq<uint8>>)
    requires IsFlight(a) && IsFlight(b) && Join(a) <= s && Join(b) <= s
    ensures a == b
    decreases |a|
  {
    hide Join, IsFlight, IsMessage, MessageLen;
    FirstMessage(s, a);
    FirstMessage(s, b);
    AtLeastOne(a);
    AtLeastOne(b);
    var n := |a[0]|;
    assert a[0] == s[..n] == b[0];
    if |a| > 1 {
      FlightUnique(s[n..], a[1..], b[1..]);
    }
    assert a == [a[0]] + a[1..] && b == [b[0]] + b[1..];
  }

  lemma AtLeastOne(a: seq<seq<uint8>>)
    requires IsFlight(a)
    ensures a != []
  {
  }

  lemma FirstMessage(s: seq<uint8>, a: seq<seq<uint8>>)
    requires IsFlight(a) && Join(a) <= s
    ensures IsMessage(a[0]) && a[0] <= s && |s| >= 4 && |a[0]| == MessageLen(s)
    ensures |a| > 1 <==> a[0][0] != FINISHED
    ensures |a| > 1 ==> IsFlight(a[1..]) && Join(a[1..]) <= s[|a[0]|..]
  {
    hide Join, BeforeFinished;
    JoinFront(a[0], a[1..]);
    assert a == [a[0]] + a[1..];
    if |a| > 1 {
      LaterMessages(a);
    }
    PrefixOfSum(a[0], Join(a[1..]), s);
    assert a[0][..4] == s[..4] && MessageLen(a[0]) == MessageLen(s);
  }

  lemma PrefixOfSum(a: seq<uint8>, b: seq<uint8>, s: seq<uint8>)
    requires a + b <= s
    ensures a <= s && b <= s[|a|..]
    ensures |a| >= 4 ==> a[..4] == s[..4] && a[1] == s[1] && a[2] == s[2] && a[3] == s[3]
  {
    assert (a + b)[..|a|] == a && (a + b)[|a|..] == b;
  }

  lemma LaterMessages(a: seq<seq<uint8>>)
    requires IsFlight(a) && |a| > 1
    ensures IsMessage(a[0]) && a[0][0] != FINISHED && IsFlight(a[1..])
  {
    var t := a[1..];
    assert a[0] == a[..|a| - 1][0];
    assert t[..|t| - 1] == a[..|a| - 1][1..];
  }

  // ----------------------------------------------------------------- the records

  /** A record as it came: header bytes and body. */
  datatype Raw = Raw(header: seq<uint8>, body: seq<uint8>)

  function Flat(raws: seq<Raw>): seq<uint8> {
    if raws == [] then [] else Flat(raws[..|raws| - 1]) + raws[|raws| - 1].header + raws[|raws| - 1].body
  }

  predicate IsApp(r: Raw) { |r.header| == 5 && r.header[0] == APPDATA }

  function Opens(raws: seq<Raw>): nat {
    if raws == [] then 0 else Opens(raws[..|raws| - 1]) + (if IsApp(raws[|raws| - 1]) then 1 else 0)
  }

  /** What one protected record contributes to the handshake stream. */
  function Payload(k: Keys, seqNo: nat, body: seq<uint8>): seq<uint8> {
    match OpenRecord(k, seqNo, body)
    case Refused => []
    case Plain(inner) =>
      match Strip(inner)
      case Bad => []
      case Content(kind, data) => if kind == HANDSHAKE then data else []
  }

  /** The concatenated handshake payloads of the records read so far. */
  function HandshakeStream(k: Keys, seqNo: nat, raws: seq<Raw>): seq<uint8> {
    if raws == [] then []
    else
      var n := |raws| - 1;
      HandshakeStream(k, seqNo, raws[..n])
      + (if IsApp(raws[n]) then Payload(k, seqNo + Opens(raws[..n]), raws[n].body) else [])
  }

  /** The handshake messages' bytes in a list of the peer's records. */
  function HandshakeData(rs: seq<Record>): seq<uint8> {
    if rs == [] then []
    else
      var r := rs[|rs| - 1];
      HandshakeData(rs[..|rs| - 1]) + if r.Protected? && r.kind == HANDSHAKE then r.content else []
  }

  /** The peer's records as they come off the wire. */
  function RawsOf(k: Keys, seqNo: nat, rs: seq<Record>): (raws: seq<Raw>)
    requires forall r <- rs :: r.Fits()
    ensures |raws| == |rs|
  {
    if rs == [] then []
    else
      var n := |rs| - 1;
      var w := OneRecord(k, NumberAt(seqNo, rs, n), rs[n]);
      RecordShape(k, NumberAt(seqNo, rs, n), rs[n]);
      RawsOf(k, seqNo, rs[..n]) + [Raw(w[..5], w[5..])]
  }

  /** However a peer cuts its handshake bytes into records, pads them and puts other records between them,
      those bytes are what the client takes out of the records. */
  lemma {:induction false} PeerHandshake(k: Keys, seqNo: nat, rs: seq<Record>)
    requires forall r <- rs :: r.Fits()
    ensures Flat(RawsOf(k, seqNo, rs)) == Wire(k, seqNo, rs)
    ensures Opens(RawsOf(k, seqNo, rs)) == Protections(rs)
    ensures HandshakeStream(k, seqNo, RawsOf(k, seqNo, rs)) == HandshakeData(rs)
  {
    hide Wire, OneRecord, RawsOf, Flat, Opens, HandshakeStream, HandshakeData, Protections;
    if rs == [] {
      NothingOnWire(k, seqNo);
      NoRaws(k, seqNo);
      NothingSaid(k, seqNo);
    } else {
      var n := |rs| - 1;
      PeerHandshake(k, seqNo, rs[..n]);
      OneMoreSaid(k, seqNo, rs[..n], rs[n]);
      assert rs == rs[..n] + [rs[n]];
    }
  }

  lemma NothingSaid(k: Keys, seqNo: nat)
    ensures RawsOf(k, seqNo, []) == [] && HandshakeData([]) == []
  {
  }

  lemma OneMoreSaid(k: Keys, seqNo: nat, rs: seq<Record>, r: Record)
    requires r.Fits() && forall q <- rs :: q.Fits()
    requires var raws := RawsOf(k, seqNo, rs);
             && Flat(raws) == Wire(k, seqNo, rs) && Opens(raws) == Protections(rs)
             && HandshakeStream(k, seqNo, raws) == HandshakeData(rs)
    ensures var raws, all := RawsOf(k, seqNo, rs + [r]), rs + [r];
            && Flat(raws) == Wire(k, seqNo, all) && Opens(raws) == Protections(all)
            && HandshakeStream(k, seqNo, raws) == HandshakeData(all)
  {
    hide Wire, OneRecord, OpenRecord, Strip, Inner, RawsOf, Flat, Opens, HandshakeStream, Protections, Payload;
    var w := OneRecord(k, seqNo + Protections(rs), r);
    RawsSnoc(k, seqNo, rs, r);
    RecordShape(k, seqNo + Protections(rs), r);
    RawTaken(k, seqNo, RawsOf(k, seqNo, rs), Raw(w[..5], w[5..]));
    OneMoreOnWire(k, seqNo, rs, r);
    assert (rs + [r])[..|rs|] == rs && w[..5] + w[5..] == w;
    assert Flat(RawsOf(k, seqNo, rs)) + w[..5] + w[5..] == Flat(RawsOf(k, seqNo, rs)) + w;
    if r.Protected? {
      PayloadIs(k, seqNo + Protections(rs), w[5..], r.kind, r.content);
    }
  }

  lemma RawsSnoc(k: Keys, seqNo: nat, rs: seq<Record>, r: Record)
    requires r.Fits() && forall q <- rs :: q.Fits()
    ensures var w := OneRecord(k, seqNo + Protections(rs), r);
            |w| >= 5 && RawsOf(k, seqNo, rs + [r]) == RawsOf(k, seqNo, rs) + [Raw(w[..5], w[5..])]
  {
    hide OneRecord, Protections;
    RecordShape(k, seqNo + Protections(rs), r);
    assert (rs + [r])[..|rs|] == rs;
  }

  lemma OneMoreOnWire(k: Keys, seqNo: nat, rs: seq<Record>, r: Record)
    ensures Wire(k, seqNo, rs + [r]) == Wire(k, seqNo, rs) + OneRecord(k, seqNo + Protections(rs), r)
    ensures Protections(rs + [r]) == Protections(rs) + if r.Protected? then 1 else 0
  {
    hide OneRecord;
    WireConcat(k, seqNo, rs, [r]);
    ProtectionsConcat(rs, [r]);
  }

  lemma NothingOnWire(k: Keys, seqNo: nat)
    ensures Wire(k, seqNo, []) == [] && Protections([]) == 0
  {
  }

  /** The client's check of a Finished against the transcript before it: the first 32 bytes of its body. */
  predicate ChecksOut(s: Schedule, finishedKey: Digest, transcript: seq<uint8>, msg: seq<uint8>) {
    |msg| >= 36 && msg[4..36] == s.hmac(finishedKey, s.hash(transcript))
  }

  /** Section 4.4.4 of RFC 8446: the body is the HMAC and nothing else. */
  predicate IsRfcFinished(s: Schedule, finishedKey: Digest, transcript: seq<uint8>, msg: seq<uint8>) {
    |msg| == 36 && msg[4..] == s.hmac(finishedKey, s.hash(transcript))
  }

  /** Where the client's check departs from the RFC: on exactly the longer messages that begin like a
      good one. */
  lemma FinishedDeparts(s: Schedule, finishedKey: Digest, transcript: seq<uint8>, msg: seq<uint8>)
    ensures (ChecksOut(s, finishedKey, transcript, msg) <==> IsRfcFinished(s, finishedKey, transcript, msg)) <==>
      |msg| <= 36 || msg[4..36] != s.hmac(finishedKey, s.hash(transcript))
  {
    if |msg| == 36 {
      assert msg[4..36] == msg[4..];
    }
  }

  /** The client accepts a flight that ends in a Finished of 33 bytes. */
  lemma LongFinished(s: Schedule, finishedKey: Digest, start: seq<uint8>)
    ensures var m := [FINISHED, 0, 0, 33] + s.hmac(finishedKey, s.hash(start)) + [0];
            && |m| == 37 && Accepted(s, finishedKey, start, start + m, m, [m])
            && !IsRfcFinished(s, finishedKey, start, m)
  {
    var h := s.hmac(finishedKey, s.hash(start));
    var m := [FINISHED, 0, 0, 33] + h + [0];
    assert m[4..36] == h;
    var msgs: seq<seq<uint8>> := [m];
    assert Join(msgs[..0]) == [] && start + Join(msgs[..0]) == start;
    assert Join(msgs) == [] + m == m;
    assert BeforeFinished(msgs[..0]);
  }

  /** Where the accepted flight stands: cut out of the handshake stream, hashed in order, and its
      Finished computed over exactly the messages before it. */
  ghost predicate Accepted(s: Schedule, finishedKey: Digest, start: seq<uint8>, end: seq<uint8>,
                           stream: seq<uint8>, msgs: seq<seq<uint8>>) {
    && IsFlight(msgs) && Join(msgs) <= stream && end == start + Join(msgs)
    && ChecksOut(s, finishedKey, start + Join(msgs[..|msgs| - 1]), msgs[|msgs| - 1])
  }

  /** The stream's flight ends in a Finished that is too short or does not match. */
  ghost predicate Mismatched(s: Schedule, finishedKey: Digest, start: seq<uint8>,
                             stream: seq<uint8>, msgs: seq<seq<uint8>>) {
    && IsFlight(msgs) && Join(msgs) <= stream
    && !ChecksOut(s, finishedKey, start + Join(msgs[..|msgs| - 1]), msgs[|msgs| - 1])
  }

  lemma AcceptedEnd(s: Schedule, key: Digest, start: seq<uint8>, end: seq<uint8>,
                    stream: seq<uint8>, msgs: seq<seq<uint8>>)
    requires Accepted(s, key, start, end, stream, msgs)
    ensures end == start + Join(msgs)
  {
  }

  /** Two accepted flights of one handshake stream are the same flight and the same transcript. */
  lemma AcceptedUnique(s: Schedule, key: Digest, start: seq<uint8>, end: seq<uint8>, end': seq<uint8>,
                       stream: seq<uint8>, a: seq<seq<uint8>>, b: seq<seq<uint8>>)
    requires Accepted(s, key, start, end, stream, a) && Accepted(s, key, start, end', stream, b)
    ensures a == b && end == end'
  {
    FlightUnique(stream, a, b);
  }

  /** The Finished check: the first 32 bytes of its body against the hash so far. */
  method VerifyFinished(s: Schedule, finishedKey: Digest, transcript: seq<uint8>, msg: seq<uint8>) returns (good: bool)
    ensures good <==> ChecksOut(s, finishedKey, transcript, msg)
  {
    if |msg| < 36 {
      return false;
    }
    good := Equal(s.hmac(finishedKey, s.hash(transcript)), msg[4..36]);
  }

  // -------------------------------------------------------------- the reading loop

  /** The reassembly buffer: bytes pos .. len-1 wait for the rest of their message. */
  class Reassembly {
    const hs: array<uint8>
    var len: nat
    var pos: nat

    ghost predicate Valid()
      reads this
    {
      hs.Length == BUFFER && pos <= len <= BUFFER
    }

    ghost function Waiting(): seq<uint8>
      requires Valid()
      reads this, hs
    {
      hs[pos..len]
    }

    constructor ()
      ensures Valid() && Waiting() == [] && fresh(hs)
    {
      hs := new uint8[BUFFER](_ => 0);
      len, pos := 0, 0;
    }

    /** Moves the waiting bytes to the front. */
    method Slide()
      requires Valid()
      modifies this`len, this`pos, hs
      ensures Valid() && pos == 0 && Waiting() == old(Waiting())
    {
      ghost var w := Waiting();
      var count := len - pos;
      for i := 0 to count
        invariant len == old(len) && pos == old(pos)
        invariant forall k :: 0 <= k < i ==> hs[k] == w[k]
        invariant forall k :: pos + i <= k < len ==> hs[k] == w[k - pos]
      {
        hs[i] := hs[pos + i];
      }
      assert hs[0..count] == w;
      len, pos := count, 0;
    }

    /** Appends a payload, sliding the waiting bytes down when it would not fit behind them. */
    method Add(data: array<uint8>, n: nat) returns (ok: bool)
      requires Valid() && n <= data.Length && data != hs
      modifies this`len, this`pos, hs
      ensures Valid()
      ensures ok <==> |old(Waiting())| + n <= BUFFER || old(len) + n <= BUFFER
      ensures ok ==> Waiting() == old(Waiting()) + data[..n]
    {
      if len + n > BUFFER {
        Slide();
        if len + n > BUFFER {
          return false;
        }
      }
      ghost var w, start := Waiting(), len;
      for i := 0 to n
        invariant Valid() && len == start + i
        invariant Waiting() == w + data[..i]
      {
        hs[len] := data[i];
        len := len + 1;
      }
      return true;
    }

    /** Takes one complete message off the front, if there is one. */
    method Pop() returns (complete: bool, msg: seq<uint8>)
      requires Valid()
      modifies this`pos
      ensures Valid() && pos >= old(pos)
      ensures complete ==> |msg| >= 4 && IsMessage(msg) && old(Waiting()) == msg + Waiting() && pos == old(pos) + |msg|
      ensures !complete ==> pos == old(pos)
    {
      msg := [];
      if len - pos < 4 {
        return false, msg;
      }
      var ml := hs[pos + 1] as int * 0x1_0000 + hs[pos + 2] as int * 0x100 + hs[pos + 3] as int;
      if len - pos < 4 + ml {
        return false, msg;
      }
      msg := hs[pos..pos + 4 + ml];
      pos := pos + 4 + ml;
      return true, msg;
    }

    /** Takes complete messages off the front: hashes each into the transcript, and stops at a
        Finished, which must match the hash of everything before it. */
    method TakeMessages(s: Schedule, finishedKey: Digest, transcript: seq<uint8>)
      returns (done: bool, refused: bool, after: seq<uint8>, ghost taken: seq<seq<uint8>>)
      requires Valid()
      modifies this`pos
      ensures Valid() && len == old(len)
      ensures !refused ==> old(Waiting()) == Join(taken) + Waiting() && after == transcript + Join(taken)
      ensures !refused && !done ==> BeforeFinished(taken)
      ensures done ==> !refused && Accepted(s, finishedKey, transcript, after, Join(taken), taken)
      ensures refused ==> Mismatched(s, finishedKey, transcript, old(Waiting()), taken)
    {
      hide Join, BeforeFinished, IsFlight, IsMessage, Accepted, Mismatched;
      done, refused, after, taken := false, false, transcript, [];
      NoMessages();
      while true
        invariant Valid() && len == old(len)
        invariant old(Waiting()) == Join(taken) + Waiting() && after == transcript + Join(taken)
        invariant BeforeFinished(taken)
        decreases len - pos
      {
        ghost var waiting := Waiting();
        var complete, msg := Pop();
        if !complete {
          break;
        }
        MessageTaken(taken, msg);
        Regroup(Join(taken), msg, Waiting());
        Regroup(transcript, Join(taken), msg);
        if msg[0] == FINISHED {
          var good := VerifyFinished(s, finishedKey, after, msg);
          if !good {
            FinishedRefused(s, finishedKey, transcript, taken, msg, old(Waiting()), Waiting());
            return false, true, after, taken + [msg];
          }
          FinishedTaken(s, finishedKey, transcript, taken, msg);
          return true, false, after + msg, taken + [msg];
        }
        after := after + msg;
        taken := taken + [msg];
      }
    }
  }

  lemma Regroup(a: seq<uint8>, b: seq<uint8>, c: seq<uint8>)
    ensures a + (b + c) == (a + b) + c
  {
  }

  lemma NoMessages()
    ensures Join([]) == [] && BeforeFinished([])
  {
  }

  lemma MessageTaken(taken: seq<seq<uint8>>, msg: seq<uint8>)
    requires BeforeFinished(taken) && IsMessage(msg)
    ensures |msg| >= 4
    ensures Join(taken + [msg]) == Join(taken) + msg
    ensures if msg[0] == FINISHED then IsFlight(taken + [msg]) else BeforeFinished(taken + [msg])
  {
    assert (taken + [msg])[..|taken|] == taken;
  }

  lemma FinishedRefused(s: Schedule, key: Digest, start: seq<uint8>, taken: seq<seq<uint8>>, msg: seq<uint8>,
                        stream: seq<uint8>, rest: seq<uint8>)
    requires IsFlight(taken + [msg]) && stream == Join(taken + [msg]) + rest
    requires !(|msg| >= 36 && msg[4..36] == s.hmac(key, s.hash(start + Join(taken))))
    ensures Mismatched(s, key, start, stream, taken + [msg])
  {
    assert (taken + [msg])[..|taken|] == taken;
  }

  lemma FinishedTaken(s: Schedule, key: Digest, start: seq<uint8>, taken: seq<seq<uint8>>, msg: seq<uint8>)
    requires IsFlight(taken + [msg]) && Join(taken + [msg]) == Join(taken) + msg
    requires |msg| >= 36 && msg[4..36] == s.hmac(key, s.hash(start + Join(taken)))
    ensures Accepted(s, key, start, start + Join(taken) + msg, Join(taken) + msg, taken + [msg])
  {
    assert (taken + [msg])[..|taken|] == taken;
    assert start + (Join(taken) + msg) == start + Join(taken) + msg;
  }

  // ---------------------------------------------------------------- the whole flight

  lemma {:induction false} JoinAppend(a: seq<seq<uint8>>, b: seq<seq<uint8>>)
    ensures Join(a + b) == Join(a) + Join(b)
    decreases |b|
  {
    if b == [] {
      assert a + b == a;
    } else {
      var n := |b| - 1;
      assert (a + b)[..|a| + n] == a + b[..n];
      JoinAppend(a, b[..n]);
    }
  }

  /** Messages taken earlier and an accepted tail make an accepted flight. */
  lemma ExtendAccepted(s: Schedule, key: Digest, start: seq<uint8>, before: seq<seq<uint8>>,
                       end: seq<uint8>, tail: seq<seq<uint8>>)
    requires BeforeFinished(before)
    requires Accepted(s, key, start + Join(before), end, Join(tail), tail)
    ensures Accepted(s, key, start, end, Join(before) + Join(tail), before + tail)
  {
    hide Join, BeforeFinished, IsFlight;
    var n := |tail| - 1;
    FlightBehind(before, tail);
    JoinAppend(before, tail);
    JoinAppend(before, tail[..n]);
    assert (before + tail)[..|before| + n] == before + tail[..n];
    assert start + Join(before) + Join(tail[..n]) == start + (Join(before) + Join(tail[..n]));
    assert start + Join(before) + Join(tail) == start + (Join(before) + Join(tail));
  }

  lemma FlightBehind(before: seq<seq<uint8>>, tail: seq<seq<uint8>>)
    requires BeforeFinished(before) && IsFlight(tail)
    ensures IsFlight(before + tail) && tail != []
  {
    var all, n := before + tail, |tail| - 1;
    assert all[..|all| - 1] == before + tail[..n] && all[|all| - 1] == tail[n];
  }

  lemma ExtendMismatched(s: Schedule, key: Digest, start: seq<uint8>, before: seq<seq<uint8>>,
                         stream: seq<uint8>, tail: seq<seq<uint8>>)
    requires BeforeFinished(before)
    requires Mismatched(s, key, start + Join(before), stream, tail)
    ensures Mismatched(s, key, start, Join(before) + stream, before + tail)
  {
    hide Join, BeforeFinished, IsFlight;
    var n := |tail| - 1;
    FlightBehind(before, tail);
    JoinAppend(before, tail);
    JoinAppend(before, tail[..n]);
    assert (before + tail)[..|before| + n] == before + tail[..n];
    assert start + Join(before) + Join(tail[..n]) == start + (Join(before) + Join(tail[..n]));
  }

  lemma LongerStream(s: Schedule, key: Digest, start: seq<uint8>, end: seq<uint8>,
                     a: seq<uint8>, b: seq<uint8>, msgs: seq<seq<uint8>>)
    requires Accepted(s, key, start, end, a, msgs) && a <= b
    ensures Accepted(s, key, start, end, b, msgs)
  {
  }

  lemma RawTaken(k: Keys, seqNo: nat, raws: seq<Raw>, r: Raw)
    ensures Flat(raws + [r]) == Flat(raws) + r.header + r.body
    ensures Opens(raws + [r]) == Opens(raws) + (if IsApp(r) then 1 else 0)
    ensures HandshakeStream(k, seqNo, raws + [r])
         == HandshakeStream(k, seqNo, raws) + (if IsApp(r) then Payload(k, seqNo + Opens(raws), r.body) else [])
  {
    hide Payload;
    assert (raws + [r])[..|raws|] == raws;
  }

  lemma NoRaws(k: Keys, seqNo: nat)
    ensures Flat([]) == [] && Opens([]) == 0 && HandshakeStream(k, seqNo, []) == []
  {
  }

  /** Where `readEncryptedFlight` stops: the stage names of the source. */
  datatype Stage = FlightOk | FlightTimeout | FlightAlert | FlightBadMac | FlightEncAlert
                 | FlightOverflow | ServerFinishedMismatch

  /** What the last record of the consumed ones says about a stage that reading it ended in. */
  ghost predicate Explains(stage: Stage, k: Keys, seq0: nat, raws: seq<Raw>) {
    raws != [] &&
    var n := |raws| - 1;
    var result := OpenRecord(k, seq0 + Opens(raws[..n]), raws[n].body);
    |raws[n].header| == 5 &&
    match stage
    case FlightAlert => raws[n].header[0] == ALERT
    case FlightBadMac => IsApp(raws[n]) && (result.Refused? || Strip(result.text).Bad?)
    case FlightEncAlert => IsApp(raws[n]) && result.Plain? && Strip(result.text).Content?
                           && Strip(result.text).kind == ALERT
    case _ => false
  }

  /** The record behind the consumed ones announces more than the buffer holds. */
  ghost predicate Oversized(stream: seq<uint8>, raws: seq<Raw>) {
    && Flat(raws) <= stream && |stream| >= |Flat(raws)| + 5
    && Length(stream[|Flat(raws)|..]) > BUFFER
  }

  lemma IsOversized(stream: seq<uint8>, raws: seq<Raw>, tail: seq<uint8>)
    requires stream == Flat(raws) + tail && |tail| >= 5 && Length(tail) > BUFFER
    ensures Oversized(stream, raws)
  {
    assert stream[|Flat(raws)|..] == tail;
  }

  lemma Explained(stage: Stage, k: Keys, seq0: nat, raws: seq<Raw>, r: Raw)
    requires |r.header| == 5
    requires match stage
             case FlightAlert => r.header[0] == ALERT
             case FlightBadMac => IsApp(r) && (OpenRecord(k, seq0 + Opens(raws), r.body).Refused?
                                               || Strip(OpenRecord(k, seq0 + Opens(raws), r.body).text).Bad?)
             case FlightEncAlert => IsApp(r) && OpenRecord(k, seq0 + Opens(raws), r.body).Plain?
                                    && Strip(OpenRecord(k, seq0 + Opens(raws), r.body).text).Content?
                                    && Strip(OpenRecord(k, seq0 + Opens(raws), r.body).text).kind == ALERT
             case _ => false
    ensures Explains(stage, k, seq0, raws + [r])
  {
    hide OpenRecord, Strip, Opens;
    assert (raws + [r])[..|raws|] == raws;
  }

  /** One record of the flight; n bytes of handshake payload are in plain, none for other kinds. */
  method NextPayload(c: TlsClient, plain: array<uint8>, ghost seq0: nat, ghost raws: seq<Raw>)
    returns (stage: Stage, n: nat, ghost more: seq<Raw>)
    requires c.Valid() && c.haveRecvKeys && plain.Length == BUFFER && plain != c.rec
    requires c.recvSeq == seq0 + Opens(raws)
    modifies c`incoming, c`gaveUp, c`recvSeq, c.rec, plain
    ensures c.Valid() && n <= BUFFER
    ensures stage == FlightTimeout ==> c.gaveUp || (|old(c.incoming)| >= 5 && Length(old(c.incoming)) > BUFFER)
    ensures if stage == FlightTimeout then more == raws else Flat(raws) + old(c.incoming) == Flat(more) + c.incoming
    ensures stage == FlightOk ==> |c.incoming| < |old(c.incoming)| && c.recvSeq == seq0 + Opens(more)
    ensures stage == FlightOk ==>
      HandshakeStream(c.recvKeys, seq0, more) == HandshakeStream(c.recvKeys, seq0, raws) + plain[..n]
    ensures stage !in {FlightOverflow, ServerFinishedMismatch}
    ensures stage == FlightOk || stage == FlightTimeout || Explains(stage, c.recvKeys, seq0, more)
  {
    hide OpenRecord, Strip, Payload, HandshakeStream, Flat, Opens, Explains;
    ghost var stream, k, s := c.incoming, c.recvKeys, c.recvSeq;
    n, more := 0, raws;
    var ok, kind, rlen := c.ReadRecord();
    if !ok {
      return FlightTimeout, 0, raws;
    }
    ghost var r := Raw(stream[..5], c.rec[..rlen]);
    RawTaken(k, seq0, raws, r);
    more := raws + [r];
    if kind == ALERT {
      Explained(FlightAlert, k, seq0, raws, r);
      return FlightAlert, 0, more;
    }
    if kind != APPDATA {
      return FlightOk, 0, more;
    }
    var innerType;
    ok, innerType, n := c.DecryptRecord(rlen, plain);
    assert c.rec[..rlen] == r.body;
    if !ok {
      Explained(FlightBadMac, k, seq0, raws, r);
      return FlightBadMac, 0, more;
    }
    PayloadIs(k, s, r.body, innerType, plain[..n]);
    if innerType == ALERT {
      Explained(FlightEncAlert, k, seq0, raws, r);
      return FlightEncAlert, 0, more;
    }
    if innerType != HANDSHAKE {
      n := 0;
    }
    stage := FlightOk;
  }

  /** Buffers one payload and takes the messages it completes. */
  method Feed(buf: Reassembly, plain: array<uint8>, n: nat, s: Schedule, finishedKey: Digest, transcript: seq<uint8>)
    returns (stage: Stage, done: bool, after: seq<uint8>, ghost taken: seq<seq<uint8>>)
    requires buf.Valid() && n <= plain.Length && plain != buf.hs
    modifies buf`len, buf`pos, buf.hs
    ensures buf.Valid()
    ensures stage == FlightOk ==>
      old(buf.Waiting() + plain[..n]) == Join(taken) + buf.Waiting() && after == transcript + Join(taken)
    ensures stage == FlightOk && !done ==> BeforeFinished(taken)
    ensures stage == FlightOk && done ==> Accepted(s, finishedKey, transcript, after, Join(taken), taken)
    ensures stage == FlightOk || stage == FlightOverflow || stage == ServerFinishedMismatch
    ensures stage == FlightOverflow ==> |old(buf.Waiting())| + n > BUFFER
    ensures stage == ServerFinishedMismatch ==>
      Mismatched(s, finishedKey, transcript, old(buf.Waiting() + plain[..n]), taken)
  {
    hide Join, BeforeFinished, Accepted, Mismatched;
    done, after, taken := false, transcript, [];
    var ok := buf.Add(plain, n);
    if !ok {
      return FlightOverflow, false, transcript, [];
    }
    var refused;
    done, refused, after, taken := buf.TakeMessages(s, finishedKey, transcript);
    stage := if refused then ServerFinishedMismatch else FlightOk;
  }

  lemma StreamStep(h: seq<uint8>, m: seq<uint8>, w: seq<uint8>, p: seq<uint8>, t: seq<uint8>, rest: seq<uint8>)
    requires h == m + w + p && w + p == t + rest
    ensures h == (m + t) + rest && m + t <= h
  {
    assert m + w + p == m + (w + p);
    assert m + (t + rest) == (m + t) + rest;
  }

  /** `readEncryptedFlight`. What it accepts is determined by the handshake stream of the records it
      consumed, however they fragmented or coalesced the messages; and every other stage it ends in
      has its reason in those records. */
  method ReadEncryptedFlight(c: TlsClient, buf: Reassembly, plain: array<uint8>,
                             s: Schedule, finishedKey: Digest, start: seq<uint8>)
    returns (stage: Stage, end: seq<uint8>, ghost raws: seq<Raw>, ghost msgs: seq<seq<uint8>>)
    requires c.Valid() && c.haveRecvKeys && buf.Valid() && buf.Waiting() == []
    requires plain.Length == BUFFER && plain !in {c.rec, buf.hs} && buf.hs != c.rec
    modifies c`incoming, c`gaveUp, c`recvSeq, c.rec, buf`len, buf`pos, buf.hs, plain
    ensures c.Valid()
    ensures stage != FlightTimeout ==> old(c.incoming) == Flat(raws) + c.incoming
    ensures stage == FlightOk ==> c.recvSeq == old(c.recvSeq) + Opens(raws)
    ensures var stream := HandshakeStream(c.recvKeys, old(c.recvSeq), raws);
      match stage
      case FlightOk => Accepted(s, finishedKey, start, end, stream, msgs)
      case FlightTimeout => c.gaveUp || Oversized(old(c.incoming), raws)
      case FlightOverflow => BeforeFinished(msgs) && Join(msgs) <= stream && |stream| > |Join(msgs)| + BUFFER
      case ServerFinishedMismatch => Mismatched(s, finishedKey, start, stream, msgs)
      case _ => Explains(stage, c.recvKeys, old(c.recvSeq), raws)
  {
    hide Join, BeforeFinished, Accepted, Mismatched, Explains, HandshakeStream, Flat, Opens;
    ghost var seq0, k := c.recvSeq, c.recvKeys;
    end, raws, msgs := start, [], [];
    NoMessages();
    NoRaws(k, seq0);
    while true
      invariant c.Valid() && buf.Valid()
      invariant old(c.incoming) == Flat(raws) + c.incoming && c.recvSeq == seq0 + Opens(raws)
      invariant HandshakeStream(k, seq0, raws) == Join(msgs) + buf.Waiting()
      invariant end == start + Join(msgs) && BeforeFinished(msgs)
      decreases |c.incoming|
    {
      var n;
      ghost var tail, soFar := c.incoming, raws;
      stage, n, raws := NextPayload(c, plain, seq0, raws);
      if stage != FlightOk {
        if stage == FlightTimeout && !c.gaveUp {
          IsOversized(old(c.incoming), soFar, tail);
        }
        return;
      }
      if n == 0 {
        assert plain[..n] == [];
        continue;
      }
      var done, after;
      ghost var taken, waiting := [], buf.Waiting();
      stage, done, after, taken := Feed(buf, plain, n, s, finishedKey, end);
      ghost var stream := HandshakeStream(k, seq0, raws);
      if stage == ServerFinishedMismatch {
        ExtendMismatched(s, finishedKey, start, msgs, waiting + plain[..n], taken);
        assert stream == Join(msgs) + (waiting + plain[..n]);
        msgs := msgs + taken;
        return;
      }
      if stage == FlightOverflow {
        return;
      }
      StreamStep(stream, Join(msgs), waiting, plain[..n], Join(taken), buf.Waiting());
      if done {
        ExtendAccepted(s, finishedKey, start, msgs, after, taken);
        LongerStream(s, finishedKey, start, after, Join(msgs) + Join(taken), stream, msgs + taken);
        return FlightOk, after, raws, msgs + taken;
      }
      JoinAppend(msgs, taken);
      BothBefore(msgs, taken);
      end := after;
      msgs := msgs + taken;
    }
  }

  lemma BothBefore(a: seq<seq<uint8>>, b: seq<seq<uint8>>)
    requires BeforeFinished(a) && BeforeFinished(b)
    ensures BeforeFinished(a + b)
  {
  }

  lemma PayloadIs(k: Keys, seqNo: nat, body: seq<uint8>, kind: uint8, data: seq<uint8>)
    requires OpenRecord(k, seqNo, body).Plain?
    requires Strip(OpenRecord(k, seqNo, body).text) == Content(kind, data)
    ensures Payload(k, seqNo, body) == if kind == HANDSHAKE then data else []
  {
    hide OpenRecord, Strip;
  }

  // ------------------------------------------------------------ after the flight

  /** The client's Finished message for a transcript. */
  function ClientFinished(s: Schedule, cHsTraffic: Digest, transcript: seq<uint8>): seq<uint8> {
    [FINISHED, 0, 0, 32] + s.hmac(s.expand(cHsTraffic, "finished", []), s.hash(transcript))
  }

  /** It is the Finished a server expects: one message whose HMAC is under the finished key of the client's
      handshake traffic secret (section 4.4.4 of RFC 8446). */
  lemma ClientFinishedIsRfc(s: Schedule, cHsTraffic: Digest, transcript: seq<uint8>)
    ensures var m := ClientFinished(s, cHsTraffic, transcript);
            && IsMessage(m) && m[0] == FINISHED
            && IsRfcFinished(s, s.expand(cHsTraffic, "finished", []), transcript, m)
            && ChecksOut(s, s.expand(cHsTraffic, "finished", []), transcript, m)
  {
    var m := ClientFinished(s, cHsTraffic, transcript);
    assert m[4..] == s.hmac(s.expand(cHsTraffic, "finished", []), s.hash(transcript)) && m[4..36] == m[4..];
  }

  /** The part of `handshake` behind the key exchange. When it establishes the connection, one and the
      same transcript, ending with the server Finished that was checked, gave the application keys of
      both directions and the client Finished; that message went out under the handshake keys, and
      both directions start again at sequence number zero. */
  method Establish(c: TlsClient, buf: Reassembly, plain: array<uint8>, s: Schedule,
                   cHsTraffic: Digest, sHsTraffic: Digest, master: Digest, start: seq<uint8>)
    returns (ok: bool, ghost raws: seq<Raw>, ghost msgs: seq<seq<uint8>>)
    requires c.Valid() && c.haveSendKeys && c.haveRecvKeys && buf.Valid() && buf.Waiting() == []
    requires plain.Length == BUFFER && plain !in {c.rec, buf.hs} && buf.hs != c.rec
    modifies c, c.rec, buf`len, buf`pos, buf.hs, plain
    ensures c.Valid() && c.appPos == old(c.appPos) && c.appLen == old(c.appLen)
    ensures ok ==> c.est && c.sendSeq == 0 && c.recvSeq == 0
    ensures ok ==>
      var end := start + Join(msgs);
      && Accepted(s, s.expand(sHsTraffic, "finished", []), start, end,
                  HandshakeStream(old(c.recvKeys), old(c.recvSeq), raws), msgs)
      && old(c.incoming) == Flat(raws) + c.incoming
      && c.sendKeys == s.keys(s.expand(master, "c ap traffic", s.hash(end)))
      && c.recvKeys == s.keys(s.expand(master, "s ap traffic", s.hash(end)))
      && c.outgoing == old(c.outgoing)
         + SealRecord(old(c.sendKeys), old(c.sendSeq), HANDSHAKE, ClientFinished(s, cHsTraffic, end), 0)
      && IsRfcFinished(s, s.expand(cHsTraffic, "finished", []), end, ClientFinished(s, cHsTraffic, end))
  {
    hide Join, HandshakeStream, Flat, SealRecord, IsFlight, Explains, Mismatched, Oversized, Accepted, ChecksOut, ClientFinished, IsRfcFinished;
    var stage, end;
    stage, end, raws, msgs := ReadEncryptedFlight(c, buf, plain, s, s.expand(sHsTraffic, "finished", []), start);
    if stage != FlightOk {
      return false, raws, msgs;
    }
    AcceptedEnd(s, s.expand(sHsTraffic, "finished", []), start, end,
                HandshakeStream(old(c.recvKeys), old(c.recvSeq), raws), msgs);
    ok := SwitchKeys(c, s, cHsTraffic, master, end);
  }

  /** `deriveApplicationKeys`, `sendClientFinished` and the switch to application keys. */
  method SwitchKeys(c: TlsClient, s: Schedule, cHsTraffic: Digest, master: Digest, end: seq<uint8>) returns (ok: bool)
    requires c.haveSendKeys
    modifies c`sendSeq, c`outgoing, c`sendKeys, c`recvKeys, c`recvSeq, c`est
    ensures ok ==>
      && c.est && c.sendSeq == 0 && c.recvSeq == 0
      && c.sendKeys == s.keys(s.expand(master, "c ap traffic", s.hash(end)))
      && c.recvKeys == s.keys(s.expand(master, "s ap traffic", s.hash(end)))
      && c.outgoing == old(c.outgoing)
         + SealRecord(old(c.sendKeys), old(c.sendSeq), HANDSHAKE, ClientFinished(s, cHsTraffic, end), 0)
      && IsRfcFinished(s, s.expand(cHsTraffic, "finished", []), end, ClientFinished(s, cHsTraffic, end))
  {
    hide SealRecord, ClientFinished, IsRfcFinished;
    ClientFinishedIsRfc(s, cHsTraffic, end);
    var cAp := s.expand(master, "c ap traffic", s.hash(end));
    var sAp := s.expand(master, "s ap traffic", s.hash(end));
    ok := c.SendEncryptedRecord(HANDSHAKE, ClientFinished(s, cHsTraffic, end));
    if ok {
      c.sendKeys, c.sendSeq := s.keys(cAp), 0;
      c.recvKeys, c.recvSeq := s.keys(sAp), 0;
      c.est := true;
    }
  }
}
