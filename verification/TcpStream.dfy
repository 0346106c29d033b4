/** The receive side of one TCP session: the handler, the reader and the compactor share a buffer. */
module TcpStream {
  import opened Bitwise
  import opened Bytes

  const TWO32 := 0x1_0000_0000
  const TWO31 := 0x8000_0000

  /** Bytes the receive buffer can hold; its last cell is kept for a terminator. */
  const CAPACITY: nat := 16383

  function Plus(a: uint32, n: int): uint32 { (a + n) % TWO32 }
  function Minus(a: uint32, b: uint32): uint32 { (a - b) % TWO32 }

  /** The cast of an unsigned difference to a signed 32-bit integer. */
  function Signed(x: uint32): int { if x < TWO31 then x else x - TWO32 }

  // ------------------------------------------------------------------ one segment

  datatype Segment = Segment(srcIp: uint32, srcPort: uint16, dstPort: uint16,
                             seqNo: uint32, ackNo: uint32, dataOffset: nat, flags: uint8, body: seq<uint8>)
  {
    predicate Rst() { And(flags, 0x04) != 0 }
    predicate SynAck() { And(flags, 0x12) == 0x12 }
    predicate Fin() { And(flags, 0x01) != 0 }

    /** The data behind the header and its options. */
    function Payload(): seq<uint8>
      requires dataOffset <= |body|
    {
      body[dataOffset..]
    }
  }

  function Read16(b: seq<uint8>): uint16
    requires |b| == 2
  {
    b[0] as int * 0x100 + b[1] as int
  }

  function Read32(b: seq<uint8>): uint32
    requires |b| == 4
  {
    b[0] as int * 0x100_0000 + b[1] as int * 0x1_0000 + b[2] as int * 0x100 + b[3] as int
  }

  /** The fields of the TCP header behind an IP header of ihl bytes. */
  function Fields(ip: seq<uint8>, ihl: nat): Segment
    requires 20 <= ihl && ihl + 20 <= |ip|
  {
    var tcp := ip[ihl..];
    Segment(Read32(ip[12..16]), Read16(tcp[0..2]), Read16(tcp[2..4]), Read32(tcp[4..8]), Read32(tcp[8..12]),
            tcp[12] / 16 * 4, tcp[13], tcp)
  }

  /** Where the header of section 3.1 of RFC 9293, behind that of IPv4, has its fields, high octet first. */
  lemma FieldsAt(ip: seq<uint8>, ihl: nat)
    requires 20 <= ihl && ihl + 20 <= |ip|
    ensures var g := Fields(ip, ihl);
            && g.srcIp == Number(ip[12..16])
            && g.srcPort == Number(ip[ihl..ihl + 2]) && g.dstPort == Number(ip[ihl + 2..ihl + 4])
            && g.seqNo == Number(ip[ihl + 4..ihl + 8]) && g.ackNo == Number(ip[ihl + 8..ihl + 12])
            && g.dataOffset == 4 * (ip[ihl + 12] as int / 0x10) && g.flags == ip[ihl + 13]
            && (g.dataOffset <= |g.body| ==> g.Payload() == ip[ihl + g.dataOffset..])
  {
    hide Number;
    var tcp := ip[ihl..];
    Four(ip[12..16]);
    NumberOfTwo(tcp[0..2]);
    NumberOfTwo(tcp[2..4]);
    Four(tcp[4..8]);
    Four(tcp[8..12]);
    assert tcp[0..2] == ip[ihl..ihl + 2] && tcp[2..4] == ip[ihl + 2..ihl + 4];
    assert tcp[4..8] == ip[ihl + 4..ihl + 8] && tcp[8..12] == ip[ihl + 8..ihl + 12];
  }

  lemma Four(b: seq<uint8>)
    requires |b| == 4
    ensures Read32(b) == Number(b)
  {
    hide Number;
    NumberOfTwo(b[..2]);
    assert b == b[..2] + [b[2]] + [b[3]];
    NumberSnoc(b[..2], b[2]);
    NumberSnoc(b[..2] + [b[2]], b[3]);
  }

  /** The flags by their bits: FIN is bit 0, SYN bit 1, RST bit 2, ACK bit 4. */
  lemma FlagBits(g: Segment)
    ensures g.Fin() <==> g.flags % 2 == 1
    ensures g.Rst() <==> g.flags / 4 % 2 == 1
    ensures g.SynAck() <==> g.flags / 2 % 2 == 1 && g.flags / 0x10 % 2 == 1
  {
    hide And;
    MaskBits(g.flags);
  }

  lemma MaskBits(x: int)
    ensures And(x, 1) == x % 2 && And(x, 4) == 4 * (x / 4 % 2)
    ensures And(x, 0x12) == 2 * (x / 2 % 2) + 0x10 * (x / 0x10 % 2)
  {
    hide And;
    LowBit(x);
    MaskFour(x);
    AndEven(x, 9);
    AndUnfold(x / 2, 9);
    MaskFour(x / 4);
    assert x / 2 / 2 == x / 4 && x / 4 / 4 == x / 0x10;
  }

  lemma MaskFour(x: int)
    ensures And(x, 4) == 4 * (x / 4 % 2)
  {
    hide And;
    AndEven(x, 2);
    AndEven(x / 2, 1);
    LowBit(x / 4);
    assert x / 2 / 2 == x / 4;
  }

  lemma LowBit(x: int)
    ensures And(x, 1) == x % 2
  {
    hide And;
    AndMask(x, 1);
    Pow2Known();
  }

  // -------------------------------------------------------------- session on values

  /** What the session fields hold; stored is the used part of the buffer. */
  datatype Session = Session(remoteIp: uint32, destPort: uint16, sourcePort: uint16,
                             sndSeq: uint32, rcvNext: uint32,
                             synAck: bool, fin: bool, rst: bool, dataSeen: bool,
                             stored: seq<uint8>, consumed: nat, acks: seq<uint32>)
  {
    ghost predicate Valid() {
      consumed <= |stored| <= CAPACITY
    }

    function Unread(): seq<uint8>
      requires consumed <= |stored|
    {
      stored[consumed..]
    }

    predicate Mine(g: Segment) {
      g.srcIp == remoteIp && g.srcPort == destPort && g.dstPort == sourcePort
    }
  }

  function Opened(ip: uint32, port: uint16, local: uint16, iss: uint32): Session {
    Session(ip, port, local, iss, 0, false, false, false, false, [], 0, [])
  }

  /** A new session is for one peer and port, and has seen nothing. */
  lemma OpenedFor(ip: uint32, port: uint16, local: uint16, iss: uint32, g: Segment)
    ensures var s := Opened(ip, port, local, iss);
            && (s.Mine(g) <==> g.srcIp == ip && g.srcPort == port && g.dstPort == local)
            && s.Valid() && s.Unread() == [] && !s.synAck && !s.fin && !s.rst && !s.dataSeen && s.acks == []
            && (g.SynAck() && g.ackNo == Plus(iss, 1) ==> TakeSynAck(s, g).rcvNext == Plus(g.seqNo, 1))
  {
    hide And;
  }

  /** Slides the unread bytes to the front. */
  function Compact(s: Session): Session
    requires s.Valid()
  {
    s.(stored := s.stored[s.consumed..], consumed := 0)
  }

  /** Whether a payload of len bytes at seqNo covers the next byte expected. */
  predicate Covers(rcvNext: uint32, seqNo: uint32, len: int) {
    && Signed(Minus(seqNo, rcvNext)) <= 0
    && Signed(Minus(rcvNext, Plus(seqNo, len))) < 0
  }

  lemma MinusBack(a: uint32, b: uint32)
    ensures Minus(b, a) == if a == b then 0 else TWO32 - Minus(a, b)
  {
  }

  lemma MinusPlus(a: uint32, b: uint32, n: nat)
    requires n < 0x1_0000
    ensures var d := Minus(a, b); Minus(a, Plus(b, n)) == if d >= n then d - n else d - n + TWO32
  {
    assert Plus(b, n) == if b + n < TWO32 then b + n else b + n - TWO32;
    assert Minus(a, b) == if a >= b then a - b else a - b + TWO32;
  }

  /** Only payloads that really start at or before the expected byte and end behind it pass. */
  lemma CoversSkip(rcvNext: uint32, seqNo: uint32, len: int)
    requires 0 < len < 0x1_0000
    ensures Covers(rcvNext, seqNo, len) <==> Minus(rcvNext, seqNo) < len
  {
    hide Plus, Minus;
    MinusBack(rcvNext, seqNo);
    MinusPlus(rcvNext, seqNo, len);
    MinusZero(rcvNext, seqNo);
  }

  lemma MinusZero(a: uint32, b: uint32)
    ensures Minus(a, b) == 0 <==> a == b
  {
  }

  lemma PlusMinus(a: uint32, b: uint32)
    ensures Plus(a, Minus(b, a)) == b
  {
  }

  /** Stores as much as fits behind what is stored. */
  function Behind(s: Session, novel: seq<uint8>): (r: Session)
    requires s.Valid()
    ensures r.Valid()
  {
    var n := if |novel| < CAPACITY - |s.stored| then |novel| else CAPACITY - |s.stored|;
    s.(stored := s.stored + novel[..n], rcvNext := Plus(s.rcvNext, n), dataSeen := true)
  }

  /** Stores as much as fits, compacting first when it does not fit behind what is stored. */
  function Store(s: Session, novel: seq<uint8>): (r: Session)
    requires s.Valid()
    ensures r.Valid()
  {
    Behind(if |novel| > CAPACITY - |s.stored| then Compact(s) else s, novel)
  }

  function Accept(s: Session, seqNo: uint32, payload: seq<uint8>): (r: Session)
    requires s.Valid() && |payload| < 0x1_0000
    ensures r.Valid()
  {
    if payload == [] then s
    else
      var t := if Covers(s.rcvNext, seqNo, |payload|) then
                 CoversSkip(s.rcvNext, seqNo, |payload|);
                 Store(s, payload[Minus(s.rcvNext, seqNo)..])
               else s;
      t.(acks := t.acks + [t.rcvNext])
  }

  function TakeFin(s: Session, finSeq: uint32): Session {
    if Signed(Minus(s.rcvNext, finSeq)) >= 0 then
      var next := if s.rcvNext == finSeq then Plus(finSeq, 1) else s.rcvNext;
      s.(rcvNext := next, fin := true, acks := s.acks + [next])
    else s
  }

  function TakeSynAck(s: Session, g: Segment): Session {
    if g.SynAck() && g.ackNo == Plus(s.sndSeq, 1)
    then s.(rcvNext := Plus(g.seqNo, 1), sndSeq := g.ackNo, synAck := true) else s
  }

  /** `handleTcp` on values. */
  function Handle(s: Session, g: Segment): (r: Session)
    requires s.Valid() && |g.body| < 0x1_0000
    ensures r.Valid()
  {
    if !s.Mine(g) || g.dataOffset < 20 || g.dataOffset > |g.body| then s
    else if g.Rst() then s.(rst := true)
    else
      var t := Accept(TakeSynAck(s, g), g.seqNo, g.Payload());
      if g.Fin() then TakeFin(t, Plus(g.seqNo, |g.Payload()|)) else t
  }

  /** Segments of another address or port, and those whose header is too short or too long, change nothing;
      a reset is noted and nothing else. */
  lemma HandleIgnores(s: Session, g: Segment)
    requires s.Valid() && |g.body| < 0x1_0000
    ensures var foreign := g.srcIp != s.remoteIp || g.srcPort != s.destPort || g.dstPort != s.sourcePort;
            var malformed := g.dataOffset < 20 || g.dataOffset > |g.body|;
            && (foreign || malformed ==> Handle(s, g) == s)
            && (!foreign && !malformed && g.Rst() ==> Handle(s, g) == s.(rst := true))
  {
    hide And, Accept, TakeFin, TakeSynAck;
  }

  /** `tcpStreamRead` and `tcpSessionDrain` once the waiting is over. */
  function Take(s: Session, n: nat): (r: (Session, seq<uint8>))
    requires s.Valid()
    ensures r.0.Valid()
  {
    var k := if |s.Unread()| < n then |s.Unread()| else n;
    (s.(consumed := s.consumed + k), s.Unread()[..k])
  }

  lemma CutFront(s: seq<uint8>, i: nat, n: nat, j: nat)
    requires i + n <= j <= |s|
    ensures s[..j][i..][..n] == s[i..i + n] && s[..j][i..] == s[i..j]
  {
  }

  // ------------------------------------------------------------- session in memory

  class Network {
    var lastTcpRemoteIp: uint32
    var lastTcpDestPort: uint16
    var lastTcpSourcePort: uint16
    var lastTcpSeq: uint32
    var lastTcpAck: uint32
    var tcpSynAckSeen: bool
    var tcpFinSeen: bool
    var tcpRstSeen: bool
    var tcpDataSeen: bool
    const tcpRxBuffer: array<uint8>
    var tcpRxLen: uint16
    var tcpConsumed: uint16
    var sentAcks: seq<uint32>

    ghost predicate Valid()
      reads this
    {
      tcpRxBuffer.Length == CAPACITY + 1 && tcpConsumed <= tcpRxLen <= CAPACITY
    }

    ghost function Abs(): (s: Session)
      requires Valid()
      reads this, tcpRxBuffer
      ensures s.Valid()
    {
      Session(lastTcpRemoteIp, lastTcpDestPort, lastTcpSourcePort, lastTcpSeq, lastTcpAck,
              tcpSynAckSeen, tcpFinSeen, tcpRstSeen, tcpDataSeen,
              tcpRxBuffer[..tcpRxLen], tcpConsumed, sentAcks)
    }

    constructor ()
      ensures Valid() && fresh(tcpRxBuffer)
    {
      lastTcpRemoteIp, lastTcpDestPort, lastTcpSourcePort, lastTcpSeq, lastTcpAck := 0, 0, 0, 0, 0;
      tcpSynAckSeen, tcpFinSeen, tcpRstSeen, tcpDataSeen := false, false, false, false;
      tcpRxBuffer := new uint8[CAPACITY + 1](_ => 0);
      tcpRxLen, tcpConsumed, sentAcks := 0, 0, [];
    }

    /** The field resets of `tcpSessionOpen`. */
    method SessionOpen(targetIp: uint32, destPort: uint16, sourcePort: uint16, iss: uint32)
      requires Valid()
      modifies this, tcpRxBuffer
      ensures Valid() && Abs() == Opened(targetIp, destPort, sourcePort, iss)
    {
      lastTcpRemoteIp, lastTcpDestPort, lastTcpSourcePort := targetIp, destPort, sourcePort;
      lastTcpSeq, lastTcpAck := iss, 0;
      tcpSynAckSeen, tcpFinSeen, tcpRstSeen, tcpDataSeen := false, false, false, false;
      tcpRxLen, tcpConsumed, sentAcks := 0, 0, [];
      tcpRxBuffer[0] := 0;
      assert tcpRxBuffer[..0] == [];
    }

    /** `tcpCompact`: slides the unread bytes down, in place. */
    method TcpCompact()
      requires Valid()
      modifies this`tcpRxLen, this`tcpConsumed, tcpRxBuffer
      ensures Valid() && Abs() == Compact(old(Abs()))
    {
      if tcpConsumed == 0 {
        return;
      }
      ghost var unread := tcpRxBuffer[tcpConsumed..tcpRxLen];
      var rem := tcpRxLen - tcpConsumed;
      for i := 0 to rem
        invariant tcpRxLen == old(tcpRxLen) && tcpConsumed == old(tcpConsumed)
        invariant forall k :: 0 <= k < i ==> tcpRxBuffer[k] == unread[k]
        invariant forall k :: i <= k < rem ==> tcpRxBuffer[tcpConsumed + k] == unread[k]
      {
        tcpRxBuffer[i] := tcpRxBuffer[tcpConsumed + i];
      }
      tcpRxLen := rem;
      tcpConsumed := 0;
      tcpRxBuffer[tcpRxLen] := 0;
      assert tcpRxBuffer[..tcpRxLen] == unread;
    }

    /** Stores the new part of a payload, compacting when it would not fit. */
    method StoreFresh(start: uint32, novel: seq<uint8>)
      requires Valid() && |novel| < 0x1_0000 && start == lastTcpAck
      modifies this`tcpRxLen, this`tcpConsumed, this`lastTcpAck, this`tcpDataSeen, tcpRxBuffer
      ensures Valid() && Abs() == Store(old(Abs()), novel)
    {
      hide Behind;
      if |novel| > CAPACITY - tcpRxLen {
        TcpCompact();
      }
      StoreBehind(start, novel);
    }

    method StoreBehind(start: uint32, novel: seq<uint8>)
      requires Valid() && |novel| < 0x1_0000 && start == lastTcpAck
      modifies this`tcpRxLen, this`lastTcpAck, this`tcpDataSeen, tcpRxBuffer
      ensures Valid() && Abs() == Behind(old(Abs()), novel)
    {
      var freeSpace := CAPACITY - tcpRxLen;
      var copyLen := if |novel| < freeSpace then |novel| else freeSpace;
      Append(novel, copyLen);
      ghost var stored := tcpRxBuffer[..tcpRxLen];
      tcpRxBuffer[tcpRxLen] := 0;
      assert tcpRxBuffer[..tcpRxLen] == stored;
      lastTcpAck := Plus(start, copyLen);
      tcpDataSeen := true;
    }

    /** The data branch of `handleTcp`. */
    method AcceptPayload(seqNo: uint32, payload: seq<uint8>)
      requires Valid() && |payload| < 0x1_0000
      modifies this, tcpRxBuffer
      ensures Valid() && Abs() == Accept(old(Abs()), seqNo, payload)
    {
      hide Store, Plus, Minus;
      PlusMinus(seqNo, lastTcpAck);
      var payloadLen: uint16 := |payload|;
      if payloadLen > 0 {
        var segEnd := Plus(seqNo, payloadLen);
        var startInRange := Signed(Minus(seqNo, lastTcpAck)) <= 0;
        var hasNew := Signed(Minus(lastTcpAck, segEnd)) < 0;
        if startInRange && hasNew {
          CoversSkip(lastTcpAck, seqNo, payloadLen);
          var skip := Minus(lastTcpAck, seqNo);
          StoreFresh(Plus(seqNo, skip), payload[skip..]);
        }
        sentAcks := sentAcks + [lastTcpAck];
      }
    }

    method Append(data: seq<uint8>, n: uint16)
      requires Valid() && n <= |data| && tcpRxLen + n <= CAPACITY
      modifies this`tcpRxLen, tcpRxBuffer
      ensures Valid() && tcpRxLen == old(tcpRxLen) + n
      ensures tcpRxBuffer[..tcpRxLen] == old(tcpRxBuffer[..tcpRxLen]) + data[..n]
    {
      ghost var before, start := tcpRxBuffer[..tcpRxLen], tcpRxLen;
      for i := 0 to n
        invariant Valid() && tcpRxLen == start + i
        invariant tcpRxBuffer[..tcpRxLen] == before + data[..i]
      {
        tcpRxBuffer[tcpRxLen] := data[i];
        tcpRxLen := tcpRxLen + 1;
      }
    }

    /** `handleTcp`: one IP packet whose header is ihl bytes long. */
    method HandleTcp(ip: seq<uint8>, ihl: nat)
      requires Valid() && |ip| < 0x1_0000 && 20 <= ihl
      modifies this, tcpRxBuffer
      ensures Valid()
      ensures Abs() == if |ip| < ihl + 20 then old(Abs()) else Handle(old(Abs()), Fields(ip, ihl))
    {
      hide And, Plus, Minus, Accept, TakeFin, Read16, Read32;
      if |ip| < ihl + 20 {
        return;
      }
      var g := Fields(ip, ihl);
      if g.srcIp != lastTcpRemoteIp || g.srcPort != lastTcpDestPort || g.dstPort != lastTcpSourcePort
         || g.dataOffset < 20 {
        return;
      }
      if ihl + g.dataOffset > |ip| {
        return;
      }
      if And(g.flags, 0x04) != 0 {
        tcpRstSeen := true;
        return;
      }
      if And(g.flags, 0x12) == 0x12 && g.ackNo == Plus(lastTcpSeq, 1) {
        lastTcpAck := Plus(g.seqNo, 1);
        lastTcpSeq := g.ackNo;
        tcpSynAckSeen := true;
      }
      AcceptPayload(g.seqNo, g.Payload());
      if And(g.flags, 0x01) != 0 {
        HandleFin(Plus(g.seqNo, |g.Payload()|));
      }
    }

    /** The FIN branch of `handleTcp`. */
    method HandleFin(finSeq: uint32)
      requires Valid()
      modifies this`lastTcpAck, this`tcpFinSeen, this`sentAcks
      ensures Valid() && Abs() == TakeFin(old(Abs()), finSeq)
    {
      if Signed(Minus(lastTcpAck, finSeq)) >= 0 {
        if lastTcpAck == finSeq {
          lastTcpAck := Plus(finSeq, 1);
        }
        tcpFinSeen := true;
        sentAcks := sentAcks + [lastTcpAck];
      }
    }

    /** Copies up to needed unread bytes to out[off..] and consumes them, as both readers do after waiting. */
    method TakeBytes(out: array<uint8>, off: nat, needed: uint16) returns (n: uint16)
      requires Valid() && off + needed <= out.Length && out != tcpRxBuffer
      modifies this`tcpConsumed, out
      ensures Valid() && n <= needed
      ensures (Abs(), out[off..off + n]) == Take(old(Abs()), needed)
      ensures out[..off] == old(out[..off]) && out[off + n..] == old(out[off + n..])
    {
      var avail := tcpRxLen - tcpConsumed;
      n := if avail < needed then avail else needed;
      CutFront(tcpRxBuffer[..], tcpConsumed, n, tcpRxLen);
      CopyBytes(tcpRxBuffer, tcpConsumed, n, out, off);
      tcpConsumed := tcpConsumed + n;
    }

    /** `tcpStreamRead` after its wait: take, then compact. */
    method StreamRead(out: array<uint8>, off: nat, needed: uint16) returns (n: uint16)
      requires Valid() && off + needed <= out.Length && out != tcpRxBuffer
      modifies this`tcpConsumed, this`tcpRxLen, tcpRxBuffer, out
      ensures Valid() && n <= needed
      ensures Abs() == (if needed == 0 then old(Abs()) else Compact(Take(old(Abs()), needed).0))
      ensures out[off..off + n] == Take(old(Abs()), needed).1 && out[..off] == old(out[..off])
    {
      if needed == 0 {
        return 0;
      }
      n := TakeBytes(out, off, needed);
      TcpCompact();
    }
  }
}
