/** The TLS client's record input and output: application data as a byte stream. */
module TlsClient {
  import opened Bitwise
  import opened Bytes
  import opened Gcm
  import opened TlsRecords

  // -------------------------------------------------------------------- the peer

  /** One record of the peer: protected, or clear (a change-cipher-spec, a clear alert). */
  datatype Record = Protected(kind: uint8, content: seq<uint8>, pad: nat) | Clear(kind: uint8, body: seq<uint8>)
  {
    /** What fits the client's buffers; RFC 8446 allows at most 2^14 + 256 bytes of body. */
    predicate Fits() {
      match this
      case Protected(kind, content, pad) => kind != 0 && |content| + 1 + pad + 16 <= BUFFER
      case Clear(kind, body) => kind != APPDATA && |body| <= BUFFER
    }
  }

  ghost predicate AllFit(rs: seq<Record>) {
    forall r <- rs :: r.Fits()
  }

  function OneRecord(k: Keys, seqNo: nat, r: Record): seq<uint8> {
    match r
    case Protected(kind, content, pad) => SealRecord(k, seqNo, kind, content, pad)
    case Clear(kind, body) => Header(kind, |body|) + body
  }

  function After(seqNo: nat, r: Record): nat {
    if r.Protected? then seqNo + 1 else seqNo
  }

  /** The bytes a list of records puts on the wire, protected ones numbered from seqNo. */
  function Wire(k: Keys, seqNo: nat, rs: seq<Record>): seq<uint8>
    decreases |rs|
  {
    if rs == [] then [] else OneRecord(k, seqNo, rs[0]) + Wire(k, After(seqNo, rs[0]), rs[1..])
  }

  /** The application data the records carry. */
  function AppData(rs: seq<Record>): seq<uint8> {
    if rs == [] then []
    else (if rs[0].Protected? && rs[0].kind == APPDATA then rs[0].content else []) + AppData(rs[1..])
  }

  ghost predicate DataRecord(r: Record) {
    r.Fits() && r.Protected? && r.kind == APPDATA && 0 < |r.content| <= 16384
  }

  /** How `write` cuts data into records of at most 16384 bytes. */
  function Chunks(data: seq<uint8>): (rs: seq<Record>)
    ensures forall r <- rs :: DataRecord(r)
  {
    if data == [] then []
    else
      var n := if |data| > 16384 then 16384 else |data|;
      [Protected(APPDATA, data[..n], 0)] + Chunks(data[n..])
  }

  /** The records of `write` carry exactly the data, each within the limit of section 5.1 and all but the
      last up to it. */
  lemma {:induction false} ChunksCarry(data: seq<uint8>)
    ensures AppData(Chunks(data)) == data
    ensures var rs := Chunks(data); forall i :: 0 <= i < |rs| - 1 ==> DataRecord(rs[i]) && |rs[i].content| == 16384
    ensures forall r <- Chunks(data) :: DataRecord(r)
  {
    if data != [] {
      var n := if |data| > 16384 then 16384 else |data|;
      var rs := Chunks(data[n..]);
      ChunksCarry(data[n..]);
      assert Chunks(data) == [Protected(APPDATA, data[..n], 0)] + rs;
      OneMoreRecord(Protected(APPDATA, data[..n], 0), rs);
      assert data == data[..n] + data[n..];
    }
  }

  lemma OneMoreRecord(r: Record, rs: seq<Record>)
    ensures AppData([r] + rs) == (if r.Protected? && r.kind == APPDATA then r.content else []) + AppData(rs)
  {
    assert ([r] + rs)[1..] == rs;
  }

  // ------------------------------------------------------------------- the client

  class TlsClient {
    var est: bool
    var haveSendKeys: bool
    var haveRecvKeys: bool
    var sendKeys: Keys
    var recvKeys: Keys
    var sendSeq: nat
    var recvSeq: nat
    const rec: array<uint8>
    const appBuf: array<uint8>
    var appPos: nat
    var appLen: nat
    var incoming: seq<uint8>
    var outgoing: seq<uint8>
    ghost var gaveUp: bool  // some wait for bytes of the stream ended early

    ghost predicate Valid()
      reads this
    {
      && rec.Length == BUFFER && appBuf.Length == BUFFER && rec != appBuf
      && appPos <= appLen <= BUFFER
    }

    ghost function Buffered(): seq<uint8>
      requires Valid()
      reads this, appBuf
    {
      appBuf[appPos..appLen]
    }

    /** `tcpStreamRead`: up to n bytes of the stream to out[off..]; fewer when the wait gives up. */
    method StreamRead(out: array<uint8>, off: nat, n: nat) returns (k: nat)
      requires off + n <= out.Length
      modifies this`incoming, this`gaveUp, out
      ensures k <= n && old(incoming) == out[off..off + k] + incoming
      ensures out[..off] == old(out[..off])
      ensures gaveUp == (old(gaveUp) || k < n)
    {
      k :| k <= n && k <= |incoming|;
      for i := 0 to k
        invariant incoming == old(incoming) && gaveUp == old(gaveUp)
        invariant out[..off] == old(out[..off])
        invariant forall j :: 0 <= j < i ==> out[off + j] == incoming[j]
      {
        out[off + i] := incoming[i];
      }
      assert out[off..off + k] == incoming[..k];
      incoming := incoming[k..];
      gaveUp := gaveUp || k < n;
    }

    /** The body of a record, in reads of at most 4096 bytes. */
    method ReadBody(size: nat) returns (ok: bool)
      requires Valid() && size <= BUFFER
      modifies this`incoming, this`gaveUp, rec
      ensures (old(gaveUp) ==> gaveUp) && (!ok ==> gaveUp)
      ensures ok ==> old(incoming) == rec[..size] + incoming
      ensures IsTail(incoming, old(incoming))
    {
      ghost var start := incoming;
      var got := 0;
      while got < size
        invariant 0 <= got <= size && start == rec[..got] + incoming && (old(gaveUp) ==> gaveUp)
      {
        var want := if size - got > 4096 then 4096 else size - got;
        ghost var before, rest := rec[..got], incoming;
        var k := StreamRead(rec, got, want);
        assert rec[..got + k] == before + rec[got..got + k];
        assert start == before + (rec[got..got + k] + incoming);
        got := got + k;
        if k == 0 {
          return false;
        }
      }
      ok := true;
    }

    /** `readRecord`: on success the next record of the stream is in rec. */
    method ReadRecord() returns (ok: bool, kind: uint8, len: nat)
      requires Valid()
      modifies this`incoming, this`gaveUp, rec
      ensures len <= BUFFER && (old(gaveUp) ==> gaveUp)
      ensures !ok ==> gaveUp || (|old(incoming)| >= 5 && Length(old(incoming)) > BUFFER)
      ensures ok ==> IsRecord(old(incoming), kind, rec[..len], incoming) && |incoming| < |old(incoming)|
      ensures IsTail(incoming, old(incoming))
    {
      hide IsRecord, IsTail, Length;
      ghost var start := incoming;
      var hdr := new uint8[5](_ => 0);
      var n := StreamRead(hdr, 0, 5);
      ghost var h, behind := hdr[0..n], incoming;
      HeaderRead(start, h, behind);
      if n != 5 {
        return false, 0, 0;
      }
      var kindByte := hdr[0];
      var size := hdr[3] as int * 0x100 + hdr[4] as int;
      if size > BUFFER {
        return false, 0, 0;
      }
      var got := ReadBody(size);
      StillTail(incoming, behind, start);
      if !got {
        return false, 0, 0;
      }
      RecordRead(start, h, rec[..size], incoming);
      return true, kindByte, size;
    }

    /** `decryptRecord`: opens rec[..len] into out, strips padding and type. */
    method DecryptRecord(len: nat, out: array<uint8>) returns (ok: bool, kind: uint8, n: nat)
      requires Valid() && len <= BUFFER && out.Length == BUFFER && out != rec
      modifies this`recvSeq, out
      ensures n <= BUFFER
      ensures !haveRecvKeys ==> !ok && recvSeq == old(recvSeq)
      ensures haveRecvKeys ==>
              match OpenRecord(recvKeys, old(recvSeq), rec[..len])
              case Refused => !ok && recvSeq == old(recvSeq)
              case Plain(inner) =>
                && recvSeq == old(recvSeq) + 1
                && Strip(inner) == (if ok then Content(kind, out[..n]) else Bad)
    {
      hide Open, Nonce;
      kind, n := 0, 0;
      if !haveRecvKeys || len < 17 {
        return false, 0, 0;
      }
      var ptLen := len - 16;
      ghost var body := rec[..len];
      assert body[..ptLen] == rec[..ptLen] && body[ptLen..] == rec[ptLen..len];
      var nonce := BuildNonce(recvKeys.iv, recvSeq);
      ok := Decrypt(recvKeys.aes, nonce, Header(APPDATA, len), rec, ptLen, rec[ptLen..len], out);
      if !ok {
        return;
      }
      recvSeq := recvSeq + 1;
      ghost var inner := out[..ptLen];
      n := ptLen;
      while n > 0 && out[n - 1] == 0
        invariant n <= ptLen && Strip(inner) == Strip(out[..n])
      {
        assert out[..n][..n - 1] == out[..n - 1];
        n := n - 1;
      }
      if n == 0 {
        ok := false;
      } else {
        assert out[..n][..n - 1] == out[..n - 1];
        kind, n := out[n - 1], n - 1;
      }
    }

    /** `sendEncryptedRecord`: the stream may refuse the bytes, but the number is used up. */
    method SendEncryptedRecord(kind: uint8, data: seq<uint8>) returns (ok: bool)
      modifies this`sendSeq, this`outgoing
      ensures (if haveSendKeys && |data| + 22 <= BUFFER then
          sendSeq == old(sendSeq) + 1
          && old(outgoing) <= outgoing <= old(outgoing) + SealRecord(sendKeys, old(sendSeq), kind, data, 0)
          && (ok ==> outgoing == old(outgoing) + SealRecord(sendKeys, old(sendSeq), kind, data, 0))
        else !ok && sendSeq == old(sendSeq) && outgoing == old(outgoing))
    {
      hide Seal, Nonce, XorByte;
      var ptLen := |data| + 1;
      if !haveSendKeys || ptLen + 16 + 5 > BUFFER {
        return false;
      }
      var plain := new uint8[ptLen](i requires 0 <= i < ptLen => if i < |data| then data[i] else kind);
      assert plain[..ptLen] == Inner(kind, data, 0);
      var h := Header(APPDATA, ptLen + 16);
      var nonce := BuildNonce(sendKeys.iv, sendSeq);
      var cipherText := new uint8[ptLen](_ => 0);
      var tag := Encrypt(sendKeys.aes, nonce, h, plain, ptLen, cipherText);
      sendSeq := sendSeq + 1;
      var accepted: bool :| true;
      if accepted {
        outgoing := outgoing + (h + (cipherText[..ptLen] + tag));
      } else {
        var part: nat :| part <= ptLen;
        outgoing := outgoing + (h + cipherText[..part]);
      }
      return accepted;
    }

    /** `write`: records of at most 16384 bytes, in order. */
    method Write(data: seq<uint8>) returns (ok: bool)
      modifies this`sendSeq, this`outgoing
      ensures ok ==> est && outgoing == old(outgoing) + Wire(sendKeys, old(sendSeq), Chunks(data))
      ensures ok ==> sendSeq == old(sendSeq) + |Chunks(data)|
      ensures !est ==> !ok && outgoing == old(outgoing) && sendSeq == old(sendSeq)
      ensures old(outgoing) <= outgoing <= old(outgoing) + Wire(sendKeys, old(sendSeq), Chunks(data))
      ensures old(sendSeq) <= sendSeq <= old(sendSeq) + |Chunks(data)|
    {
      hide SealRecord, Wire, Chunks;
      if !est {
        return false;
      }
      var off := 0;
      ghost var start := sendSeq;
      while off < |data|
        invariant off <= |data|
        invariant outgoing + Wire(sendKeys, sendSeq, Chunks(data[off..]))
               == old(outgoing) + Wire(sendKeys, start, Chunks(data))
        invariant sendSeq + |Chunks(data[off..])| == start + |Chunks(data)|
        invariant start <= sendSeq && old(outgoing) <= outgoing
      {
        var n := if |data| - off > 16384 then 16384 else |data| - off;
        ghost var rest := data[off..];
        assert rest[..n] == data[off..off + n] && rest[n..] == data[off + n..];
        FirstChunk(sendKeys, sendSeq, rest, n);
        ghost var before, number := outgoing, sendSeq;
        var sent := SendEncryptedRecord(APPDATA, data[off..off + n]);
        PartOfWire(before, outgoing, SealRecord(sendKeys, number, APPDATA, rest[..n], 0),
                   Wire(sendKeys, number + 1, Chunks(rest[n..])));
        if !sent {
          return false;
        }
        off := off + n;
      }
      assert data[off..] == [];
      NoChunks(sendKeys, sendSeq);
      return true;
    }

    /** Writing buffer after buffer; AllChunks carries their concatenation (WritesCarry). */
    method WriteMany(parts: seq<seq<uint8>>) returns (ok: bool)
      modifies this`sendSeq, this`outgoing
      ensures ok ==> outgoing == old(outgoing) + Wire(sendKeys, old(sendSeq), AllChunks(parts))
    {
      hide Wire, Chunks, AppData;
      for i := 0 to |parts|
        invariant outgoing + Wire(sendKeys, sendSeq, AllChunks(parts[i..]))
               == old(outgoing) + Wire(sendKeys, old(sendSeq), AllChunks(parts))
      {
        WritesCarry(sendKeys, sendSeq, parts[i..]);
        assert parts[i..][1..] == parts[i + 1..];
        ok := Write(parts[i]);
        if !ok {
          return;
        }
      }
      assert parts[|parts|..] == [];
      NoChunks(sendKeys, sendSeq);
      return true;
    }

    /** Any sends under one set of keys, refused and cut-off ones included: what each put on the wire is a
        prefix of its sealed record, and no two were sealed under one nonce. */
    method SendAll(items: seq<Item>) returns (ghost numbers: seq<nat>, ghost pieces: seq<seq<uint8>>)
      requires haveSendKeys && sendSeq + |items| <= Pow2(64)
      modifies this`sendSeq, this`outgoing
      ensures |numbers| == |pieces| == |items| && outgoing == old(outgoing) + Flatten(pieces)
      ensures forall i :: 0 <= i < |items| ==> Sent(sendKeys, numbers[i], items[i], pieces[i])
      ensures forall i, j :: 0 <= i < j < |items| && items[i].Sendable() && items[j].Sendable() ==>
                Nonce(sendKeys.iv, numbers[i]) != Nonce(sendKeys.iv, numbers[j])
    {
      hide Sent, Flatten, Ascending, Item.Sendable, Nonce, Pow2;
      numbers, pieces := [], [];
      NoneSent();
      for i := 0 to |items|
        invariant |numbers| == |pieces| == i && sendSeq <= old(sendSeq) + i
        invariant outgoing == old(outgoing) + Flatten(pieces)
        invariant forall k :: 0 <= k < i ==> Sent(sendKeys, numbers[k], items[k], pieces[k])
        invariant Ascending(items, numbers, sendSeq)
      {
        ghost var before, number := outgoing, sendSeq;
        ghost var piece := SendOne(items[i]);
        FlattenSnoc(pieces, piece);
        OneMoreNumber(items, numbers, number, sendSeq);
        assert before + piece == old(outgoing) + (Flatten(pieces) + piece);
        numbers, pieces := numbers + [number], pieces + [piece];
      }
      NoncesDiffer(sendKeys.iv, items, numbers, sendSeq);
    }

    method SendOne(item: Item) returns (ghost piece: seq<uint8>)
      requires haveSendKeys
      modifies this`sendSeq, this`outgoing
      ensures outgoing == old(outgoing) + piece && Sent(sendKeys, old(sendSeq), item, piece)
      ensures sendSeq == if item.Sendable() then old(sendSeq) + 1 else old(sendSeq)
    {
      hide SealRecord;
      ghost var before := outgoing;
      var _ := SendEncryptedRecord(item.kind, item.data);
      piece := outgoing[|before|..];
    }

    // ------------------------------------------------------ the stream of the peer

    /** The stream still to come is the given records, numbered from recvSeq, and the tail behind them. */
    ghost predicate Aligned(rs: seq<Record>, tail: seq<uint8>)
      reads this`haveRecvKeys, this`incoming, this`recvKeys, this`recvSeq
    {
      haveRecvKeys && incoming == Wire(recvKeys, recvSeq, rs) + tail && AllFit(rs)
    }

    /** The next n bytes, at least, are sought in those records and not in the tail. */
    ghost predicate Supplied(rs: seq<Record>, tail: seq<uint8>, n: nat)
      requires Valid()
      reads this, appBuf
    {
      tail == [] || n <= |Rest(rs)|
    }

    /** What the reader has not been given yet. */
    ghost function Rest(rs: seq<Record>): seq<uint8>
      requires Valid()
      reads this, appBuf
    {
      Buffered() + AppData(rs)
    }

    /** Hands out buffered application bytes. */
    method HandOut(out: array<uint8>, done: nat, needed: nat, ghost behind: seq<uint8>, ghost owed: seq<uint8>)
      returns (n: nat)
      requires Valid() && done <= needed <= out.Length && out != appBuf && out != rec
      modifies this`appPos, out
      ensures Valid() && done + n <= needed
      ensures n == (if |old(Buffered())| < needed - done then |old(Buffered())| else needed - done)
      ensures out[..done] == old(out[..done]) && old(Buffered()) == out[done..done + n] + Buffered()
      ensures old(out[..done] + (Buffered() + behind)) == out[..done + n] + (Buffered() + behind)
      ensures old(out[..done] + (Buffered() + owed)) == out[..done + n] + (Buffered() + owed)
    {
      n := appLen - appPos;
      if n > needed - done {
        n := needed - done;
      }
      ghost var head, bytes, buf, from := out[..done], Buffered(), appBuf[..], appPos;
      CopyBytes(appBuf, appPos, n, out, done);
      appPos := appPos + n;
      assert appBuf[..] == buf;
      CutApart(buf, from, from + n, appLen);
      assert out[done..done + n] == bytes[..n] && Buffered() == bytes[n..];
      HandedOn(head, bytes, n, behind);
      HandedOn(head, bytes, n, owed);
    }

    /** The stream to come is the end of the given one, on which nothing passes for a record of the
        peer that is not; ps are all records protected with the current keys. */
    ghost predicate Steady(stream: seq<uint8>, ps: seq<Record>): (steady: bool)
      reads this`incoming, this`recvKeys, this`recvSeq
      ensures steady ==> recvSeq <= |ps|
    {
      recvSeq <= |ps| && IsTail(incoming, stream) && Unforged(recvKeys, stream, ps)
    }

    /** The data of the peer's records that the reader has not been given yet, wherever the stream is. */
    ghost function Owed(ps: seq<Record>): seq<uint8>
      requires Valid() && recvSeq <= |ps|
      reads this, appBuf
    {
      Buffered() + AppData(ps[recvSeq..])
    }

    /** `read`: every byte handed out is the next one of the peer's application data, whatever
        records, padding and post-handshake messages it came in. After a full read of an aligned
        stream it is still aligned; a short read may have stopped inside a record. On a stream without
        forgeries even a reader that lost its place hands out nothing but the next data. */
    method Read(out: array<uint8>, needed: nat, ghost rs: seq<Record>, ghost tail: seq<uint8>,
                ghost stream: seq<uint8>, ghost ps: seq<Record>)
      returns (done: nat, ghost left: seq<Record>)
      requires Valid() && est
      requires needed <= out.Length && out != appBuf && out != rec
      modifies this`incoming, this`gaveUp, this`recvSeq, this`appPos, this`appLen, rec, appBuf, out
      ensures Valid() && done <= needed
      ensures old(gaveUp) ==> gaveUp
      ensures (old(Aligned(rs, tail) && Supplied(rs, tail, needed)) ==>
          && Suffix(left, rs) && out[..done] <= old(Rest(rs))
          && (done < needed && !gaveUp ==>
              Aligned(left, tail) && |left| < |rs| && rs[|rs| - |left| - 1].kind == ALERT)
          && (done == needed ==> Aligned(left, tail))
          && (Aligned(left, tail) ==> old(Rest(rs)) == out[..done] + Rest(left)))
      ensures old(Steady(stream, ps)) ==> Steady(stream, ps) && old(Owed(ps)) == out[..done] + Owed(ps)
    {
      hide Wire, AppData, AllFit, Unforged, Aligned, Steady, Suffix, Buffered;
      ghost var aligned, steady := Aligned(rs, tail) && Supplied(rs, tail, needed), Steady(stream, ps);
      WholeSuffix(rs);
      EmptyHead(out);
      done, left := 0, rs;
      var more := true;
      while done < needed && more
        invariant Valid() && est && done <= needed && (old(gaveUp) ==> gaveUp)
        invariant aligned ==> Suffix(left, rs)
        invariant aligned && more ==> Aligned(left, tail)
        invariant aligned && (more || Aligned(left, tail)) ==> old(Rest(rs)) == out[..done] + Rest(left)
        invariant aligned ==> out[..done] <= old(Rest(rs))
        invariant (aligned && !more && !gaveUp ==>
            Aligned(left, tail) && |left| < |rs| && rs[|rs| - |left| - 1].kind == ALERT)
        invariant more || done < needed
        invariant steady ==> Steady(stream, ps) && old(Owed(ps)) == out[..done] + Owed(ps)
        decreases more, |incoming|, appLen - appPos
      {
        if aligned { NextSuffix(left, rs); }
        more, done, left := Turn(out, done, needed, left, tail, stream, ps);
      }
    }

    /** One round of the loop in `read`: buffered bytes are handed out, or a record is read; no more
        rounds follow a give-up, an alert or a record that does not open. */
    method Turn(out: array<uint8>, start: nat, needed: nat, ghost rs: seq<Record>, ghost tail: seq<uint8>,
                ghost stream: seq<uint8>, ghost ps: seq<Record>)
      returns (more: bool, done: nat, ghost left: seq<Record>)
      requires Valid() && est && start < needed <= out.Length && out != appBuf && out != rec
      modifies this`incoming, this`gaveUp, this`recvSeq, this`appPos, this`appLen, rec, appBuf, out
      ensures Valid() && start <= done <= needed && (!more ==> done == start)
      ensures out[..start] == old(out[..start])
      ensures more ==> |incoming| < |old(incoming)| || (incoming == old(incoming) && appLen - appPos < old(appLen - appPos))
      ensures left == rs || (rs != [] && left == rs[1..])
      ensures old(gaveUp) ==> gaveUp
      ensures (old(Aligned(rs, tail) && Supplied(rs, tail, needed - start)) ==>
          && (more ==> Aligned(left, tail))
          && (!more && !gaveUp ==> Aligned(left, tail) && rs != [] && left == rs[1..] && rs[0].kind == ALERT)
          && (more || Aligned(left, tail) ==> old(out[..start] + Rest(rs)) == out[..done] + Rest(left)))
      ensures (old(Steady(stream, ps)) ==>
          Steady(stream, ps) && old(out[..start] + Owed(ps)) == out[..done] + Owed(ps))
    {
      hide Wire, AppData, AllFit, Unforged, Aligned;
      ghost var steady := Steady(stream, ps);
      more, done, left := true, start, rs;
      if appPos < appLen {
        var n := HandOut(out, start, needed, AppData(rs), if steady then AppData(ps[recvSeq..]) else []);
        done := start + n;
      } else {
        NothingSent();
        more, left := NextRecord(rs, tail, stream, ps);
      }
    }

    lemma EmptyHead(out: array<uint8>)
      ensures out[..0] == [] && forall s: seq<uint8> :: out[..0] + s == s
    {
    }

    /** One record of the loop in `read`, when nothing is buffered; false means leave the loop. */
    method NextRecord(ghost rs: seq<Record>, ghost tail: seq<uint8>, ghost stream: seq<uint8>, ghost ps: seq<Record>)
      returns (more: bool, ghost left: seq<Record>)
      requires Valid() && est && appPos == appLen
      modifies this`incoming, this`gaveUp, this`recvSeq, this`appPos, this`appLen, rec, appBuf
      ensures Valid() && (old(gaveUp) ==> gaveUp) && (more ==> |incoming| < |old(incoming)|)
      ensures left == rs || (rs != [] && left == rs[1..])
      ensures (old(Aligned(rs, tail)) && (rs != [] || tail == []) ==>
          && (more ==> Aligned(left, tail) && |left| < |rs|)
          && (!more && !gaveUp ==> Aligned(left, tail) && rs != [] && left == rs[1..] && rs[0].kind == ALERT)
          && (more || Aligned(left, tail) ==> Rest(left) == old(Rest(rs))))
      ensures old(Steady(stream, ps)) ==> Steady(stream, ps) && Owed(ps) == old(Owed(ps))
    {
      hide Wire, AppData, OpenRecord, Strip, Inner, AllFit, Unforged, IsRecord, IsTail, Length;
      ghost var aligned, steady, start, n := Aligned(rs, tail) && (rs != [] || tail == []), Steady(stream, ps), incoming, recvSeq;
      left := rs;
      var ok, kind, rlen := ReadRecord();
      if steady { StillTail(incoming, start, stream); }
      if !ok {
        if aligned { FirstLength(recvKeys, recvSeq, rs, tail); }
        return false, rs;
      }
      if aligned {
        FirstRecord(recvKeys, recvSeq, rs, tail, start, kind, rec[..rlen], incoming);
        left := rs[1..];
      }
      if kind == CHANGE_CIPHER {
        return true, left;
      }
      if kind != APPDATA {
        return kind != ALERT, left;
      }
      ghost var body, k := rec[..rlen], recvKeys;
      if steady && haveRecvKeys && OpenRecord(k, n, body).Plain? {
        Genuine(k, stream, ps, start, kind, body, incoming, n);
      }
      more := Unwrap(rlen);
    }

    /** The application bytes of a protected record become what is buffered; false for an alert and for a
        record that does not open. */
    method Unwrap(len: nat) returns (more: bool)
      requires Valid() && len <= BUFFER && appPos == appLen
      modifies this`recvSeq, this`appPos, this`appLen, appBuf
      ensures Valid()
      ensures (match (if haveRecvKeys then OpenRecord(recvKeys, old(recvSeq), rec[..len]) else Refused)
          case Refused => !more && recvSeq == old(recvSeq) && Buffered() == []
          case Plain(inner) =>
            recvSeq == old(recvSeq) + 1 &&
            match Strip(inner)
            case Bad => !more && Buffered() == []
            case Content(kind, data) => (more <==> kind != ALERT) && Buffered() == if kind == APPDATA then data else [])
    {
      hide OpenRecord, Strip;
      ghost var body := rec[..len];
      var ok, innerType, n := DecryptRecord(len, appBuf);
      assert rec[..len] == body;
      if ok && innerType == APPDATA {
        appPos, appLen := 0, n;
      }
      more := ok && innerType != ALERT;
    }

    /** Any number of reads, up to the first short one, hand out a prefix of the peer's data: as many bytes
        as were asked for, unless a wait gives up or the peer sends an alert. */
    method ReadMany(sizes: seq<nat>, ghost rs: seq<Record>, ghost tail: seq<uint8>) returns (got: seq<uint8>)
      requires Valid() && est && Aligned(rs, tail) && Supplied(rs, tail, Total(sizes))
      modifies this`incoming, this`gaveUp, this`recvSeq, this`appPos, this`appLen, rec, appBuf
      ensures got <= old(Rest(rs)) && |got| <= Total(sizes)
      ensures !gaveUp && NoAlert(rs) ==> |got| == Total(sizes)
    {
      hide Wire, AppData, AllFit, Suffix, Buffered, Steady, Unforged, Aligned, NoAlert, Total;
      got := [];
      ghost var left := rs;
      WholeSuffix(rs);
      NothingAsked();
      for i := 0 to |sizes|
        invariant Valid() && est && Aligned(left, tail) && Suffix(left, rs) && old(Rest(rs)) == got + Rest(left)
        invariant |got| + Total(sizes[i..]) == Total(sizes)
      {
        OneSize(sizes, i);
        var out := new uint8[sizes[i]](_ => 0);
        ghost var rest, before := Rest(left), left;
        var done;
        done, left := Read(out, sizes[i], left, tail, [], []);
        Prefixed(got, out[..done], rest, old(Rest(rs)));
        got := got + out[..done];
        if done < sizes[i] {
          if !gaveUp { AlertSeen(rs, before, left); }
          return;
        }
        SuffixOfSuffix(left, before, rs);
      }
      assert sizes[|sizes|..] == [];
    }

    /** Between two clients of this kind: what is read is what was written. */
    method ReadWritten(sizes: seq<nat>, ghost parts: seq<seq<uint8>>) returns (got: seq<uint8>)
      requires Valid() && est && haveRecvKeys && appPos == appLen
      requires incoming == Wire(recvKeys, recvSeq, AllChunks(parts))
      modifies this`incoming, this`gaveUp, this`recvSeq, this`appPos, this`appLen, rec, appBuf
      ensures got <= Flatten(parts) && |got| <= Total(sizes)
      ensures !gaveUp ==> |got| == Total(sizes)
    {
      hide Wire, AppData, Total;
      WritesCarry(recvKeys, recvSeq, parts);
      assert Rest(AllChunks(parts)) == Flatten(parts);
      assert incoming == Wire(recvKeys, recvSeq, AllChunks(parts)) + [];
      got := ReadMany(sizes, AllChunks(parts), []);
    }

    /** Any run of reads, give-ups and lost places included, hands out a prefix of the data the peer
        protected with these keys, provided nothing on the stream passes for a record that is not. */
    method ReadOn(sizes: seq<nat>, ghost ps: seq<Record>) returns (got: seq<uint8>)
      requires Valid() && est && recvSeq <= |ps| && Unforged(recvKeys, incoming, ps)
      modifies this`incoming, this`gaveUp, this`recvSeq, this`appPos, this`appLen, rec, appBuf
      ensures Valid() && recvSeq <= |ps| && old(Owed(ps)) == got + Owed(ps)
    {
      hide AppData, Unforged, Buffered;
      ghost var stream := incoming;
      got := [];
      for i := 0 to |sizes|
        invariant Valid() && est && Steady(stream, ps) && old(Owed(ps)) == got + Owed(ps)
      {
        var out := new uint8[sizes[i]](_ => 0);
        var done, _ := Read(out, sizes[i], [], [], stream, ps);
        assert got + (out[..done] + Owed(ps)) == (got + out[..done]) + Owed(ps);
        got := got + out[..done];
      }
    }

    /** A peer that updates its keys: the client, which keeps its own, still reads every byte from before the
        KeyUpdate. Asked for as much as that, it has all the data of the peer if and only if none came
        behind. */
    method ReadPastUpdate(sizes: seq<nat>, ghost before: seq<Record>, ghost next: Keys, ghost after: seq<Record>)
      returns (got: seq<uint8>)
      requires Valid() && est && haveRecvKeys && appPos == appLen && AllFit(before) && NoAlert(before)
      requires incoming == Wire(recvKeys, recvSeq, before + [KEY_UPDATE]) + Wire(next, 0, after)
      requires Total(sizes) <= |AppData(before)|
      modifies this`incoming, this`gaveUp, this`recvSeq, this`appPos, this`appLen, rec, appBuf
      ensures got <= AppData(before) && (!gaveUp ==> |got| == Total(sizes))
      ensures (!gaveUp && Total(sizes) == |AppData(before)| ==>
          (got == AppData(before + [KEY_UPDATE] + after) <==> AppData(after) == []))
    {
      hide AppData, Wire, NoAlert, Total, AllFit;
      ghost var rs, tail := before + [KEY_UPDATE], Wire(next, 0, after);
      UpdateCarries(before, after);
      assert Rest(rs) == AppData(rs);
      got := ReadMany(sizes, rs, tail);
    }

    /** And whatever it asks for, through give-ups and lost places, it is handed no byte from behind the
        KeyUpdate, if nothing there passes for a record under the old keys. */
    method ReadOnPastUpdate(sizes: seq<nat>, ghost before: seq<Record>, ghost next: Keys, ghost after: seq<Record>)
      returns (got: seq<uint8>)
      requires Valid() && est && appPos == appLen && recvSeq == 0 && (forall r <- before :: r.Protected?)
      requires incoming == Wire(recvKeys, 0, before + [KEY_UPDATE]) + Wire(next, 0, after)
      requires Unforged(recvKeys, incoming, before + [KEY_UPDATE])
      modifies this`incoming, this`gaveUp, this`recvSeq, this`appPos, this`appLen, rec, appBuf
      ensures got <= AppData(before)
    {
      hide AppData, Unforged, Wire;
      ghost var ps := before + [KEY_UPDATE];
      assert ps[0..] == ps && Buffered() == [];
      assert Owed(ps) == AppData(ps);
      got := ReadOn(sizes, ps);
      UpdateCarries(before, after);
    }
  }

  function Total(sizes: seq<nat>): nat {
    if sizes == [] then 0 else sizes[0] + Total(sizes[1..])
  }

  lemma NothingAsked()
    ensures Total([]) == 0
  {
  }

  lemma OneSize(sizes: seq<nat>, i: nat)
    requires i < |sizes|
    ensures Total(sizes[i..]) == sizes[i] + Total(sizes[i + 1..])
  {
    assert sizes[i..][1..] == sizes[i + 1..];
  }

  ghost predicate NoAlert(rs: seq<Record>) {
    forall r <- rs :: r.kind != ALERT
  }

  lemma AlertSeen(rs: seq<Record>, before: seq<Record>, left: seq<Record>)
    requires Suffix(before, rs) && Suffix(left, before) && |left| < |before|
    requires before[|before| - |left| - 1].kind == ALERT
    ensures !NoAlert(rs)
  {
    assert before[|before| - |left| - 1] in rs;
  }

  lemma SuffixOfSuffix(u: seq<Record>, t: seq<Record>, s: seq<Record>)
    requires Suffix(u, t) && Suffix(t, s)
    ensures Suffix(u, s)
  {
  }

  lemma WholeSuffix(rs: seq<Record>)
    ensures Suffix(rs, rs)
  {
  }

  lemma NextSuffix(left: seq<Record>, rs: seq<Record>)
    requires Suffix(left, rs)
    ensures |left| <= |rs| && (left != [] ==> Suffix(left[1..], rs) && rs[|rs| - |left|] == left[0])
  {
  }

  ghost predicate IsTail(t: seq<uint8>, s: seq<uint8>) {
    |t| <= |s| && t == s[|s| - |t|..]
  }

  lemma Prefixed(got: seq<uint8>, more: seq<uint8>, rest: seq<uint8>, all: seq<uint8>)
    requires all == got + rest && more <= rest
    ensures got + more <= all && forall left :: rest == more + left ==> all == got + more + left
  {
  }

  lemma StillTail(u: seq<uint8>, t: seq<uint8>, s: seq<uint8>)
    requires IsTail(u, t) && IsTail(t, s)
    ensures IsTail(u, s)
  {
  }

  lemma HeaderRead(start: seq<uint8>, h: seq<uint8>, behind: seq<uint8>)
    requires start == h + behind
    ensures IsTail(behind, start)
    ensures |h| == 5 ==> |start| >= 5 && Length(start) == h[3] as int * 0x100 + h[4] as int
  {
  }

  lemma RecordRead(start: seq<uint8>, h: seq<uint8>, body: seq<uint8>, rest: seq<uint8>)
    requires |h| == 5 && start == h + (body + rest) && h[3] as int * 0x100 + h[4] as int == |body|
    ensures IsRecord(start, h[0], body, rest) && |rest| < |start|
  {
    assert start[..5] == h;
  }

  /** A body that opens under a number is the peer's record of that number. */
  ghost predicate NotForged(k: Keys, n: nat, body: seq<uint8>, ps: seq<Record>) {
    match OpenRecord(k, n, body)
    case Refused => true
    case Plain(text) => n < |ps| && ps[n].Protected? && Strip(text) == Content(ps[n].kind, ps[n].content)
  }

  /** No stretch of the stream is a forgery under a number the client can reach. */
  ghost predicate Unforged(k: Keys, stream: seq<uint8>, ps: seq<Record>) {
    forall i, j, n: nat :: 0 <= i <= j <= |stream| && n <= |ps| ==> NotForged(k, n, stream[i..j], ps)
  }

  /** A record that opens, read anywhere on such a stream, is the peer's next one. */
  lemma Genuine(k: Keys, stream: seq<uint8>, ps: seq<Record>, start: seq<uint8>,
                kind: uint8, body: seq<uint8>, rest: seq<uint8>, n: nat)
    requires Unforged(k, stream, ps) && IsTail(start, stream) && IsRecord(start, kind, body, rest)
    requires OpenRecord(k, n, body).Plain? && n <= |ps|
    ensures n < |ps| && ps[n].Protected?
    ensures Strip(OpenRecord(k, n, body).text) == Content(ps[n].kind, ps[n].content)
    ensures AppData(ps[n..]) == (if ps[n].kind == APPDATA then ps[n].content else []) + AppData(ps[n + 1..])
  {
    hide OpenRecord, Strip, AppData;
    var i := |stream| - |start| + 5;
    assert start[5..5 + |body|] == body;
    assert stream[i..i + |body|] == body;
    assert NotForged(k, n, stream[i..i + |body|], ps);
    OneMoreRecord(ps[n], ps[n + 1..]);
    assert ps[n..] == [ps[n]] + ps[n + 1..];
  }

  /** A KeyUpdate of section 4.6.3 of RFC 8446: what the peer protects behind it has other keys. */
  const KEY_UPDATE := Protected(HANDSHAKE, [24, 0, 0, 1, 0], 0)

  /** What the peer's data is made of, and what the records up to the KeyUpdate are for the reader. */
  lemma UpdateCarries(before: seq<Record>, after: seq<Record>)
    ensures AppData(before + [KEY_UPDATE]) == AppData(before)
    ensures AppData(before + [KEY_UPDATE] + after) == AppData(before) + AppData(after)
    ensures AllFit(before) ==> AllFit(before + [KEY_UPDATE])
    ensures NoAlert(before) ==> NoAlert(before + [KEY_UPDATE])
  {
    AppDataConcat(before + [KEY_UPDATE], after);
    AppDataConcat(before, [KEY_UPDATE]);
    OneMoreRecord(KEY_UPDATE, []);
    NothingSent();
    assert [KEY_UPDATE] + [] == [KEY_UPDATE];
    assert AppData([KEY_UPDATE]) == [] && AppData(before) + [] == AppData(before);
  }

  /** A peer whose data does not all reach the client: one byte on each side of a KeyUpdate. */
  lemma DataBehindUpdate(x: uint8, y: uint8)
    ensures var before, after := [Protected(APPDATA, [x], 0)], [Protected(APPDATA, [y], 0)];
            && AllFit(before) && NoAlert(before) && AllFit(after)
            && AppData(before) == [x] && AppData(before + [KEY_UPDATE] + after) == [x, y] && AppData(after) != []
  {
    var before, after := [Protected(APPDATA, [x], 0)], [Protected(APPDATA, [y], 0)];
    UpdateCarries(before, after);
    OneMoreRecord(before[0], []);
    OneMoreRecord(after[0], []);
    NothingSent();
    assert before == [before[0]] + [] && after == [after[0]] + [];
  }

  lemma PartOfWire(before: seq<uint8>, now: seq<uint8>, record: seq<uint8>, rest: seq<uint8>)
    requires now <= before + record
    ensures now <= before + (record + rest)
  {
    assert before + (record + rest) == (before + record) + rest;
  }

  ghost predicate Suffix(left: seq<Record>, rs: seq<Record>) {
    |left| <= |rs| && left == rs[|rs| - |left|..]
  }

  // ------------------------------------------------------------- several writes

  function Protections(rs: seq<Record>): nat {
    if rs == [] then 0 else (if rs[0].Protected? then 1 else 0) + Protections(rs[1..])
  }

  lemma {:induction false} WireConcat(k: Keys, seqNo: nat, a: seq<Record>, b: seq<Record>)
    ensures Wire(k, seqNo, a + b) == Wire(k, seqNo, a) + Wire(k, seqNo + Protections(a), b)
    decreases |a|
  {
    hide OneRecord;
    if a == [] {
      assert a + b == b;
    } else {
      assert (a + b)[1..] == a[1..] + b;
      WireConcat(k, After(seqNo, a[0]), a[1..], b);
    }
  }

  lemma {:induction false} AppDataConcat(a: seq<Record>, b: seq<Record>)
    ensures AppData(a + b) == AppData(a) + AppData(b)
  {
    if a == [] {
      assert a + b == b;
    } else {
      assert (a + b)[1..] == a[1..] + b;
      AppDataConcat(a[1..], b);
    }
  }

  lemma {:induction false} AllProtected(rs: seq<Record>)
    requires forall r <- rs :: r.Protected?
    ensures Protections(rs) == |rs|
  {
    if rs != [] {
      AllProtected(rs[1..]);
    }
  }

  /** The number record i of a list goes out with. */
  function NumberAt(seqNo: nat, rs: seq<Record>, i: nat): nat
    requires i <= |rs|
  {
    seqNo + Protections(rs[..i])
  }

  /** On the wire each record of a list is sealed under its own number, and while the numbers stay below
      2^64 no nonce serves two of them. */
  lemma NoNonceTwice(k: Keys, seqNo: nat, rs: seq<Record>, i: nat, j: nat)
    requires i < j < |rs| && rs[i].Protected? && rs[j].Protected? && seqNo + Protections(rs) <= Pow2(64)
    ensures Nonce(k.iv, NumberAt(seqNo, rs, i)) != Nonce(k.iv, NumberAt(seqNo, rs, j))
    ensures OnWire(k, seqNo, rs, i) && OnWire(k, seqNo, rs, j)
  {
    hide Nonce, Pow2, Wire, OneRecord;
    RecordAt(k, seqNo, rs, i);
    RecordAt(k, seqNo, rs, j);
    NumbersGrow(rs, i, j);
    NumbersGrow(rs, j, |rs|);
    assert rs[..|rs|] == rs;
    if Nonce(k.iv, NumberAt(seqNo, rs, i)) == Nonce(k.iv, NumberAt(seqNo, rs, j)) {
      NonceInjective(k.iv, NumberAt(seqNo, rs, i), NumberAt(seqNo, rs, j));
    }
  }

  ghost predicate OnWire(k: Keys, seqNo: nat, rs: seq<Record>, i: nat)
    requires i < |rs|
  {
    Wire(k, seqNo, rs) == Wire(k, seqNo, rs[..i]) + OneRecord(k, NumberAt(seqNo, rs, i), rs[i])
                        + Wire(k, NumberAt(seqNo, rs, i + 1), rs[i + 1..])
  }

  lemma RecordAt(k: Keys, seqNo: nat, rs: seq<Record>, i: nat)
    requires i < |rs|
    ensures OnWire(k, seqNo, rs, i)
  {
    hide OneRecord;
    var n := NumberAt(seqNo, rs, i);
    assert rs == rs[..i] + rs[i..] && rs[i..][1..] == rs[i + 1..];
    WireConcat(k, seqNo, rs[..i], rs[i..]);
    assert rs[..i + 1] == rs[..i] + [rs[i]];
    ProtectionsConcat(rs[..i], [rs[i]]);
    assert After(n, rs[i]) == NumberAt(seqNo, rs, i + 1);
    assert Wire(k, n, rs[i..]) == OneRecord(k, n, rs[i]) + Wire(k, After(n, rs[i]), rs[i + 1..]);
  }

  lemma NumbersGrow(rs: seq<Record>, i: nat, j: nat)
    requires i < j <= |rs| && rs[i].Protected?
    ensures Protections(rs[..i]) < Protections(rs[..j])
  {
    assert rs[..j] == rs[..i] + ([rs[i]] + rs[i + 1..j]);
    ProtectionsConcat(rs[..i], [rs[i]] + rs[i + 1..j]);
  }

  lemma {:induction false} ProtectionsConcat(a: seq<Record>, b: seq<Record>)
    ensures Protections(a + b) == Protections(a) + Protections(b)
  {
    if a == [] {
      assert a + b == b;
    } else {
      assert (a + b)[1..] == a[1..] + b;
      ProtectionsConcat(a[1..], b);
    }
  }

  datatype Item = Item(kind: uint8, data: seq<uint8>) {
    /** What `sendEncryptedRecord` has room for. */
    predicate Sendable() {
      |data| + 22 <= BUFFER
    }
  }

  /** What a send with the given number may have put on the wire. */
  ghost predicate Sent(k: Keys, number: nat, item: Item, piece: seq<uint8>) {
    piece <= SealRecord(k, number, item.kind, item.data, 0) && (!item.Sendable() ==> piece == [])
  }

  /** The numbers used so far rise with every item sent, up to the next number. */
  ghost predicate Ascending(items: seq<Item>, numbers: seq<nat>, next: nat) {
    && |numbers| <= |items|
    && (forall i :: 0 <= i < |numbers| && items[i].Sendable() ==> numbers[i] < next)
    && (forall i, j :: 0 <= i < j < |numbers| && items[i].Sendable() ==> numbers[i] < numbers[j])
  }

  lemma NoneSent()
    ensures Flatten([]) == [] && forall items, next :: Ascending(items, [], next)
  {
  }

  lemma OneMoreNumber(items: seq<Item>, numbers: seq<nat>, number: nat, next: nat)
    requires |numbers| < |items| && Ascending(items, numbers, number)
    requires next == if items[|numbers|].Sendable() then number + 1 else number
    ensures Ascending(items, numbers + [number], next)
  {
    hide Item.Sendable;
  }

  lemma NoncesDiffer(iv: Iv, items: seq<Item>, numbers: seq<nat>, next: nat)
    requires Ascending(items, numbers, next) && next <= Pow2(64)
    ensures forall i, j :: 0 <= i < j < |numbers| && items[i].Sendable() && items[j].Sendable() ==>
              Nonce(iv, numbers[i]) != Nonce(iv, numbers[j])
  {
    hide Nonce, Pow2, Item.Sendable;
    forall i, j | 0 <= i < j < |numbers| && items[i].Sendable() && items[j].Sendable()
      ensures Nonce(iv, numbers[i]) != Nonce(iv, numbers[j])
    {
      if Nonce(iv, numbers[i]) == Nonce(iv, numbers[j]) {
        NonceInjective(iv, numbers[i], numbers[j]);
      }
    }
  }

  function Flatten(parts: seq<seq<uint8>>): seq<uint8> {
    if parts == [] then [] else parts[0] + Flatten(parts[1..])
  }

  lemma {:induction false} FlattenSnoc(parts: seq<seq<uint8>>, last: seq<uint8>)
    ensures Flatten(parts + [last]) == Flatten(parts) + last && Flatten([]) == []
  {
    if parts == [] {
      assert parts + [last] == [last] && [last][1..] == [];
    } else {
      assert (parts + [last])[1..] == parts[1..] + [last];
      FlattenSnoc(parts[1..], last);
    }
  }

  function AllChunks(parts: seq<seq<uint8>>): seq<Record> {
    if parts == [] then [] else Chunks(parts[0]) + AllChunks(parts[1..])
  }

  /** Writing several buffers puts on the wire records whose application data is their concatenation:
      a reader aligned with those records is given exactly what was written. */
  lemma {:induction false} WritesCarry(k: Keys, seqNo: nat, parts: seq<seq<uint8>>)
    ensures AppData(AllChunks(parts)) == Flatten(parts)
    ensures forall r <- AllChunks(parts) :: DataRecord(r)
    ensures parts != [] ==>
      (Wire(k, seqNo, AllChunks(parts))
       == Wire(k, seqNo, Chunks(parts[0])) + Wire(k, seqNo + |Chunks(parts[0])|, AllChunks(parts[1..])))
    decreases |parts|
  {
    hide Wire, AppData;
    if parts != [] {
      var first := Chunks(parts[0]);
      WritesCarry(k, seqNo + |first|, parts[1..]);
      ChunksCarry(parts[0]);
      AllProtected(first);
      WireConcat(k, seqNo, first, AllChunks(parts[1..]));
      AppDataConcat(first, AllChunks(parts[1..]));
    } else {
      NothingSent();
    }
  }

  lemma CutApart(s: seq<uint8>, i: nat, j: nat, k: nat)
    requires i <= j <= k <= |s|
    ensures s[i..k][..j - i] == s[i..j] && s[i..k][j - i..] == s[j..k]
  {
  }

  lemma HandedOn(head: seq<uint8>, bytes: seq<uint8>, n: nat, rest: seq<uint8>)
    requires n <= |bytes|
    ensures head + (bytes + rest) == (head + bytes[..n]) + (bytes[n..] + rest)
    ensures bytes == bytes[..n] + bytes[n..]
  {
    assert bytes + rest == bytes[..n] + (bytes[n..] + rest);
  }

  lemma NothingSent()
    ensures AppData([]) == []
  {
  }

  /** Length and kind bytes of a record's header. */
  lemma RecordShape(k: Keys, seqNo: nat, r: Record)
    requires r.Fits()
    ensures var w := OneRecord(k, seqNo, r);
            && |w| >= 5 && w[3] as int * 0x100 + w[4] as int == |w| - 5
            && w[0] == (if r.Protected? then APPDATA else r.kind)
            && (r.Protected? ==>
                && OpenRecord(k, seqNo, w[5..]) == Plain(Inner(r.kind, r.content, r.pad))
                && Strip(Inner(r.kind, r.content, r.pad)) == Content(r.kind, r.content))
  {
    hide SealRecord, OpenRecord, Strip;
    var w := OneRecord(k, seqNo, r);
    if r.Protected? {
      OpenSealedRecord(k, seqNo, r.kind, r.content, r.pad);
    } else {
      assert w[..5] == Header(r.kind, |r.body|);
    }
    TwoBytes(|w| - 5);
    assert w[..5][3] == w[3] && w[..5][4] == w[4] && w[..5][0] == w[0];
  }

  /** No record of the peer is too long for the buffer. */
  lemma FirstLength(k: Keys, seqNo: nat, rs: seq<Record>, tail: seq<uint8>)
    requires AllFit(rs) && (rs != [] || tail == [])
    ensures |Wire(k, seqNo, rs) + tail| >= 5 ==> Length(Wire(k, seqNo, rs) + tail) <= BUFFER
  {
    hide OneRecord, OpenRecord, Strip;
    if rs != [] {
      RecordShape(k, seqNo, rs[0]);
      RecordSize(k, seqNo, rs[0]);
      var w := OneRecord(k, seqNo, rs[0]);
      assert (Wire(k, seqNo, rs) + tail)[3] == w[3] && (Wire(k, seqNo, rs) + tail)[4] == w[4];
    }
  }

  lemma RecordSize(k: Keys, seqNo: nat, r: Record)
    requires r.Fits()
    ensures |OneRecord(k, seqNo, r)| <= 5 + BUFFER
  {
    hide SealRecord, OpenRecord, Strip;
    if r.Protected? {
      OpenSealedRecord(k, seqNo, r.kind, r.content, r.pad);
    }
  }

  /** What `readRecord` returns from an aligned stream is the peer's next record. */
  lemma FirstRecord(k: Keys, seqNo: nat, rs: seq<Record>, tail: seq<uint8>, stream: seq<uint8>,
                    kind: uint8, body: seq<uint8>, rest: seq<uint8>)
    requires AllFit(rs) && (rs != [] || tail == []) && stream == Wire(k, seqNo, rs) + tail
    requires IsRecord(stream, kind, body, rest)
    ensures rs != [] && rs[0].Fits() && AllFit(rs[1..])
    ensures rest == Wire(k, After(seqNo, rs[0]), rs[1..]) + tail
    ensures kind == (if rs[0].Protected? then APPDATA else rs[0].kind)
    ensures AppData(rs) == (if rs[0].Protected? && rs[0].kind == APPDATA then rs[0].content else []) + AppData(rs[1..])
    ensures rs[0].Protected? ==>
              && OpenRecord(k, seqNo, body) == Plain(Inner(rs[0].kind, rs[0].content, rs[0].pad))
              && Strip(Inner(rs[0].kind, rs[0].content, rs[0].pad)) == Content(rs[0].kind, rs[0].content)
  {
    hide OneRecord, OpenRecord, Strip;
    var w := OneRecord(k, seqNo, rs[0]);
    RecordShape(k, seqNo, rs[0]);
    var behind := Wire(k, After(seqNo, rs[0]), rs[1..]) + tail;
    assert stream == w + behind;
    assert stream[3] == w[3] && stream[4] == w[4];
    assert |body| == |w| - 5;
    assert body == stream[5..|w|] == w[5..];
    assert rest == stream[|w|..] == behind;
  }

  lemma NoChunks(k: Keys, seqNo: nat)
    ensures Chunks([]) == [] && Wire(k, seqNo, []) == []
  {
  }

  lemma FirstChunk(k: Keys, seqNo: nat, data: seq<uint8>, n: nat)
    requires data != [] && n == (if |data| > 16384 then 16384 else |data|)
    ensures Wire(k, seqNo, Chunks(data))
         == SealRecord(k, seqNo, APPDATA, data[..n], 0) + Wire(k, seqNo + 1, Chunks(data[n..]))
    ensures |Chunks(data)| == 1 + |Chunks(data[n..])|
  {
    hide SealRecord;
    assert Chunks(data)[0] == Protected(APPDATA, data[..n], 0);
    assert Chunks(data)[1..] == Chunks(data[n..]);
  }

  /** The length a stream's first record header announces. */
  function Length(stream: seq<uint8>): nat
    requires |stream| >= 5
  {
    stream[3] as int * 0x100 + stream[4] as int
  }

  /** A stream that starts with one record, whatever its version bytes. */
  ghost predicate IsRecord(stream: seq<uint8>, kind: uint8, body: seq<uint8>, rest: seq<uint8>) {
    && |stream| >= 5 && stream[0] == kind && Length(stream) == |body|
    && stream == stream[..5] + body + rest
  }
}
