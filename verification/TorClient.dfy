/** The client's relay cells: the hop loops over one payload buffer, in place. */
module TorClient {
  import opened Bitwise
  import opened Bytes
  import opened RelayCells
  import opened TorHops
  import opened StreamHash
  import Link = TorLink
  import Out = RelayOutbound
  import In = RelayInbound

  const RELAY: uint8 := 3
  const RELAY_EARLY: uint8 := 9
  const DESTROY: uint8 := 4

  // ------------------------------------------------------- listening, on whole cells

  datatype Outcome = Waiting(bwd: seq<Half>) | Closed(bwd: seq<Half>) | Told(bwd: seq<Half>, hop: nat, message: Message)

  /** A cell that came through the link as it was sent. */
  predicate Sized(c: Link.Cell) {
    Link.IsVar(c.cmd) || |c.payload| == SIZE
  }

  predicate IsRelay(circ: nat, c: Link.Cell) {
    c.circ == circ && (c.cmd == RELAY || c.cmd == RELAY_EARLY)
  }

  /** What one cell does to a client that waits on a circuit. */
  function Hear(hash: Hasher, circ: nat, bwd: seq<Half>, c: Link.Cell): Outcome
    requires Sized(c)
  {
    if IsRelay(circ, c) then
      match In.Peel(hash, bwd, 0, c.payload)
      case Found(b, h, m) => Told(b, h, m)
      case Unknown(b) => Waiting(b)
    else if c.circ == circ && c.cmd == DESTROY then Closed(bwd)
    else Waiting(bwd)
  }

  /** Cells of another circuit and of other commands are passed over, DESTROY ends the wait, and only a
      relay cell of the circuit, early or not, is peeled. */
  lemma HearExactly(hash: Hasher, circ: nat, bwd: seq<Half>, c: Link.Cell)
    requires Sized(c)
    ensures c.circ != circ || c.cmd !in {3, 4, 9} ==> Hear(hash, circ, bwd, c) == Waiting(bwd)
    ensures c.circ == circ && c.cmd == 4 ==> Hear(hash, circ, bwd, c) == Closed(bwd)
    ensures (c.circ == circ && c.cmd in {3, 9} ==>
        |c.payload| == 509 && Hear(hash, circ, bwd, c).bwd == In.Peel(hash, bwd, 0, c.payload).hops
        && (Hear(hash, circ, bwd, c).Told? <==> In.Peel(hash, bwd, 0, c.payload).Found?))
  {
    hide In.Peel;
  }

  function Listen(hash: Hasher, circ: nat, bwd: seq<Half>, cells: seq<Link.Cell>): Outcome
    requires forall c <- cells :: Sized(c)
  {
    if cells == [] then Waiting(bwd)
    else
      var o := Listen(hash, circ, bwd, cells[..|cells| - 1]);
      if o.Waiting? then Hear(hash, circ, o.bwd, cells[|cells| - 1]) else o
  }

  /** The relay cells of a circuit among all cells. */
  function Relayed(circ: nat, cells: seq<Link.Cell>): (ps: seq<Payload>)
    requires forall c <- cells :: Sized(c)
  {
    if cells == [] then []
    else
      var c := cells[|cells| - 1];
      var before := Relayed(circ, cells[..|cells| - 1]);
      if IsRelay(circ, c) then
        assert Sized(c);
        var p: Payload := c.payload;
        before + [p]
      else before
  }

  function Receives(hash: Hasher, w: In.Inbound, n: nat): (t: In.Inbound)
    requires w.Shaped()
    ensures t.Shaped()
  {
    if n == 0 then w else In.Receive(hash, Receives(hash, w, n - 1))
  }

  /** Listening is receiving, one relay cell after another: other cells change nothing, and the client
      stops at the first one that a hop recognizes. */
  lemma {:induction false} ListenReceives(hash: Hasher, circ: nat, w: In.Inbound, cells: seq<Link.Cell>)
    requires w.Shaped() && w.links != [] && forall c <- cells :: Sized(c)
    requires var ps := Relayed(circ, cells);
             |ps| <= |w.links[0]| && forall i :: 0 <= i < |ps| ==> w.links[0][i].cell == ps[i]
    requires cells != [] ==> Listen(hash, circ, w.hops, cells[..|cells| - 1]).Waiting?
    ensures var o, t := Listen(hash, circ, w.hops, cells), Receives(hash, w, |Relayed(circ, cells)|);
            && t.hops == o.bwd && t.links == w.links[0 := w.links[0][|Relayed(circ, cells)|..]]
            && (if o.Told? then o.hop < |w.told| && t.told == w.told[o.hop := w.told[o.hop] + [o.message]]
                else t.told == w.told)
  {
    hide In.Peel, Hear, In.Receive;
    if cells != [] {
      var init, c := cells[..|cells| - 1], cells[|cells| - 1];
      WaitingBefore(hash, circ, w.hops, init);
      ListenReceives(hash, circ, w, init);
      var n := |Relayed(circ, init)|;
      if IsRelay(circ, c) {
        assert w.links[0][n..][0] == w.links[0][n] && w.links[0][n..][1..] == w.links[0][n + 1..];
      }
      HearReceives(hash, circ, Receives(hash, w, n), c);
    }
  }

  lemma HearReceives(hash: Hasher, circ: nat, w: In.Inbound, c: Link.Cell)
    requires w.Shaped() && w.links != [] && Sized(c)
    requires IsRelay(circ, c) ==> w.links[0] != [] && w.links[0][0].cell == c.payload
    ensures var o := Hear(hash, circ, w.hops, c);
            if IsRelay(circ, c) then
              var t := In.Receive(hash, w);
              && t.hops == o.bwd && t.links == w.links[0 := w.links[0][1..]]
              && (if o.Told? then o.hop < |w.told| && t.told == w.told[o.hop := w.told[o.hop] + [o.message]]
                  else o.Waiting? && t.told == w.told)
            else o.bwd == w.hops && !o.Told?
  {
    hide In.Peel;
  }

  lemma WaitingBefore(hash: Hasher, circ: nat, bwd: seq<Half>, cells: seq<Link.Cell>)
    requires (forall c <- cells :: Sized(c)) && Listen(hash, circ, bwd, cells).Waiting?
    ensures cells != [] ==> Listen(hash, circ, bwd, cells[..|cells| - 1]).Waiting?
  {
  }

  // ------------------------------------------------------------------- the client

  class TorClient {
    const f: Compression
    const link: Link.TorLink
    const circId: uint32
    var hops: seq<TorHop>
    ghost var fwd: seq<Half>
    ghost var bwd: seq<Half>

    ghost var parts: set<object>

    /** Hops share nothing, and fwd and bwd say what state each of them is in. */
    ghost predicate Valid()
      reads this, parts
    {
      && FiveWords(f) && |fwd| == |bwd| == |hops| && this !in parts
      && (forall h :: 0 <= h < |hops| ==> hops[h].Parts() <= parts)
      && (forall g, h :: 0 <= g < h < |hops| ==> hops[g].Parts() !! hops[h].Parts())
      && (forall h :: 0 <= h < |hops| ==>
          hops[h].Valid() && hops[h].f == f && hops[h].Fwd() == fwd[h] && hops[h].Bwd() == bwd[h])
    }

    method EncryptAt(h: nat, payload: array<uint8>)
      requires Valid() && h < |hops| && payload.Length == SIZE && payload !in parts
      modifies this`fwd, parts, payload
      ensures Valid() && fwd == old(fwd)[h := Moved(old(fwd)[h])]
      ensures payload[..] == Cover(old(fwd)[h], old(payload[..]))
    {
      hide TorHop.Valid, TorHop.Parts, TorHop.Fwd, TorHop.Bwd, Cover;
      hops[h].Encrypt(payload);
      fwd := fwd[h := Moved(fwd[h])];
    }

    method DecryptAt(h: nat, payload: array<uint8>)
      requires Valid() && h < |hops| && payload.Length == SIZE && payload !in parts
      modifies this`bwd, parts, payload
      ensures Valid() && bwd == old(bwd)[h := Moved(old(bwd)[h])]
      ensures payload[..] == Cover(old(bwd)[h], old(payload[..]))
    {
      hide TorHop.Valid, TorHop.Parts, TorHop.Fwd, TorHop.Bwd, Cover;
      hops[h].Decrypt(payload);
      bwd := bwd[h := Moved(bwd[h])];
    }

    method StampAt(h: nat, payload: array<uint8>)
      requires Valid() && h < |hops| && payload.Length == SIZE && payload !in parts
      modifies this`fwd, parts, payload
      ensures Valid() && fwd == old(fwd)[h := Absorb(old(fwd)[h], old(payload[..]))]
      ensures payload[..] == PutDigest(old(payload[..]), Mark(Digester(f), old(fwd)[h], old(payload[..])))
    {
      hide TorHop.Valid, TorHop.Parts, TorHop.Fwd, TorHop.Bwd, Mark, PutDigest;
      hops[h].Stamp(payload);
      fwd := fwd[h := Absorb(fwd[h], old(payload[..]))];
    }

    method CheckAt(h: nat, payload: array<uint8>) returns (ours: bool)
      requires Valid() && h < |hops| && payload.Length == SIZE && payload !in parts
      modifies this`bwd, parts, payload
      ensures Valid() && ours == Recognized(Digester(f), old(bwd)[h], old(payload[..]))
      ensures payload[..] == if ours then PutDigest(old(payload[..]), Zeros(4)) else old(payload[..])
      ensures bwd == if ours then old(bwd)[h := Absorb(old(bwd)[h], payload[..])] else old(bwd)
    {
      hide TorHop.Valid, TorHop.Parts, TorHop.Fwd, TorHop.Bwd, Recognized, PutDigest;
      ours := hops[h].Check(payload);
      if ours {
        bwd := bwd[h := Absorb(bwd[h], payload[..])];
      }
    }

    /** A client without a circuit. */
    constructor (f: Compression, link: Link.TorLink, circId: uint32)
      requires FiveWords(f)
      ensures Valid() && fwd == [] && bwd == [] && parts == {}
      ensures this.f == f && this.link == link && this.circId == circId
    {
      this.f, this.link, this.circId := f, link, circId;
      hops, fwd, bwd, parts := [], [], [], {};
    }

    /** The last step of creating or extending a circuit: the new hop starts from its key material. */
    method AddHop(fwdAes: Cipher, bwdAes: Cipher, df: seq<uint8>, db: seq<uint8>)
      requires Valid()
      modifies this
      ensures Valid() && fresh(parts - old(parts))
      ensures fwd == old(fwd) + [Half(fwdAes, 0, df)] && bwd == old(bwd) + [Half(bwdAes, 0, db)]
    {
      hide TorHop.Valid, TorHop.Parts, TorHop.Fwd, TorHop.Bwd;
      var hop := new TorHop(f, fwdAes, bwdAes, df, db);
      parts := parts + hop.Parts();
      hops, fwd, bwd := hops + [hop], fwd + [hop.Fwd()], bwd + [hop.Bwd()];
    }

    /** Encrypts from the last hop inward to the guard. */
    method Wrap(payload: array<uint8>)
      requires Valid() && hops != [] && payload.Length == SIZE && payload !in parts
      modifies this`fwd, parts, payload
      ensures Valid() && |fwd| == |old(fwd)| && (forall h :: 0 <= h < |fwd| ==> fwd[h] == Moved(old(fwd)[h]))
      ensures payload[..] == Out.Onion(old(fwd), 0, old(payload[..]))
    {
      hide TorHop.Valid, TorHop.Parts, TorHop.Fwd, TorHop.Bwd, Cover;
      ghost var was, inner := fwd, payload[..];
      var h := |hops|;
      while h > 0
        invariant 0 <= h <= |hops| && Valid() && bwd == old(bwd) && |fwd| == |was|
        invariant forall g :: 0 <= g < |was| ==> fwd[g] == if g < h then was[g] else Moved(was[g])
        invariant payload[..] == if h == |hops| then inner else Out.Onion(was, h, inner)
      {
        h := h - 1;
        EncryptAt(h, payload);
      }
    }

    /** The payload of a relay cell to the last hop. */
    method SealAndWrap(r: Message) returns (cell: Payload)
      requires Valid() && hops != []
      modifies this`fwd, parts
      ensures Valid() && fwd == Out.HopsAfter(old(fwd), r)
      ensures cell == Out.Onion(old(fwd), 0, Seal(Digester(f), old(fwd)[|hops| - 1], ZeroPadded(r)))
    {
      hide TorHop.Valid, TorHop.Parts, TorHop.Fwd, TorHop.Bwd, Cover, Encode, Mark, PutDigest, Out.Onion;
      var dest := |hops| - 1;
      var payload := new uint8[SIZE](_ => 0);
      Fill(payload, r.cmd, r.stream, r.data);
      StampAt(dest, payload);
      SameOnion(old(fwd), fwd, 0, payload[..]);
      Wrap(payload);
      cell := payload[..];
    }

    /** `sendRelayCell`: without hops or above 498 bytes nothing changes. Otherwise digest and ciphers
        advance and one fixed cell goes out, in full if the call succeeds. */
    method SendRelayCell(cmd: uint8, stream: uint16, data: seq<uint8>, early: bool) returns (ok: bool)
      requires Valid() && link !in parts && link.width in {Link.NARROW, Link.WIDE}
      modifies this`fwd, parts, link`outgoing, link`refused
      ensures Valid()
      ensures (if hops == [] || |data| > MAX_DATA then
          !ok && fwd == old(fwd) && link.outgoing == old(link.outgoing) && link.refused == old(link.refused)
        else
          var r := Relay(cmd, stream, data);
          var p := Out.Onion(old(fwd), 0, Seal(Digester(f), old(fwd)[|hops| - 1], ZeroPadded(r)));
          var cell := Link.Cell(circId % Pow2(8 * link.width), if early then RELAY_EARLY else RELAY, p);
          && fwd == Out.HopsAfter(old(fwd), r)
          && old(link.outgoing) <= link.outgoing <= old(link.outgoing) + Link.Frame(link.width, cell)
          && (ok ==> link.outgoing == old(link.outgoing) + Link.Frame(link.width, cell))
          && link.refused == (old(link.refused) || !ok))
    {
      hide TorHop.Valid, TorHop.Parts, TorHop.Fwd, TorHop.Bwd, Cover, Seal, Out.Onion, Out.HopsAfter, Link.Frame, Pow2;
      ok := hops != [] && |data| <= MAX_DATA;
      if ok {
        var cell := SealAndWrap(Relay(cmd, stream, data));
        ok := link.SendFixedCell(circId, if early then RELAY_EARLY else RELAY, cell);
      }
    }

    /** Peels layer by layer until a hop knows the cell. */
    method PeelCell(payload: array<uint8>) returns (found: bool, hop: nat, message: Message)
      requires Valid() && payload.Length == SIZE && payload !in parts
      modifies this`bwd, parts, payload
      ensures Valid()
      ensures In.Peel(Digester(f), old(bwd), 0, old(payload[..])) ==
        if found then In.Found(bwd, hop, message) else In.Unknown(bwd)
    {
      hide TorHop.Valid, TorHop.Parts, TorHop.Fwd, TorHop.Bwd, Cover, Recognized, PutDigest, Decode;
      found, hop, message := false, 0, Relay(0, 0, []);
      while hop < |hops|
        invariant hop <= |hops| && Valid() && fwd == old(fwd)
        invariant In.Peel(Digester(f), old(bwd), 0, old(payload[..])) == In.Peel(Digester(f), bwd, hop, payload[..])
      {
        ghost var s := bwd[hop];
        DecryptAt(hop, payload);
        ghost var c := payload[..];
        SameVerdict(Digester(f), s, Moved(s), c);
        found := CheckAt(hop, payload);
        if found {
          SameMessage(c);
          message := Decode(payload[..]);
          return;
        }
        hop := hop + 1;
      }
    }

    /** One cell, whatever it is. */
    method HearCell(c: Link.Cell) returns (told: bool, closed: bool, hop: nat, message: Message)
      requires Valid() && Sized(c)
      modifies this`bwd, parts
      ensures Valid()
      ensures Hear(Digester(f), circId, old(bwd), c) ==
        if told then Told(bwd, hop, message) else if closed then Closed(bwd) else Waiting(bwd)
    {
      hide TorHop.Valid, TorHop.Parts, TorHop.Fwd, TorHop.Bwd, In.Peel;
      told, closed, hop, message := false, false, 0, Relay(0, 0, []);
      if c.circ == circId {
        if c.cmd == DESTROY {
          closed := true;
        } else if c.cmd == RELAY || c.cmd == RELAY_EARLY {
          var payload := new uint8[SIZE](i requires 0 <= i < |c.payload| => c.payload[i]);
          assert payload[..] == c.payload;
          told, hop, message := PeelCell(payload);
        }
      }
    }

    /** One round of the loop in `recvRelayCell`. */
    method HearNext()
      returns (got: bool, told: bool, closed: bool, message: Message, ghost hop: nat,
               ghost whole: Link.Cell, ghost part: seq<uint8>)
      requires Valid() && link !in parts && link.width in {Link.NARROW, Link.WIDE}
      modifies this`bwd, parts, link`incoming, link`gaveUp
      ensures Valid()
      ensures (if got then
          && Link.Fits(link.width, whole) && Sized(whole)
          && old(link.incoming) == Link.Frame(link.width, whole) + link.incoming
          && Hear(Digester(f), circId, old(bwd), whole) ==
               if told then Told(bwd, hop, message) else if closed then Closed(bwd) else Waiting(bwd)
        else !told && link.gaveUp && bwd == old(bwd) && old(link.incoming) == part + link.incoming)
    {
      hide Link.Frame, Link.Fits, In.Peel, Hear, Sized, TorHop.Valid, TorHop.Parts, TorHop.Fwd, TorHop.Bwd;
      told, closed, message, hop := false, false, Relay(0, 0, []), 0;
      var cell;
      got, cell, whole, part := link.ReadCell(1024);
      if got {
        SameWhenCut(Digester(f), circId, bwd, link.width, whole);
        var at;
        told, closed, at, message := HearCell(cell);
        hop := at;
      }
    }

    /** `recvRelayCell`: reads up to 64 cells until one is ours. seen are the cells it took off the link;
        when a read gives up, part is what it took of the next one. */
    method RecvRelayCell() returns (ok: bool, message: Message, ghost seen: seq<Link.Cell>, ghost part: seq<uint8>)
      requires Valid() && link !in parts && link.width in {Link.NARROW, Link.WIDE}
      modifies this`bwd, parts, link`incoming, link`gaveUp
      ensures Valid() && |seen| <= 64 && (forall c <- seen :: Link.Fits(link.width, c) && Sized(c))
      ensures old(link.incoming) == OnLink(link.width, seen) + part + link.incoming
      ensures var o := Listen(Digester(f), circId, old(bwd), seen);
              && o.bwd == bwd && (ok <==> o.Told?) && (ok ==> o.message == message)
              && (!ok && !link.gaveUp ==> o.Closed? || |seen| == 64)
              && (ok || o.Closed? || |seen| == 64 ==> part == [])
    {
      hide Link.Frame, Link.Fits, In.Peel, Hear, Listen, OnLink, Sized, TorHop.Valid, TorHop.Parts, TorHop.Fwd, TorHop.Bwd;
      NothingHeard(Digester(f), circId, bwd, link.width);
      ok, message, seen, part := false, Relay(0, 0, []), [], [];
      var guard := 0;
      while guard < 64
        invariant |seen| == guard <= 64 && Valid() && part == []
        invariant forall c <- seen :: Link.Fits(link.width, c) && Sized(c)
        invariant Listen(Digester(f), circId, old(bwd), seen) == Waiting(bwd)
        invariant old(link.incoming) == OnLink(link.width, seen) + link.incoming
      {
        ghost var before, now := OnLink(link.width, seen), link.incoming;
        var got, told, closed, m, hop, whole, some := HearNext();
        if !got {
          part := some;
          assert before + now == before + some + link.incoming;
          return;
        }
        OneMoreHeard(Digester(f), circId, old(bwd), link.width, seen, whole);
        assert before + now == before + Link.Frame(link.width, whole) + link.incoming;
        seen := seen + [whole];
        assert OnLink(link.width, seen) + [] == OnLink(link.width, seen);
        if told { return true, m, seen, []; }
        if closed { return; }
        guard := guard + 1;
      }
    }
  }

  lemma NothingHeard(hash: Hasher, circ: nat, bwd: seq<Half>, width: nat)
    ensures Listen(hash, circ, bwd, []) == Waiting(bwd) && OnLink(width, []) == []
  {
  }

  lemma OneMoreHeard(hash: Hasher, circ: nat, bwd: seq<Half>, width: nat, seen: seq<Link.Cell>, c: Link.Cell)
    requires (forall d <- seen :: Sized(d)) && Sized(c)
    ensures forall d <- seen + [c] :: Sized(d)
    ensures OnLink(width, seen + [c]) == OnLink(width, seen) + Link.Frame(width, c)
    ensures var o := Listen(hash, circ, bwd, seen);
            Listen(hash, circ, bwd, seen + [c]) == if o.Waiting? then Hear(hash, circ, o.bwd, c) else o
  {
    hide Hear, Link.Frame, Sized;
    assert (seen + [c])[..|seen|] == seen;
  }

  /** Only cells of variable length are ever cut, and those are not relay cells. */
  lemma SameWhenCut(hash: Hasher, circ: nat, bwd: seq<Half>, width: nat, c: Link.Cell)
    requires Link.Fits(width, c)
    ensures Sized(c) && Sized(Link.Cut(c, 1024)) && Hear(hash, circ, bwd, Link.Cut(c, 1024)) == Hear(hash, circ, bwd, c)
  {
    hide In.Peel;
  }

  /** Cells on the link once the width is settled. */
  function OnLink(width: nat, cells: seq<Link.Cell>): seq<uint8> {
    if cells == [] then []
    else OnLink(width, cells[..|cells| - 1]) + Link.Frame(width, cells[|cells| - 1])
  }

  /** Layers depend on the ciphers alone, recognition on the digest alone. */
  lemma {:induction false} SameOnion(s: seq<Half>, t: seq<Half>, h: nat, inner: Payload)
    requires h < |s| == |t| && forall g :: 0 <= g < |s| ==> s[g].aes == t[g].aes && s[g].pos == t[g].pos
    ensures Out.Onion(s, h, inner) == Out.Onion(t, h, inner)
    decreases |s| - h
  {
    if h + 1 < |s| {
      SameOnion(s, t, h + 1, inner);
    }
  }

  lemma SameVerdict(hash: Hasher, s: Half, t: Half, p: Payload)
    requires s.log == t.log
    ensures Recognized(hash, s, p) == Recognized(hash, t, p)
  {
  }

  lemma SameMessage(c: Payload)
    ensures Decode(PutDigest(c, Zeros(4))) == Decode(c)
  {
    var z := PutDigest(c, Zeros(4));
    assert z[9..] == c[9..] && z[11..] == z[9..][2..] && c[11..] == c[9..][2..];
  }

  /** Lays out a relay cell with its digest still zero. */
  method Fill(payload: array<uint8>, cmd: uint8, stream: uint16, data: seq<uint8>)
    requires payload.Length == SIZE && |data| <= MAX_DATA
    requires forall i :: 0 <= i < SIZE ==> payload[i] == 0
    modifies payload
    ensures payload[..] == Encode(ZeroPadded(Relay(cmd, stream, data)))
  {
    hide BigEndian;
    payload[0] := cmd;
    payload[3], payload[4] := stream / 0x100, stream % 0x100;
    payload[9], payload[10] := |data| / 0x100, |data| % 0x100;
    for i := 0 to |data|
      invariant forall k :: 0 <= k < SIZE && (k < 11 || 11 + i <= k) ==> payload[k] == old(payload[k]) || k in {0, 3, 4, 9, 10}
      invariant payload[0] == cmd && payload[3] == stream / 0x100 && payload[4] == stream % 0x100
      invariant payload[9] == |data| / 0x100 && payload[10] == |data| % 0x100
      invariant forall k :: 0 <= k < i ==> payload[11 + k] == data[k]
    {
      payload[11 + i] := data[i];
    }
    TwoBytes(stream);
    TwoBytes(|data|);
  }
}
