/** Cells from the client outward: the client wraps, every relay on the way unwraps one layer. */
module RelayOutbound {
  import opened Bytes
  import opened RelayCells
  import opened OnionLayers

  /** The client's half of each hop, the relays' halves, the links into each relay, and two logs:
      what the client asked each hop and what that relay recognized. keys[h] is the state in which
      both ends of hop h start. */
  datatype Outbound = Outbound(keys: seq<Half>, hops: seq<Half>, nodes: seq<Half>, links: seq<seq<Parcel>>,
                               asked: seq<seq<Message>>, heard: seq<seq<Message>>)
  {
    ghost predicate Shaped() {
      && |keys| == |nodes| == |links| == |asked| == |heard| && |hops| <= |nodes|
    }

    ghost predicate Quiet() {
      forall h :: 0 <= h < |links| ==> links[h] == []
    }
  }

  /** The cell on link h when the client encrypts from its last hop inward to the guard. */
  function Onion(hops: seq<Half>, h: nat, inner: Payload): Payload
    requires h < |hops|
    decreases |hops| - h
  {
    Cover(hops[h], if h + 1 == |hops| then inner else Onion(hops, h + 1, inner))
  }

  /** The client's hops after a cell to the last of them. */
  function HopsAfter(hops: seq<Half>, r: Message): (s: seq<Half>)
    ensures |s| == |hops|
  {
    seq(|hops|, h requires 0 <= h < |hops| => Moved(if h + 1 == |hops| then Absorb(hops[h], Encode(ZeroPadded(r))) else hops[h]))
  }

  function Send(hash: Hasher, w: Outbound, r: Message): (t: Outbound)
    requires w.Shaped()
    ensures t.Shaped()
  {
    if w.hops == [] then w
    else
      var dest := |w.hops| - 1;
      var cell := Onion(w.hops, 0, Seal(hash, w.hops[dest], ZeroPadded(r)));
      w.(hops := HopsAfter(w.hops, r),
         links := w.links[0 := w.links[0] + [Parcel(cell, dest)]],
         asked := w.asked[dest := w.asked[dest] + [r]])
  }

  /** Relay h takes the next cell: its own, or one to pass on to the next relay if there is one. */
  function Process(hash: Hasher, w: Outbound, h: nat): (t: Outbound)
    requires w.Shaped()
    ensures t.Shaped()
  {
    if h >= |w.nodes| || w.links[h] == [] then w
    else
      var p, s := w.links[h][0], w.nodes[h];
      var c, rest := Cover(s, p.cell), w.links[h := w.links[h][1..]];
      if Recognized(hash, s, c) then
        w.(nodes := w.nodes[h := Moved(Absorb(s, PutDigest(c, Zeros(4))))],
           links := rest, heard := w.heard[h := w.heard[h] + [Decode(c)]])
      else
        w.(nodes := w.nodes[h := Moved(s)],
           links := if h + 1 < |w.nodes| then rest[h + 1 := rest[h + 1] + [Parcel(c, p.hop)]] else rest)
  }

  /** The hypothesis on the digests: relay h recognizes nothing that is meant for a later relay. */
  ghost predicate NoMistake(hash: Hasher, w: Outbound, h: nat)
    requires w.Shaped()
  {
    h < |w.nodes| && w.links[h] != [] && Recognized(hash, w.nodes[h], Cover(w.nodes[h], w.links[h][0].cell)) ==>
      w.links[h][0].hop <= h
  }

  // --------------------------------------------------------------------- invariant

  /** What went through each layer, and how much of it the relay has processed. */
  datatype Trace = Trace(layers: seq<Layer>, done: seq<nat>)

  ghost predicate Fits(w: Outbound, k: Trace) {
    && w.Shaped() && |k.layers| == |k.done| == |w.nodes|
    && forall h :: 0 <= h < |k.layers| ==> k.done[h] <= |k.layers[h].items|
  }

  /** The cells put on link h so far. */
  ghost function Put(hash: Hasher, k: Trace, h: nat): seq<Parcel>
    requires h < |k.layers| == |k.done|
    requires forall g :: 0 <= g < |k.layers| ==> k.done[g] <= |k.layers[g].items|
  {
    if h == 0 then k.layers[0].Wires(hash) else PassedOf(k.layers[h - 1].items[..k.done[h - 1]])
  }

  ghost predicate Ends(w: Outbound, k: Trace, h: nat)
    requires Fits(w, k) && h < |w.nodes|
  {
    var l, n := k.layers[h], k.done[h];
    && l.hop == h && l.Sound() && w.keys[h] == l.At(0)
    && w.nodes[h] == l.At(n)
    && (if h < |w.hops| then w.hops[h] == l.At(|l.items|) else l.items == [])
    && w.asked[h] == OwnOf(l.items) && w.heard[h] == OwnOf(l.items[..n])
  }

  /** Link h still holds the cells put on it that the relay has not processed. */
  ghost predicate Carried(hash: Hasher, w: Outbound, k: Trace, h: nat)
    requires Fits(w, k) && h < |w.nodes|
  {
    k.layers[h].Wires(hash)[..k.done[h]] + w.links[h] == Put(hash, k, h)
  }

  /** What passes through this layer is what the next one has wrapped. */
  ghost predicate Nested(hash: Hasher, k: Trace, h: nat)
    requires h < |k.layers|
  {
    PassedOf(k.layers[h].items) == if h + 1 < |k.layers| then k.layers[h + 1].Wires(hash) else []
  }

  /** At every hop both ends are in step with the layer, and the layers fit into one another. */
  ghost predicate Inv(hash: Hasher, w: Outbound, k: Trace) {
    && Fits(w, k)
    && (forall h :: 0 <= h < |w.nodes| ==> Ends(w, k, h))
    && (forall h :: 0 <= h < |w.nodes| ==> Carried(hash, w, k, h))
    && (forall h :: 0 <= h < |w.nodes| ==> Nested(hash, k, h))
  }

  // -------------------------------------------------------------------------- Send

  /** The new cell on link h, and what becomes of it just inside layer h. */
  ghost function Wrapped(hash: Hasher, w: Outbound, r: Message, h: nat): Parcel
    requires h < |w.hops|
  {
    Parcel(Onion(w.hops, h, Seal(hash, w.hops[|w.hops| - 1], ZeroPadded(r))), |w.hops| - 1)
  }

  ghost function Added(hash: Hasher, w: Outbound, r: Message, h: nat): Item
    requires h < |w.hops|
  {
    if h + 1 == |w.hops| then Own(ZeroPadded(r)) else Passed(Wrapped(hash, w, r, h + 1))
  }

  ghost function AfterSend(hash: Hasher, w: Outbound, k: Trace, r: Message): (t: Trace)
    requires Fits(w, k)
    ensures |t.layers| == |k.layers|
  {
    k.(layers := seq(|k.layers|, h requires 0 <= h < |k.layers| =>
        if h < |w.hops| then k.layers[h].Add(Added(hash, w, r, h)) else k.layers[h]))
  }

  lemma WrappedOnce(hash: Hasher, w: Outbound, r: Message, h: nat)
    requires h < |w.hops|
    ensures Wrapped(hash, w, r, h).hop == |w.hops| - 1
    ensures Wrapped(hash, w, r, h).cell == Cover(w.hops[h],
      if h + 1 == |w.hops| then Seal(hash, w.hops[h], ZeroPadded(r)) else Wrapped(hash, w, r, h + 1).cell)
  {
  }

  /** The new cell at every layer is the onion from that layer on. */
  lemma SendLayer(hash: Hasher, w: Outbound, k: Trace, r: Message, h: nat)
    requires Inv(hash, w, k) && h < |w.hops|
    ensures var l, m := k.layers[h], AfterSend(hash, w, k, r).layers[h];
            && m.Wires(hash) == l.Wires(hash) + [Wrapped(hash, w, r, h)]
            && PassedOf(m.items) == PassedOf(l.items)
                 + (if h + 1 < |w.hops| then [Wrapped(hash, w, r, h + 1)] else [])
            && OwnOf(m.items) == OwnOf(l.items) + (if h + 1 == |w.hops| then [r] else [])
            && (forall n :: 0 <= n <= |l.items| ==> m.items[..n] == l.items[..n])
            && m.Sound()
            && m.At(|m.items|) == HopsAfter(w.hops, r)[h]
            && (forall n :: 0 <= n <= |l.items| ==> m.At(n) == l.At(n))
  {
    hide Cover, Seal, Encode, Onion, Wrapped, OwnOf, PassedOf, Absorbed, Carried, Nested;
    assert Ends(w, k, h);
    WrappedOnce(hash, w, r, h);
    if h + 1 < |w.hops| {
      WrappedOnce(hash, w, r, h + 1);
    }
    OnionLayers.Extend(hash, k.layers[h], Added(hash, w, r, h));
    Snoc(k.layers[h].items, Added(hash, w, r, h));
  }

  lemma SendKeeps(hash: Hasher, w: Outbound, k: Trace, r: Message)
    requires Inv(hash, w, k)
    ensures Inv(hash, Send(hash, w, r), AfterSend(hash, w, k, r))
  {
    hide Ends, Carried, Nested, Cover, Seal, Encode, HopsAfter, Onion, Wrapped, Added;
    SendFits(hash, w, k, r);
    var t, j := Send(hash, w, r), AfterSend(hash, w, k, r);
    forall h | 0 <= h < |w.nodes|
      ensures Ends(t, j, h) && Carried(hash, t, j, h) && Nested(hash, j, h)
    {
      SendEnds(hash, w, k, r, h);
      SendCarried(hash, w, k, r, h);
      SendNested(hash, w, k, r, h);
    }
  }

  lemma SendFits(hash: Hasher, w: Outbound, k: Trace, r: Message)
    requires Inv(hash, w, k)
    ensures Fits(Send(hash, w, r), AfterSend(hash, w, k, r))
  {
    hide Cover, Seal, Encode, HopsAfter, Onion, Wrapped, Added, PassedOf, OwnOf, Absorbed;
  }

  lemma SendEnds(hash: Hasher, w: Outbound, k: Trace, r: Message, h: nat)
    requires Inv(hash, w, k) && h < |w.nodes|
    ensures Fits(Send(hash, w, r), AfterSend(hash, w, k, r))
    ensures Ends(Send(hash, w, r), AfterSend(hash, w, k, r), h)
  {
    hide Cover, Seal, Encode, HopsAfter, Onion, Wrapped, PassedOf, OwnOf, Absorbed;
    SendFits(hash, w, k, r);
    assert Ends(w, k, h);
    if h < |w.hops| {
      SendLayer(hash, w, k, r, h);
    }
  }

  lemma SendCarried(hash: Hasher, w: Outbound, k: Trace, r: Message, h: nat)
    requires Inv(hash, w, k) && h < |w.nodes|
    ensures Fits(Send(hash, w, r), AfterSend(hash, w, k, r))
    ensures Carried(hash, Send(hash, w, r), AfterSend(hash, w, k, r), h)
  {
    hide Cover, Seal, Encode, HopsAfter, Onion, PassedOf, OwnOf, Absorbed, Ends, Added, Nested, Put;
    SendFits(hash, w, k, r);
    assert Carried(hash, w, k, h);
    if h < |w.hops| {
      SendLayer(hash, w, k, r, h);
      LinkGrows(k.layers[h].Wires(hash), k.done[h], w.links[h], Put(hash, k, h), Wrapped(hash, w, r, h));
    }
    SendPut(hash, w, k, r, h);
  }

  lemma LinkGrows<T>(ws: seq<T>, n: nat, link: seq<T>, put: seq<T>, x: T)
    requires n <= |ws| && ws[..n] + link == put
    ensures (ws + [x])[..n] + (link + [x]) == put + [x] && (ws + [x])[..n] + link == put
  {
  }

  lemma SendPut(hash: Hasher, w: Outbound, k: Trace, r: Message, h: nat)
    requires Inv(hash, w, k) && h < |w.nodes|
    requires Fits(Send(hash, w, r), AfterSend(hash, w, k, r))
    ensures Put(hash, AfterSend(hash, w, k, r), h) ==
      Put(hash, k, h) + (if h == 0 && w.hops != [] then [Wrapped(hash, w, r, 0)] else [])
  {
    hide Cover, Seal, Encode, HopsAfter, Onion, PassedOf, OwnOf, Absorbed, Ends, Added, Nested, Wrapped;
    if h == 0 && w.hops != [] {
      SendLayer(hash, w, k, r, 0);
    } else if 0 < h <= |w.hops| {
      SendLayer(hash, w, k, r, h - 1);
    }
  }

  lemma SendNested(hash: Hasher, w: Outbound, k: Trace, r: Message, h: nat)
    requires Inv(hash, w, k) && h < |w.nodes|
    ensures Nested(hash, AfterSend(hash, w, k, r), h)
  {
    hide Cover, Seal, Encode, HopsAfter, Onion, Wrapped, PassedOf, OwnOf, Absorbed, Ends, Added, Carried;
    assert Nested(hash, k, h);
    if h < |w.hops| {
      SendLayer(hash, w, k, r, h);
    }
    if h + 1 < |w.hops| {
      SendLayer(hash, w, k, r, h + 1);
    }
  }

  // ----------------------------------------------------------------------- Process

  ghost function AfterProcess(w: Outbound, k: Trace, h: nat): Trace
    requires Fits(w, k)
  {
    if h >= |w.nodes| || w.links[h] == [] then k else k.(done := k.done[h := k.done[h] + 1])
  }

  /** The head of a link is the next cell of that layer. */
  lemma LinkHead(hash: Hasher, w: Outbound, k: Trace, h: nat)
    requires Inv(hash, w, k) && h < |w.nodes| && w.links[h] != []
    ensures k.done[h] < |k.layers[h].items| && w.links[h][0] == k.layers[h].Wire(hash, k.done[h])
  {
    hide Ends, PassedOf, OwnOf, Absorbed, Nested;
    var n, ws := k.done[h], k.layers[h].Wires(hash);
    assert Carried(hash, w, k, h);
    PutIsPrefix(hash, w, k, h);
    assert (ws[..n] + w.links[h])[n] == w.links[h][0];
  }

  lemma PutIsPrefix(hash: Hasher, w: Outbound, k: Trace, h: nat)
    requires Inv(hash, w, k) && h < |w.nodes|
    ensures Put(hash, k, h) <= k.layers[h].Wires(hash)
  {
    hide PassedOf;
    if h > 0 {
      assert Nested(hash, k, h - 1);
      PrefixSelects(k.layers[h - 1].items, k.done[h - 1]);
    }
  }

  /** What a relay makes of its next cell: its own message in order, or the cell for the next relay. */
  lemma ProcessOne(hash: Hasher, w: Outbound, k: Trace, h: nat)
    requires Inv(hash, w, k) && h < |w.nodes| && w.links[h] != [] && NoMistake(hash, w, h)
    ensures k.done[h] < |k.layers[h].items|
    ensures var n, l, c := k.done[h], k.layers[h], Cover(w.nodes[h], w.links[h][0].cell);
            match l.items[n]
            case Own(q) =>
              && Recognized(hash, w.nodes[h], c) && Decode(c) == q.message
              && l.At(n + 1) == Moved(Absorb(w.nodes[h], PutDigest(c, Zeros(4))))
              && OwnOf(l.items[..n + 1]) == OwnOf(l.items[..n]) + [q.message]
              && PassedOf(l.items[..n + 1]) == PassedOf(l.items[..n])
            case Passed(p) =>
              && !Recognized(hash, w.nodes[h], c) && p == Parcel(c, w.links[h][0].hop)
              && l.At(n + 1) == Moved(w.nodes[h]) && h + 1 < |w.nodes|
              && OwnOf(l.items[..n + 1]) == OwnOf(l.items[..n])
              && PassedOf(l.items[..n + 1]) == PassedOf(l.items[..n]) + [p]
  {
    hide Cover, Recognized, Decode, PutDigest, OwnOf, PassedOf, Absorbed;
    var n, l := k.done[h], k.layers[h];
    LinkHead(hash, w, k, h);
    assert Ends(w, k, h) && Nested(hash, k, h);
    Peeled(hash, l, n);
    assert l.items[..n + 1] == l.items[..n] + [l.items[n]];
    Snoc(l.items[..n], l.items[n]);
    NextPassed(l.items, n);
  }

  lemma ProcessKeeps(hash: Hasher, w: Outbound, k: Trace, h: nat)
    requires Inv(hash, w, k) && NoMistake(hash, w, h)
    ensures Inv(hash, Process(hash, w, h), AfterProcess(w, k, h))
  {
    hide Cover, Recognized, Decode, PutDigest, Ends, Carried, Nested;
    if h < |w.nodes| && w.links[h] != [] {
      var t, j := Process(hash, w, h), AfterProcess(w, k, h);
      ProcessOne(hash, w, k, h);
      forall g | 0 <= g < |w.nodes|
        ensures Ends(t, j, g) && Carried(hash, t, j, g) && Nested(hash, j, g)
      {
        ProcessEnds(hash, w, k, h, g);
        ProcessCarried(hash, w, k, h, g);
        assert Nested(hash, k, g);
        SameNest(hash, k, j, g);
      }
    }
  }

  lemma SameNest(hash: Hasher, k: Trace, j: Trace, g: nat)
    requires k.layers == j.layers && g < |k.layers| && Nested(hash, k, g)
    ensures Nested(hash, j, g)
  {
  }

  lemma ProcessEnds(hash: Hasher, w: Outbound, k: Trace, h: nat, g: nat)
    requires Inv(hash, w, k) && h < |w.nodes| && w.links[h] != [] && NoMistake(hash, w, h) && g < |w.nodes|
    ensures Fits(Process(hash, w, h), AfterProcess(w, k, h))
    ensures Ends(Process(hash, w, h), AfterProcess(w, k, h), g)
  {
    hide Cover, Recognized, Decode, PutDigest, OwnOf, PassedOf, Absorbed, Carried, Nested;
    ProcessOne(hash, w, k, h);
    assert Ends(w, k, g);
  }

  lemma ProcessCarried(hash: Hasher, w: Outbound, k: Trace, h: nat, g: nat)
    requires Inv(hash, w, k) && h < |w.nodes| && w.links[h] != [] && NoMistake(hash, w, h) && g < |w.nodes|
    ensures Fits(Process(hash, w, h), AfterProcess(w, k, h))
    ensures Carried(hash, Process(hash, w, h), AfterProcess(w, k, h), g)
  {
    hide Cover, Recognized, Decode, PutDigest, OwnOf, PassedOf, Absorbed, Nested, Ends, Put, NoMistake, Process;
    ProcessMoves(hash, w, k, h, g);
    assert Carried(hash, w, k, g);
    var ws := k.layers[g].Wires(hash);
    if g == h {
      LinkHead(hash, w, k, h);
      HeadMoves(ws, k.done[h], w.links[h]);
    } else if g == h + 1 {
      assert forall more :: ws[..k.done[g]] + (w.links[g] + more) == (ws[..k.done[g]] + w.links[g]) + more;
    }
  }

  /** What a relay's step does to the links and to what has been put on them. */
  lemma ProcessMoves(hash: Hasher, w: Outbound, k: Trace, h: nat, g: nat)
    requires Inv(hash, w, k) && h < |w.nodes| && w.links[h] != [] && NoMistake(hash, w, h) && g < |w.nodes|
    ensures Fits(Process(hash, w, h), AfterProcess(w, k, h))
    ensures k.done[h] < |k.layers[h].items|
    ensures var t, i := Process(hash, w, h), k.layers[h].items[k.done[h]];
            var more := if g == h + 1 && i.Passed? then [i.parcel] else [];
            && t.links[g] == (if g == h then w.links[h][1..] else w.links[g] + more)
            && Put(hash, AfterProcess(w, k, h), g) == Put(hash, k, g) + more
  {
    hide Cover, Recognized, Decode, PutDigest, OwnOf, PassedOf, Absorbed, Nested, Ends, Carried;
    ProcessOne(hash, w, k, h);
  }

  lemma HeadMoves<T>(ws: seq<T>, n: nat, link: seq<T>)
    requires n < |ws| && link != [] && link[0] == ws[n]
    ensures ws[..n] + link == ws[..n + 1] + link[1..]
  {
  }

  // --------------------------------------------------------------- growth and start

  lemma GrowKeeps(hash: Hasher, w: Outbound, k: Trace)
    requires Inv(hash, w, k)
    ensures Inv(hash, w.(hops := Grown(w.keys, w.hops)), k)
  {
    hide OwnOf, PassedOf, Absorbed;
    var t := w.(hops := Grown(w.keys, w.hops));
    forall h | 0 <= h < |w.nodes|
      ensures Ends(t, k, h) && Carried(hash, t, k, h)
    {
      assert Ends(w, k, h) && Carried(hash, w, k, h);
    }
  }

  /** No hop yet, every relay in its starting state, nothing on the links. */
  function Start(keys: seq<Half>): (w: Outbound)
    ensures w.Shaped()
  {
    Outbound(keys, [], keys, seq(|keys|, _ => []), seq(|keys|, _ => []), seq(|keys|, _ => []))
  }

  ghost function StartTrace(keys: seq<Half>): Trace {
    Trace(seq(|keys|, h requires 0 <= h < |keys| => Layer(h, keys[h].aes, keys[h].log, [])), seq(|keys|, _ => 0))
  }

  lemma StartInv(hash: Hasher, keys: seq<Half>)
    requires forall s <- keys :: s.pos == 0
    ensures Inv(hash, Start(keys), StartTrace(keys))
  {
  }

  // ------------------------------------------------------------------- consequences

  /** Every relay has recognized a prefix of what the client asked of it, in order. */
  lemma HeardIsPrefix(hash: Hasher, w: Outbound, k: Trace, h: nat)
    requires Inv(hash, w, k) && h < |w.nodes|
    ensures w.heard[h] <= w.asked[h]
  {
    assert Ends(w, k, h);
    PrefixSelects(k.layers[h].items, k.done[h]);
  }

  /** With nothing on the links, each relay is where the client is and has recognized everything. */
  lemma QuietMeansInStep(hash: Hasher, w: Outbound, k: Trace, h: nat)
    requires Inv(hash, w, k) && w.Quiet() && h < |w.nodes|
    ensures w.heard[h] == w.asked[h]
    ensures w.nodes[h] == if h < |w.hops| then w.hops[h] else w.keys[h]
  {
    hide OwnOf, PassedOf, Absorbed;
    AllDone(hash, w, k, h);
    assert Ends(w, k, h);
    var l := k.layers[h];
    assert l.items[..|l.items|] == l.items;
  }

  lemma {:induction false} AllDone(hash: Hasher, w: Outbound, k: Trace, h: nat)
    requires Inv(hash, w, k) && w.Quiet() && h < |w.nodes|
    ensures k.done[h] == |k.layers[h].items|
  {
    hide OwnOf, PassedOf, Absorbed, Ends;
    assert Carried(hash, w, k, h) && w.links[h] == [];
    if h > 0 {
      AllDone(hash, w, k, h - 1);
      assert Nested(hash, k, h - 1);
      var items := k.layers[h - 1].items;
      assert items[..|items|] == items;
    }
  }
}
