/** Cells toward the client: relays add a layer each, the client peels until a hop knows its own. */
module RelayInbound {
  import opened Bytes
  import opened RelayCells
  import opened OnionLayers

  /** As for the other direction; link h leads from relay h to relay h-1, or to the client when h is 0.
      ignored counts the cells the client could not attribute to any hop. */
  datatype Inbound = Inbound(keys: seq<Half>, hops: seq<Half>, nodes: seq<Half>, links: seq<seq<Parcel>>,
                             said: seq<seq<Message>>, told: seq<seq<Message>>, ignored: nat)
  {
    ghost predicate Shaped() {
      && |keys| == |nodes| == |links| == |said| == |told| && |hops| <= |nodes|
    }

    ghost predicate Quiet() {
      forall h :: 0 <= h < |links| ==> links[h] == []
    }

    ghost predicate Waiting() {
      links != [] && links[0] != []
    }
  }

  /** What comes of peeling: the client's hops after it, and the message with its hop if one knew it. */
  datatype Peeling = Found(hops: seq<Half>, hop: nat, message: Message) | Unknown(hops: seq<Half>)

  /** Peels the layers of hop h and beyond until a hop recognizes the cell. */
  function Peel(hash: Hasher, hops: seq<Half>, h: nat, cell: Payload): (r: Peeling)
    requires h <= |hops|
    ensures |r.hops| == |hops| && (r.Found? ==> h <= r.hop < |hops|)
    decreases |hops| - h
  {
    if h == |hops| then Unknown(hops)
    else
      var c := Cover(hops[h], cell);
      if Recognized(hash, hops[h], c) then
        Found(hops[h := Moved(Absorb(hops[h], PutDigest(c, Zeros(4))))], h, Decode(c))
      else
        Peel(hash, hops[h := Moved(hops[h])], h + 1, c)
  }

  /** Relay h says something to the client, padded as it likes. */
  function Answer(hash: Hasher, w: Inbound, h: nat, p: Padded): (t: Inbound)
    requires w.Shaped()
    ensures t.Shaped()
  {
    if h >= |w.nodes| then w
    else
      var s := w.nodes[h];
      w.(nodes := w.nodes[h := Moved(Absorb(s, Encode(p)))],
         links := w.links[h := w.links[h] + [Parcel(Cover(s, Seal(hash, s, p)), h)]],
         said := w.said[h := w.said[h] + [p.message]])
  }

  /** Relay h passes the next cell of relay h+1 on, under its own layer. */
  function Forward(w: Inbound, h: nat): (t: Inbound)
    requires w.Shaped()
    ensures t.Shaped()
  {
    if h + 1 >= |w.nodes| || w.links[h + 1] == [] then w
    else
      var p, s := w.links[h + 1][0], w.nodes[h];
      w.(nodes := w.nodes[h := Moved(s)],
         links := w.links[h + 1 := w.links[h + 1][1..]][h := w.links[h] + [Parcel(Cover(s, p.cell), p.hop)]])
  }

  /** The client takes the next cell from the guard. */
  function Receive(hash: Hasher, w: Inbound): (t: Inbound)
    requires w.Shaped()
    ensures t.Shaped()
  {
    if w.links == [] || w.links[0] == [] then w
    else
      var r := Peel(hash, w.hops, 0, w.links[0][0].cell);
      var rest := w.(hops := r.hops, links := w.links[0 := w.links[0][1..]]);
      match r
      case Found(_, h, m) => rest.(told := w.told[h := w.told[h] + [m]])
      case Unknown(_) => rest.(ignored := w.ignored + 1)
  }

  /** The hypothesis on the digests: no hop before the one a cell comes from recognizes it. */
  ghost predicate NoMistake(hash: Hasher, w: Inbound)
    requires w.Shaped()
  {
    w.Waiting() ==>
      var r := Peel(hash, w.hops, 0, w.links[0][0].cell);
      r.Found? ==> w.links[0][0].hop <= r.hop
  }

  // --------------------------------------------------------------------- invariant

  /** What every relay has sent, and how much of it has reached the client: done[h] cells of each hop
      the client knows, and done[|hops|] cells from beyond the last of them. */
  datatype Trace = Trace(layers: seq<Layer>, done: seq<nat>)

  ghost predicate Fits(w: Inbound, k: Trace) {
    && w.Shaped() && |k.layers| == |w.nodes| && |k.done| == |w.hops| + 1
    && k.done[|w.hops|] == w.ignored
    && (forall h :: 0 <= h < |w.hops| ==> k.done[h] <= |k.layers[h].items|)
  }

  /** The relay's end of hop h. */
  ghost predicate NodeEnd(w: Inbound, k: Trace, h: nat)
    requires Fits(w, k) && h < |w.nodes|
  {
    var l := k.layers[h];
    l.hop == h && l.Sound() && w.keys[h] == l.At(0) && w.nodes[h] == l.At(|l.items|) && w.said[h] == OwnOf(l.items)
  }

  /** The client's end of hop h. */
  ghost predicate ClientEnd(w: Inbound, k: Trace, h: nat)
    requires Fits(w, k) && h < |w.nodes|
  {
    if h >= |w.hops| then w.told[h] == []
    else
      var l, n := k.layers[h], k.done[h];
      w.hops[h] == l.At(n) && w.told[h] == OwnOf(l.items[..n]) && k.done[h + 1] == |PassedOf(l.items[..n])|
  }

  /** A link holds the cells of its relay that have not been taken from it. */
  ghost predicate Carried(hash: Hasher, w: Inbound, k: Trace, h: nat)
    requires Fits(w, k) && h < |w.nodes|
  {
    var ws := k.layers[h].Wires(hash);
    if h == 0 then k.done[0] <= |ws| && w.links[0] == ws[k.done[0]..]
    else PassedOf(k.layers[h - 1].items) + w.links[h] == ws
  }

  ghost predicate Inv(hash: Hasher, w: Inbound, k: Trace) {
    && Fits(w, k)
    && (forall h :: 0 <= h < |w.nodes| ==> NodeEnd(w, k, h))
    && (forall h :: 0 <= h < |w.nodes| ==> ClientEnd(w, k, h))
    && (forall h :: 0 <= h < |w.nodes| ==> Carried(hash, w, k, h))
    && (w.nodes != [] ==> PassedOf(k.layers[|w.nodes| - 1].items) == [])
  }

  // --------------------------------------------------------------- relays send cells

  /** Relay h sends one more item. */
  ghost function Extended(k: Trace, h: nat, i: Item): Trace
    requires h < |k.layers|
  {
    k.(layers := k.layers[h := k.layers[h].Add(i)])
  }

  /** Everything the client has seen is a prefix, so it is not affected. */
  lemma ExtendedClient(w: Inbound, t: Inbound, k: Trace, h: nat, i: Item, g: nat)
    requires Fits(w, k) && h < |w.nodes| && g < |w.nodes| && ClientEnd(w, k, g)
    requires t.Shaped() && t.hops == w.hops && t.told == w.told && t.ignored == w.ignored && |t.nodes| == |w.nodes|
    ensures Fits(t, Extended(k, h, i)) && ClientEnd(t, Extended(k, h, i), g)
  {
    hide OwnOf, PassedOf, Absorbed;
    var l := k.layers[g];
    assert forall n :: 0 <= n <= |l.items| ==> l.Add(i).items[..n] == l.items[..n];
  }

  lemma AnswerKeeps(hash: Hasher, w: Inbound, k: Trace, h: nat, p: Padded)
    requires Inv(hash, w, k) && h < |w.nodes|
    ensures Inv(hash, Answer(hash, w, h, p), Extended(k, h, Own(p)))
  {
    hide Cover, Seal, Encode, ClientEnd, NodeEnd, Carried, OwnOf, PassedOf, Absorbed;
    var t, j := Answer(hash, w, h, p), Extended(k, h, Own(p));
    Snoc(k.layers[h].items, Own(p));
    forall g | 0 <= g < |w.nodes|
      ensures Fits(t, j) && ClientEnd(t, j, g) && NodeEnd(t, j, g) && Carried(hash, t, j, g)
    {
      ExtendedClient(w, t, k, h, Own(p), g);
      assert NodeEnd(w, k, g) && Carried(hash, w, k, g);
      AnswerAt(hash, w, k, h, p, g);
    }
  }

  lemma AnswerAt(hash: Hasher, w: Inbound, k: Trace, h: nat, p: Padded, g: nat)
    requires Fits(w, k) && h < |w.nodes| && g < |w.nodes|
    requires NodeEnd(w, k, h) && NodeEnd(w, k, g) && Carried(hash, w, k, g)
    requires Fits(Answer(hash, w, h, p), Extended(k, h, Own(p)))
    ensures NodeEnd(Answer(hash, w, h, p), Extended(k, h, Own(p)), g)
    ensures Carried(hash, Answer(hash, w, h, p), Extended(k, h, Own(p)), g)
  {
    hide Cover, Seal, Encode, OwnOf, PassedOf, Absorbed;
    OnionLayers.Extend(hash, k.layers[h], Own(p));
    Snoc(k.layers[h].items, Own(p));
  }

  /** The head of the link from relay h+1 comes from hop h+1 or from further out. */
  lemma HeadIsFurtherOut(hash: Hasher, w: Inbound, k: Trace, h: nat)
    requires Inv(hash, w, k) && h + 1 < |w.nodes| && w.links[h + 1] != []
    ensures w.links[h + 1][0].hop > h
  {
    hide OwnOf, PassedOf, Absorbed, ClientEnd;
    var l, p := k.layers[h + 1], PassedOf(k.layers[h].items);
    assert NodeEnd(w, k, h + 1) && Carried(hash, w, k, h + 1);
    assert (p + w.links[h + 1])[|p|] == w.links[h + 1][0];
    assert l.Wires(hash)[|p|] == l.Wire(hash, |p|);
  }

  lemma ForwardKeeps(hash: Hasher, w: Inbound, k: Trace, h: nat)
    requires Inv(hash, w, k) && h + 1 < |w.nodes| && w.links[h + 1] != []
    ensures Inv(hash, Forward(w, h), Extended(k, h, Passed(w.links[h + 1][0])))
  {
    hide Cover, Seal, Encode, ClientEnd, NodeEnd, Carried, OwnOf, PassedOf, Absorbed;
    var i := Passed(w.links[h + 1][0]);
    var t, j := Forward(w, h), Extended(k, h, i);
    HeadIsFurtherOut(hash, w, k, h);
    forall g | 0 <= g < |w.nodes|
      ensures Fits(t, j) && ClientEnd(t, j, g) && NodeEnd(t, j, g) && Carried(hash, t, j, g)
    {
      ExtendedClient(w, t, k, h, i, g);
      assert NodeEnd(w, k, g) && Carried(hash, w, k, g);
      ForwardNode(hash, w, k, h, g);
      ForwardCarried(hash, w, k, h, g);
    }
  }

  lemma ForwardNode(hash: Hasher, w: Inbound, k: Trace, h: nat, g: nat)
    requires Fits(w, k) && h + 1 < |w.nodes| && w.links[h + 1] != [] && g < |w.nodes|
    requires NodeEnd(w, k, g) && w.links[h + 1][0].hop > h
    requires Fits(Forward(w, h), Extended(k, h, Passed(w.links[h + 1][0])))
    ensures NodeEnd(Forward(w, h), Extended(k, h, Passed(w.links[h + 1][0])), g)
  {
    hide Cover, Seal, Encode, OwnOf, PassedOf, Absorbed;
    OnionLayers.Extend(hash, k.layers[h], Passed(w.links[h + 1][0]));
    Snoc(k.layers[h].items, Passed(w.links[h + 1][0]));
  }

  lemma ForwardCarried(hash: Hasher, w: Inbound, k: Trace, h: nat, g: nat)
    requires Fits(w, k) && h + 1 < |w.nodes| && w.links[h + 1] != [] && g < |w.nodes|
    requires NodeEnd(w, k, h) && Carried(hash, w, k, g)
    requires Fits(Forward(w, h), Extended(k, h, Passed(w.links[h + 1][0])))
    ensures Carried(hash, Forward(w, h), Extended(k, h, Passed(w.links[h + 1][0])), g)
  {
    hide Cover, Seal, Encode, OwnOf, PassedOf, Absorbed;
    OnionLayers.Extend(hash, k.layers[h], Passed(w.links[h + 1][0]));
    Snoc(k.layers[h].items, Passed(w.links[h + 1][0]));
  }

  // ------------------------------------------------------------- the client receives

  /** A parcel is the next cell of hop h that the client has not seen. */
  ghost predicate NextAt(hash: Hasher, w: Inbound, k: Trace, h: nat, p: Parcel)
    requires Fits(w, k) && h < |w.hops|
  {
    k.done[h] < |k.layers[h].items| && p == k.layers[h].Wire(hash, k.done[h])
  }

  lemma HeadIsNext(hash: Hasher, w: Inbound, k: Trace)
    requires Inv(hash, w, k) && w.Waiting() && w.hops != []
    ensures NextAt(hash, w, k, 0, w.links[0][0])
  {
    hide OwnOf, PassedOf, Absorbed, ClientEnd, NodeEnd;
    assert Carried(hash, w, k, 0);
  }

  /** Peeling one layer: the hop's own message, or the next cell of the hop behind it. */
  lemma PeelOne(hash: Hasher, w: Inbound, k: Trace, h: nat, p: Parcel)
    requires Inv(hash, w, k) && h < |w.hops| && NextAt(hash, w, k, h, p)
    ensures var l, n, c := k.layers[h], k.done[h], Cover(w.hops[h], p.cell);
            match l.items[n]
            case Own(q) =>
              && p.hop == h && Recognized(hash, w.hops[h], c) && Decode(c) == q.message
              && l.At(n + 1) == Moved(Absorb(w.hops[h], PutDigest(c, Zeros(4))))
              && OwnOf(l.items[..n + 1]) == OwnOf(l.items[..n]) + [q.message]
              && PassedOf(l.items[..n + 1]) == PassedOf(l.items[..n])
            case Passed(q) =>
              && p.hop > h && q == Parcel(c, p.hop) && l.At(n + 1) == Moved(w.hops[h])
              && OwnOf(l.items[..n + 1]) == OwnOf(l.items[..n])
              && PassedOf(l.items[..n + 1]) == PassedOf(l.items[..n]) + [q]
              && (h + 1 < |w.hops| ==> NextAt(hash, w, k, h + 1, q))
  {
    hide Cover, Recognized, Decode, PutDigest, OwnOf, PassedOf, Absorbed, Carried;
    var n, l := k.done[h], k.layers[h];
    assert NodeEnd(w, k, h) && ClientEnd(w, k, h);
    Peeled(hash, l, n);
    assert l.items[..n + 1] == l.items[..n] + [l.items[n]];
    Snoc(l.items[..n], l.items[n]);
    if l.items[n].Passed? && h + 1 < |w.hops| {
      BehindIt(hash, w, k, h);
    }
  }

  lemma BehindIt(hash: Hasher, w: Inbound, k: Trace, h: nat)
    requires Inv(hash, w, k) && h + 1 < |w.hops| && k.done[h] < |k.layers[h].items|
    requires k.layers[h].items[k.done[h]].Passed?
    ensures NextAt(hash, w, k, h + 1, k.layers[h].items[k.done[h]].parcel)
  {
    hide OwnOf, PassedOf, Absorbed, NodeEnd;
    var items, m := k.layers[h].items, k.layers[h + 1];
    assert ClientEnd(w, k, h) && Carried(hash, w, k, h + 1);
    NextPassed(items, k.done[h]);
    assert m.Wires(hash)[k.done[h + 1]] == PassedOf(items)[k.done[h + 1]];
  }

  /** The counts after a cell that comes from the given hop: one more at every hop up to that one. */
  ghost function AfterReceive(k: Trace, hop: nat): (t: Trace)
    ensures |t.done| == |k.done|
  {
    k.(done := seq(|k.done|, h requires 0 <= h < |k.done| => if h <= hop then k.done[h] + 1 else k.done[h]))
  }

  ghost predicate IsOwn(i: Item, m: Message) {
    i.Own? && i.plain.message == m
  }

  /** Peeling from hop h on finds the message exactly at the hop the cell comes from. */
  lemma {:induction false} PeelReaches(hash: Hasher, w: Inbound, k: Trace, hs: seq<Half>, h: nat, p: Parcel)
    requires Inv(hash, w, k) && h <= |w.hops| == |hs|
    requires forall g :: h <= g < |hs| ==> hs[g] == w.hops[g]
    requires if h < |hs| then NextAt(hash, w, k, h, p) else p.hop >= h
    requires Peel(hash, hs, h, p.cell).Found? ==> p.hop <= Peel(hash, hs, h, p.cell).hop
    ensures p.hop >= h
    ensures forall g :: h <= g < |hs| && g <= p.hop ==> k.done[g] < |k.layers[g].items|
    ensures var r := Peel(hash, hs, h, p.cell);
            && (r.Found? <==> p.hop < |hs|)
            && (r.Found? ==> r.hop == p.hop && IsOwn(k.layers[r.hop].items[k.done[r.hop]], r.message))
            && (forall g :: 0 <= g < h ==> r.hops[g] == hs[g])
            && (forall g :: h <= g < |hs| ==> r.hops[g] == if g <= p.hop then k.layers[g].At(k.done[g] + 1) else hs[g])
            && (forall g :: h <= g < |hs| && g < p.hop ==> k.layers[g].items[k.done[g]].Passed?)
    decreases |hs| - h
  {
    hide Cover, Recognized, Decode, PutDigest, OwnOf, PassedOf, Absorbed, Carried, ClientEnd, NodeEnd;
    if h < |hs| {
      var c := Cover(hs[h], p.cell);
      PeelOne(hash, w, k, h, p);
      if !Recognized(hash, hs[h], c) {
        PeelReaches(hash, w, k, hs[h := Moved(hs[h])], h + 1, Parcel(c, p.hop));
      }
    }
  }

  /** What one cell does to the client: its message goes to the log of the hop it comes from, all hops
      up to that one advance by a cell, and the hops behind it stay as they are. */
  lemma ReceiveExactly(hash: Hasher, w: Inbound, k: Trace)
    requires Inv(hash, w, k) && w.Waiting() && NoMistake(hash, w)
    ensures var t, hop := Receive(hash, w), w.links[0][0].hop;
            && (forall g :: 0 <= g < |w.hops| && g <= hop ==>
                k.done[g] < |k.layers[g].items| && t.hops[g] == k.layers[g].At(k.done[g] + 1)
                && (k.layers[g].items[k.done[g]].Own? <==> g == hop))
            && (forall g :: hop < g < |w.hops| ==> t.hops[g] == w.hops[g])
            && |t.hops| == |w.hops|
            && (if hop < |w.hops| then
                  && t.ignored == w.ignored
                  && t.told == w.told[hop := w.told[hop] + [k.layers[hop].items[k.done[hop]].plain.message]]
                else t.ignored == w.ignored + 1 && t.told == w.told)
  {
    hide Cover, Recognized, Decode, PutDigest, OwnOf, PassedOf, Absorbed, Carried, ClientEnd, NodeEnd, Peel;
    if w.hops != [] {
      HeadIsNext(hash, w, k);
    }
    PeelReaches(hash, w, k, w.hops, 0, w.links[0][0]);
    if w.hops == [] {
      NothingToPeel(hash, w.links[0][0].cell);
    }
  }

  /** In the client's own terms: the hop the cell comes from delivers the first of its messages that
      the client has not been told, and hops beyond it stay unadvanced. */
  lemma ReceiveDelivers(hash: Hasher, w: Inbound, k: Trace)
    requires Inv(hash, w, k) && w.Waiting() && NoMistake(hash, w) && w.links[0][0].hop < |w.hops|
    ensures var t, hop := Receive(hash, w), w.links[0][0].hop;
            && |w.told[hop]| < |w.said[hop]| && t.ignored == w.ignored
            && var m := w.said[hop][|w.told[hop]|];
            && t.told == w.told[hop := w.told[hop] + [m]]
            && (exists p: Padded :: p.message == m && t.hops[hop] == Moved(Absorb(w.hops[hop], Encode(p))))
            && (forall g :: 0 <= g < hop ==> t.hops[g] == Moved(w.hops[g]))
            && (forall g :: hop < g < |w.hops| ==> t.hops[g] == w.hops[g])
  {
    hide Cover, Recognized, Decode, PutDigest, Encode, OwnOf, PassedOf, Absorbed, Carried, Peel;
    ReceiveExactly(hash, w, k);
    forall g | 0 <= g <= w.links[0][0].hop
      ensures var l, n := k.layers[g], k.done[g];
              && l.At(n + 1) == Moved(if l.items[n].Own? then Absorb(w.hops[g], Encode(l.items[n].plain)) else w.hops[g])
              && (l.items[n].Own? ==> w.told[g] + [l.items[n].plain.message] <= w.said[g])
    {
      var items, n := k.layers[g].items, k.done[g];
      assert ClientEnd(w, k, g) && NodeEnd(w, k, g);
      assert items[..n + 1] == items[..n] + [items[n]];
      Snoc(items[..n], items[n]);
      PrefixSelects(items, n + 1);
    }
  }

  lemma NothingToPeel(hash: Hasher, p: Payload)
    ensures Peel(hash, [], 0, p) == Unknown([])
  {
  }

  lemma ReceiveKeeps(hash: Hasher, w: Inbound, k: Trace)
    requires Inv(hash, w, k) && w.Waiting() && NoMistake(hash, w)
    ensures Inv(hash, Receive(hash, w), AfterReceive(k, w.links[0][0].hop))
  {
    hide Cover, Recognized, Decode, PutDigest, OwnOf, PassedOf, Absorbed, Carried, ClientEnd, NodeEnd, Peel;
    ReceiveExactly(hash, w, k);
    var t, j := Receive(hash, w), AfterReceive(k, w.links[0][0].hop);
    forall g | 0 <= g < |w.nodes|
      ensures Fits(t, j) && ClientEnd(t, j, g) && NodeEnd(t, j, g) && Carried(hash, t, j, g)
    {
      assert NodeEnd(w, k, g) && Carried(hash, w, k, g);
      ReceiveClient(hash, w, k, g);
      ReceiveOthers(hash, w, k, g);
    }
  }

  lemma ReceiveClient(hash: Hasher, w: Inbound, k: Trace, g: nat)
    requires Inv(hash, w, k) && w.Waiting() && NoMistake(hash, w) && g < |w.nodes|
    ensures Fits(Receive(hash, w), AfterReceive(k, w.links[0][0].hop))
    ensures ClientEnd(Receive(hash, w), AfterReceive(k, w.links[0][0].hop), g)
  {
    hide Cover, Recognized, Decode, PutDigest, OwnOf, PassedOf, Absorbed, Carried, NodeEnd, Peel;
    ReceiveExactly(hash, w, k);
    assert ClientEnd(w, k, g);
    if g < |w.hops| && g <= w.links[0][0].hop {
      var items, n := k.layers[g].items, k.done[g];
      assert items[..n + 1] == items[..n] + [items[n]];
      Snoc(items[..n], items[n]);
    }
  }

  lemma ReceiveOthers(hash: Hasher, w: Inbound, k: Trace, g: nat)
    requires Fits(w, k) && w.Waiting() && g < |w.nodes|
    requires NodeEnd(w, k, g) && Carried(hash, w, k, g)
    requires Fits(Receive(hash, w), AfterReceive(k, w.links[0][0].hop))
    ensures NodeEnd(Receive(hash, w), AfterReceive(k, w.links[0][0].hop), g)
    ensures Carried(hash, Receive(hash, w), AfterReceive(k, w.links[0][0].hop), g)
  {
    hide Cover, Recognized, Decode, PutDigest, OwnOf, PassedOf, Absorbed, Peel, ClientEnd;
    var ws := k.layers[0].Wires(hash);
    if g == 0 {
      assert w.links[0][1..] == ws[k.done[0]..][1..];
    }
  }

  // --------------------------------------------------------------- growth and start

  ghost function Grew(w: Inbound): Inbound {
    w.(hops := Grown(w.keys, w.hops))
  }

  /** A new hop starts in step, provided nothing from beyond the last hop has been ignored. */
  lemma GrowKeeps(hash: Hasher, w: Inbound, k: Trace)
    requires Inv(hash, w, k) && |w.hops| < |w.nodes| && w.ignored == 0
    ensures Inv(hash, Grew(w), k.(done := k.done + [0]))
  {
    hide Carried, NodeEnd;
    var t, j, n := Grew(w), k.(done := k.done + [0]), |w.hops|;
    forall h | 0 <= h < |w.nodes|
      ensures Fits(t, j) && ClientEnd(t, j, h) && NodeEnd(t, j, h) && Carried(hash, t, j, h)
    {
      assert NodeEnd(w, k, h) && ClientEnd(w, k, h) && Carried(hash, w, k, h);
      GrowOthers(hash, w, k, h);
      GrowClient(w, k, h);
    }
  }

  lemma GrowClient(w: Inbound, k: Trace, h: nat)
    requires Fits(w, k) && |w.hops| < |w.nodes| && w.ignored == 0 && h < |w.nodes|
    requires NodeEnd(w, k, h) && ClientEnd(w, k, h)
    ensures Fits(Grew(w), k.(done := k.done + [0])) && ClientEnd(Grew(w), k.(done := k.done + [0]), h)
  {
    assert k.layers[h].items[..0] == [];
  }

  lemma GrowOthers(hash: Hasher, w: Inbound, k: Trace, h: nat)
    requires Fits(w, k) && |w.hops| < |w.nodes| && w.ignored == 0 && h < |w.nodes|
    requires NodeEnd(w, k, h) && Carried(hash, w, k, h)
    ensures Fits(Grew(w), k.(done := k.done + [0]))
    ensures NodeEnd(Grew(w), k.(done := k.done + [0]), h) && Carried(hash, Grew(w), k.(done := k.done + [0]), h)
  {
    hide OwnOf, PassedOf, Absorbed;
  }

  function Start(keys: seq<Half>): (w: Inbound)
    ensures w.Shaped()
  {
    Inbound(keys, [], keys, seq(|keys|, _ => []), seq(|keys|, _ => []), seq(|keys|, _ => []), 0)
  }

  ghost function StartTrace(keys: seq<Half>): Trace {
    Trace(seq(|keys|, h requires 0 <= h < |keys| => Layer(h, keys[h].aes, keys[h].log, [])), [0])
  }

  lemma StartInv(hash: Hasher, keys: seq<Half>)
    requires forall s <- keys :: s.pos == 0
    ensures Inv(hash, Start(keys), StartTrace(keys))
  {
  }

  // ------------------------------------------------------------------- consequences

  /** The client has been told a prefix of what each relay said, in order. */
  lemma ToldIsPrefix(hash: Hasher, w: Inbound, k: Trace, h: nat)
    requires Inv(hash, w, k) && h < |w.nodes|
    ensures w.told[h] <= w.said[h]
  {
    assert ClientEnd(w, k, h) && NodeEnd(w, k, h);
    if h < |w.hops| {
      PrefixSelects(k.layers[h].items, k.done[h]);
    }
  }

  /** With nothing on the links, the client is where each of its relays is and knows all they said. */
  lemma QuietMeansInStep(hash: Hasher, w: Inbound, k: Trace, h: nat)
    requires Inv(hash, w, k) && w.Quiet() && h < |w.hops|
    ensures w.told[h] == w.said[h] && w.hops[h] == w.nodes[h]
  {
    hide OwnOf, PassedOf, Absorbed;
    AllDone(hash, w, k, h);
    assert ClientEnd(w, k, h) && NodeEnd(w, k, h);
    var l := k.layers[h];
    assert l.items[..|l.items|] == l.items;
  }

  lemma {:induction false} AllDone(hash: Hasher, w: Inbound, k: Trace, h: nat)
    requires Inv(hash, w, k) && w.Quiet() && h < |w.hops|
    ensures k.done[h] == |k.layers[h].items|
  {
    hide OwnOf, PassedOf, Absorbed, NodeEnd;
    assert Carried(hash, w, k, h) && w.links[h] == [];
    if h > 0 {
      AllDone(hash, w, k, h - 1);
      assert ClientEnd(w, k, h - 1);
      var items := k.layers[h - 1].items;
      assert items[..|items|] == items;
    }
  }
}
