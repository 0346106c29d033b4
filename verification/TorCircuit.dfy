/** A client and its relays as one system: cells in both directions, links that deliver in order,
    steps in any interleaving, and a circuit that grows while cells are under way. */
module TorCircuit {
  import opened Bitwise
  import opened RelayCells
  import opened OnionLayers
  import Out = RelayOutbound
  import In = RelayInbound

  /** The two directions share nothing but the number of hops the client knows. */
  datatype World = World(outbound: Out.Outbound, inbound: In.Inbound) {
    ghost predicate Shaped() {
      && outbound.Shaped() && inbound.Shaped()
      && |outbound.nodes| == |inbound.nodes| && |outbound.hops| == |inbound.hops|
    }

    ghost predicate Quiet() {
      outbound.Quiet() && inbound.Quiet()
    }

    function Hops(): nat {
      |inbound.hops|
    }
  }

  /** The client sends to its last hop, receives, or adds a hop; relay h takes the next cell of the
      link into it, says something of its own, or passes a cell of relay h+1 on. */
  datatype Event = Send(r: Message) | Receive | Extend
                 | Process(h: nat) | Answer(h: nat, p: Padded) | Forward(h: nat)

  function Next(hash: Hasher, w: World, e: Event): (t: World)
    requires w.Shaped()
    ensures t.Shaped()
  {
    match e
    case Send(r) => w.(outbound := Out.Send(hash, w.outbound, r))
    case Receive => w.(inbound := In.Receive(hash, w.inbound))
    case Extend =>
      World(w.outbound.(hops := Grown(w.outbound.keys, w.outbound.hops)),
            w.inbound.(hops := Grown(w.inbound.keys, w.inbound.hops)))
    case Process(h) => w.(outbound := Out.Process(hash, w.outbound, h))
    case Answer(h, p) => w.(inbound := In.Answer(hash, w.inbound, h, p))
    case Forward(h) => w.(inbound := In.Forward(w.inbound, h))
  }

  /** The digest check accepts a cell only at the hop it belongs to. */
  ghost predicate NoMistake(hash: Hasher, w: World, e: Event)
    requires w.Shaped()
  {
    match e
    case Process(h) => Out.NoMistake(hash, w.outbound, h)
    case Receive => In.NoMistake(hash, w.inbound)
    case _ => true
  }

  /** And a hop is added before anything from beyond the last hop has reached the client. */
  ghost predicate Honest(hash: Hasher, w: World, e: Event)
    requires w.Shaped()
  {
    NoMistake(hash, w, e) && (e.Extend? ==> w.inbound.ignored == 0)
  }

  function Start(fwd: seq<Half>, bwd: seq<Half>): (w: World)
    requires |fwd| == |bwd|
    ensures w.Shaped()
  {
    World(Out.Start(fwd), In.Start(bwd))
  }

  function Run(hash: Hasher, w: World, es: seq<Event>): (t: World)
    requires w.Shaped()
    ensures t.Shaped()
    decreases |es|
  {
    if es == [] then w else Run(hash, Next(hash, w, es[0]), es[1..])
  }

  ghost predicate HonestRun(hash: Hasher, w: World, es: seq<Event>)
    requires w.Shaped()
    decreases |es|
  {
    es == [] || (Honest(hash, w, es[0]) && HonestRun(hash, Next(hash, w, es[0]), es[1..]))
  }

  // -------------------------------------------------------------------- every step

  ghost predicate Inv(hash: Hasher, w: World, i: Out.Trace, j: In.Trace) {
    w.Shaped() && Out.Inv(hash, w.outbound, i) && In.Inv(hash, w.inbound, j)
  }

  /** The account of what went through the layers, after a step. */
  ghost function OutTrace(hash: Hasher, w: World, i: Out.Trace, e: Event): Out.Trace
    requires Out.Fits(w.outbound, i)
  {
    match e
    case Send(r) => Out.AfterSend(hash, w.outbound, i, r)
    case Process(h) => Out.AfterProcess(w.outbound, i, h)
    case _ => i
  }

  ghost function InTrace(w: World, j: In.Trace, e: Event): In.Trace
    requires In.Fits(w.inbound, j)
  {
    match e
    case Receive => if w.inbound.Waiting() then In.AfterReceive(j, w.inbound.links[0][0].hop) else j
    case Extend => if w.Hops() < |w.inbound.nodes| then j.(done := j.done + [0]) else j
    case Answer(h, p) => if h < |w.inbound.nodes| then In.Extended(j, h, Own(p)) else j
    case Forward(h) =>
      if h + 1 < |w.inbound.nodes| && w.inbound.links[h + 1] != [] then
        In.Extended(j, h, Passed(w.inbound.links[h + 1][0]))
      else j
    case _ => j
  }

  lemma NextKeeps(hash: Hasher, w: World, e: Event, i: Out.Trace, j: In.Trace)
    requires Inv(hash, w, i, j) && Honest(hash, w, e)
    ensures Inv(hash, Next(hash, w, e), OutTrace(hash, w, i, e), InTrace(w, j, e))
  {
    hide Out.Ends, Out.Carried, Out.Nested, In.ClientEnd, In.NodeEnd, In.Carried, Out.NoMistake, In.NoMistake, In.Peel;
    match e
    case Send(r) => Out.SendKeeps(hash, w.outbound, i, r);
    case Receive => if w.inbound.Waiting() { In.ReceiveKeeps(hash, w.inbound, j); }
    case Extend =>
      Out.GrowKeeps(hash, w.outbound, i);
      if w.Hops() < |w.inbound.nodes| { In.GrowKeeps(hash, w.inbound, j); }
    case Process(h) => Out.ProcessKeeps(hash, w.outbound, i, h);
    case Answer(h, p) => if h < |w.inbound.nodes| { In.AnswerKeeps(hash, w.inbound, j, h, p); }
    case Forward(h) =>
      if h + 1 < |w.inbound.nodes| && w.inbound.links[h + 1] != [] { In.ForwardKeeps(hash, w.inbound, j, h); }
  }

  // ---------------------------------------------------------------------- every run

  lemma {:induction false} RunKeeps(hash: Hasher, w: World, es: seq<Event>, i: Out.Trace, j: In.Trace)
    returns (i': Out.Trace, j': In.Trace)
    requires Inv(hash, w, i, j) && HonestRun(hash, w, es)
    ensures Inv(hash, Run(hash, w, es), i', j')
    decreases |es|
  {
    i', j' := i, j;
    if es != [] {
      NextKeeps(hash, w, es[0], i, j);
      i', j' := RunKeeps(hash, Next(hash, w, es[0]), es[1..], OutTrace(hash, w, i, es[0]), InTrace(w, j, es[0]));
    }
  }

  /** Over every run, each relay recognizes a prefix of what the client sent to it, and the client is
      told a prefix of what each relay said: whole messages, in order, each once, at the right hop.
      Whenever the links are empty nothing is missing, and at every hop the client's cipher positions
      and running digests are those of the relay, in both directions. */
  lemma CircuitStaysInStep(hash: Hasher, fwd: seq<Half>, bwd: seq<Half>, es: seq<Event>)
    requires |fwd| == |bwd| && (forall s <- fwd :: s.pos == 0) && (forall s <- bwd :: s.pos == 0)
    requires HonestRun(hash, Start(fwd, bwd), es)
    ensures var w := Run(hash, Start(fwd, bwd), es);
            && (forall h :: 0 <= h < |w.outbound.nodes| ==> w.outbound.heard[h] <= w.outbound.asked[h])
            && (forall h :: 0 <= h < |w.inbound.nodes| ==> w.inbound.told[h] <= w.inbound.said[h])
            && (w.Quiet() ==> forall h :: 0 <= h < w.Hops() ==> InStep(w, h))
  {
    hide Out.Inv, In.Inv;
    var w := Run(hash, Start(fwd, bwd), es);
    Out.StartInv(hash, fwd);
    In.StartInv(hash, bwd);
    var i, j := RunKeeps(hash, Start(fwd, bwd), es, Out.StartTrace(fwd), In.StartTrace(bwd));
    forall h | 0 <= h < |w.outbound.nodes|
      ensures w.outbound.heard[h] <= w.outbound.asked[h] && w.inbound.told[h] <= w.inbound.said[h]
    {
      Out.HeardIsPrefix(hash, w.outbound, i, h);
      In.ToldIsPrefix(hash, w.inbound, j, h);
    }
    if w.Quiet() {
      forall h | 0 <= h < w.Hops()
        ensures InStep(w, h)
      {
        Out.QuietMeansInStep(hash, w.outbound, i, h);
        In.QuietMeansInStep(hash, w.inbound, j, h);
      }
    }
  }

  /** Both ends of hop h are in the same state in both directions, and have told each other all. */
  ghost predicate InStep(w: World, h: nat)
    requires w.Shaped() && h < w.Hops()
  {
    && w.outbound.hops[h] == w.outbound.nodes[h] && w.outbound.heard[h] == w.outbound.asked[h]
    && w.inbound.hops[h] == w.inbound.nodes[h] && w.inbound.told[h] == w.inbound.said[h]
  }

  // ------------------------------------------------------- why a new hop is in step

  const EXTENDED2: uint8 := 15

  ghost predicate Announced(ms: seq<Message>) {
    exists m <- ms :: m.cmd == EXTENDED2
  }

  /** The order tor-spec asks for: a relay passes cells of the next one on only after it has said
      EXTENDED2, and a client that has been told so adds the hop before it reads on. */
  ghost predicate Ordered(w: World, e: Event)
    requires w.Shaped()
  {
    match e
    case Forward(h) => h < |w.inbound.nodes| ==> Announced(w.inbound.said[h])
    case Receive => w.Hops() > 0 && !Announced(w.inbound.told[w.Hops() - 1])
    case _ => true
  }

  /** Under that order every layer says EXTENDED2 before it passes anything on. */
  ghost predicate AnnouncedFirst(k: In.Trace) {
    forall h, n :: 0 <= h < |k.layers| && 0 <= n < |k.layers[h].items| && k.layers[h].items[n].Passed? ==>
      Announced(OwnOf(k.layers[h].items[..n]))
  }

  lemma AppendKeepsFirst(k: In.Trace, h: nat, i: Item)
    requires AnnouncedFirst(k) && h < |k.layers| && (i.Passed? ==> Announced(OwnOf(k.layers[h].items)))
    ensures AnnouncedFirst(In.Extended(k, h, i))
  {
    hide OwnOf, Announced;
    var t := In.Extended(k, h, i);
    forall g, n | 0 <= g < |t.layers| && 0 <= n < |t.layers[g].items| && t.layers[g].items[n].Passed?
      ensures Announced(OwnOf(t.layers[g].items[..n]))
    {
      assert t.layers[g].items[..n] == k.layers[g].items[..n];
      assert k.layers[h].items[..|k.layers[h].items|] == k.layers[h].items;
    }
  }

  /** Then no cell reaches the client from beyond its last hop. */
  lemma NothingIgnored(hash: Hasher, w: In.Inbound, k: In.Trace)
    requires In.Inv(hash, w, k) && w.Waiting() && In.NoMistake(hash, w) && AnnouncedFirst(k)
    requires w.hops != [] && !Announced(w.told[|w.hops| - 1])
    ensures In.Receive(hash, w).ignored == w.ignored
  {
    hide OwnOf, PassedOf, Absorbed, Announced, In.Peel, In.Carried, In.NodeEnd, In.NoMistake;
    In.ReceiveExactly(hash, w, k);
    assert In.ClientEnd(w, k, |w.hops| - 1);
  }

  lemma OrderedStep(hash: Hasher, w: World, e: Event, i: Out.Trace, j: In.Trace)
    requires Inv(hash, w, i, j) && AnnouncedFirst(j) && w.inbound.ignored == 0
    requires NoMistake(hash, w, e) && Ordered(w, e)
    ensures AnnouncedFirst(InTrace(w, j, e)) && Next(hash, w, e).inbound.ignored == 0
  {
    hide OwnOf, PassedOf, Absorbed, Announced, In.Peel, In.Carried, In.ClientEnd, In.NoMistake;
    match e
    case Receive => if w.inbound.Waiting() { NothingIgnored(hash, w.inbound, j); }
    case Answer(h, p) => if h < |w.inbound.nodes| { AppendKeepsFirst(j, h, Own(p)); }
    case Forward(h) =>
      if h + 1 < |w.inbound.nodes| && w.inbound.links[h + 1] != [] {
        assert In.NodeEnd(w.inbound, j, h);
        AppendKeepsFirst(j, h, Passed(w.inbound.links[h + 1][0]));
      }
    case _ =>
  }

  /** So the condition on growing a circuit always holds: an ordered run is an honest one. */
  lemma {:induction false} OrderIsEnough(hash: Hasher, w: World, es: seq<Event>, i: Out.Trace, j: In.Trace)
    requires Inv(hash, w, i, j) && AnnouncedFirst(j) && w.inbound.ignored == 0 && OrderedRun(hash, w, es)
    ensures HonestRun(hash, w, es)
    decreases |es|
  {
    if es != [] {
      OrderedStep(hash, w, es[0], i, j);
      NextKeeps(hash, w, es[0], i, j);
      OrderIsEnough(hash, Next(hash, w, es[0]), es[1..], OutTrace(hash, w, i, es[0]), InTrace(w, j, es[0]));
    }
  }

  ghost predicate OrderedRun(hash: Hasher, w: World, es: seq<Event>)
    requires w.Shaped()
    decreases |es|
  {
    es == [] || (NoMistake(hash, w, es[0]) && Ordered(w, es[0]) && OrderedRun(hash, Next(hash, w, es[0]), es[1..]))
  }

  /** So every run in that order, from the start, keeps the circuit in step. */
  lemma OrderedCircuitStaysInStep(hash: Hasher, fwd: seq<Half>, bwd: seq<Half>, es: seq<Event>)
    requires |fwd| == |bwd| && (forall s <- fwd :: s.pos == 0) && (forall s <- bwd :: s.pos == 0)
    requires OrderedRun(hash, Start(fwd, bwd), es)
    ensures var w := Run(hash, Start(fwd, bwd), es);
            && (forall h :: 0 <= h < |w.outbound.nodes| ==> w.outbound.heard[h] <= w.outbound.asked[h])
            && (forall h :: 0 <= h < |w.inbound.nodes| ==> w.inbound.told[h] <= w.inbound.said[h])
            && (w.Quiet() ==> forall h :: 0 <= h < w.Hops() ==> InStep(w, h))
  {
    hide Out.Inv, In.Inv, OrderedRun, HonestRun;
    Out.StartInv(hash, fwd);
    In.StartInv(hash, bwd);
    OrderIsEnough(hash, Start(fwd, bwd), es, Out.StartTrace(fwd), In.StartTrace(bwd));
    CircuitStaysInStep(hash, fwd, bwd, es);
  }
}
