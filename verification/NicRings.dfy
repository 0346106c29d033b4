/** The receive rings of the two network cards: the device fills descriptors while the driver empties
    them, and either may act between any two accesses of the other. */
module NicRings {
  import opened Bitwise

  const BUF_SIZE := 2048
  type Buffer = b: seq<uint8> | |b| == 2048 witness seq(2048, _ => 0)

  /** What the device reports of a buffer it filled: does it hold a whole frame, and how many bytes. */
  datatype Arrival = Arrival(whole: bool, size: nat, data: Buffer)

  // ------------------------------------------------------------- a ring, turned to h

  /** Slot i after slot h in a ring of n. */
  function Slot(n: nat, h: nat, i: nat): (k: nat)
    requires h < n && i <= n
    ensures k < n
  {
    if h + i < n then h + i else h + i - n
  }

  /** The ring as it looks from slot h on. */
  function Turned<T>(ring: seq<T>, h: nat): (q: seq<T>)
    requires h < |ring|
    ensures |q| == |ring| && q[0] == ring[h]
  {
    ring[h..] + ring[..h]
  }

  lemma TurnedUpdate<T>(ring: seq<T>, h: nat, i: nat, x: T)
    requires h < |ring| && i < |ring|
    ensures Turned(ring, h)[i] == ring[Slot(|ring|, h, i)]
    ensures Turned(ring[Slot(|ring|, h, i) := x], h) == Turned(ring, h)[i := x]
  {
  }

  lemma TurnedOn<T>(ring: seq<T>, h: nat)
    requires h < |ring|
    ensures Turned(ring, Slot(|ring|, h, 1)) == Turned(ring, h)[1..] + [ring[h]]
  {
    assert ring[..h + 1] == ring[..h] + [ring[h]];
    assert Turned(ring, h)[1..] == ring[h + 1..] + ring[..h];
    if h + 1 == |ring| {
      assert ring[..|ring|] == ring;
    }
  }

  lemma NextSlot(n: nat, h: nat, i: nat)
    requires h < n && i <= n
    ensures i < n ==> Slot(n, h, i + 1) == Slot(n, Slot(n, h, i), 1)
    ensures i > 0 ==> Slot(n, Slot(n, h, 1), i - 1) == Slot(n, h, i)
    ensures Slot(n, h, 0) == h && Slot(n, h, n) == h
    ensures i < n && Slot(n, h, i) == h ==> i == 0
    ensures (h + 1) % n == Slot(n, h, 1)
  {
    if h + 1 < n { Small(h + 1, n); }
  }

  lemma Small(k: nat, n: nat)
    requires k < n
    ensures k % n == k
  {
  }

  // ------------------------------------------------------------------------ RTL8169

  /** own: the descriptor belongs to the device; eor: the device goes back to slot 0 after it. */
  datatype RtlSlot = RtlSlot(own: bool, eor: bool, arrival: Arrival)

  datatype RtlPc = Idle | Looked(whole: bool, size: nat) | Handled | GivenBack

  /** at is the device's next slot, rx the driver's; arrived and handled log what the device stored and
      what the driver handed on, and released how many slots were given back. */
  datatype Rtl = Rtl(ring: seq<RtlSlot>, at: nat, rx: nat, pc: RtlPc,
                     arrived: seq<Arrival>, handled: seq<seq<uint8>>, released: nat)
  {
    predicate Shaped() {
      at < |ring| && rx < |ring|
    }

    /** How many arrivals the driver has dealt with. */
    function Dealt(): nat {
      if pc.Handled? then released + 1 else released
    }
  }

  /** The frame the driver accepts, without its check sequence. */
  function RtlFrame(whole: bool, size: nat, data: Buffer): seq<seq<uint8>> {
    if whole && 4 <= size <= BUF_SIZE then [data[..size - 4]] else []
  }

  function RtlFrames(arrivals: seq<Arrival>): seq<seq<uint8>> {
    if arrivals == [] then []
    else
      var a := arrivals[|arrivals| - 1];
      RtlFrames(arrivals[..|arrivals| - 1]) + RtlFrame(a.whole, a.size, a.data)
  }

  /** A frame f in a buffer with its check sequence behind it is handed on as f; nothing is handed on of a
      buffer that holds part of a frame, or of a size that cannot be. */
  lemma RtlHandsOn(f: seq<uint8>, check: seq<uint8>, data: Buffer, size: nat)
    requires |check| == 4 && f + check <= data
    ensures RtlFrame(true, |f| + 4, data) == [f]
    ensures RtlFrame(false, size, data) == [] && (size < 4 || size > 2048 ==> RtlFrame(true, size, data) == [])
  {
    assert data[..|f|] == f;
  }

  /** The device stores into its next slot if it owns it; otherwise the frame is missed. */
  function RtlStore(s: Rtl, a: Arrival): (t: Rtl)
    requires s.Shaped()
    ensures t.Shaped()
  {
    var d := s.ring[s.at];
    if d.own then
      s.(ring := s.ring[s.at := RtlSlot(false, d.eor, a)],
         at := if d.eor || s.at + 1 >= |s.ring| then 0 else s.at + 1, arrived := s.arrived + [a])
    else s
  }

  /** The accesses of `pollRtl8169` for one descriptor: read the command, hand the frame on, give the
      descriptor back, move on. */
  function RtlStep(s: Rtl): (t: Rtl)
    requires s.Shaped()
    ensures t.Shaped()
  {
    var d := s.ring[s.rx];
    match s.pc
    case Idle => if d.own then s else s.(pc := Looked(d.arrival.whole, d.arrival.size))
    case Looked(whole, size) => s.(pc := Handled, handled := s.handled + RtlFrame(whole, size, d.arrival.data))
    case Handled =>
      s.(pc := GivenBack, ring := s.ring[s.rx := RtlSlot(true, s.rx == |s.ring| - 1, d.arrival)], released := s.released + 1)
    case GivenBack => s.(pc := Idle, rx := (s.rx + 1) % |s.ring|)
  }

  /** The oldest slot the driver has not given back. */
  function RtlOldest(s: Rtl): (h: nat)
    requires s.Shaped()
    ensures h < |s.ring|
  {
    if s.pc.GivenBack? then Slot(|s.ring|, s.rx, 1) else s.rx
  }

  /** Slots that wait for the driver hold the last arrivals in order, all others are the device's. */
  ghost predicate RtlHolds(s: Rtl)
    requires s.Shaped() && s.released <= |s.arrived| <= s.released + |s.ring|
  {
    var q, c := Turned(s.ring, RtlOldest(s)), |s.arrived| - s.released;
    && (forall i :: 0 <= i < c ==> !q[i].own && q[i].arrival == s.arrived[s.released + i])
    && (forall i :: c <= i < |q| ==> q[i].own)
  }

  ghost predicate RtlInv(s: Rtl) {
    && s.Shaped() && s.released <= |s.arrived| <= s.released + |s.ring|
    && RtlHolds(s)
    && s.at == Slot(|s.ring|, RtlOldest(s), |s.arrived| - s.released)
    && (forall k :: 0 <= k < |s.ring| ==> (s.ring[k].eor <==> k == |s.ring| - 1))
    && (s.pc.Looked? || s.pc.Handled? ==> |s.arrived| > s.released)
    && (s.pc.Looked? ==> s.pc.whole == s.arrived[s.released].whole && s.pc.size == s.arrived[s.released].size)
    && s.handled == RtlFrames(s.arrived[..s.Dealt()])
  }

  /** The device never overwrites a slot that waits: a frame is missed exactly when all do. */
  lemma RtlStoreKeeps(s: Rtl, a: Arrival)
    requires RtlInv(s)
    ensures RtlInv(RtlStore(s, a))
    ensures RtlStore(s, a).arrived == if |s.arrived| == s.released + |s.ring| then s.arrived else s.arrived + [a]
  {
    hide Slot, Turned, RtlFrames, RtlFrame;
    var n, h, c := |s.ring|, RtlOldest(s), |s.arrived| - s.released;
    NextSlot(n, h, c);
    if c < n {
      TurnedUpdate(s.ring, h, c, RtlSlot(false, s.ring[s.at].eor, a));
      assert (s.arrived + [a])[..s.Dealt()] == s.arrived[..s.Dealt()];
      WrapSlot(n, s.at);
    }
  }

  lemma WrapSlot(n: nat, k: nat)
    requires k < n
    ensures Slot(n, k, 1) == if k == n - 1 then 0 else k + 1
  {
  }

  lemma RtlSameHolds(s: Rtl, t: Rtl)
    requires s.Shaped() && t.Shaped() && s.ring == t.ring && RtlOldest(s) == RtlOldest(t)
    requires s.arrived == t.arrived && s.released == t.released
    requires s.released <= |s.arrived| <= s.released + |s.ring|
    ensures RtlHolds(s) ==> RtlHolds(t)
  {
  }

  lemma RtlGivesBack(s: Rtl)
    requires RtlInv(s) && s.pc.Handled?
    ensures RtlInv(RtlStep(s))
  {
    hide Slot, Turned, RtlFrames, RtlFrame;
    var n, h := |s.ring|, s.rx;
    assert Turned(s.ring, h)[0] == s.ring[h];
    NextSlot(n, h, |s.arrived| - s.released);
    NextSlot(n, h, 0);
    var d := RtlSlot(true, h == n - 1, s.ring[h].arrival);
    TurnedUpdate(s.ring, h, 0, d);
    TurnedOn(s.ring[h := d], h);
    var q := Turned(s.ring, h);
    assert q[0 := d][1..] == q[1..];
    assert Turned(RtlStep(s).ring, RtlOldest(RtlStep(s))) == q[1..] + [d];
  }

  lemma RtlStepKeeps(s: Rtl)
    requires RtlInv(s)
    ensures RtlInv(RtlStep(s))
  {
    hide Slot, Turned, RtlFrames, RtlFrame, RtlHolds;
    NextSlot(|s.ring|, s.rx, 0);
    match s.pc
    case Idle => LookedAt(s); RtlSameHolds(s, RtlStep(s));
    case Looked(_, _) =>
      LookedAt(s);
      OneMoreFrame(s.arrived, s.released);
      RtlSameHolds(s, RtlStep(s));
    case Handled => RtlGivesBack(s);
    case GivenBack => RtlSameHolds(s, RtlStep(s));
  }

  /** What the driver finds in its slot. */
  lemma LookedAt(s: Rtl)
    requires RtlInv(s) && !s.pc.GivenBack?
    ensures s.ring[s.rx].own <==> |s.arrived| == s.released
    ensures |s.arrived| > s.released ==> s.ring[s.rx].arrival == s.arrived[s.released]
  {
    hide Slot, Turned, RtlFrames, RtlFrame;
    assert Turned(s.ring, s.rx)[0] == s.ring[s.rx];
  }

  lemma OneMoreFrame(arrivals: seq<Arrival>, n: nat)
    requires n < |arrivals|
    ensures RtlFrames(arrivals[..n + 1]) == RtlFrames(arrivals[..n]) + RtlFrame(arrivals[n].whole, arrivals[n].size, arrivals[n].data)
  {
    assert arrivals[..n + 1][..n] == arrivals[..n];
  }

  /** One event: the device stores a buffer, or the driver makes one access. */
  datatype Event = Store(a: Arrival) | Step

  function RtlRun(s: Rtl, es: seq<Event>): (t: Rtl)
    requires s.Shaped()
    ensures t.Shaped() && |t.ring| == |s.ring|
    decreases |es|
  {
    if es == [] then s else RtlRun(if es[0].Store? then RtlStore(s, es[0].a) else RtlStep(s), es[1..])
  }

  lemma {:induction false} RtlRunKeeps(s: Rtl, es: seq<Event>)
    requires RtlInv(s)
    ensures RtlInv(RtlRun(s, es))
    decreases |es|
  {
    hide RtlHolds, RtlStore, RtlStep, RtlFrames;
    if es != [] {
      if es[0].Store? {
        RtlStoreKeeps(s, es[0].a);
        RtlRunKeeps(RtlStore(s, es[0].a), es[1..]);
      } else {
        RtlStepKeeps(s);
        RtlRunKeeps(RtlStep(s), es[1..]);
      }
    }
  }

  /** The ring as the driver sets it up. */
  function RtlStart(n: nat, empty: Arrival): Rtl {
    Rtl(seq(n, k => RtlSlot(true, k == n - 1, empty)), 0, 0, Idle, [], [], 0)
  }

  /** However device and driver interleave, each acceptable frame is handed on exactly once and in the
      order of arrival, only the last slot carries EOR, and a driver that finds its slot still with the
      device has handed on everything. */
  lemma RtlExactlyOnce(n: nat, empty: Arrival, es: seq<Event>)
    requires n > 0
    ensures var s := RtlRun(RtlStart(n, empty), es);
            && s.released <= |s.arrived| <= s.released + n && s.Dealt() <= |s.arrived|
            && s.handled == RtlFrames(s.arrived[..s.Dealt()])
            && (forall k :: 0 <= k < n ==> (s.ring[k].eor <==> k == n - 1))
            && (s.pc.Idle? && s.ring[s.rx].own ==> s.handled == RtlFrames(s.arrived))
  {
    hide RtlStore, RtlStep, RtlFrames, RtlFrame;
    var z := RtlStart(n, empty);
    assert RtlInv(z) by { RtlStartInv(n, empty); }
    RtlRunKeeps(z, es);
    var s := RtlRun(z, es);
    assert s.arrived[..|s.arrived|] == s.arrived;
    assert Turned(s.ring, s.rx)[0] == s.ring[s.rx];
  }

  lemma RtlStartInv(n: nat, empty: Arrival)
    requires n > 0
    ensures RtlInv(RtlStart(n, empty))
  {
  }

  // -------------------------------------------------------------------------- E1000

  /** done: the device has filled the slot and the driver has not cleared it. */
  datatype E1000Slot = E1000Slot(done: bool, arrival: Arrival)

  datatype E1000Pc = Resting | Seen | Passed | Cleared | Tailed

  /** The device fills the slots from rdh up to, but not including, rdt. */
  datatype E1000 = E1000(ring: seq<E1000Slot>, rdh: nat, rdt: nat, rx: nat, pc: E1000Pc,
                         arrived: seq<Arrival>, handled: seq<seq<uint8>>, released: nat)
  {
    predicate Shaped() {
      rdh < |ring| && rdt < |ring| && rx < |ring|
    }

    function Dealt(): nat {
      if pc.Passed? || pc.Cleared? then released + 1 else released
    }
  }

  function E1000Frame(a: Arrival): seq<seq<uint8>> {
    if a.whole && 14 <= a.size <= BUF_SIZE then [a.data[..a.size]] else []
  }

  /** Likewise, without a check sequence, for frames of at least the 14 octets of an Ethernet header. */
  lemma E1000HandsOn(f: seq<uint8>, a: Arrival)
    requires f <= a.data && a.size == |f|
    ensures E1000Frame(a) == if a.whole && |f| >= 14 then [f] else []
  {
    assert a.data[..|f|] == f;
  }

  function E1000Frames(arrivals: seq<Arrival>): seq<seq<uint8>> {
    if arrivals == [] then []
    else E1000Frames(arrivals[..|arrivals| - 1]) + E1000Frame(arrivals[|arrivals| - 1])
  }

  function E1000Store(s: E1000, a: Arrival): (t: E1000)
    requires s.Shaped()
    ensures t.Shaped()
  {
    if s.rdh != s.rdt then
      s.(ring := s.ring[s.rdh := E1000Slot(true, a)], rdh := (s.rdh + 1) % |s.ring|, arrived := s.arrived + [a])
    else s
  }

  /** The accesses of `pollE1000` for one descriptor: see it done, hand the frame on, clear it, give the
      slot to the device by the tail register, move on. */
  function E1000Step(s: E1000): (t: E1000)
    requires s.Shaped()
    ensures t.Shaped()
  {
    var d := s.ring[s.rx];
    match s.pc
    case Resting => if d.done then s.(pc := Seen) else s
    case Seen => s.(pc := Passed, handled := s.handled + E1000Frame(d.arrival))
    case Passed => s.(pc := Cleared, ring := s.ring[s.rx := E1000Slot(false, d.arrival.(whole := false, size := 0))])
    case Cleared => s.(pc := Tailed, rdt := s.rx, released := s.released + 1)
    case Tailed => s.(pc := Resting, rx := (s.rx + 1) % |s.ring|)
  }

  function E1000Oldest(s: E1000): (h: nat)
    requires s.Shaped()
    ensures h < |s.ring|
  {
    if s.pc.Tailed? then Slot(|s.ring|, s.rx, 1) else s.rx
  }

  ghost predicate E1000Holds(s: E1000)
    requires s.Shaped() && s.released <= |s.arrived| < s.released + |s.ring|
  {
    var q, c := Turned(s.ring, E1000Oldest(s)), |s.arrived| - s.released;
    && (forall i :: (if s.pc.Cleared? then 1 else 0) <= i < c ==> q[i] == E1000Slot(true, s.arrived[s.released + i]))
    && (forall i :: c <= i < |q| ==> !q[i].done)
    && (s.pc.Cleared? ==> !q[0].done)
  }

  ghost predicate E1000Inv(s: E1000) {
    && s.Shaped() && s.released <= |s.arrived| < s.released + |s.ring|
    && E1000Holds(s)
    && s.rdh == Slot(|s.ring|, E1000Oldest(s), |s.arrived| - s.released)
    && s.rdt == Slot(|s.ring|, E1000Oldest(s), |s.ring| - 1)
    && (!s.pc.Resting? && !s.pc.Tailed? ==> |s.arrived| > s.released)
    && s.handled == E1000Frames(s.arrived[..s.Dealt()])
  }

  lemma Differ(n: nat, h: nat, i: nat, j: nat)
    requires h < n && i < n && j < n
    ensures Slot(n, h, i) == Slot(n, h, j) <==> i == j
    ensures (Slot(n, h, i) + 1) % n == Slot(n, h, i + 1)
    ensures Slot(n, Slot(n, h, 1), n - 1) == h
  {
    NextSlot(n, Slot(n, h, i), 0);
  }

  lemma E1000StoreHolds(s: E1000, a: Arrival)
    requires E1000Inv(s) && |s.arrived| - s.released < |s.ring| - 1 && s.rdh != s.rdt
    ensures E1000Holds(E1000Store(s, a))
  {
    hide Slot, Turned, E1000Frames, E1000Frame;
    TurnedUpdate(s.ring, E1000Oldest(s), |s.arrived| - s.released, E1000Slot(true, a));
  }

  /** The device keeps clear of the one slot before the driver's: it never overwrites a slot that waits. */
  lemma E1000StoreKeeps(s: E1000, a: Arrival)
    requires E1000Inv(s)
    ensures E1000Inv(E1000Store(s, a))
    ensures E1000Store(s, a).arrived == if |s.arrived| == s.released + |s.ring| - 1 then s.arrived else s.arrived + [a]
  {
    hide Slot, Turned, E1000Frames, E1000Frame, E1000Holds;
    var n, h, c := |s.ring|, E1000Oldest(s), |s.arrived| - s.released;
    Differ(n, h, c, n - 1);
    if c < n - 1 {
      E1000StoreHolds(s, a);
    }
    assert (s.arrived + [a])[..s.Dealt()] == s.arrived[..s.Dealt()];
  }

  lemma E1000StepKeeps(s: E1000)
    requires E1000Inv(s)
    ensures E1000Inv(E1000Step(s))
  {
    hide E1000Inv, E1000Step;
    match s.pc
    case Resting => E1000RestKeeps(s);
    case Seen => E1000RestKeeps(s);
    case Passed => E1000ClearKeeps(s);
    case Cleared => E1000ReturnKeeps(s);
    case Tailed => E1000MoveKeeps(s);
  }

  lemma E1000RestKeeps(s: E1000)
    requires E1000Inv(s) && (s.pc.Resting? || s.pc.Seen?)
    ensures E1000Inv(E1000Step(s))
  {
    hide Slot, Turned, E1000Frames, E1000Frame;
    var n, c := |s.ring|, |s.arrived| - s.released;
    assert Turned(s.ring, s.rx)[0] == s.ring[s.rx];
    if s.pc.Seen? {
      E1000OneMore(s.arrived, s.released);
    }
  }

  lemma E1000ClearKeeps(s: E1000)
    requires E1000Inv(s) && s.pc.Passed?
    ensures E1000Inv(E1000Step(s))
  {
    hide Slot, Turned, E1000Frames, E1000Frame;
    NextSlot(|s.ring|, s.rx, 0);
    TurnedUpdate(s.ring, s.rx, 0, E1000Slot(false, s.ring[s.rx].arrival.(whole := false, size := 0)));
  }

  lemma E1000ReturnKeeps(s: E1000)
    requires E1000Inv(s) && s.pc.Cleared?
    ensures E1000Inv(E1000Step(s))
  {
    hide Slot, Turned, E1000Frames, E1000Frame;
    var n, h, c := |s.ring|, s.rx, |s.arrived| - s.released;
    NextSlot(n, h, c);
    Differ(n, h, 0, 0);
    TurnedOn(s.ring, h);
  }

  lemma E1000MoveKeeps(s: E1000)
    requires E1000Inv(s) && s.pc.Tailed?
    ensures E1000Inv(E1000Step(s))
  {
    hide Slot, Turned, E1000Frames, E1000Frame;
    NextSlot(|s.ring|, s.rx, 0);
  }

  lemma E1000OneMore(arrivals: seq<Arrival>, n: nat)
    requires n < |arrivals|
    ensures E1000Frames(arrivals[..n + 1]) == E1000Frames(arrivals[..n]) + E1000Frame(arrivals[n])
  {
    assert arrivals[..n + 1][..n] == arrivals[..n];
  }

  function E1000Run(s: E1000, es: seq<Event>): (t: E1000)
    requires s.Shaped()
    ensures t.Shaped() && |t.ring| == |s.ring|
    decreases |es|
  {
    if es == [] then s else E1000Run(if es[0].Store? then E1000Store(s, es[0].a) else E1000Step(s), es[1..])
  }

  lemma {:induction false} E1000RunKeeps(s: E1000, es: seq<Event>)
    requires E1000Inv(s)
    ensures E1000Inv(E1000Run(s, es))
    decreases |es|
  {
    hide E1000Holds, E1000Store, E1000Step, E1000Frames;
    if es != [] {
      if es[0].Store? {
        E1000StoreKeeps(s, es[0].a);
        E1000RunKeeps(E1000Store(s, es[0].a), es[1..]);
      } else {
        E1000StepKeeps(s);
        E1000RunKeeps(E1000Step(s), es[1..]);
      }
    }
  }

  function E1000Start(n: nat, empty: Arrival): E1000
    requires n > 0
  {
    E1000(seq(n, _ => E1000Slot(false, empty)), 0, n - 1, 0, Resting, [], [], 0)
  }

  lemma E1000ExactlyOnce(n: nat, empty: Arrival, es: seq<Event>)
    requires n > 0
    ensures var s := E1000Run(E1000Start(n, empty), es);
            && s.released <= |s.arrived| < s.released + n && s.Dealt() <= |s.arrived|
            && s.handled == E1000Frames(s.arrived[..s.Dealt()])
            && (s.pc.Resting? && !s.ring[s.rx].done ==> s.handled == E1000Frames(s.arrived))
  {
    hide E1000Store, E1000Step, E1000Frames, E1000Frame;
    var z := E1000Start(n, empty);
    assert E1000Inv(z) by { E1000StartInv(n, empty); }
    E1000RunKeeps(z, es);
    var s := E1000Run(z, es);
    assert s.arrived[..|s.arrived|] == s.arrived;
    assert Turned(s.ring, s.rx)[0] == s.ring[s.rx];
  }

  lemma E1000StartInv(n: nat, empty: Arrival)
    requires n > 0
    ensures E1000Inv(E1000Start(n, empty))
  {
  }
}
