/** The keyboard ring: the interrupt handler puts keys in, the main loop takes them out, and the handler
    may run between any two memory accesses of the main loop. */
module KeyQueue {
  import opened Bitwise

  const RING := 64

  /** Where the main loop is inside `getLastKey`, with what it has read so far. */
  datatype Pc = Idle
              | HeadRead(head: nat)
              | NotEmpty
              | KeyRead(key: uint8)
              | TailRead(key: uint8, next: nat)

  /** The ring in memory, the main loop's progress, and two logs: keys put in and keys returned. */
  datatype Ring = Ring(queue: seq<uint8>, head: nat, tail: nat, pc: Pc, accepted: seq<uint8>, returned: seq<uint8>)

  /** Step is one memory access of the main loop; Press is a whole run of the interrupt handler. */
  datatype Event = Step | Press(key: uint8)

  predicate Shaped(r: Ring) {
    |r.queue| == RING && r.head < RING && r.tail < RING && (r.pc.TailRead? ==> r.pc.next < RING)
  }

  function Next(r: Ring, e: Event): (t: Ring)
    requires Shaped(r)
    ensures Shaped(t)
  {
    match e
    case Press(key) => Enqueued(r, key)
    case Step =>
      match r.pc
      case Idle => r.(pc := HeadRead(r.head))
      case HeadRead(h) => r.(pc := if h == r.tail then Idle else NotEmpty)
      case NotEmpty => r.(pc := KeyRead(r.queue[r.tail]))
      case KeyRead(k) => r.(pc := TailRead(k, (r.tail + 1) % RING))
      case TailRead(k, next) => r.(tail := next, pc := Idle, returned := r.returned + [k])
  }

  /** `enqueueKey`: drops the key when the ring is full. */
  function Enqueued(r: Ring, key: uint8): Ring
    requires Shaped(r)
  {
    var next := (r.head + 1) % RING;
    if key == 0 || next == r.tail then r
    else r.(queue := r.queue[r.head := key], head := next, accepted := r.accepted + [key])
  }

  function Distance(head: nat, tail: nat): (d: nat)
    requires head < RING && tail < RING
    ensures d < RING && (d == 0 <==> head == tail)
  {
    if head >= tail then head - tail else head + RING - tail
  }

  function Slot(tail: nat, i: nat): (k: nat)
    requires tail < RING && i <= RING
    ensures k < RING
  {
    if tail + i < RING then tail + i else tail + i - RING
  }

  /** The keys in the ring, oldest first; one that is just being taken out is still the first. */
  function Waiting(r: Ring): (ks: seq<uint8>)
    requires Shaped(r)
    ensures |ks| == Distance(r.head, r.tail)
  {
    seq<uint8>(Distance(r.head, r.tail), i requires 0 <= i < Distance(r.head, r.tail) => r.queue[Slot(r.tail, i)])
  }

  /** Every key that went in has come out or is waiting, in order; and what the main loop has read in
      the middle of a call is still true. */
  ghost predicate Inv(r: Ring) {
    && Shaped(r)
    && r.accepted == r.returned + Waiting(r)
    && match r.pc
       case Idle => true
       case HeadRead(h) => h < RING && Distance(h, r.tail) <= |Waiting(r)|
       case NotEmpty => Waiting(r) != []
       case KeyRead(k) => [k] <= Waiting(r)
       case TailRead(k, next) => [k] <= Waiting(r) && next == (r.tail + 1) % RING
  }

  lemma Indices(head: nat, tail: nat, i: nat)
    requires head < RING && tail < RING && i <= Distance(head, tail)
    ensures Slot(tail, i) == head <==> i == Distance(head, tail)
    ensures (head + 1) % RING == tail <==> Distance(head, tail) == RING - 1
    ensures Distance(head, tail) < RING - 1 ==> Distance((head + 1) % RING, tail) == Distance(head, tail) + 1
    ensures Distance(head, tail) > 0 ==> Distance(head, (tail + 1) % RING) == Distance(head, tail) - 1
    ensures i < RING ==> Slot((tail + 1) % RING, i) == Slot(tail, i + 1)
    ensures Slot(tail, 0) == tail
  {
  }

  /** What one interrupt does: the key joins the end of the queue, or is dropped, exactly when it is no
      key or 63 are waiting. */
  lemma PressAppends(r: Ring, key: uint8)
    requires Shaped(r)
    ensures var t := Enqueued(r, key);
            if key == 0 || |Waiting(r)| == RING - 1 then t == r
            else Waiting(t) == Waiting(r) + [key] && t.accepted == r.accepted + [key]
  {
    hide Slot, Distance;
    Indices(r.head, r.tail, 0);
    if key != 0 && |Waiting(r)| < RING - 1 {
      var t := Enqueued(r, key);
      forall i | 0 <= i < |Waiting(t)|
        ensures Waiting(t)[i] == (Waiting(r) + [key])[i]
      {
        Indices(r.head, r.tail, i);
      }
      assert |Waiting(t)| == |Waiting(r) + [key]|;
      assert Waiting(t) == Waiting(r) + [key];
    }
  }

  lemma PressKeeps(r: Ring, key: uint8)
    requires Inv(r)
    ensures Inv(Enqueued(r, key))
  {
    hide Waiting, Enqueued;
    PressAppends(r, key);
    SameConsumer(r, key);
  }

  lemma SameConsumer(r: Ring, key: uint8)
    requires Shaped(r)
    ensures var t := Enqueued(r, key); Shaped(t) && t.pc == r.pc && t.tail == r.tail && t.returned == r.returned
  {
  }

  /** The last access of a call releases the oldest key. */
  lemma Released(r: Ring)
    requires Shaped(r) && Waiting(r) != []
    ensures var t := r.(tail := (r.tail + 1) % RING, pc := Idle); Shaped(t) && Waiting(t) == Waiting(r)[1..]
    ensures Waiting(r)[0] == r.queue[r.tail]
  {
    hide Slot, Distance;
    Indices(r.head, r.tail, 0);
    var t := r.(tail := (r.tail + 1) % RING, pc := Idle);
    forall i | 0 <= i < |Waiting(t)|
      ensures Waiting(t)[i] == Waiting(r)[1..][i]
    {
      Indices(r.head, r.tail, i);
    }
  }

  lemma StepKeeps(r: Ring)
    requires Inv(r)
    ensures Inv(Next(r, Step))
  {
    hide Slot, Waiting;
    Indices(r.head, r.tail, 0);
    match r.pc
    case HeadRead(h) => Indices(h, r.tail, 0); SameRing(r, Next(r, Step));
    case TailRead(k, next) =>
      Released(r);
      var t := r.(tail := (r.tail + 1) % RING, pc := Idle);
      SameRing(t, Next(r, Step));
      assert Waiting(r) == [k] + Waiting(r)[1..];
    case NotEmpty => Released(r); SameRing(r, Next(r, Step));
    case _ => SameRing(r, Next(r, Step));
  }

  lemma SameRing(r: Ring, t: Ring)
    requires Shaped(r) && Shaped(t) && r.queue == t.queue && r.head == t.head && r.tail == t.tail
    ensures Waiting(r) == Waiting(t)
  {
  }

  // ------------------------------------------------------------------------- runs

  function Run(r: Ring, es: seq<Event>): (t: Ring)
    requires Shaped(r)
    ensures Shaped(t)
    decreases |es|
  {
    if es == [] then r else Run(Next(r, es[0]), es[1..])
  }

  lemma {:induction false} RunKeeps(r: Ring, es: seq<Event>)
    requires Inv(r)
    ensures Inv(Run(r, es))
    decreases |es|
  {
    if es != [] {
      match es[0] {
        case Step => StepKeeps(r);
        case Press(key) => PressKeeps(r, key);
      }
      RunKeeps(Next(r, es[0]), es[1..]);
    }
  }

  function Start(queue: seq<uint8>): Ring {
    Ring(queue, 0, 0, Idle, [], [])
  }

  /** However the handler interrupts the main loop, keys come out in the order they went in, each once,
      and every key that went in has come out or is still in the ring. */
  lemma KeysInOrder(queue: seq<uint8>, es: seq<Event>)
    requires |queue| == RING
    ensures var r := Run(Start(queue), es); r.returned + Waiting(r) == r.accepted
  {
    RunKeeps(Start(queue), es);
  }

  // ---------------------------------------------------------- one call, interrupted

  /** Any number of interrupts between two accesses. */
  function Presses(r: Ring, keys: seq<uint8>): (t: Ring)
    requires Shaped(r)
    ensures Shaped(t)
    decreases |keys|
  {
    if keys == [] then r else Presses(Enqueued(r, keys[0]), keys[1..])
  }

  lemma {:induction false} PressesKeep(r: Ring, keys: seq<uint8>)
    requires Inv(r)
    ensures var t := Presses(r, keys);
            && Inv(t) && t.pc == r.pc && t.returned == r.returned && t.tail == r.tail
            && r.accepted <= t.accepted && Waiting(r) <= Waiting(t)
    decreases |keys|
  {
    if keys != [] {
      PressKeeps(r, keys[0]);
      PressAppends(r, keys[0]);
      PressesKeep(Enqueued(r, keys[0]), keys[1..]);
    }
  }

  /** A call of `getLastKey` that starts with a key waiting returns the oldest one, whatever arrives
      between its five accesses. */
  lemma CallReturnsOldest(r: Ring, k1: seq<uint8>, k2: seq<uint8>, k3: seq<uint8>, k4: seq<uint8>)
    requires Inv(r) && r.pc == Idle && Waiting(r) != []
    ensures var a := Presses(Next(r, Step), k1);
            var b := Presses(Next(a, Step), k2);
            var c := Presses(Next(b, Step), k3);
            var d := Presses(Next(c, Step), k4);
            var t := Next(d, Step);
            t.pc == Idle && t.returned == r.returned + [Waiting(r)[0]]
  {
    hide Inv, Presses, Enqueued, Waiting;
    var a := AfterStep(r, k1);
    Indices(r.head, r.tail, 0);
    var b := AfterStep(a, k2);
    var c := AfterStep(b, k3);
    var d := AfterStep(c, k4);
    OldestKey(r, d);
  }

  lemma AfterStep(r: Ring, keys: seq<uint8>) returns (t: Ring)
    requires Inv(r)
    ensures t == Presses(Next(r, Step), keys) && Inv(t) && t.pc == Next(r, Step).pc
    ensures t.returned == Next(r, Step).returned && t.tail == Next(r, Step).tail && r.accepted <= t.accepted
  {
    hide Presses, Waiting;
    StepKeeps(r);
    t := Presses(Next(r, Step), keys);
    PressesKeep(Next(r, Step), keys);
  }

  lemma OldestKey(r: Ring, d: Ring)
    requires Inv(r) && Inv(d) && Waiting(r) != []
    requires d.pc.TailRead? && d.returned == r.returned && r.accepted <= d.accepted
    ensures d.pc.key == Waiting(r)[0]
  {
    hide Waiting;
    assert r.accepted[|r.returned|] == Waiting(r)[0];
  }

  // ----------------------------------------------------------- the code on its fields

  class KeyRing {
    const queue: array<uint8>
    var head: nat
    var tail: nat
    ghost var accepted: seq<uint8>
    ghost var returned: seq<uint8>

    ghost predicate Valid()
      reads this, queue
    {
      queue.Length == RING && Inv(View(Idle))
    }

    ghost function View(pc: Pc): Ring
      reads this, queue
    {
      Ring(queue[..], head, tail, pc, accepted, returned)
    }

    constructor ()
      ensures Valid() && accepted == [] && returned == []
    {
      queue := new uint8[RING](_ => 0);
      head, tail, accepted, returned := 0, 0, [], [];
    }

    /** `enqueueKey`, which the interrupt handler runs. */
    method EnqueueKey(key: uint8)
      requires Valid()
      modifies queue, this`head, this`accepted
      ensures Valid() && View(Idle) == Enqueued(old(View(Idle)), key)
    {
      hide Waiting;
      PressKeeps(View(Idle), key);
      if key == 0 { return; }
      var next := (head + 1) % RING;
      if next == tail { return; }
      queue[head] := key;
      head := next;
      accepted := accepted + [key];
    }

    /** The keys waiting now. */
    ghost function Keys(): seq<uint8>
      requires Valid()
      reads this, queue
    {
      Waiting(View(Idle))
    }

    method Interrupts(keys: seq<uint8>)
      requires Valid()
      modifies queue, this`head, this`accepted
      ensures Valid() && View(Idle) == Presses(old(View(Idle)), keys)
      ensures old(Keys()) <= Keys()
    {
      hide Inv, Enqueued;
      PressesKeep(View(Idle), keys);
      if keys != [] {
        EnqueueKey(keys[0]);
        Interrupts(keys[1..]);
      }
    }

    method Release(next: nat)
      requires Valid() && Keys() != [] && next == (tail + 1) % RING
      modifies this`tail, this`returned
      ensures Valid() && Keys() == old(Keys())[1..] && returned == old(returned) + [old(Keys())[0]]
    {
      hide Waiting;
      ghost var was := View(Idle);
      ghost var keys := Keys();
      Released(was);
      tail := next;
      returned := returned + [keys[0]];
      SameRing(was.(tail := next, pc := Idle), View(Idle));
      assert keys == [keys[0]] + keys[1..];
    }

    /** `getLastKey`, interrupted after each of its first four accesses: the oldest key that was waiting
        at the first access, or 0 if there was none. */
    method GetLastKey(k1: seq<uint8>, k2: seq<uint8>, k3: seq<uint8>, k4: seq<uint8>) returns (key: uint8)
      requires Valid()
      modifies this, queue
      ensures Valid()
      ensures (if old(Keys()) == [] then key == 0 && returned == old(returned)
        else key == old(Keys())[0] && returned == old(returned) + [key])
    {
      hide Valid, Waiting, Enqueued, Presses;
      EmptyOrNot();
      var h := head;
      Interrupts(k1);
      if h == tail { return 0; }
      Interrupts(k2);
      OldestInSlot();
      key := queue[tail];
      Interrupts(k3);
      var next := (tail + 1) % RING;
      Interrupts(k4);
      Release(next);
    }

    lemma EmptyOrNot()
      requires Valid()
      ensures queue.Length == RING && head < RING && tail < RING && (Keys() == [] <==> head == tail)
    {
    }

    lemma OldestInSlot()
      requires Valid() && Keys() != []
      ensures queue.Length == RING && tail < RING && queue[tail] == Keys()[0]
    {
      Released(View(Idle));
    }
  }
}
