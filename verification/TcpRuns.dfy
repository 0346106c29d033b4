/** Runs of a session against an honest peer over a network that loses, repeats and reorders. */
module TcpRuns {
  import opened Bitwise
  import opened TcpStream

  /** The byte stream the peer sends, its first sequence number, and our initial one. */
  datatype Peer = Peer(data: seq<uint8>, first: uint32, iss: uint32)

  /** The session together with all bytes handed to readers and the count of bytes we sent. */
  datatype World = World(s: Session, delivered: seq<uint8>, sent: nat) {
    /** How many bytes of the peer's stream have been stored so far. */
    function Received(): nat
      requires s.consumed <= |s.stored|
    {
      |delivered| + |s.Unread()|
    }
  }

  datatype Event = Arrive(g: Segment) | Read(n: nat) | Drain(n: nat) | Send(n: nat)

  function Next(w: World, e: Event): (r: World)
    requires w.s.Valid()
    ensures r.s.Valid()
  {
    match e
    case Arrive(g) => if |g.body| < 0x1_0000 then w.(s := Handle(w.s, g)) else w
    case Read(n) =>
      if n == 0 then w
      else w.(s := Compact(Take(w.s, n).0), delivered := w.delivered + Take(w.s, n).1)
    case Drain(n) => w.(s := Take(w.s, n).0, delivered := w.delivered + Take(w.s, n).1)
    case Send(n) =>
      if w.s.synAck then w.(s := w.s.(sndSeq := Plus(w.s.sndSeq, n)), sent := w.sent + n) else w
  }

  /** The safety property: what was read and what waits in the buffer are, in this order, a prefix
      of the peer's stream; the acknowledgement number says how long it is; FIN means all of it. */
  ghost predicate Inv(p: Peer, w: World): (inv: bool)
    ensures inv ==> w.s.Valid()
  {
    && w.s.Valid()
    && (w.s.synAck ==>
        && w.s.rcvNext == Plus(p.first, w.Received() + (if w.s.fin then 1 else 0))
        && w.s.sndSeq == Plus(p.iss, 1 + w.sent))
    && (!w.s.synAck ==> w.s.sndSeq == p.iss && w.sent == 0 && w.Received() == 0 && !w.s.fin)
    && w.Received() <= |p.data| && w.delivered + w.s.Unread() == p.data[..w.Received()]
    && (w.s.fin ==> w.Received() == |p.data|)
  }

  /** The SYN-ACK, first or repeated; repeated, it must not be mistaken for a new one after the
      sequence space has been sent around once. */
  ghost predicate IsSynAck(p: Peer, w: World, g: Segment) {
    && g.SynAck() && !g.Fin() && g.dataOffset == |g.body|
    && g.seqNo == Plus(p.first, -1) && g.ackNo == Plus(p.iss, 1)
    && (w.s.synAck ==> (1 + w.sent) % TWO32 != 0)
  }

  /** A data segment carries the stream's bytes from off on, FIN only at its end. It is less than
      one sequence space old and ends at most 2^31 ahead, as any receive window keeps it. */
  ghost predicate IsData(p: Peer, w: World, g: Segment, off: nat)
    requires w.s.Valid()
  {
    && w.s.synAck && !g.SynAck()
    && g.dataOffset <= |g.body| && off + |g.Payload()| <= |p.data|
    && g.seqNo == Plus(p.first, off) && g.Payload() == p.data[off..off + |g.Payload()|]
    && (g.Fin() ==> off + |g.Payload()| == |p.data|)
    && w.Received() + 1 < off + TWO32 && off + |g.Payload()| <= w.Received() + TWO31
  }

  /** A bare acknowledgement, a window update, a keep-alive without data: whatever its number, which
      behind the peer's own FIN is one more than any byte of the stream has. */
  predicate IsBare(g: Segment) {
    !g.SynAck() && !g.Fin() && g.dataOffset == |g.body|
  }

  /** Anything may arrive that is not for this session, is malformed, or is a reset; otherwise it
      comes from the peer. */
  ghost predicate Honest(p: Peer, w: World, e: Event)
    requires w.s.Valid()
  {
    e.Arrive? ==>
      && |e.g.body| < 0x1_0000
      && (w.s.Mine(e.g) && 20 <= e.g.dataOffset <= |e.g.body| && !e.g.Rst() ==>
          IsBare(e.g) || IsSynAck(p, w, e.g) || exists off: nat :: IsData(p, w, e.g, off))
  }

  // ------------------------------------------------------------------ single steps

  /** Where a payload lies decides whether it is taken, for all distances within the window. */
  lemma CoversInWindow(first: uint32, next: nat, off: nat, len: nat)
    requires 0 < len < 0x1_0000
    requires next < off + TWO32 && off + len <= next + TWO31
    ensures Covers(Plus(first, next), Plus(first, off), len) <==> off <= next < off + len
    ensures off <= next < off + len ==> Minus(Plus(first, next), Plus(first, off)) == next - off
  {
    hide Plus, Minus, Covers;
    CoversSkip(Plus(first, next), Plus(first, off), len);
    Distance(first, next, off);
    SmallRemainder(next - off, len);
  }

  lemma SmallRemainder(d: int, len: nat)
    requires d < TWO32 && len <= d + TWO31 && len < 0x1_0000
    ensures d % TWO32 < len <==> 0 <= d < len
    ensures 0 <= d ==> d % TWO32 == d
  {
  }

  lemma Distance(first: uint32, a: nat, b: nat)
    ensures Minus(Plus(first, a), Plus(first, b)) == (a - b) % TWO32
  {
    var x, y := first + a, first + b;
    var d := x % TWO32 - y % TWO32;
    RemainderIs(a - b, TWO32, x / TWO32 - y / TWO32 + d / TWO32, d % TWO32);
  }

  /** Storing: min of what is new and what fits beside the unread bytes is appended. */
  lemma StoreAppends(s: Session, novel: seq<uint8>)
    requires s.Valid()
    ensures var n := if |novel| < CAPACITY - |s.Unread()| then |novel| else CAPACITY - |s.Unread()|;
            && Store(s, novel).Unread() == s.Unread() + novel[..n]
            && Store(s, novel) == s.(stored := Store(s, novel).stored, consumed := Store(s, novel).consumed,
                                     rcvNext := Plus(s.rcvNext, n), dataSeen := true)
  {
  }

  lemma PlusPlus(a: uint32, m: int, n: int)
    ensures Plus(Plus(a, m), n) == Plus(a, m + n)
  {
  }

  /** The data branch, for the peer's bytes off .. off+len-1: nothing is skipped, nothing repeated. */
  lemma AcceptInWindow(p: Peer, w: World, off: nat, payload: seq<uint8>)
    requires Inv(p, w) && w.s.synAck && |payload| < 0x1_0000
    requires off + |payload| <= |p.data| && payload == p.data[off..off + |payload|]
    requires w.Received() + 1 < off + TWO32 && off + |payload| <= w.Received() + TWO31
    ensures var t := w.(s := Accept(w.s, Plus(p.first, off), payload));
            && Inv(p, t) && t.s.fin == w.s.fin && t.s.synAck
            && t.Received() == (if off <= w.Received() < off + |payload|
                                then Stored(w, off + |payload|) else w.Received())
  {
    hide Plus, Minus, Covers, Store;
    var r := w.Received();
    var next := r + (if w.s.fin then 1 else 0);
    if payload != [] {
      CoversInWindow(p.first, next, off, |payload|);
      if off <= r < off + |payload| {
        StoreInWindow(p, w, payload[r - off..]);
      }
    }
  }

  lemma StoreInWindow(p: Peer, w: World, novel: seq<uint8>)
    requires Inv(p, w) && w.s.synAck && !w.s.fin
    requires w.Received() + |novel| <= |p.data| && novel == p.data[w.Received()..w.Received() + |novel|]
    ensures var t := w.(s := Store(w.s, novel));
            && Inv(p, t) && !t.s.fin && t.s.synAck && t.Received() == Stored(w, w.Received() + |novel|)
  {
    hide Plus, Store;
    var r := w.Received();
    var n := Stored(w, r + |novel|) - r;
    StoreAppends(w.s, novel);
    PlusPlus(p.first, r, n);
    assert 0 <= n <= |novel|;
    FrontOfSlice(p.data, r, |novel|, n);
    Join(w, Store(w.s, novel), novel[..n]);
  }

  lemma FrontOfSlice(s: seq<uint8>, i: nat, m: nat, n: nat)
    requires i + m <= |s| && n <= m
    ensures s[i..i + m][..n] == s[i..i + n] && s[..i] + s[i..i + n] == s[..i + n]
  {
  }

  /** How far a payload that reaches up to end lets the stream grow: the buffer is the only limit. */
  function Stored(w: World, end: nat): nat
    requires w.s.Valid()
  {
    if end - w.Received() < CAPACITY - |w.s.Unread()| then end else w.Received() + CAPACITY - |w.s.Unread()|
  }

  lemma Join(w: World, t: Session, tail: seq<uint8>)
    requires w.s.Valid() && t.Valid() && t.Unread() == w.s.Unread() + tail
    ensures w.delivered + t.Unread() == w.delivered + w.s.Unread() + tail
  {
  }

  /** The FIN branch: taken exactly when all data before the FIN is in. */
  lemma FinInWindow(p: Peer, w: World)
    requires Inv(p, w) && w.s.synAck && |p.data| <= w.Received() + TWO31
    ensures var t := w.(s := TakeFin(w.s, Plus(p.first, |p.data|)));
            && Inv(p, t) && t.Received() == w.Received()
            && (t.s.fin <==> w.Received() == |p.data|)
            && (Signed(Minus(w.s.rcvNext, Plus(p.first, |p.data|))) >= 0 <==> w.Received() == |p.data|)
  {
    hide Plus, Minus;
    var next, end := w.Received() + (if w.s.fin then 1 else 0), |p.data|;
    Distance(p.first, next, end);
    Behind(end - next);
    PlusPlus(p.first, end, 1);
  }

  lemma Behind(g: int)
    requires -1 <= g <= TWO31
    ensures Signed(-g % TWO32) >= 0 <==> g <= 0
    ensures -g % TWO32 == 0 <==> g == 0
  {
  }

  /** The first SYN-ACK starts the stream; a repeated one changes nothing. */
  lemma SynAckInWindow(p: Peer, w: World, g: Segment)
    requires Inv(p, w) && IsSynAck(p, w, g)
    ensures var t := w.(s := TakeSynAck(w.s, g));
            && Inv(p, t) && t.s.synAck && t.Received() == w.Received() && t.s.acks == w.s.acks
            && (w.s.synAck ==> t == w)
  {
    PlusPlus(p.first, -1, 1);
    PlusPlus(p.iss, 1 + w.sent, 1);
    if w.s.synAck {
      NotAgain(p.iss, w.sent);
    }
  }

  lemma NotAgain(iss: uint32, sent: nat)
    requires (1 + sent) % TWO32 != 0
    ensures Plus(iss, 1) != Plus(iss, 1 + sent + 1)
  {
  }

  /** A segment without payload or flags of the connection changes nothing. */
  lemma BareChangesNothing(w: World, g: Segment)
    requires w.s.Valid() && IsBare(g)
    requires w.s.Mine(g) && 20 <= g.dataOffset && !g.Rst()
    ensures Next(w, Arrive(g)) == w
  {
    hide And, Accept, TakeFin;
    if |g.body| < 0x1_0000 {
      NoPayload(w.s, g);
    }
  }

  /** No segment an honest network delivers breaks the stream or makes it shrink. */
  lemma ArriveKeeps(p: Peer, w: World, g: Segment)
    requires Inv(p, w) && Honest(p, w, Arrive(g))
    ensures Inv(p, Next(w, Arrive(g)))
    ensures Next(w, Arrive(g)).Received() >= w.Received()
  {
    hide Plus, Minus, Accept, TakeFin, And;
    if w.s.Mine(g) && 20 <= g.dataOffset <= |g.body| && !g.Rst() {
      if IsBare(g) {
        BareChangesNothing(w, g);
      } else if IsSynAck(p, w, g) {
        SynAckInWindow(p, w, g);
        NoPayload(TakeSynAck(w.s, g), g);
      } else {
        var off: nat :| IsData(p, w, g, off);
        AcceptInWindow(p, w, off, g.Payload());
        if g.Fin() {
          PlusPlus(p.first, off, |g.Payload()|);
          FinInWindow(p, w.(s := Accept(w.s, g.seqNo, g.Payload())));
        }
      }
    }
  }

  lemma NoPayload(s: Session, g: Segment)
    requires s.Valid() && g.dataOffset == |g.body| < 0x1_0000
    ensures Accept(s, g.seqNo, g.Payload()) == s
  {
  }

  /** Reading moves bytes from the buffer to the reader; compacting moves nothing across. */
  lemma TakeKeeps(p: Peer, w: World, n: nat)
    requires Inv(p, w)
    ensures var t := World(Take(w.s, n).0, w.delivered + Take(w.s, n).1, w.sent);
            && Inv(p, t) && t.Received() == w.Received()
            && Inv(p, t.(s := Compact(t.s)))
  {
    hide Plus;
    var t := World(Take(w.s, n).0, w.delivered + Take(w.s, n).1, w.sent);
    var k := |Take(w.s, n).1|;
    assert w.s.Unread() == w.s.Unread()[..k] + w.s.Unread()[k..];
    assert t.s.Unread() == w.s.Unread()[k..];
    assert t.delivered + t.s.Unread() == w.delivered + w.s.Unread();
    assert Compact(t.s).Unread() == t.s.Unread();
  }

  lemma NextKeeps(p: Peer, w: World, e: Event)
    requires Inv(p, w) && Honest(p, w, e)
    ensures Inv(p, Next(w, e))
  {
    match e
    case Arrive(g) => ArriveKeeps(p, w, g);
    case Read(n) => TakeKeeps(p, w, n);
    case Drain(n) => TakeKeeps(p, w, n);
    case Send(n) => PlusPlus(p.iss, 1 + w.sent, n);
  }

  // ------------------------------------------------------------------------- runs

  function Run(w: World, es: seq<Event>): (r: World)
    requires w.s.Valid()
    ensures r.s.Valid()
    decreases |es|
  {
    if es == [] then w else Run(Next(w, es[0]), es[1..])
  }

  ghost predicate HonestRun(p: Peer, w: World, es: seq<Event>)
    requires w.s.Valid()
    decreases |es|
  {
    es == [] || (Honest(p, w, es[0]) && HonestRun(p, Next(w, es[0]), es[1..]))
  }

  lemma {:induction false} RunKeeps(p: Peer, w: World, es: seq<Event>)
    requires Inv(p, w) && HonestRun(p, w, es)
    ensures Inv(p, Run(w, es))
    decreases |es|
  {
    if es != [] {
      NextKeeps(p, w, es[0]);
      RunKeeps(p, Next(w, es[0]), es[1..]);
    }
  }

  /** Over every run of an opened session: the bytes read are a prefix of the peer's stream, the
      unread buffer continues it, and FIN is reported only when the whole stream has been stored. */
  lemma StreamIsExact(p: Peer, ip: uint32, port: uint16, local: uint16, es: seq<Event>)
    requires HonestRun(p, World(Opened(ip, port, local, p.iss), [], 0), es)
    ensures var w := Run(World(Opened(ip, port, local, p.iss), [], 0), es);
            && w.delivered <= p.data && w.delivered + w.s.Unread() <= p.data
            && (w.s.fin ==> w.delivered + w.s.Unread() == p.data)
            && (w.s.fin && w.s.Unread() == [] ==> w.delivered == p.data)
  {
    var w := World(Opened(ip, port, local, p.iss), [], 0);
    assert p.data[..0] == [];
    RunKeeps(p, w, es);
    var t := Run(w, es);
    assert t.delivered == p.data[..|t.delivered|] by {
      assert t.delivered == (t.delivered + t.s.Unread())[..|t.delivered|];
    }
    assert p.data[..|p.data|] == p.data;
  }

  // ---------------------------------------------------- acknowledgements and progress

  /** The next number expected, counted from the start of the peer's stream and not wrapped. */
  function Count(w: World): nat
    requires w.s.Valid()
  {
    w.Received() + if w.s.fin then 1 else 0
  }

  /** From w to t acknowledgements were only added, and each of them stands for a count between the two:
      a range that holds any 32-bit number at most once. */
  ghost predicate Acked(p: Peer, w: World, t: World)
    requires w.s.Valid() && t.s.Valid()
  {
    && w.s.acks <= t.s.acks && Count(w) <= Count(t) <= Count(w) + 0x1_0000
    && forall i :: |w.s.acks| <= i < |t.s.acks| ==> StandsFor(p, t.s.acks[i], Count(w), Count(t))
  }

  ghost predicate StandsFor(p: Peer, a: uint32, low: nat, high: nat) {
    exists k: nat :: low <= k <= high && a == Plus(p.first, k)
  }

  /** In such a range a number stands for one count only. */
  lemma OneCount(p: Peer, low: nat, high: nat, k: nat, l: nat)
    requires low <= k <= high && low <= l <= high && high < low + TWO32
    ensures Plus(p.first, k) == Plus(p.first, l) <==> k == l
  {
    hide Plus, Minus;
    Distance(p.first, k, l);
    MinusZero(Plus(p.first, k), Plus(p.first, l));
  }

  /** One acknowledgement more, of the number now expected. */
  lemma OneAck(p: Peer, w: World, u: World, t: World)
    requires w.s.Valid() && u.s.Valid() && Acked(p, w, u) && Inv(p, t) && t.s.synAck
    requires Count(u) <= Count(t) <= Count(w) + 0x1_0000
    requires t.s.acks == u.s.acks || t.s.acks == u.s.acks + [t.s.rcvNext]
    ensures Acked(p, w, t)
  {
    hide Plus;
    forall i | |w.s.acks| <= i < |t.s.acks|
      ensures StandsFor(p, t.s.acks[i], Count(w), Count(t))
    {
      if i < |u.s.acks| {
        Widen(p, u.s.acks[i], Count(w), Count(u), Count(t));
      }
    }
  }

  lemma Widen(p: Peer, a: uint32, low: nat, m: nat, n: nat)
    requires StandsFor(p, a, low, m) && m <= n
    ensures StandsFor(p, a, low, n)
  {
  }

  lemma AcceptAcks(s: Session, seqNo: uint32, payload: seq<uint8>)
    requires s.Valid() && |payload| < 0x1_0000
    ensures var t := Accept(s, seqNo, payload);
            t.acks == if payload == [] then s.acks else s.acks + [t.rcvNext]
  {
  }

  lemma FinAcks(s: Session, finSeq: uint32)
    ensures var t := TakeFin(s, finSeq);
            t.acks == if Signed(Minus(s.rcvNext, finSeq)) >= 0 then s.acks + [t.rcvNext] else s.acks
    ensures TakeFin(s, finSeq).synAck == s.synAck && (s.fin ==> TakeFin(s, finSeq).fin)
  {
  }

  /** The peer is never told that a byte arrived which is not stored: what a segment is answered with
      lies between what was stored before it and what is stored after it. */
  lemma AcksStaySound(p: Peer, w: World, g: Segment)
    requires Inv(p, w) && Honest(p, w, Arrive(g))
    ensures Acked(p, w, Next(w, Arrive(g)))
  {
    hide Plus, Minus, Accept, TakeFin, And;
    if w.s.Mine(g) && 20 <= g.dataOffset <= |g.body| && !g.Rst() {
      if IsBare(g) {
        BareChangesNothing(w, g);
      } else if IsSynAck(p, w, g) {
        SynAckInWindow(p, w, g);
        NoPayload(TakeSynAck(w.s, g), g);
      } else {
        var off: nat :| IsData(p, w, g, off);
        DataAcked(p, w, g, off);
      }
    }
  }

  lemma DataAcked(p: Peer, w: World, g: Segment, off: nat)
    requires Inv(p, w) && |g.body| < 0x1_0000 && IsData(p, w, g, off)
    requires w.s.Mine(g) && 20 <= g.dataOffset && !g.Rst()
    ensures Acked(p, w, Next(w, Arrive(g)))
  {
    hide Plus, Minus, Accept, TakeFin, And, Inv, Next, Acked, Stored;
    var t := w.(s := Accept(w.s, g.seqNo, g.Payload()));
    DataHandled(w, g);
    AcceptInWindow(p, w, off, g.Payload());
    StoredMore(w, off + |g.Payload()|);
    AcceptAcks(w.s, g.seqNo, g.Payload());
    NoAcks(p, w);
    OneAck(p, w, w, t);
    if g.Fin() {
      PlusPlus(p.first, off, |g.Payload()|);
      FinInWindow(p, t);
      FinAcks(t.s, Plus(p.first, |p.data|));
      OneAck(p, w, t, t.(s := TakeFin(t.s, Plus(p.first, |p.data|))));
    }
  }

  /** And it is answered: once for its data and once for its FIN when all is in, the last time with how
      far the stream reaches by then. */
  lemma DataAnswered(p: Peer, w: World, g: Segment, off: nat)
    requires Inv(p, w) && |g.body| < 0x1_0000 && IsData(p, w, g, off)
    requires w.s.Mine(g) && 20 <= g.dataOffset && !g.Rst()
    ensures var t := Next(w, Arrive(g));
            var n := (if g.Payload() != [] then 1 else 0) + if g.Fin() && t.Received() == |p.data| then 1 else 0;
            && t.s.Valid() && |t.s.acks| == |w.s.acks| + n
            && (n > 0 ==> t.s.acks[|t.s.acks| - 1] == Plus(p.first, Count(t)))
  {
    hide Plus, Minus, Accept, TakeFin, And, Inv, Next, Stored;
    var t := w.(s := Accept(w.s, g.seqNo, g.Payload()));
    DataHandled(w, g);
    AcceptInWindow(p, w, off, g.Payload());
    StoredMore(w, off + |g.Payload()|);
    AcceptAcks(w.s, g.seqNo, g.Payload());
    ExpectedNumber(p, t);
    if g.Fin() {
      PlusPlus(p.first, off, |g.Payload()|);
      FinInWindow(p, t);
      FinAcks(t.s, Plus(p.first, |p.data|));
      ExpectedNumber(p, t.(s := TakeFin(t.s, Plus(p.first, |p.data|))));
    }
  }

  lemma NoAcks(p: Peer, w: World)
    requires w.s.Valid()
    ensures Acked(p, w, w)
  {
  }

  lemma NextAcked(p: Peer, w: World, e: Event)
    requires Inv(p, w) && Honest(p, w, e)
    ensures Acked(p, w, Next(w, e))
  {
    match e
    case Arrive(g) => AcksStaySound(p, w, g);
    case Read(n) => TakeKeeps(p, w, n);
    case Drain(n) => TakeKeeps(p, w, n);
    case Send(n) =>
  }

  /** Over every run: the acknowledgements sent in step i stand for counts between those before and after
      that step, so the whole list, never taken back, follows what is stored. */
  lemma {:induction false} AcksFollow(p: Peer, w: World, es: seq<Event>, i: nat)
    requires Inv(p, w) && HonestRun(p, w, es) && i < |es|
    ensures var u, v, z := Run(w, es[..i]), Run(w, es[..i + 1]), Run(w, es);
            Acked(p, u, v) && w.s.acks <= u.s.acks && v.s.acks <= z.s.acks && Count(w) <= Count(u) && Count(v) <= Count(z)
    decreases |es|
  {
    hide Inv, Honest, Next, Count, Acked;
    NextKeeps(p, w, es[0]);
    NextAcked(p, w, es[0]);
    var t := Next(w, es[0]);
    AckedGrows(p, w, t);
    UnfoldRun(w, es, i);
    if i > 0 {
      AcksFollow(p, t, es[1..], i - 1);
    } else if |es| > 1 {
      AcksFollow(p, t, es[1..], 0);
      assert es[1..][..0] == [];
      AckedGrows(p, t, Run(t, es[1..][..1]));
    } else {
      assert es[1..] == [] && Run(t, []) == t;
    }
  }

  lemma AckedGrows(p: Peer, w: World, t: World)
    requires w.s.Valid() && t.s.Valid() && Acked(p, w, t)
    ensures w.s.acks <= t.s.acks && Count(w) <= Count(t)
  {
  }

  lemma UnfoldRun(w: World, es: seq<Event>, i: nat)
    requires w.s.Valid() && i < |es|
    ensures Run(w, es) == Run(Next(w, es[0]), es[1..])
    ensures Run(w, es[..i + 1]) == Run(Next(w, es[0]), es[1..][..i])
    ensures Run(w, es[..i]) == if i == 0 then w else Run(Next(w, es[0]), es[1..][..i - 1])
  {
    hide Next;
    assert es[..i + 1][1..] == es[1..][..i];
    if i > 0 {
      assert es[..i][1..] == es[1..][..i - 1];
    }
  }

  /** How far one data segment carries the stream: exactly up to its end or to a full buffer when
      it covers the next byte, not at all otherwise; and it reports the FIN exactly when all is in. */
  lemma DataProgress(p: Peer, w: World, g: Segment, off: nat)
    requires Inv(p, w) && |g.body| < 0x1_0000 && IsData(p, w, g, off)
    requires w.s.Mine(g) && 20 <= g.dataOffset && !g.Rst()
    ensures var t, end := Next(w, Arrive(g)), off + |g.Payload()|;
            && t.delivered == w.delivered
            && t.Received() == (if off <= w.Received() < end then Stored(w, end) else w.Received())
            && (g.Fin() ==> (t.s.fin <==> t.Received() == |p.data|))
            && (off <= w.Received() < end && |w.s.Unread()| < CAPACITY ==> t.Received() > w.Received())
  {
    hide Plus, Minus, Accept, TakeFin, And, Inv, Stored, Next;
    DataHandled(w, g);
    AcceptInWindow(p, w, off, g.Payload());
    StoredMore(w, off + |g.Payload()|);
    if g.Fin() {
      PlusPlus(p.first, off, |g.Payload()|);
      FinInWindow(p, w.(s := Accept(w.s, g.seqNo, g.Payload())));
    }
  }

  lemma DataHandled(w: World, g: Segment)
    requires w.s.Valid() && |g.body| < 0x1_0000 && !g.SynAck()
    requires w.s.Mine(g) && 20 <= g.dataOffset <= |g.body| && !g.Rst()
    ensures var t := Accept(w.s, g.seqNo, g.Payload());
            Next(w, Arrive(g)) == w.(s := if g.Fin() then TakeFin(t, Plus(g.seqNo, |g.Payload()|)) else t)
  {
    hide Plus, Accept, TakeFin, And;
  }

  lemma StoredMore(w: World, end: nat)
    requires w.s.Valid()
    ensures w.Received() < end ==> w.Received() <= Stored(w, end) <= end
    ensures w.Received() < end && |w.s.Unread()| < CAPACITY ==> Stored(w, end) > w.Received()
  {
  }

  // ---------------------------------------------------------- segments of any age

  /** How many of len new bytes fit beside the unread ones. */
  function Room(w: World, len: nat): nat
    requires w.s.Valid()
  {
    if len < CAPACITY - |w.s.Unread()| then len else CAPACITY - |w.s.Unread()|
  }

  /** Behind the first skip bytes the payload continues the peer's stream, as far as it fits. */
  ghost predicate Continues(p: Peer, w: World, payload: seq<uint8>, skip: nat)
    requires w.s.Valid()
  {
    skip < |payload| ==>
      var r, n := w.Received(), Room(w, |payload| - skip);
      r + n <= |p.data| && payload[skip..skip + n] == p.data[r..r + n]
  }

  /** Exactly which payloads keep the stream, whoever sent them and whatever their numbers: those whose
      bytes from the expected number on, if they reach it, are the next bytes of the peer's stream. */
  lemma AcceptExactly(p: Peer, w: World, seqNo: uint32, payload: seq<uint8>)
    requires Inv(p, w) && w.s.synAck && |payload| < 0x1_0000
    ensures var t := w.(s := Accept(w.s, seqNo, payload));
            && (Inv(p, t) <==> Continues(p, w, payload, Minus(w.s.rcvNext, seqNo)))
            && (!Inv(p, t) ==> !(w.delivered + t.s.Unread() <= p.data))
  {
    hide Plus, Minus, Store, Room, Inv, Covers;
    var skip := Minus(w.s.rcvNext, seqNo);
    StillPrefix(p, w);
    if payload != [] {
      CoversSkip(w.s.rcvNext, seqNo, |payload|);
      var s := w.s;
      if skip < |payload| {
        StoreExactly(p, w, payload, skip);
        s := Store(w.s, payload[skip..]);
      }
      AcksAside(p, w.(s := s), s.acks + [s.rcvNext]);
    }
  }

  lemma StillPrefix(p: Peer, w: World)
    requires Inv(p, w)
    ensures w.delivered + w.s.Unread() <= p.data
  {
  }

  lemma AcksAside(p: Peer, w: World, acks: seq<uint32>)
    requires w.s.Valid()
    ensures Inv(p, w.(s := w.s.(acks := acks))) <==> Inv(p, w)
    ensures w.s.(acks := acks).Unread() == w.s.Unread()
  {
    hide Plus;
  }

  lemma StoreExactly(p: Peer, w: World, payload: seq<uint8>, skip: nat)
    requires Inv(p, w) && w.s.synAck && skip < |payload|
    ensures var t := w.(s := Store(w.s, payload[skip..]));
            && (Inv(p, t) <==> Continues(p, w, payload, skip))
            && (w.delivered + t.s.Unread() <= p.data <==> Continues(p, w, payload, skip))
            && t.s.Valid() && t.s.synAck && t.s.fin == w.s.fin
  {
    hide Plus, Store, Inv;
    var n, novel := Room(w, |payload| - skip), payload[skip..];
    StoreAppends(w.s, novel);
    assert novel[..n] == payload[skip..skip + n];
    GrownExactly(p, w, w.(s := Store(w.s, novel)), novel[..n]);
  }

  lemma GrownExactly(p: Peer, w: World, t: World, more: seq<uint8>)
    requires Inv(p, w) && w.s.synAck && t.s.Valid() && t.s.Unread() == w.s.Unread() + more
    requires t.s.rcvNext == Plus(w.s.rcvNext, |more|) && t.s.synAck && t.s.fin == w.s.fin
    requires t.s.sndSeq == w.s.sndSeq && t.delivered == w.delivered && t.sent == w.sent
    ensures var r := w.Received();
            && (Inv(p, t) <==> r + |more| <= |p.data| && more == p.data[r..r + |more|])
            && (w.delivered + t.s.Unread() <= p.data <==> Inv(p, t))
  {
    hide Plus;
    PlusPlus(p.first, Count(w), |more|);
    Join(w, t.s, more);
    PrefixExactly(p.data, w.Received(), more);
  }

  lemma PrefixExactly(s: seq<uint8>, r: nat, more: seq<uint8>)
    requires r <= |s|
    ensures s[..r] + more <= s <==> r + |more| <= |s| && more == s[r..r + |more|]
    ensures r + |more| <= |s| ==> (s[..r] + more == s[..r + |more|] <==> more == s[r..r + |more|])
  {
    var t := s[..r] + more;
    if r + |more| <= |s| {
      assert t[r..] == more && s[..r + |more|][r..] == s[r..r + |more|];
      assert s[..r + |more|] == s[..r] + s[r..r + |more|];
    }
  }

  /** So for the peer's own bytes at any age and any distance: a segment off the window is harmless if and
      only if, where its number reaches the expected one, its bytes happen to be those of the stream there. */
  lemma OwnBytesExactly(p: Peer, w: World, off: nat, payload: seq<uint8>)
    requires Inv(p, w) && w.s.synAck && |payload| < 0x1_0000
    requires off + |payload| <= |p.data| && payload == p.data[off..off + |payload|]
    ensures var t := w.(s := Accept(w.s, Plus(p.first, off), payload));
            var r, skip := w.Received(), (Count(w) - off) % TWO32;
            Inv(p, t) <==> (skip < |payload| ==>
              var n := Room(w, |payload| - skip);
              r + n <= |p.data| && p.data[off + skip..off + skip + n] == p.data[r..r + n])
  {
    hide Plus, Minus, Accept, Inv, Room, Count;
    AcceptExactly(p, w, Plus(p.first, off), payload);
    Distance(p.first, Count(w), off);
    ExpectedNumber(p, w);
    var skip := (Count(w) - off) % TWO32;
    if skip < |payload| {
      var n := Room(w, |payload| - skip);
      RoomAtMost(w, |payload| - skip);
      SliceOfSlice(p.data, off, |payload|, skip, n);
    }
  }

  lemma SliceOfSlice(s: seq<uint8>, i: nat, m: nat, j: nat, n: nat)
    requires i + m <= |s| && j + n <= m
    ensures s[i..i + m][j..j + n] == s[i + j..i + j + n]
  {
    var u, v := s[i..i + m][j..j + n], s[i + j..i + j + n];
    assert forall k :: 0 <= k < n ==> u[k] == v[k];
  }

  lemma RoomAtMost(w: World, len: nat)
    requires w.s.Valid()
    ensures Room(w, len) <= len
  {
  }

  lemma ExpectedNumber(p: Peer, w: World)
    requires Inv(p, w) && w.s.synAck
    ensures w.s.rcvNext == Plus(p.first, Count(w))
  {
  }

  /** Exactly which FINs keep it: those not taken, the first one at the end of the stream, and later ones
      that do not carry the number expected. */
  ghost predicate FinFits(p: Peer, s: Session, received: nat, finSeq: uint32) {
    Signed(Minus(s.rcvNext, finSeq)) >= 0 ==>
      if s.fin then s.rcvNext != finSeq else s.rcvNext == finSeq && received == |p.data|
  }

  lemma FinExactly(p: Peer, w: World, finSeq: uint32)
    requires Inv(p, w) && w.s.synAck
    ensures Inv(p, w.(s := TakeFin(w.s, finSeq))) <==> FinFits(p, w.s, w.Received(), finSeq)
  {
    hide Minus;
    PlusPlus(p.first, w.Received(), 1);
    PlusPlus(p.first, w.Received() + 1, 1);
    NextDiffers(p.first, w.Received());
    NextDiffers(p.first, w.Received() + 1);
  }

  lemma NextDiffers(first: uint32, n: nat)
    ensures Plus(first, n) != Plus(first, n + 1)
  {
  }

  /** Both together, for every segment of the connection that starts no handshake. */
  lemma SegmentExactly(p: Peer, w: World, g: Segment)
    requires Inv(p, w) && w.s.synAck && |g.body| < 0x1_0000 && !g.SynAck()
    requires w.s.Mine(g) && 20 <= g.dataOffset <= |g.body| && !g.Rst()
    ensures var t := Accept(w.s, g.seqNo, g.Payload());
            Inv(p, Next(w, Arrive(g))) <==>
              && Continues(p, w, g.Payload(), Minus(w.s.rcvNext, g.seqNo))
              && (g.Fin() ==> FinFits(p, t, |w.delivered| + |t.Unread()|, Plus(g.seqNo, |g.Payload()|)))
  {
    hide Plus, Minus, Accept, TakeFin, And, Next, Continues, FinFits;
    DataHandled(w, g);
    AcceptExactly(p, w, g.seqNo, g.Payload());
    var t := w.(s := Accept(w.s, g.seqNo, g.Payload()));
    AcceptKeepsFlags(w.s, g.seqNo, g.Payload());
    if g.Fin() {
      var finSeq := Plus(g.seqNo, |g.Payload()|);
      FinKeepsBuffer(t.s, finSeq);
      if Inv(p, t) {
        FinExactly(p, t, finSeq);
      }
    }
  }

  lemma AcceptKeepsFlags(s: Session, seqNo: uint32, payload: seq<uint8>)
    requires s.Valid() && |payload| < 0x1_0000
    ensures Accept(s, seqNo, payload).synAck == s.synAck
  {
  }

  lemma FinKeepsBuffer(s: Session, finSeq: uint32)
    requires s.Valid()
    ensures TakeFin(s, finSeq).Valid() && TakeFin(s, finSeq).Unread() == s.Unread()
  {
  }

  /** Without the age limit the stream would not be exact: a duplicate one whole sequence space old
      carries the number of the next byte, and where the two bytes differ what follows is no longer the
      peer's stream. */
  lemma WholeSpaceOld(p: Peer, w: World)
    requires Inv(p, w) && w.s.synAck && !w.s.fin && TWO32 <= w.Received() < |p.data|
    requires |w.s.Unread()| < CAPACITY && p.data[w.Received() - TWO32] != p.data[w.Received()]
    ensures var t := Accept(w.s, Plus(p.first, w.Received() - TWO32), [p.data[w.Received() - TWO32]]);
            && t.Unread() == w.s.Unread() + [p.data[w.Received() - TWO32]]
            && !(w.delivered + t.Unread() <= p.data)
  {
    hide Plus, Minus, Store, CAPACITY;
    var r, x := w.Received(), p.data[w.Received() - TWO32];
    SameNumber(p.first, r);
    Distance(p.first, r, r);
    CoversSkip(w.s.rcvNext, Plus(p.first, r - TWO32), 1);
    StoreAppends(w.s, [x][0..]);
    var t := Accept(w.s, Plus(p.first, r - TWO32), [x]);
    assert (w.delivered + t.Unread())[r] == x;
  }

  lemma SameNumber(first: uint32, r: nat)
    requires r >= TWO32
    ensures Plus(first, r - TWO32) == Plus(first, r)
  {
  }
}
