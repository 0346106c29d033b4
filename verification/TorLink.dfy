/** Cells on the link to the guard: section 3 of tor-spec, read back from a byte stream. */
module TorLink {
  import opened Bitwise
  import opened Bytes

  /** The payload size of a fixed-length cell, and the two circuit id widths in bytes. */
  const FIXED := 509
  const NARROW := 2
  const WIDE := 4

  const VERSIONS: uint8 := 7
  const NETINFO: uint8 := 8

  /** We propose link versions 3, 4 and 5. */
  const OUR_VERSIONS: seq<uint8> := [0, 3, 0, 4, 0, 5]

  /** The buffer of the link handshake. */
  const BUFFER := 8192

  datatype Cell = Cell(circ: nat, cmd: uint8, payload: seq<uint8>)

  predicate IsVar(cmd: uint8) {
    cmd == VERSIONS || cmd >= 128
  }

  /** A cell that can be written with circuit ids of the given width. */
  ghost predicate Fits(width: nat, c: Cell) {
    c.circ < Pow2(8 * width) && (if IsVar(c.cmd) then |c.payload| < 0x1_0000 else |c.payload| == FIXED)
  }

  function Frame(width: nat, c: Cell): seq<uint8> {
    BigEndian(c.circ, width) + [c.cmd] + (if IsVar(c.cmd) then BigEndian(|c.payload|, 2) else []) + c.payload
  }

  /** What a caller with a buffer of cap bytes gets of a cell. */
  function Cut(c: Cell, cap: nat): Cell {
    if IsVar(c.cmd) && |c.payload| > cap then c.(payload := c.payload[..cap]) else c
  }

  /** The best link protocol version both sides know, or 0. */
  function Best(versions: seq<uint8>): nat {
    if |versions| < 2 then 0
    else
      var v, rest := 0x100 * versions[0] as int + versions[1], Best(versions[2..]);
      if (v == 3 || v == 4 || v == 5) && v > rest then v else rest
  }

  function WidthFor(versions: seq<uint8>): (w: nat)
    ensures w == NARROW || w == WIDE
  {
    if Best(versions) >= 4 then WIDE else NARROW
  }

  /** The width in force after a cell, for an end that keeps cap bytes of it: VERSIONS settles it. */
  function WidthAfter(cap: nat, width: nat, c: Cell): nat {
    if c.cmd == VERSIONS then WidthFor(Cut(c, cap).payload) else width
  }

  /** A list of cells on the wire; each is framed with the width that is in force by then. */
  function Frames(cap: nat, width: nat, cs: seq<Cell>): seq<uint8>
    decreases |cs|
  {
    if cs == [] then [] else Frame(width, cs[0]) + Frames(cap, WidthAfter(cap, width, cs[0]), cs[1..])
  }

  ghost predicate AllFit(cap: nat, width: nat, cs: seq<Cell>)
    decreases |cs|
  {
    cs == [] || (Fits(width, cs[0]) && AllFit(cap, WidthAfter(cap, width, cs[0]), cs[1..]))
  }

  function FinalWidth(cap: nat, width: nat, cs: seq<Cell>): nat
    decreases |cs|
  {
    if cs == [] then width else FinalWidth(cap, WidthAfter(cap, width, cs[0]), cs[1..])
  }

  /** What the client keeps of a cell settles the same width as the whole cell, for a peer that looks at
      whole cells. */
  predicate Decides(cap: nat, c: Cell) {
    c.cmd == VERSIONS ==> WidthFor(Cut(c, cap).payload) == WidthFor(c.payload)
  }

  /** So for every cell that another follows. */
  ghost predicate Agreed(cap: nat, cs: seq<Cell>) {
    forall i :: 0 <= i < |cs| - 1 ==> Decides(cap, cs[i])
  }

  /** The payloads that the two length bytes of a cell can announce. */
  ghost predicate Short(cs: seq<Cell>) {
    forall c <- cs :: |c.payload| < 0x1_0000
  }

  /** Exactly when the two ends agree on the bytes of the stream: every VERSIONS that has a cell behind it
      is decided by the part of it that the client keeps. */
  lemma SameFrames(cap: nat, width: nat, cs: seq<Cell>)
    requires Short(cs)
    ensures Frames(cap, width, cs) == Frames(0x1_0000, width, cs) <==> Agreed(cap, cs)
  {
    hide Frames, Agreed;
    FrameLengths(cap, width, width, cs);
  }

  /** Of a part of the list the client never takes a wider width than of all of it, so what differs once
      is never made up for: the peer's form of the stream is the longer one. */
  lemma {:induction false} FrameLengths(cap: nat, width: nat, width': nat, cs: seq<Cell>)
    requires Short(cs) && width <= width'
    ensures |Frames(cap, width, cs)| <= |Frames(0x1_0000, width', cs)|
    ensures (cs == [] || width == width') && Agreed(cap, cs) ==> Frames(cap, width, cs) == Frames(0x1_0000, width', cs)
    ensures |Frames(cap, width, cs)| == |Frames(0x1_0000, width', cs)| ==> (cs == [] || width == width') && Agreed(cap, cs)
    decreases |cs|
  {
    hide WidthFor, Best, Frame, Agreed, Decides, Cut;
    if cs != [] {
      var w, w' := WidthAfter(cap, width, cs[0]), WidthAfter(0x1_0000, width', cs[0]);
      assert cs[0] in cs;
      NarrowerAfter(cap, width, width', cs[0]);
      FrameSize(width, width', cs[0]);
      FrameLengths(cap, w, w', cs[1..]);
      AgreedFirst(cap, cs);
    } else {
      NothingToAgree(cap);
    }
  }

  lemma NothingToAgree(cap: nat)
    ensures Agreed(cap, [])
  {
  }

  lemma FrameSize(width: nat, width': nat, c: Cell)
    ensures |Frame(width', c)| == |Frame(width, c)| + width' - width
  {
  }

  lemma NarrowerAfter(cap: nat, width: nat, width': nat, c: Cell)
    requires |c.payload| < 0x1_0000 && width <= width'
    ensures WidthAfter(cap, width, c) <= WidthAfter(0x1_0000, width', c)
    ensures width == width' ==> (WidthAfter(cap, width, c) == WidthAfter(0x1_0000, width', c) <==> Decides(cap, c))
  {
    hide Best;
    var part := Cut(c, cap).payload;
    assert c.payload == part + c.payload[|part|..];
    BestOfPart(part, c.payload[|part|..]);
  }

  lemma {:induction false} BestOfPart(part: seq<uint8>, rest: seq<uint8>)
    ensures Best(part) <= Best(part + rest)
    decreases |part|
  {
    if |part| >= 2 {
      assert (part + rest)[2..] == part[2..] + rest;
      BestOfPart(part[2..], rest);
    }
  }

  lemma AgreedFirst(cap: nat, cs: seq<Cell>)
    requires cs != []
    ensures Agreed(cap, cs) <==> (|cs| == 1 || Decides(cap, cs[0])) && Agreed(cap, cs[1..])
  {
    hide Decides;
    if (|cs| == 1 || Decides(cap, cs[0])) && Agreed(cap, cs[1..]) {
      forall i | 0 <= i < |cs| - 1
        ensures Decides(cap, cs[i])
      {
        if i > 0 {
          assert Decides(cap, cs[1..][i - 1]);
        }
      }
    }
    if Agreed(cap, cs) {
      forall i | 0 <= i < |cs[1..]| - 1
        ensures Decides(cap, cs[1..][i])
      {
        assert Decides(cap, cs[i + 1]);
      }
    }
  }

  /** If the last cell is decided as well, both ends go on with one width. */
  lemma {:induction false} SameWidth(cap: nat, width: nat, cs: seq<Cell>)
    requires AllFit(0x1_0000, width, cs) && forall c <- cs :: Decides(cap, c)
    ensures AllFit(cap, width, cs) && FinalWidth(cap, width, cs) == FinalWidth(0x1_0000, width, cs)
    decreases |cs|
  {
    hide WidthFor;
    if cs != [] {
      assert Decides(cap, cs[0]);
      SameWidth(cap, WidthAfter(0x1_0000, width, cs[0]), cs[1..]);
    }
  }

  /** n times version 3. */
  function Threes(n: nat): (t: seq<uint8>)
    ensures |t| == 2 * n
  {
    if n == 0 then [] else [0, 3] + Threes(n - 1)
  }

  lemma {:induction false} BestOfThrees(n: nat, tail: seq<uint8>)
    ensures Best(Threes(n) + tail) == if n > 0 && Best(tail) < 3 then 3 else Best(tail)
  {
    if n == 0 {
      assert Threes(n) + tail == tail;
    } else {
      var t := Threes(n) + tail;
      assert t[0] == 0 && t[1] == 3 && t[2..] == Threes(n - 1) + tail;
      BestOfThrees(n - 1, tail);
    }
  }

  /** The condition can fail: 4096 times version 3 fill the client's buffer and hide the version 4 behind
      them. The cell is well formed, and whatever follows it is framed in the other width. */
  lemma HiddenVersion(after: seq<Cell>)
    requires after != [] && Short(after)
    ensures var v := Cell(0, VERSIONS, Threes(BUFFER / 2) + [0, 4]);
            && Fits(NARROW, v)
            && WidthFor(Cut(v, BUFFER).payload) == NARROW && WidthFor(v.payload) == WIDE
            && Frames(BUFFER, NARROW, [v] + after) != Frames(0x1_0000, NARROW, [v] + after)
  {
    hide Threes, Best;
    var n := BUFFER / 2;
    var v := Cell(0, VERSIONS, Threes(n) + [0, 4]);
    assert v.payload[..BUFFER] == Threes(n) + [];
    BestOfThrees(n, []);
    BestOfThrees(n, [0, 4]);
    BestOfFew();
    Pow2Known();
    SameFrames(BUFFER, NARROW, [v] + after);
    assert ([v] + after)[0] == v && !Decides(BUFFER, v);
  }

  lemma BestOfFew()
    ensures Best([]) == 0 && Best([0, 4]) == 4
  {
    assert [0, 4][2..] == [];
  }

  // --------------------------------------------------------------------- versions

  /** The list names this version. */
  ghost predicate Lists(versions: seq<uint8>, v: nat) {
    exists i: nat :: 2 * i + 1 < |versions| && Number(versions[2 * i..2 * i + 2]) == v
  }

  /** What the client takes is the highest of 3, 4 and 5 that is listed, and 0 only without any of them. */
  lemma {:induction false} BestIsHighest(versions: seq<uint8>)
    ensures Best(versions) != 0 ==> 3 <= Best(versions) <= 5 && Lists(versions, Best(versions))
    ensures forall v :: 3 <= v <= 5 && Lists(versions, v) ==> v <= Best(versions)
    decreases |versions|
  {
    hide Number;
    if |versions| >= 2 {
      var rest := versions[2..];
      BestIsHighest(rest);
      NumberOfTwo(versions[..2]);
      if Best(versions) != 0 && Best(versions) == Best(rest) {
        ListsMore(versions, Best(rest));
      } else if Best(versions) != 0 {
        assert Number(versions[2 * 0..2 * 0 + 2]) == Best(versions);
      }
      forall v | 3 <= v <= 5 && Lists(versions, v)
        ensures v <= Best(versions)
      {
        ListsLess(versions, v);
      }
    }
  }

  lemma ListsMore(versions: seq<uint8>, v: nat)
    requires |versions| >= 2 && Lists(versions[2..], v)
    ensures Lists(versions, v)
  {
    hide Number;
    var i: nat :| 2 * i + 1 < |versions[2..]| && Number(versions[2..][2 * i..2 * i + 2]) == v;
    assert versions[2..][2 * i..2 * i + 2] == versions[2 * (i + 1)..2 * (i + 1) + 2];
  }

  lemma ListsLess(versions: seq<uint8>, v: nat)
    requires |versions| >= 2 && Lists(versions, v)
    ensures Number(versions[..2]) == v || Lists(versions[2..], v)
  {
    hide Number;
    var i: nat :| 2 * i + 1 < |versions| && Number(versions[2 * i..2 * i + 2]) == v;
    if i > 0 {
      var j: nat := i - 1;
      assert versions[2..][2 * j..2 * j + 2] == versions[2 * i..2 * i + 2];
    } else {
      assert versions[0..2] == versions[..2];
    }
  }

  /** The wide ids of link version 4 exactly when both lists, the peer's and ours, name a version from 4 on
      (section 4.1 of tor-spec). */
  lemma WidthIsNegotiated(versions: seq<uint8>)
    ensures WidthFor(versions) == WIDE <==> exists v :: v >= 4 && Lists(versions, v) && Lists(OUR_VERSIONS, v)
  {
    hide Best, Lists;
    BestIsHighest(versions);
    OursListed();
    if WidthFor(versions) == WIDE {
      assert Lists(versions, Best(versions)) && Lists(OUR_VERSIONS, Best(versions));
    }
  }

  lemma OursListed()
    ensures forall v :: Lists(OUR_VERSIONS, v) <==> 3 <= v <= 5
  {
    hide Number;
    var vs: seq<uint8> := OUR_VERSIONS;
    forall i: nat | 2 * i + 1 < |vs|
      ensures Number(vs[2 * i..2 * i + 2]) == 3 + i
    {
      NumberOfTwo(vs[2 * i..2 * i + 2]);
    }
    forall v: nat | 3 <= v <= 5
      ensures Lists(vs, v)
    {
      assert Number(vs[2 * (v - 3)..2 * (v - 3) + 2]) == 3 + (v - 3);
    }
  }

  // ------------------------------------------------------------------- prefix code

  lemma CircOf(width: nat, c: Cell, rest: seq<uint8>)
    requires Fits(width, c)
    ensures var b := Frame(width, c) + rest;
            && |b| > width && Number(b[..width]) == c.circ && b[width] == c.cmd
            && b[width + 1..] == (if IsVar(c.cmd) then BigEndian(|c.payload|, 2) else []) + c.payload + rest
  {
    hide Number, BigEndian, Pow2;
    var b := Frame(width, c) + rest;
    assert b[..width] == BigEndian(c.circ, width);
    NumberOfBigEndian(c.circ, width);
  }

  lemma LengthOf(c: Cell, rest: seq<uint8>)
    requires IsVar(c.cmd) && |c.payload| < 0x1_0000
    ensures var b := BigEndian(|c.payload|, 2) + c.payload + rest;
            Number(b[..2]) == |c.payload| && b[2..] == c.payload + rest
  {
    hide Number, BigEndian;
    var b := BigEndian(|c.payload|, 2) + c.payload + rest;
    Pow2Known();
    assert b[..2] == BigEndian(|c.payload|, 2);
    NumberOfBigEndian(|c.payload|, 2);
  }

  /** Where a cell has its fields (section 3 of tor-spec), high octet first: VERSIONS and commands from 128
      on carry their length, all others 509 octets. */
  lemma FrameLayout(width: nat, c: Cell)
    requires Fits(width, c)
    ensures var f := Frame(width, c);
            && |f| > width && Number(f[..width]) == c.circ && f[width] == c.cmd
            && (if c.cmd == VERSIONS || c.cmd >= 128 then
                 |f| == width + 3 + |c.payload| && Number(f[width + 1..width + 3]) == |c.payload| && f[width + 3..] == c.payload
               else |f| == width + 1 + FIXED && f[width + 1..] == c.payload)
  {
    hide Number, BigEndian, Pow2;
    NumberOfBigEndian(c.circ, width);
    var f := Frame(width, c);
    assert f[..width] == BigEndian(c.circ, width);
    if IsVar(c.cmd) {
      Pow2Known();
      NumberOfBigEndian(|c.payload|, 2);
      assert f[width + 1..width + 3] == BigEndian(|c.payload|, 2);
    }
  }

  /** A stream starts with at most one cell. */
  lemma FrameUnique(width: nat, c: Cell, r: seq<uint8>, d: Cell, s: seq<uint8>)
    requires Fits(width, c) && Fits(width, d) && Frame(width, c) + r == Frame(width, d) + s
    ensures c == d && r == s
  {
    hide Number, BigEndian, Pow2, Frame;
    CircOf(width, c, r);
    CircOf(width, d, s);
    if IsVar(c.cmd) {
      LengthOf(c, r);
      LengthOf(d, s);
    } else {
      assert [] + c.payload + r == c.payload + r && [] + d.payload + s == d.payload + s;
    }
    SamePrefix(c.payload, r, d.payload, s);
  }

  lemma SamePrefix(a: seq<uint8>, r: seq<uint8>, b: seq<uint8>, s: seq<uint8>)
    requires a + r == b + s && |a| == |b|
    ensures a == b && r == s
  {
    assert a == (a + r)[..|a|] && r == (a + r)[|a|..];
    assert b == (b + s)[..|b|] && s == (b + s)[|b|..];
  }

  // -------------------------------------------------------------------- the client

  /** incoming is what the TLS connection will still deliver, outgoing what was written to it. */
  class TorLink {
    var incoming: seq<uint8>
    var outgoing: seq<uint8>
    var width: nat
    var gotVersions: bool
    var gotNetinfo: bool
    ghost var gaveUp: bool   // some read ended early
    ghost var refused: bool  // some write failed

    constructor (incoming: seq<uint8>)
      ensures this.incoming == incoming && outgoing == [] && width == NARROW && !gotVersions && !gotNetinfo
      ensures !gaveUp && !refused
    {
      this.incoming, outgoing, width, gotVersions, gotNetinfo := incoming, [], NARROW, false, false;
      gaveUp, refused := false, false;
    }

    /** A read of the TLS client: short when the stream ends or, at any point, the deadline passes. */
    method Read(n: nat) returns (b: seq<uint8>)
      modifies this`incoming, this`gaveUp
      ensures |b| <= n && old(incoming) == b + incoming
      ensures gaveUp == (old(gaveUp) || |b| < n)
    {
      var m: nat :| m <= n && m <= |incoming|;
      b, incoming := incoming[..m], incoming[m..];
      gaveUp := gaveUp || m < n;
    }

    /** Reads and drops n bytes, 256 at a time. */
    method Drain(n: nat) returns (ok: bool, ghost dropped: seq<uint8>)
      modifies this`incoming, this`gaveUp
      ensures old(incoming) == dropped + incoming && |dropped| <= n
      ensures ok <==> |dropped| == n
      ensures gaveUp == (old(gaveUp) || !ok)
    {
      dropped := [];
      var rem := n;
      while rem > 0
        invariant 0 <= rem <= n && |dropped| == n - rem && old(incoming) == dropped + incoming
        invariant gaveUp == old(gaveUp)
      {
        var chunk := if rem < 256 then rem else 256;
        var scratch := Read(chunk);
        dropped := dropped + scratch;
        if |scratch| != chunk { return false, dropped; }
        rem := rem - chunk;
      }
      ok := true;
    }

    /** `readCell`: success takes exactly one cell off the stream and returns it cut to the buffer. It
        fails only by giving up, or on a fixed cell that the buffer does not hold; the stream then
        stands inside the cell it should have read, at its start if nothing of it was taken. */
    method ReadCell(cap: nat) returns (ok: bool, cell: Cell, ghost whole: Cell, ghost part: seq<uint8>)
      requires width in {NARROW, WIDE}
      modifies this`incoming, this`gaveUp
      ensures (old(gaveUp) ==> gaveUp) && (!ok ==> gaveUp || cap < FIXED) && (ok ==> gaveUp == old(gaveUp))
      ensures ok ==> Fits(width, whole) && old(incoming) == Frame(width, whole) + incoming && cell == Cut(whole, cap)
      ensures ok ==> part == []
      ensures !ok ==> old(incoming) == part + incoming
      ensures (!ok ==> forall c, rest :: Fits(width, c) && old(incoming) == Frame(width, c) + rest ==>
          |part| < |Frame(width, c)|)
    {
      hide Number, BigEndian, Pow2, Frame, Fits;
      ghost var b := incoming;
      ok, cell, whole, part := false, Cell(0, 0, []), Cell(0, 0, []), [];
      forall c, rest | Fits(width, c) && b == Frame(width, c) + rest
        ensures |Frame(width, c)| > width && b[width] == c.cmd && |Frame(width, c)| == width + 1 + |Body(c.cmd, c.payload)|
        ensures b[width + 1..] == Body(c.cmd, c.payload) + rest && PayloadOk(c.cmd, c.payload)
      {
        CircOf(width, c, rest);
        PayloadFits(width, c);
      }
      var id := Read(width);
      part := id;
      if |id| != width { return; }
      var cmdByte := Read(1);
      part := id + cmdByte;
      if |cmdByte| != 1 { return; }
      var circ, cmd := Number(id), cmdByte[0];
      assert b == part + incoming && b[width] == cmd && b[width + 1..] == incoming;
      var got, payload, all, some := ReadPayload(cmd, cap);
      if !got {
        part := part + some;
        return;
      }
      part := [];
      ok, cell, whole := true, Cell(circ, cmd, payload), Cell(circ, cmd, all);
      Framed(width, b, whole, incoming);
    }

    method ReadPayload(cmd: uint8, cap: nat)
      returns (ok: bool, payload: seq<uint8>, ghost all: seq<uint8>, ghost part: seq<uint8>)
      modifies this`incoming, this`gaveUp
      ensures (old(gaveUp) ==> gaveUp) && (!ok ==> gaveUp || cap < FIXED) && (ok ==> gaveUp == old(gaveUp))
      ensures ok ==> PayloadOk(cmd, all) && old(incoming) == Body(cmd, all) + incoming
      ensures ok ==> payload == if IsVar(cmd) && |all| > cap then all[..cap] else all
      ensures !ok ==> old(incoming) == part + incoming
      ensures (!ok ==> forall p, rest :: PayloadOk(cmd, p) && old(incoming) == Body(cmd, p) + rest ==>
          |part| < |Body(cmd, p)|)
    {
      hide Number, BigEndian;
      ok, payload, all, part := false, [], [], [];
      if IsVar(cmd) {
        ghost var b := incoming;
        ok, payload, all, part := ReadSized(cap);
        if !ok {
          forall p, rest | PayloadOk(cmd, p) && b == Body(cmd, p) + rest
            ensures |part| < |Body(cmd, p)|
          {
            LengthOf(Cell(0, cmd, p), rest);
            if |part| >= 2 {
              assert b[..2] == part[..2];
            }
          }
        }
      } else if cap >= FIXED {
        payload := Read(FIXED);
        part := payload;
        if |payload| == FIXED {
          ok, all := true, payload;
        }
      }
    }

    /** A two-byte length and that many bytes, of which the first cap are kept. */
    method ReadSized(cap: nat)
      returns (ok: bool, payload: seq<uint8>, ghost all: seq<uint8>, ghost part: seq<uint8>)
      modifies this`incoming, this`gaveUp
      ensures gaveUp == (old(gaveUp) || !ok)
      ensures ok ==> |all| < 0x1_0000 && old(incoming) == BigEndian(|all|, 2) + all + incoming
      ensures ok ==> payload == if |all| > cap then all[..cap] else all
      ensures !ok ==> old(incoming) == part + incoming
      ensures !ok ==> |part| < 2 || |part| < 2 + Number(part[..2])
    {
      hide Number, BigEndian;
      ok, payload, all, part := false, [], [], [];
      ghost var b := incoming;
      var l := Read(2);
      part := l;
      if |l| == 2 {
        var len := Number(l);
        ghost var rest := incoming;
        ok, payload, all := Keep(len, cap);
        part := l + all;
        if ok {
          assert b == l + rest && rest == all + incoming;
          LengthRead(b, l, all, incoming);
        } else {
          assert part[..2] == l && b == l + (all + incoming);
        }
      }
    }

    /** Takes n bytes off the stream and keeps the first cap of them. */
    method Keep(n: nat, cap: nat) returns (ok: bool, payload: seq<uint8>, ghost taken: seq<uint8>)
      modifies this`incoming, this`gaveUp
      ensures old(incoming) == taken + incoming && |taken| <= n
      ensures ok <==> |taken| == n
      ensures gaveUp == (old(gaveUp) || !ok)
      ensures ok ==> payload == if n > cap then taken[..cap] else taken
    {
      ok := false;
      var take := if n < cap then n else cap;
      payload := Read(take);
      taken := payload;
      if |payload| == take {
        ghost var dropped;
        ok, dropped := Drain(n - take);
        taken := payload + dropped;
      }
    }

    /** A write of the TLS client: all of it, or a part and a failure. */
    method WriteBytes(data: seq<uint8>) returns (ok: bool)
      modifies this`outgoing, this`refused
      ensures old(outgoing) <= outgoing <= old(outgoing) + data
      ensures ok ==> outgoing == old(outgoing) + data
      ensures refused == (old(refused) || !ok)
    {
      ok :| true;
      var m: nat :| m <= |data|;
      if ok { m := |data|; }
      outgoing := outgoing + data[..m];
      refused := refused || !ok;
    }

    /** `sendVarCell`: one cell in the peer's format, in two writes; a circuit id is cut to the width. */
    method SendVarCell(circ: uint32, cmd: uint8, data: seq<uint8>) returns (ok: bool)
      requires width in {NARROW, WIDE} && |data| < 0x1_0000
      modifies this`outgoing, this`refused
      ensures refused == (old(refused) || !ok) && old(outgoing) <= outgoing
      ensures IsVar(cmd) ==>
              var c := Cell(circ % Pow2(8 * width), cmd, data);
              && Fits(width, c) && outgoing <= old(outgoing) + Frame(width, c)
              && (ok ==> outgoing == old(outgoing) + Frame(width, c))
    {
      hide Number, BigEndian, Pow2;
      LowBytes(circ, width);
      var hdr := BigEndian(circ, width) + [cmd] + BigEndian(|data|, 2);
      ghost var frame := Frame(width, Cell(circ % Pow2(8 * width), cmd, data));
      assert IsVar(cmd) ==> frame == hdr + data;
      ok := WriteBytes(hdr);
      if ok && data != [] {
        ok := WriteBytes(data);
        assert old(outgoing) + hdr + data == old(outgoing) + (hdr + data);
      }
      assert old(outgoing) + hdr <= old(outgoing) + (hdr + data);
    }

    /** `sendFixedCell`. */
    method SendFixedCell(circ: uint32, cmd: uint8, payload: seq<uint8>) returns (ok: bool)
      requires width in {NARROW, WIDE} && |payload| == FIXED
      modifies this`outgoing, this`refused
      ensures refused == (old(refused) || !ok) && old(outgoing) <= outgoing
      ensures !IsVar(cmd) ==>
              var c := Cell(circ % Pow2(8 * width), cmd, payload);
              && Fits(width, c) && outgoing <= old(outgoing) + Frame(width, c)
              && (ok ==> outgoing == old(outgoing) + Frame(width, c))
    {
      hide Number, BigEndian, Pow2;
      LowBytes(circ, width);
      var bytes := BigEndian(circ, width) + [cmd] + payload;
      assert !IsVar(cmd) ==> bytes == Frame(width, Cell(circ % Pow2(8 * width), cmd, payload));
      ok := WriteBytes(bytes);
    }

    /** The handshake has read the cells seen off the stream all, and knows what they settle. */
    ghost predicate Tracks(all: seq<uint8>, seen: seq<Cell>)
      reads this
    {
      && AllFit(BUFFER, NARROW, seen) && all == Frames(BUFFER, NARROW, seen) + incoming
      && width == FinalWidth(BUFFER, NARROW, seen) && width in {NARROW, WIDE}
      && (gotVersions <==> Has(VERSIONS, seen))
      && (gotNetinfo <==> Has(NETINFO, seen))
      && (gotNetinfo ==> EndsFlight(seen))
    }

    /** One round of the handshake's loop. */
    method HandshakeCell(ghost all: seq<uint8>, ghost seen: seq<Cell>) returns (got: bool, ghost whole: Cell)
      requires Tracks(all, seen) && !gotNetinfo
      modifies this`incoming, this`gaveUp, this`width, this`gotVersions, this`gotNetinfo
      ensures (old(gaveUp) ==> gaveUp) && (!got ==> gaveUp)
      ensures got ==> Tracks(all, seen + [whole])
      ensures got ==> all == Frames(BUFFER, NARROW, seen) + (Frame(old(width), whole) + incoming) && Fits(old(width), whole)
    {
      hide Frame, Fits, WidthFor, Frames, AllFit, FinalWidth, Has;
      var cell;
      ghost var part;
      got, cell, whole, part := ReadCell(BUFFER);
      if !got { return; }
      AppendCell(seen, whole);
      if cell.cmd == VERSIONS {
        width := WidthFor(cell.payload);
        gotVersions := true;
      } else if cell.cmd == NETINFO {
        gotNetinfo := true;
      }
    }

    /** `linkHandshake`: our VERSIONS, then up to 24 cells of the server until its NETINFO, then ours.
        cs and rest are any account of the stream as a flight of cells and what follows it; a flight
        is refused only when a read gives up or a write fails. */
    method LinkHandshake(netinfo: seq<uint8>, ghost cs: seq<Cell>, ghost rest: seq<uint8>)
      returns (ok: bool, ghost seen: seq<Cell>)
      requires |netinfo| == FIXED && !gotVersions && !gotNetinfo
      modifies this
      ensures ok ==> IsFlight(seen) && old(incoming) == Frames(BUFFER, NARROW, seen) + incoming
      ensures (IsFlight(cs) && old(incoming) == Frames(BUFFER, NARROW, cs) + rest && !gaveUp && !refused ==>
          ok && seen == cs && incoming == rest)
      ensures ok ==> width == FinalWidth(BUFFER, NARROW, seen)
      ensures ok ==> outgoing == old(outgoing) + OurVersions() + Frame(width, Cell(0, NETINFO, netinfo))
    {
      hide Frame, Fits, WidthFor, Frames, AllFit, FinalWidth, Has, EndsFlight;
      ghost var all := incoming;
      seen := [];
      width := NARROW;
      CircZero(NARROW);
      ok := SendVarCell(0, VERSIONS, OUR_VERSIONS);
      if !ok { return; }
      NoCells(all);
      ok := false;
      var guard := 0;
      while guard < 24 && !gotNetinfo
        invariant |seen| == guard <= 24 && Tracks(all, seen) && outgoing == old(outgoing) + OurVersions()
        invariant IsFlight(cs) && all == Frames(BUFFER, NARROW, cs) + rest ==> seen <= cs
      {
        var got, whole := HandshakeCell(all, seen);
        if !got { return; }
        if IsFlight(cs) && all == Frames(BUFFER, NARROW, cs) + rest {
          SameCells(cs, rest, seen, whole, incoming);
        }
        seen := seen + [whole];
        guard := guard + 1;
      }
      if IsFlight(cs) && all == Frames(BUFFER, NARROW, cs) + rest {
        WholeFlight(cs, rest, seen, incoming);
      }
      if gotVersions && gotNetinfo {
        CircZero(width);
        ok := SendFixedCell(0, NETINFO, netinfo);
      }
    }
  }

  /** What follows the command byte. */
  function Body(cmd: uint8, p: seq<uint8>): seq<uint8> {
    (if IsVar(cmd) then BigEndian(|p|, 2) else []) + p
  }

  ghost predicate PayloadOk(cmd: uint8, p: seq<uint8>) {
    if IsVar(cmd) then |p| < 0x1_0000 else |p| == FIXED
  }

  lemma PayloadFits(width: nat, c: Cell)
    ensures Fits(width, c) ==> PayloadOk(c.cmd, c.payload)
  {
  }

  lemma LengthRead(b: seq<uint8>, l: seq<uint8>, all: seq<uint8>, rest: seq<uint8>)
    requires |l| == 2 && b == l + all + rest && |all| == Number(l)
    ensures |all| < 0x1_0000 && b == BigEndian(|all|, 2) + all + rest
  {
    hide Number, BigEndian;
    Pow2Known();
    NumberRange(l);
    BigEndianOfNumber(l);
  }

  lemma Framed(width: nat, b: seq<uint8>, c: Cell, rest: seq<uint8>)
    requires |b| > width && c.circ == Number(b[..width]) && c.cmd == b[width]
    requires PayloadOk(c.cmd, c.payload) && b[width + 1..] == Body(c.cmd, c.payload) + rest
    ensures Fits(width, c) && b == Frame(width, c) + rest
  {
    hide Number, BigEndian, Pow2;
    NumberRange(b[..width]);
    BigEndianOfNumber(b[..width]);
    assert b == b[..width] + [b[width]] + b[width + 1..];
  }

  // ---------------------------------------------------------------------- flights

  predicate Has(cmd: uint8, cs: seq<Cell>) {
    exists c <- cs :: c.cmd == cmd
  }

  /** NETINFO at the end and only there. */
  ghost predicate EndsFlight(cs: seq<Cell>) {
    cs != [] && cs[|cs| - 1].cmd == NETINFO && !Has(NETINFO, cs[..|cs| - 1])
  }

  /** What the server sends: VERSIONS somewhere and NETINFO last. */
  ghost predicate IsFlight(cs: seq<Cell>) {
    AllFit(BUFFER, NARROW, cs) && |cs| <= 24 && Has(VERSIONS, cs) && EndsFlight(cs)
  }

  lemma NoCells(all: seq<uint8>)
    ensures AllFit(BUFFER, NARROW, []) && Frames(BUFFER, NARROW, []) + all == all
    ensures FinalWidth(BUFFER, NARROW, []) == NARROW && !Has(VERSIONS, []) && !Has(NETINFO, [])
  {
  }

  lemma {:induction false} FramesAppend(cap: nat, width: nat, a: seq<Cell>, b: seq<Cell>)
    ensures Frames(cap, width, a + b) == Frames(cap, width, a) + Frames(cap, FinalWidth(cap, width, a), b)
    ensures FinalWidth(cap, width, a + b) == FinalWidth(cap, FinalWidth(cap, width, a), b)
    ensures AllFit(cap, width, a + b) <==> AllFit(cap, width, a) && AllFit(cap, FinalWidth(cap, width, a), b)
    decreases |a|
  {
    hide Frame, Fits, WidthAfter;
    if a == [] {
      assert a + b == b;
    } else {
      assert (a + b)[1..] == a[1..] + b;
      FramesAppend(cap, WidthAfter(cap, width, a[0]), a[1..], b);
    }
  }

  lemma AppendCell(a: seq<Cell>, c: Cell)
    ensures Frames(BUFFER, NARROW, a + [c]) == Frames(BUFFER, NARROW, a) + Frame(FinalWidth(BUFFER, NARROW, a), c)
    ensures FinalWidth(BUFFER, NARROW, a + [c]) == WidthAfter(BUFFER, FinalWidth(BUFFER, NARROW, a), c)
    ensures AllFit(BUFFER, NARROW, a) && Fits(FinalWidth(BUFFER, NARROW, a), c) ==> AllFit(BUFFER, NARROW, a + [c])
    ensures forall cmd :: Has(cmd, a + [c]) <==> Has(cmd, a) || c.cmd == cmd
    ensures (a + [c])[..|a|] == a
  {
    hide Frame, Fits, WidthAfter;
    FramesAppend(BUFFER, NARROW, a, [c]);
    var w := FinalWidth(BUFFER, NARROW, a);
    assert [c][1..] == [];
    assert Frames(BUFFER, w, [c]) == Frame(w, c) + Frames(BUFFER, WidthAfter(BUFFER, w, c), []);
  }

  lemma HasMore(cmd: uint8, a: seq<Cell>, b: seq<Cell>)
    requires a <= b
    ensures Has(cmd, a) ==> Has(cmd, b)
  {
    assert forall c <- a :: c in b;
  }

  lemma FlightHasEnd(cs: seq<Cell>)
    requires EndsFlight(cs)
    ensures Has(NETINFO, cs)
  {
    assert cs[|cs| - 1] in cs;
  }

  /** The cells read so far being a proper prefix of the flight, the next one is on the stream. */
  lemma NextCell(cs: seq<Cell>, rest: seq<uint8>, seen: seq<Cell>, left: seq<uint8>)
    requires IsFlight(cs) && seen <= cs && !Has(NETINFO, seen)
    requires Frames(BUFFER, NARROW, cs) + rest == Frames(BUFFER, NARROW, seen) + left
    ensures |seen| < |cs|
    ensures var w, c := FinalWidth(BUFFER, NARROW, seen), cs[|seen|];
            Fits(w, c) && left == Frame(w, c) + (Frames(BUFFER, WidthAfter(BUFFER, w, c), cs[|seen| + 1..]) + rest)
  {
    hide Frame, Fits, WidthAfter, Frames, AllFit, FinalWidth, Has, EndsFlight;
    FlightHasEnd(cs);
    assert |seen| == |cs| ==> seen == cs;
    Remaining(cs, rest, seen, left);
    UnfoldFrames(FinalWidth(BUFFER, NARROW, seen), cs[|seen|..], rest);
    assert cs[|seen|..][1..] == cs[|seen| + 1..];
  }

  lemma Remaining(cs: seq<Cell>, rest: seq<uint8>, seen: seq<Cell>, left: seq<uint8>)
    requires AllFit(BUFFER, NARROW, cs) && seen <= cs
    requires Frames(BUFFER, NARROW, cs) + rest == Frames(BUFFER, NARROW, seen) + left
    ensures AllFit(BUFFER, FinalWidth(BUFFER, NARROW, seen), cs[|seen|..])
    ensures left == Frames(BUFFER, FinalWidth(BUFFER, NARROW, seen), cs[|seen|..]) + rest
  {
    hide Frame, Fits, WidthAfter, Frames, AllFit, FinalWidth;
    var tail := cs[|seen|..];
    assert cs == seen + tail;
    FramesAppend(BUFFER, NARROW, seen, tail);
    var f, g := Frames(BUFFER, NARROW, seen), Frames(BUFFER, FinalWidth(BUFFER, NARROW, seen), tail);
    assert (f + g) + rest == f + (g + rest);
    SamePrefix(f, left, f, g + rest);
  }

  /** When the loop is done with a flight it has read all of it. */
  lemma WholeFlight(cs: seq<Cell>, rest: seq<uint8>, seen: seq<Cell>, left: seq<uint8>)
    requires IsFlight(cs) && seen <= cs && (|seen| == 24 || Has(NETINFO, seen))
    requires Frames(BUFFER, NARROW, cs) + rest == Frames(BUFFER, NARROW, seen) + left
    ensures seen == cs && left == rest && Has(NETINFO, seen)
  {
    hide Frame, Fits, WidthAfter, Frames, AllFit, FinalWidth, Has;
    if |seen| < |cs| {
      HasMore(NETINFO, seen, cs[..|cs| - 1]);
    }
    FlightHasEnd(cs);
    Remaining(cs, rest, seen, left);
    Ended(FinalWidth(BUFFER, NARROW, seen), rest);
  }

  lemma Ended(w: nat, rest: seq<uint8>)
    ensures Frames(BUFFER, w, []) + rest == rest
  {
  }

  lemma UnfoldFrames(w: nat, cs: seq<Cell>, rest: seq<uint8>)
    requires cs != [] && AllFit(BUFFER, w, cs)
    ensures Fits(w, cs[0])
    ensures Frames(BUFFER, w, cs) + rest == Frame(w, cs[0]) + (Frames(BUFFER, WidthAfter(BUFFER, w, cs[0]), cs[1..]) + rest)
  {
    hide Frame, Fits, WidthAfter;
  }

  lemma SameCells(cs: seq<Cell>, rest: seq<uint8>, seen: seq<Cell>, c: Cell, after: seq<uint8>)
    requires IsFlight(cs) && seen <= cs && !Has(NETINFO, seen)
    requires var w := FinalWidth(BUFFER, NARROW, seen);
             Fits(w, c) && Frames(BUFFER, NARROW, cs) + rest == Frames(BUFFER, NARROW, seen) + (Frame(w, c) + after)
    ensures seen + [c] <= cs
  {
    hide Frame, Fits, WidthAfter, IsFlight;
    var w := FinalWidth(BUFFER, NARROW, seen);
    NextCell(cs, rest, seen, Frame(w, c) + after);
    FrameUnique(w, c, after, cs[|seen|], Frames(BUFFER, WidthAfter(BUFFER, w, cs[|seen|]), cs[|seen| + 1..]) + rest);
  }

  function OurVersions(): seq<uint8> {
    Frame(NARROW, Cell(0, VERSIONS, OUR_VERSIONS))
  }

  lemma CircZero(width: nat)
    ensures 0 % Pow2(8 * width) == 0
  {
    RemainderIs(0, Pow2(8 * width), 0, 0);
  }

  lemma LowBytes(circ: uint32, width: nat)
    requires width in {NARROW, WIDE}
    ensures BigEndian(circ, width) == BigEndian(circ % Pow2(8 * width), width) && circ % Pow2(8 * width) < Pow2(8 * width)
  {
    BigEndianMod(circ, width);
  }
}
