/** The reader above a TCP session: what `tcpStreamRead` hands out is the peer's stream, piece by piece. */
module TcpReader {
  import opened Bitwise
  import opened TcpStream
  import opened TcpRuns

  /** What of the peer's stream the reader has not been given yet. */
  ghost function Left(p: Peer, w: World): seq<uint8>
    requires |w.delivered| <= |p.data|
  {
    p.data[|w.delivered|..]
  }

  /** An IP packet and the length of its header. */
  datatype RawPacket = Packet(ip: seq<uint8>, ihl: nat)
  type Packet = p: RawPacket | |p.ip| < 0x1_0000 && 20 <= p.ihl witness Packet([], 20)

  /** What arrives with the packets polled during a wait; the handler leaves those that are too short alone. */
  function Arrivals(packets: seq<Packet>): seq<Event> {
    if packets == [] then []
    else
      var q := packets[0];
      (if |q.ip| < q.ihl + 20 then [] else [Arrive(Fields(q.ip, q.ihl))]) + Arrivals(packets[1..])
  }

  /** `tcpStreamRead` with its wait (none for no bytes), on the session in memory: whatever packets an honest network delivers
      meanwhile, the bytes handed out are the next ones of the peer's stream. This is the stream that the
      records of a TLS connection are read from. */
  method ReadStream(net: Network, packets: seq<Packet>, out: array<uint8>, off: nat, n: uint16,
                    ghost p: Peer, ghost w: World)
    returns (k: uint16, ghost t: World)
    requires net.Valid() && net.Abs() == w.s && Inv(p, w) && HonestRun(p, w, Arrivals(packets))
    requires off + n <= out.Length && out != net.tcpRxBuffer && (n == 0 ==> packets == [])
    modifies net, net.tcpRxBuffer, out
    ensures net.Valid() && t.s == net.Abs() && Inv(p, t) && t == Next(Run(w, Arrivals(packets)), Read(n))
    ensures |t.delivered| <= |p.data| && |w.delivered| <= |p.data|
    ensures k <= n && Left(p, w) == out[off..off + k] + Left(p, t)
    ensures out[..off] == old(out[..off])
  {
    hide Inv, HonestRun, Honest, Handle, Take, Compact, Fields;
    DeliveredIsPrefix(p, w);
    ghost var u := Wait(net, packets, p, w);
    k := net.StreamRead(out, off, n);
    t := Next(u, Read(n));
    NextKeeps(p, u, Read(n)) by { AlwaysHonest(p, u, Read(n)); }
    ReadOne(p, u, n);
  }

  /** The wait: packet after packet is handled, and nothing is handed out. */
  method Wait(net: Network, packets: seq<Packet>, ghost p: Peer, ghost w: World) returns (ghost u: World)
    requires net.Valid() && net.Abs() == w.s && Inv(p, w) && HonestRun(p, w, Arrivals(packets))
    modifies net, net.tcpRxBuffer
    ensures net.Valid() && net.Abs() == u.s && Inv(p, u)
    ensures u == Run(w, Arrivals(packets)) && u.delivered == w.delivered
  {
    hide Inv, Honest, Handle, Fields;
    u := w;
    for i := 0 to |packets|
      invariant net.Valid() && net.Abs() == u.s && Inv(p, u) && HonestRun(p, u, Arrivals(packets[i..]))
      invariant Run(w, Arrivals(packets)) == Run(u, Arrivals(packets[i..])) && u.delivered == w.delivered
    {
      var q := packets[i];
      NextArrival(packets, i);
      net.HandleTcp(q.ip, q.ihl);
      if |q.ip| >= q.ihl + 20 {
        ghost var g := Fields(q.ip, q.ihl);
        FieldsBody(q.ip, q.ihl);
        NextKeeps(p, u, Arrive(g));
        u := Next(u, Arrive(g));
      }
    }
    assert packets[|packets|..] == [];
  }

  lemma NextArrival(packets: seq<Packet>, i: nat)
    requires i < |packets|
    ensures var q, rest := packets[i], Arrivals(packets[i + 1..]);
            if |q.ip| < q.ihl + 20 then Arrivals(packets[i..]) == rest
            else
              && Arrivals(packets[i..]) == [Arrive(Fields(q.ip, q.ihl))] + rest
              && Arrivals(packets[i..])[1..] == rest
  {
    hide Fields;
    assert packets[i..][1..] == packets[i + 1..];
  }

  lemma FieldsBody(ip: seq<uint8>, ihl: nat)
    requires 20 <= ihl && ihl + 20 <= |ip|
    ensures Fields(ip, ihl).body == ip[ihl..]
  {
  }

  lemma AlwaysHonest(p: Peer, w: World, e: Event)
    requires w.s.Valid() && !e.Arrive?
    ensures Honest(p, w, e)
  {
  }

  lemma DeliveredIsPrefix(p: Peer, w: World)
    requires Inv(p, w)
    ensures w.delivered <= p.data
  {
    assert w.delivered == p.data[..w.Received()][..|w.delivered|];
  }

  lemma ReadOne(p: Peer, w: World, n: nat)
    requires Inv(p, w) && Inv(p, Next(w, Read(n)))
    ensures var t := Next(w, Read(n));
            && w.delivered <= p.data && t.delivered <= p.data
            && t.delivered == w.delivered + Take(w.s, n).1
            && Left(p, w) == Take(w.s, n).1 + Left(p, t)
  {
    hide Inv, Compact;
    var t := Next(w, Read(n));
    DeliveredIsPrefix(p, w);
    DeliveredIsPrefix(p, t);
    NoneTaken(w.s);
    assert w.delivered + [] == w.delivered;
    Rest(p.data, w.delivered, Take(w.s, n).1);
  }

  lemma NoneTaken(s: Session)
    requires s.Valid()
    ensures Take(s, 0).1 == []
  {
  }

  lemma Rest(all: seq<uint8>, head: seq<uint8>, more: seq<uint8>)
    requires head + more <= all
    ensures all[|head|..] == more + all[|head + more|..]
  {
    assert all == head + more + all[|head + more|..];
  }
}
