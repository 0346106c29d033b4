/** One hop's layer in one direction: the cells that went through it, as the encrypting end saw them,
    and what it means for the other end to be in step with them. */
module OnionLayers {
  import opened Bitwise
  import opened Bytes
  import opened RelayCells

  /** A cell on a link. The name of the hop at which its message starts or ends is not on the wire. */
  datatype Parcel = Parcel(cell: Payload, hop: nat)

  /** A cell under this layer: a message of this hop's own, or a cell of a hop further out. */
  datatype Item = Own(plain: Padded) | Passed(parcel: Parcel)

  /** The layer of one hop: its cipher, the digest's seed and everything sent through it. */
  datatype Layer = Layer(hop: nat, aes: Cipher, seed: seq<uint8>, items: seq<Item>) {
    /** Cells from further out are not this hop's own. */
    ghost predicate Sound() {
      forall i <- items :: i.Passed? ==> i.parcel.hop > hop
    }

    /** The state an end should be in after the first n items. */
    function At(n: nat): Half
      requires n <= |items|
    {
      Half(aes, SIZE * n, seed + Absorbed(items[..n]))
    }

    /** What item n is just inside this layer. */
    function Inner(hash: Hasher, n: nat): Payload
      requires n < |items|
    {
      match items[n]
      case Own(p) => Seal(hash, At(n), p)
      case Passed(p) => p.cell
    }

    /** What item n is just outside this layer. */
    function Wire(hash: Hasher, n: nat): Parcel
      requires n < |items|
    {
      Parcel(Cover(At(n), Inner(hash, n)), if items[n].Own? then hop else items[n].parcel.hop)
    }

    function Wires(hash: Hasher): (ws: seq<Parcel>)
      ensures |ws| == |items|
    {
      seq(|items|, n requires 0 <= n < |items| => Wire(hash, n))
    }

    function Add(i: Item): Layer {
      this.(items := items + [i])
    }
  }

  /** What the digest absorbs: the hop's own cells. */
  function Absorbed(items: seq<Item>): seq<uint8> {
    if items == [] then []
    else
      var i := items[|items| - 1];
      Absorbed(items[..|items| - 1]) + if i.Own? then Encode(i.plain) else []
  }

  function OwnOf(items: seq<Item>): seq<Message> {
    if items == [] then []
    else
      var i := items[|items| - 1];
      OwnOf(items[..|items| - 1]) + if i.Own? then [i.plain.message] else []
  }

  function PassedOf(items: seq<Item>): seq<Parcel> {
    if items == [] then []
    else
      var i := items[|items| - 1];
      PassedOf(items[..|items| - 1]) + if i.Passed? then [i.parcel] else []
  }

  lemma Snoc(items: seq<Item>, i: Item)
    ensures Absorbed(items + [i]) == Absorbed(items) + if i.Own? then Encode(i.plain) else []
    ensures OwnOf(items + [i]) == OwnOf(items) + if i.Own? then [i.plain.message] else []
    ensures PassedOf(items + [i]) == PassedOf(items) + if i.Passed? then [i.parcel] else []
  {
    assert (items + [i])[..|items|] == items;
  }

  /** A longer prefix selects more: the two selections are prefixes of one another. */
  lemma {:induction false} PrefixSelects(items: seq<Item>, n: nat)
    requires n <= |items|
    ensures OwnOf(items[..n]) <= OwnOf(items)
    ensures PassedOf(items[..n]) <= PassedOf(items)
    decreases |items|
  {
    if n < |items| {
      PrefixSelects(items[..|items| - 1], n);
      assert items[..|items| - 1][..n] == items[..n];
    } else {
      assert items[..n] == items;
    }
  }

  /** The next cell from further out is the first one not among those already selected. */
  lemma NextPassed(items: seq<Item>, n: nat)
    requires n < |items|
    ensures items[n].Passed? ==>
      |PassedOf(items[..n])| < |PassedOf(items)| && PassedOf(items)[|PassedOf(items[..n])|] == items[n].parcel
  {
    assert items[..n + 1] == items[..n] + [items[n]];
    Snoc(items[..n], items[n]);
    PrefixSelects(items, n + 1);
  }

  // -------------------------------------------------------------------- the two ends

  /** The encrypting end sends one more item: the state moves on and the wire grows by its cell. */
  lemma Extend(hash: Hasher, l: Layer, i: Item)
    ensures var n, m := |l.items|, l.Add(i);
            && m.At(n) == l.At(n)
            && m.At(n + 1) == Moved(if i.Own? then Absorb(l.At(n), Encode(i.plain)) else l.At(n))
            && m.Wires(hash) == l.Wires(hash) + [m.Wire(hash, n)]
            && m.Wire(hash, n).cell == Cover(l.At(n), if i.Own? then Seal(hash, l.At(n), i.plain) else i.parcel.cell)
            && (forall k :: 0 <= k <= n ==> m.At(k) == l.At(k))
  {
    hide Cover, Seal, Encode;
    var n, m := |l.items|, l.Add(i);
    assert forall k :: 0 <= k <= n ==> m.items[..k] == l.items[..k];
    assert l.items[..n] == l.items && m.items[..n + 1] == m.items;
    Snoc(l.items, i);
    forall k | 0 <= k < n
      ensures m.Wire(hash, k) == l.Wire(hash, k)
    {
    }
  }

  /** The decrypting end, in step after n items, peels the next cell. It knows its own without fail;
      one that is passed on comes out as it went in. */
  lemma Peeled(hash: Hasher, l: Layer, n: nat)
    requires n < |l.items|
    ensures var p, s, i := Cover(l.At(n), l.Wire(hash, n).cell), l.At(n), l.items[n];
            && (i.Own? ==>
                && Recognized(hash, s, p) && Decode(p) == i.plain.message
                && l.At(n + 1) == Moved(Absorb(s, PutDigest(p, Zeros(4)))))
            && (i.Passed? ==> p == i.parcel.cell && l.At(n + 1) == Moved(s))
  {
    hide Cover, Seal, Encode, Decode, Recognized;
    CoverTwice(l.At(n), l.Inner(hash, n));
    assert l.items[..n + 1] == l.items[..n] + [l.items[n]];
    Snoc(l.items[..n], l.items[n]);
    if l.items[n].Own? {
      SealIsRecognized(hash, l.At(n), l.items[n].plain);
    }
  }
}
