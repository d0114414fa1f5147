/** The receive ring with its pointers, and the packet stream that passes through it. */
module RxStream {
  import opened Bytes
  import opened RxRing

  /** The ring, the cells freed up to, the cell to write next, and the buffer. */
  datatype View = View(r: Ring, rd: nat, wr: nat, buf: seq<byte>)

  /** The history of a run: the ring, the cell it was empty at, the packets loaded since, their stored form, how many
      bytes of it were given back through the free pointer, every byte read from it with its place in it, and
      the number of packets acknowledged. */
  datatype Trace = Trace(ring: Ring, start: nat, packets: seq<Record>, stream: seq<byte>, gone: nat,
                         seen: seq<(nat, byte)>, acked: nat)

  predicate Even(r: Ring) {
    r.st % 2 == 0 && r.nd % 2 == 1
  }

  /** The pointers stand at the ends of the stream's written and unfreed parts. */
  predicate Bounded(v: View, t: Trace) {
    && v.r.Valid()
    && |v.buf| == 0x2000
    && v.r.Has(t.start)
    && t.gone <= |t.stream| < t.gone + v.r.Size()
    && v.wr == v.r.Advance(t.start, |t.stream|)
    && v.rd == v.r.Advance(t.start, t.gone)
  }

  /** And every byte of the unfreed part is in its cell. */
  predicate Placed(v: View, t: Trace) {
    Bounded(v, t) && forall k :: t.gone <= k < |t.stream| ==> v.buf[v.r.Advance(t.start, k)] == t.stream[k]
  }

  /** Every byte read is the stream's byte at its place. */
  ghost predicate SeenTrue(t: Trace) {
    forall i :: 0 <= i < |t.seen| ==> t.seen[i].0 < |t.stream| && t.stream[t.seen[i].0] == t.seen[i].1
  }

  /** The first m packets, each with the pointer to the next, are the beginning of the stream, and all of them
      are all of it. */
  predicate Begins(r: Ring, start: nat, packets: seq<Record>, stream: seq<byte>, m: nat)
    requires r.Valid() && r.Has(start) && m <= |packets|
  {
    var e := Encode(r, start, packets[..m]);
    |e| <= |stream| && stream[..|e|] == e && (m == |packets| ==> |e| == |stream|)
  }

  ghost predicate Streams(r: Ring, t: Trace) {
    && r.Valid()
    && r.Has(t.start)
    && (forall m :: 0 <= m <= |t.packets| ==> Begins(r, t.start, t.packets, t.stream, m))
    && forall p :: p in t.packets ==> |p| % 2 == 0 && |p| + 2 < r.Size()
  }

  ghost predicate Inv(v: View, t: Trace) {
    v.r == t.ring && Placed(v, t) && Streams(v.r, t) && SeenTrue(t) && Even(v.r) && t.start % 2 == 0
  }

  /** Cell p holds a byte of the stream that is not freed. */
  predicate Holds(v: View, t: Trace, p: nat)
    requires Placed(v, t)
  {
    v.r.Has(v.rd) && v.r.Has(p) && v.r.Gap(v.rd, p) < |t.stream| - t.gone
  }

  /** Its place in the stream. */
  function PlaceOf(v: View, t: Trace, p: nat): nat
    requires Placed(v, t) && v.r.Has(v.rd) && v.r.Has(p)
  {
    t.gone + v.r.Gap(v.rd, p)
  }

  // ----- parity -----

  lemma {:induction false} AdvanceParity(r: Ring, p: nat, k: nat)
    requires r.Valid() && r.Has(p) && r.st % 2 == 0 && r.nd % 2 == 1
    ensures r.Advance(p, k) % 2 == (p + k) % 2
  {
    if k > 0 {
      AdvanceParity(r, p, k - 1);
    }
  }

  lemma AdvanceEven(r: Ring, p: nat, k: nat)
    requires r.Valid() && r.Has(p) && r.st % 2 == 0 && r.nd % 2 == 1 && p % 2 == 0 && k % 2 == 0
    ensures r.Advance(p, k) % 2 == 0
  {
    AdvanceParity(r, p, k);
  }

  lemma {:induction false} StreamLengthEven(recs: seq<Record>)
    requires forall rec :: rec in recs ==> |rec| % 2 == 0
    ensures StreamLength(recs) % 2 == 0
  {
    if recs != [] {
      StreamLengthEven(recs[..|recs| - 1]);
    }
  }

  lemma WritePointerEven(v: View, t: Trace)
    requires Inv(v, t)
    ensures v.wr % 2 == 0
  {
    StreamIsEncoded(v.r, t);
    StreamLengthEven(t.packets);
    AdvanceEven(v.r, t.start, |t.stream|);
  }

  lemma StreamIsEncoded(r: Ring, t: Trace)
    requires Streams(r, t)
    ensures t.stream == Encode(r, t.start, t.packets)
  {
    assert Begins(r, t.start, t.packets, t.stream, |t.packets|) && t.packets[..|t.packets|] == t.packets;
  }

  lemma EncodedStreams(r: Ring, t: Trace)
    requires r.Valid() && r.Has(t.start) && t.stream == Encode(r, t.start, t.packets)
    requires forall p :: p in t.packets ==> |p| % 2 == 0 && |p| + 2 < r.Size()
    ensures Streams(r, t)
  {
    hide Encode;
    forall m | 0 <= m <= |t.packets|
      ensures Begins(r, t.start, t.packets, t.stream, m)
    {
      EncodeConcat(r, t.start, t.packets[..m], t.packets[m..]);
      assert t.packets[..m] + t.packets[m..] == t.packets;
      assert m == |t.packets| ==> t.packets[..m] == t.packets;
    }
  }

  lemma PlacedTake(v: View, t: Trace)
    requires Placed(v, t)
    ensures Take(v.buf, v.r, v.rd, |t.stream| - t.gone) == t.stream[t.gone..]
  {
    hide Ring.Advance;
    var cells := Take(v.buf, v.r, v.rd, |t.stream| - t.gone);
    forall i | 0 <= i < |cells|
      ensures cells[i] == t.stream[t.gone + i]
    {
      AdvanceAdd(v.r, t.start, t.gone, i);
    }
  }

  lemma TakePlaced(v: View, t: Trace)
    requires Bounded(v, t) && Take(v.buf, v.r, v.rd, |t.stream| - t.gone) == t.stream[t.gone..]
    ensures Placed(v, t)
  {
    hide Ring.Advance;
    forall k | t.gone <= k < |t.stream|
      ensures v.buf[v.r.Advance(t.start, k)] == t.stream[k]
    {
      AdvanceAdd(v.r, t.start, t.gone, k - t.gone);
      assert t.stream[t.gone..][k - t.gone] == Take(v.buf, v.r, v.rd, |t.stream| - t.gone)[k - t.gone];
    }
  }

  // ----- the three moves -----

  /** The unread cells run from the free pointer to the write pointer. */
  lemma UseIsUnfreed(v: View, t: Trace)
    requires Placed(v, t)
    ensures v.r.Gap(v.rd, v.wr) == |t.stream| - t.gone
  {
    AdvanceAdd(v.r, t.start, t.gone, |t.stream| - t.gone);
    GapOfAdvance(v.r, v.rd, |t.stream| - t.gone);
  }

  /** An unfreed cell holds the stream's byte at its place. */
  lemma HeldByte(v: View, t: Trace, p: nat)
    requires Placed(v, t) && Holds(v, t, p)
    ensures PlaceOf(v, t, p) < |t.stream| && v.buf[p] == t.stream[PlaceOf(v, t, p)]
  {
    hide Ring.Advance;
    AdvanceByGap(v.r, v.rd, p);
    AdvanceAdd(v.r, t.start, t.gone, v.r.Gap(v.rd, p));
  }

  /** The place of a cell that is so many steps into the unfreed part. */
  lemma PlaceOfStep(v: View, t: Trace, k: nat)
    requires Placed(v, t) && t.gone <= k < |t.stream|
    ensures v.r.Has(v.rd) && Holds(v, t, v.r.Advance(t.start, k)) && PlaceOf(v, t, v.r.Advance(t.start, k)) == k
  {
    AdvanceAdd(v.r, t.start, t.gone, k - t.gone);
    GapOfAdvance(v.r, v.rd, k - t.gone);
  }

  /** A write to any other cell leaves the stream as it is. */
  lemma OtherCellKeeps(v: View, t: Trace, p: nat, b: byte)
    requires Placed(v, t) && p < 0x2000 && !Holds(v, t, p)
    ensures Placed(v.(buf := v.buf[p := b]), t)
  {
    hide Ring.Advance;
    forall k | t.gone <= k < |t.stream|
      ensures v.r.Advance(t.start, k) != p
    {
      PlaceOfStep(v, t, k);
    }
  }

  lemma TailOfConcat(s: seq<byte>, data: seq<byte>, n: nat)
    requires n <= |s|
    ensures (s + data)[n..] == s[n..] + data
  {
  }

  /** Data written behind the unread cells, which are left as they were. */
  lemma LoadKeeps(v: View, t: Trace, data: seq<byte>, v': View, t': Trace)
    requires Placed(v, t)
    requires |t.stream| - t.gone + |data| < v.r.Size()
    requires v' == v.(wr := v.r.Advance(v.wr, |data|), buf := v'.buf) && |v'.buf| == 0x2000
    requires Take(v'.buf, v.r, v.wr, |data|) == data
    requires Take(v'.buf, v.r, v.rd, |t.stream| - t.gone) == Take(v.buf, v.r, v.rd, |t.stream| - t.gone)
    requires t' == t.(packets := t'.packets, stream := t.stream + data)
    ensures Placed(v', t')
  {
    hide Take, Ring.Advance;
    var n := |t.stream| - t.gone;
    PlacedTake(v, t);
    AdvanceAdd(v.r, t.start, |t.stream|, |data|);
    AdvanceAdd(v.r, t.start, t.gone, n);
    TakeConcat(v'.buf, v.r, v.rd, n, |data|);
    TailOfConcat(t.stream, data, t.gone);
    TakePlaced(v', t');
  }

  lemma StreamGrows(r: Ring, t: Trace, rec: Record, next: nat, t': Trace)
    requires Streams(r, t) && |rec| % 2 == 0 && |rec| + 2 < r.Size()
    requires t'.packets == t.packets + [rec] && next == r.Advance(t.start, StreamLength(t'.packets))
    requires t' == t.(packets := t'.packets, stream := t.stream + [LowByte(next), HighByte(next)] + rec)
    ensures Streams(r, t')
  {
    StreamIsEncoded(r, t);
    hide Encode, Streams;
    EncodedStreams(r, t');
  }
}
