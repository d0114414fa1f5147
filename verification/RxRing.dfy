/** The receive area of the ENC28J60 as a ring of cells, and the packet stream kept in it. */
module RxRing {
  import opened Wrappers
  import opened Bytes

  /** The cells `st` to `nd`; the cell after `nd` is `st`. */
  datatype Ring = Ring(st: nat, nd: nat) {

    predicate Valid() {
      st <= nd < 0x2000
    }

    function Size(): int {
      nd + 1 - st
    }

    predicate Has(p: nat) {
      st <= p <= nd
    }

    function Next(p: nat): nat {
      if p == nd then st else p + 1
    }

    /** The cell `k` steps after `p`. */
    function Advance(p: nat, k: nat): (q: nat)
      requires Valid() && Has(p)
      ensures Has(q)
    {
      if k == 0 then p else Next(Advance(p, k - 1))
    }

    /** How many steps lead from `p` to `q`. */
    function Gap(p: nat, q: nat): (n: nat)
      requires Valid() && Has(p) && Has(q)
      ensures n < Size()
    {
      if q >= p then q - p else q - p + Size()
    }
  }

  lemma {:induction false} AdvanceNear(r: Ring, p: nat, k: nat)
    requires r.Valid() && r.Has(p) && k <= r.Size()
    ensures r.Advance(p, k) == if p + k <= r.nd then p + k else p + k - r.Size()
  {
    if k > 0 {
      AdvanceNear(r, p, k - 1);
    }
  }

  lemma {:induction false} AdvanceAdd(r: Ring, p: nat, j: nat, k: nat)
    requires r.Valid() && r.Has(p)
    ensures r.Advance(r.Advance(p, j), k) == r.Advance(p, j + k)
  {
    if k > 0 {
      AdvanceAdd(r, p, j, k - 1);
    }
  }

  /** A whole turn leads back. */
  lemma AdvanceTurn(r: Ring, p: nat, k: nat)
    requires r.Valid() && r.Has(p)
    ensures r.Advance(p, k + r.Size()) == r.Advance(p, k)
  {
    AdvanceAdd(r, p, k, r.Size());
    AdvanceNear(r, r.Advance(p, k), r.Size());
  }

  lemma AdvanceByGap(r: Ring, p: nat, q: nat)
    requires r.Valid() && r.Has(p) && r.Has(q)
    ensures r.Advance(p, r.Gap(p, q)) == q
  {
    AdvanceNear(r, p, r.Gap(p, q));
  }

  lemma GapOfAdvance(r: Ring, p: nat, k: nat)
    requires r.Valid() && r.Has(p) && k < r.Size()
    ensures r.Gap(p, r.Advance(p, k)) == k
  {
    AdvanceNear(r, p, k);
  }

  /** Fewer than a turn apart, cells are distinct. */
  lemma AdvanceDistinct(r: Ring, p: nat, j: nat, k: nat)
    requires r.Valid() && r.Has(p) && j < r.Size() && k < r.Size() && j != k
    ensures r.Advance(p, j) != r.Advance(p, k)
  {
    GapOfAdvance(r, p, j);
    GapOfAdvance(r, p, k);
  }

  // ----- cells in sequence -----

  /** The contents of `n` cells from `p` on. */
  function Take(buf: seq<byte>, r: Ring, p: nat, n: nat): (s: seq<byte>)
    requires r.Valid() && r.Has(p) && |buf| == 0x2000
    ensures |s| == n
  {
    seq(n, i requires 0 <= i < n => buf[r.Advance(p, i)])
  }

  /** The buffer after `data` is written from `p` on, one cell at a time. */
  function WriteAll(buf: seq<byte>, r: Ring, p: nat, data: seq<byte>): (buf': seq<byte>)
    requires r.Valid() && r.Has(p) && |buf| == 0x2000
    ensures |buf'| == |buf|
  {
    if data == [] then buf
    else
      var n := |data| - 1;
      WriteAll(buf, r, p, data[..n])[r.Advance(p, n) := data[n]]
  }

  lemma {:induction false} UnwrittenCell(buf: seq<byte>, r: Ring, p: nat, data: seq<byte>, c: nat)
    requires r.Valid() && r.Has(p) && |buf| == 0x2000 && c < 0x2000
    requires forall j :: 0 <= j < |data| ==> r.Advance(p, j) != c
    ensures WriteAll(buf, r, p, data)[c] == buf[c]
  {
    if data != [] {
      UnwrittenCell(buf, r, p, data[..|data| - 1], c);
    }
  }

  lemma {:induction false} WrittenCell(buf: seq<byte>, r: Ring, p: nat, data: seq<byte>, j: nat)
    requires r.Valid() && r.Has(p) && |buf| == 0x2000
    requires j < |data| <= r.Size()
    ensures WriteAll(buf, r, p, data)[r.Advance(p, j)] == data[j]
  {
    var n := |data| - 1;
    if j < n {
      WrittenCell(buf, r, p, data[..n], j);
      AdvanceDistinct(r, p, j, n);
    }
  }

  lemma ReadBack(buf: seq<byte>, r: Ring, p: nat, data: seq<byte>)
    requires r.Valid() && r.Has(p) && |buf| == 0x2000 && |data| <= r.Size()
    ensures Take(WriteAll(buf, r, p, data), r, p, |data|) == data
  {
    forall j | 0 <= j < |data|
      ensures Take(WriteAll(buf, r, p, data), r, p, |data|)[j] == data[j]
    {
      WrittenCell(buf, r, p, data, j);
    }
  }

  lemma CellsApart(r: Ring, p: nat, n: nat, j: nat, i: nat)
    requires r.Valid() && r.Has(p) && i < n && n + j < r.Size()
    ensures r.Advance(r.Advance(p, n), j) != r.Advance(p, i)
  {
    AdvanceAdd(r, p, n, j);
    AdvanceDistinct(r, p, n + j, i);
  }

  lemma OccupiedCellKept(buf: seq<byte>, r: Ring, p: nat, w: nat, n: nat, data: seq<byte>, i: nat)
    requires r.Valid() && r.Has(p) && |buf| == 0x2000 && n + |data| <= r.Size() && i < n
    requires w == r.Advance(p, n)
    ensures WriteAll(buf, r, w, data)[r.Advance(p, i)] == buf[r.Advance(p, i)]
  {
    forall j | 0 <= j < |data|
      ensures r.Advance(w, j) != r.Advance(p, i)
    {
      CellsApart(r, p, n, j, i);
    }
    UnwrittenCell(buf, r, w, data, r.Advance(p, i));
  }

  /** Writing behind `n` occupied cells leaves them alone while the whole fits in one turn. */
  lemma OccupiedCellsKept(buf: seq<byte>, r: Ring, p: nat, n: nat, data: seq<byte>)
    requires r.Valid() && r.Has(p) && |buf| == 0x2000 && n + |data| <= r.Size()
    ensures Take(WriteAll(buf, r, r.Advance(p, n), data), r, p, n) == Take(buf, r, p, n)
  {
    var buf' := WriteAll(buf, r, r.Advance(p, n), data);
    forall i | 0 <= i < n
      ensures Take(buf', r, p, n)[i] == Take(buf, r, p, n)[i]
    {
      OccupiedCellKept(buf, r, p, r.Advance(p, n), n, data, i);
    }
  }

  lemma TakeConcat(buf: seq<byte>, r: Ring, p: nat, m: nat, n: nat)
    requires r.Valid() && r.Has(p) && |buf| == 0x2000
    ensures Take(buf, r, p, m + n) == Take(buf, r, p, m) + Take(buf, r, r.Advance(p, m), n)
  {
    forall i | 0 <= i < n
      ensures r.Advance(r.Advance(p, m), i) == r.Advance(p, m + i)
    {
      AdvanceAdd(r, p, m, i);
    }
  }

  // ----- the packet stream -----

  /** What is stored of a packet behind its next-packet pointer. */
  type Record = seq<byte>

  function StreamLength(recs: seq<Record>): nat {
    if recs == [] then 0 else StreamLength(recs[..|recs| - 1]) + 2 + |recs[|recs| - 1]|
  }

  /** The packets in stored form from cell `p` on: each begins with the cell of the packet behind it. */
  function Encode(r: Ring, p: nat, recs: seq<Record>): (s: seq<byte>)
    requires r.Valid() && r.Has(p)
    ensures |s| == StreamLength(recs)
  {
    if recs == [] then []
    else
      var n := |recs| - 1;
      var next := r.Advance(p, StreamLength(recs));
      Encode(r, p, recs[..n]) + [LowByte(next), HighByte(next)] + recs[n]
  }

  lemma {:induction false} StreamLengthConcat(a: seq<Record>, b: seq<Record>)
    ensures StreamLength(a + b) == StreamLength(a) + StreamLength(b)
  {
    if b == [] {
      assert a + b == a;
    } else {
      var n := |b| - 1;
      assert (a + b)[..|a + b| - 1] == a + b[..n];
      StreamLengthConcat(a, b[..n]);
    }
  }

  /** A tail of the packets is stored as it would be on its own, from its own first cell. */
  lemma {:induction false} EncodeConcat(r: Ring, p: nat, a: seq<Record>, b: seq<Record>)
    requires r.Valid() && r.Has(p)
    ensures Encode(r, p, a + b) == Encode(r, p, a) + Encode(r, r.Advance(p, StreamLength(a)), b)
  {
    if b == [] {
      assert a + b == a;
    } else {
      var n := |b| - 1;
      assert (a + b)[..|a + b| - 1] == a + b[..n];
      EncodeConcat(r, p, a, b[..n]);
      StreamLengthConcat(a, b);
      AdvanceAdd(r, p, StreamLength(a), StreamLength(b));
    }
  }

  /** A reader that follows the next-packet pointers from cell `p`. */
  function Follow(r: Ring, p: nat, s: seq<byte>): (recs: Option<seq<Record>>)
    requires r.Valid() && r.Has(p)
    decreases |s|
  {
    if s == [] then Some([])
    else if |s| < 2 then None
    else
      var next := Word(s[1], s[0]);
      if !r.Has(next) then None
      else
        var n := r.Gap(p, next);
        if n < 2 || n > |s| then None
        else
          var rest := Follow(r, next, s[n..]);
          if rest.None? then None else Some([s[2..n]] + rest.value)
  }

  lemma EncodeOne(r: Ring, p: nat, recs: seq<Record>)
    requires r.Valid() && r.Has(p) && |recs| == 1
    ensures StreamLength(recs) == 2 + |recs[0]|
    ensures var next := r.Advance(p, 2 + |recs[0]|);
            Encode(r, p, recs) == [LowByte(next), HighByte(next)] + recs[0]
  {
    assert StreamLength(recs[..0]) == 0 && Encode(r, p, recs[..0]) == [];
  }

  /** Following the pointers of a stored stream recovers its packets one by one. */
  lemma {:induction false} FollowEncoded(r: Ring, p: nat, recs: seq<Record>)
    requires r.Valid() && r.Has(p)
    requires forall rec :: rec in recs ==> |rec| + 2 < r.Size()
    ensures Follow(r, p, Encode(r, p, recs)) == Some(recs)
    decreases |recs|
  {
    if recs != [] {
      var first, rest := recs[0], recs[1..];
      assert recs == [first] + rest;
      EncodeConcat(r, p, [first], rest);
      EncodeOne(r, p, [first]);
      var next := r.Advance(p, 2 + |first|);
      var s := Encode(r, p, recs);
      PartsOfWord(next);
      GapOfAdvance(r, p, 2 + |first|);
      assert s[2..2 + |first|] == first && s[2 + |first|..] == Encode(r, next, rest);
      FollowEncoded(r, next, rest);
    }
  }
}
