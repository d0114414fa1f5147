/** The image of the SD card after any accepted transactions, the write whose end wraps past 2^32 included. */
module SdImage {
  import opened Bytes
  import opened SdStore
  import opened SdProtocol
  import opened SdSafety
  import opened SdTransactions
  import opened SdBlockStore

  /** The one accepted address whose block ends at 2^32. */
  const TOP: nat := 0xffff_fe00

  /** What becomes of the file: the length the card believes; whether a block was written at the top that the
      file did not reach, the length at the first such write, and the data of the last. */
  datatype Extent = Extent(len: nat, wrapped: bool, hole: nat, top: seq<byte>)

  function Grown(x: Extent, t: Txn): Extent {
    if !t.Write? then x
    else if t.addr == TOP then
      if x.len > TOP then x else x.(wrapped := true, hole := if x.wrapped then x.hole else x.len, top := t.data)
    else x.(len := if x.len < t.addr + BLOCK then t.addr + BLOCK else x.len)
  }

  function ExtentAfter(len: nat, ts: seq<Txn>): Extent {
    if ts == [] then Extent(len, false, 0, []) else Grown(ExtentAfter(len, ts[..|ts| - 1]), ts[|ts| - 1])
  }

  predicate Covers(t: Txn, p: nat) {
    t.Write? && t.addr <= p < t.addr + BLOCK
  }

  predicate Covered(ts: seq<Txn>, p: nat) {
    ts != [] && (Covers(ts[|ts| - 1], p) || Covered(ts[..|ts| - 1], p))
  }

  function WholeBlocks(len: nat): nat {
    (len + 511) / 512 * 512
  }

  /** Every block shows what was last written there: nothing was written past the end of the address space, or what
      was is all 0xff, and the zeros this put behind the file have all been written over as far as the card
      believes its file to reach. */
  predicate Faithful(len: nat, ts: seq<Txn>) {
    var x := ExtentAfter(len, ts);
    x.wrapped ==>
      x.top == Fill(BLOCK, 0xff) && forall p :: x.hole <= p < WholeBlocks(x.len) ==> Covered(ts, p)
  }

  /** The file and the place p of it after the transactions. */
  ghost predicate Stands(file: seq<byte>, ts: seq<Txn>, p: nat) {
    var ((f, len), x, last) := (FileAfterAll(file, |file|, ts), ExtentAfter(|file|, ts),
                                LastWritten(ts, p, View(file, p)));
    && len == x.len && len <= |f| && (len == |f| || len > TOP || x.wrapped)
    && (Covered(ts, p) && p < TOP ==> p < len)
    && (!x.wrapped ==> View(f, p) == last)
    && (x.wrapped ==>
          && x.hole <= len <= TOP && |f| >= TOP + BLOCK && |x.top| == BLOCK
          && (p < TOP ==> View(f, p) == if p < x.hole || Covered(ts, p) then last else 0)
          && (x.hole <= p < TOP && !Covered(ts, p) ==> last == 0xff)
          && (TOP <= p < TOP + BLOCK ==> last == x.top[p - TOP]))
  }

  /** A block that leaves no gap. */
  lemma NoGap(f: seq<byte>, len: nat, addr: uint32, data: seq<byte>, p: nat)
    requires |data| == BLOCK && len <= |f| && addr % 512 == 0 && (addr + BLOCK < 0x1_0000_0000 || addr <= |f|)
    ensures var (g, len') := WriteBlock(f, len, addr, data);
            && View(g, p) == (if addr <= p < addr + BLOCK then data[p - addr] else View(f, p))
            && len' <= |g| && |f| <= |g| && addr + BLOCK <= |g|
            && len' == (if addr + BLOCK < 0x1_0000_0000 && len < addr + BLOCK then addr + BLOCK else len)
            && (len == |f| && addr + BLOCK < 0x1_0000_0000 ==> len' == |g|)
  {
    var minimum := (addr + BLOCK) % 0x1_0000_0000;
    var grown := Expanded(f, len, minimum).0;
    WriteAtView(grown, addr, data, p);
    ExpansionIsInvisible(f, len, minimum, p);
  }

  /** A block at the top that does. */
  lemma GapIsZero(f: seq<byte>, data: seq<byte>, p: nat)
    requires |data| == BLOCK && |f| <= TOP
    ensures var (g, len') := WriteBlock(f, |f|, TOP, data);
            && View(g, p) == (if TOP <= p < TOP + BLOCK then data[p - TOP]
                              else if |f| <= p < TOP then 0 else View(f, p))
            && len' == |f| && |g| == TOP + BLOCK
  {
    WriteAtView(f, TOP, data, p);
  }

  lemma StandsAtFirst(file: seq<byte>, p: nat)
    ensures Stands(file, [], p)
  {
  }

  lemma StandsOn(file: seq<byte>, ts: seq<Txn>, capacity: uint32, p: nat)
    requires ts != [] && Proper(ts[|ts| - 1], capacity) && Stands(file, ts[..|ts| - 1], p)
    ensures Stands(file, ts, p)
  {
    hide View, WriteBlock;
    var n := |ts| - 1;
    var t := ts[n];
    if t.Write? {
      var (f, len) := FileAfterAll(file, |file|, ts[..n]);
      if t.addr == TOP && |f| <= TOP {
        GapIsZero(f, t.data, p);
        BeyondTheEnd(f, p);
      } else {
        NoGap(f, len, t.addr, t.data, p);
      }
    }
  }

  lemma BeyondTheEnd(f: seq<byte>, p: nat)
    ensures p >= |f| ==> View(f, p) == 0xff
  {
  }

  lemma {:induction false} AlwaysStands(file: seq<byte>, ts: seq<Txn>, capacity: uint32, p: nat)
    requires AllProper(ts, capacity)
    ensures Stands(file, ts, p)
  {
    hide Stands, Proper;
    if ts == [] {
      StandsAtFirst(file, p);
    } else {
      AlwaysStands(file, ts[..|ts| - 1], capacity, p);
      StandsOn(file, ts, capacity, p);
    }
  }

  /** What is read at a place, and what was last written there. */
  predicate ShowsLast(file: seq<byte>, ts: seq<Txn>, addr: nat, j: nat)
    requires j < BLOCK
  {
    var (f, len) := FileAfterAll(file, |file|, ts);
    ReadBlock(f, len, addr)[j] == LastWritten(ts, addr + j, View(file, addr + j))
  }

  /** At one place: wrong only in the hole below the believed end, and at the top. */
  lemma ShowsLastIff(file: seq<byte>, ts: seq<Txn>, capacity: uint32, addr: nat, j: nat)
    requires AllProper(ts, capacity) && addr % 512 == 0 && addr <= TOP && j < BLOCK
    ensures var x := ExtentAfter(|file|, ts);
            ShowsLast(file, ts, addr, j) <==>
              (x.wrapped ==>
                 && (addr < x.len && x.hole <= addr + j ==> Covered(ts, addr + j))
                 && (addr == TOP ==> |x.top| == BLOCK && x.top[j] == 0xff))
  {
    AlwaysStands(file, ts, capacity, addr + j);
    hide FileAfterAll, LastWritten, ExtentAfter, Covered;
  }

  /** Every block of the address space shows what was last written there. */
  ghost predicate ShowsAll(file: seq<byte>, ts: seq<Txn>) {
    forall addr: nat, j: nat :: addr % 512 == 0 && addr <= TOP && j < BLOCK ==> ShowsLast(file, ts, addr, j)
  }

  /** Every block shows what was last written there exactly when the run is faithful. */
  lemma ShowsAllIff(file: seq<byte>, ts: seq<Txn>, capacity: uint32)
    requires AllProper(ts, capacity)
    ensures ShowsAll(file, ts) <==> Faithful(|file|, ts)
  {
    hide ShowsLast, ExtentAfter, Covered;
    if Faithful(|file|, ts) {
      forall addr: nat, j: nat | addr % 512 == 0 && addr <= TOP && j < BLOCK
        ensures ShowsLast(file, ts, addr, j)
      {
        ShowsLastIff(file, ts, capacity, addr, j);
        BlockWithin(addr, j, ExtentAfter(|file|, ts).len);
      }
    }
    if ShowsAll(file, ts) {
      ShownIsFaithful(file, ts, capacity);
    }
  }

  lemma BlockWithin(addr: nat, j: nat, len: nat)
    requires addr % 512 == 0 && j < BLOCK
    ensures addr < len ==> addr + j < WholeBlocks(len)
  {
  }

  lemma BlockOf(p: nat, len: nat)
    requires p < WholeBlocks(len)
    ensures var addr := p / 512 * 512; addr % 512 == 0 && addr < len && p == addr + p % 512
  {
  }

  lemma ShownIsFaithful(file: seq<byte>, ts: seq<Txn>, capacity: uint32)
    requires AllProper(ts, capacity) && ShowsAll(file, ts)
    ensures Faithful(|file|, ts)
  {
    hide ShowsLast, ExtentAfter, Covered;
    var x := ExtentAfter(|file|, ts);
    if x.wrapped {
      AlwaysStands(file, ts, capacity, 0);
      forall j: nat | j < BLOCK
        ensures x.top[j] == 0xff
      {
        ShowsLastIff(file, ts, capacity, TOP, j);
      }
      forall p | x.hole <= p < WholeBlocks(x.len)
        ensures Covered(ts, p)
      {
        BlockOf(p, x.len);
        ShowsLastIff(file, ts, capacity, p / 512 * 512, p % 512);
      }
    }
  }

  lemma {:induction false} NoWriteAtTop(len: nat, ts: seq<Txn>)
    requires forall t :: t in ts && t.Write? ==> t.addr != TOP
    ensures Faithful(len, ts) && !ExtentAfter(len, ts).wrapped
  {
    hide Covered;
    if ts != [] {
      NoWriteAtTop(len, ts[..|ts| - 1]);
    }
  }

  // ----- over the wire -----

  lemma ReadAfter(c: Card, ts: seq<Txn>, e: Card, outs: seq<byte>, addr: uint32, last: byte) returns (d: Card)
    requires Ready(e) && Proper(Read(addr, last), e.capacity) && Runs(c, AllBytes(ts), e, outs)
    ensures Runs(c, AllBytes(ts) + BytesOf(Read(addr, last)), d,
                 outs + ((Fill(6, 0xff) + [0]) + BlockStream(ReadBlock(e.file, e.file_len, addr))))
  {
    hide Inv, BytesOf, Runs, AllBytes, ReadBlock;
    d := Transaction(e, Read(addr, last));
    RunsConcat(c, AllBytes(ts), e, outs, BytesOf(Read(addr, last)), d, AnswersTo(e.file, e.file_len, Read(addr, last)));
  }

  /** After any complete transactions a READ_SINGLE_BLOCK at any accepted address is answered with R1, the token,
      the block and its CRC16; and if the run is faithful, as it is without a write at the top, the block is the
      512 bytes last written there (or those of the original image, or 0xff beyond its end). */
  lemma ReadsBackLastWritten(c: Card, ts: seq<Txn>, addr: uint32, last: byte)
    returns (d: Card, outs: seq<byte>, block: seq<byte>)
    requires Ready(c) && c.file_len == |c.file|
    requires AllProper(ts, c.capacity) && Proper(Read(addr, last), c.capacity)
    ensures |block| == BLOCK
    ensures Runs(c, AllBytes(ts) + BytesOf(Read(addr, last)), d,
                 outs + ((Fill(6, 0xff) + [0]) + BlockStream(block)))
    ensures Faithful(|c.file|, ts) ==>
              forall j: nat :: j < BLOCK ==> block[j] == LastWritten(ts, addr + j, View(c.file, addr + j))
  {
    hide *;
    var e: Card;
    e, outs := AllTransactions(c, ts);
    block := ReadBlock(e.file, e.file_len, addr);
    d := ReadAfter(c, ts, e, outs, addr, last);
    BlockIsLastWritten(c, ts, e, addr, last);
  }

  lemma BlockIsLastWritten(c: Card, ts: seq<Txn>, e: Card, addr: uint32, last: byte)
    requires c.file_len == |c.file| && AllProper(ts, c.capacity) && Proper(Read(addr, last), c.capacity)
    requires (e.file, e.file_len) == FileAfterAll(c.file, c.file_len, ts)
    ensures Faithful(|c.file|, ts) ==>
              forall j: nat :: j < BLOCK ==>
                ReadBlock(e.file, e.file_len, addr)[j] == LastWritten(ts, addr + j, View(c.file, addr + j))
  {
    ShowsAllIff(c.file, ts, c.capacity);
    hide ReadBlock, LastWritten, View, Faithful, FileAfterAll, AllProper;
    assert addr % 512 == 0 && addr <= TOP;
    if Faithful(|c.file|, ts) {
      forall j: nat | j < BLOCK
        ensures ReadBlock(e.file, e.file_len, addr)[j] == LastWritten(ts, addr + j, View(c.file, addr + j))
      {
        assert ShowsLast(c.file, ts, addr, j);
      }
    }
  }
}
