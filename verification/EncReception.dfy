/** What loading a frame does to the receive ring. */
module EncReception {
  import opened Steps
  import opened Wrappers
  import opened Bytes
  import opened Division
  import opened RxRing
  import opened EthFrame
  import opened EncChip

  lemma {:induction false} WrapIsAdvance(r: Ring, w: nat, k: nat)
    requires r.Valid() && r.Has(w)
    ensures Wrap(r, w + k) == r.Advance(w, k)
    decreases k
  {
    if w + k <= r.nd {
      AdvanceNear(r, w, k);
    } else if k >= r.Size() {
      WrapIsAdvance(r, w, k - r.Size());
      AdvanceTurn(r, w, k - r.Size());
    } else {
      AdvanceNear(r, w, k);
    }
  }

  /** Cells in use, from the read pointer up to the write pointer. */
  function Used(c: Chip): nat
    requires Wf(c) && InPlace(c)
  {
    RingOf(c).Gap(Get16(c.regs, ERXRDPTL), Get16(c.regs, ERXWRPTL))
  }

  lemma GapIsModulo(d: int, n: int)
    requires -n < d < n
    ensures d % n == if d >= 0 then d else d + n
  {
    if d < 0 {
      assert (d + n) % n == d % n;
    }
  }

  /** Free space is one less than the cells not in use, that is size - 1 - ((WR - RD) mod size). */
  lemma FreeSpaceFormula(c: Chip)
    requires Wf(c) && InPlace(c)
    ensures FreeSpace(c) == RingOf(c).Size() - 1 - Used(c)
    ensures Used(c) == (Get16(c.regs, ERXWRPTL) - Get16(c.regs, ERXRDPTL)) % RingOf(c).Size()
  {
    GapIsModulo(Get16(c.regs, ERXWRPTL) - Get16(c.regs, ERXRDPTL), RingOf(c).Size());
  }

  /** The pointer computed in one subtraction loop is the one the byte-by-byte writes arrive at,
      for every packet short enough for the 16-bit sum not to wrap. */
  lemma NextPointerIsWritePointer(r: Ring, wr: nat, n: nat)
    requires r.Valid() && r.Has(wr) && wr + n < 0x1_0000
    ensures NextPointer(r, wr, n) == r.Advance(wr, n)
  {
    WrapIsAdvance(r, wr, n);
  }

  lemma {:induction false} WrapIsModulo(r: Ring, x: nat)
    requires r.Valid() && r.st <= x
    ensures Wrap(r, x) == r.st + (x - r.st) % r.Size()
    decreases x
  {
    var (m, y) := (r.Size(), x - r.st);
    if x > r.nd {
      WrapIsModulo(r, x - m);
      var (q, d) := ((y - m) / m, (y - m) % m);
      assert y == (q + 1) * m + d;
      DivisionUnique(y, m, q + 1, d);
    } else {
      DivisionUnique(y, m, 0, y);
    }
  }

  lemma RemainderStays(x: nat, k: nat, m: nat)
    requires m > 0 && k % m == 0
    ensures (x + k) % m == x % m
  {
    var (p, r, t) := (x / m, x % m, k / m);
    Distributes(t, p, m);
    assert x + k == (t + p) * m + r;
    DivisionUnique(x + k, m, t + p, r);
  }

  lemma Distributes(a: nat, b: nat, m: nat)
    ensures (a + b) * m == a * m + b * m
  {
  }

  lemma RemaindersMeet(x: nat, k: nat, m: nat)
    requires m > 0 && (x + k) % m == x % m
    ensures k % m == 0
  {
    var (q, p) := ((x + k) / m, x / m);
    assert q * m == p * m + k;
    if q < p {
      ProductOrder(m, q + 1, p);
      assert false;
    }
    Distributes(q - p, p, m);
    DivisionUnique(k, m, q - p, 0);
  }

  /** A packet so long that the sum does wrap is given the wrong pointer, unless it wraps into the ring and the size of
      the ring divides 2^16. */
  lemma NextPointerIff(r: Ring, wr: nat, n: nat)
    requires r.Valid() && r.Has(wr) && wr + n < 0x2_0000
    ensures NextPointer(r, wr, n) == r.Advance(wr, n) <==>
            wr + n < 0x1_0000 || (wr + n - 0x1_0000 >= r.st && 0x1_0000 % r.Size() == 0)
  {
    WrapIsAdvance(r, wr, n);
    hide Ring.Advance;
    WrapIsModulo(r, wr + n);
    if wr + n >= 0x1_0000 {
      TurnedPointer(r, wr, n, wr + n - 0x1_0000);
    }
  }

  lemma TurnedPointer(r: Ring, wr: nat, n: nat, x: nat)
    requires r.Valid() && r.Has(wr) && wr + n == x + 0x1_0000 && x < 0x1_0000
    ensures NextPointer(r, wr, n) == Wrap(r, x)
    ensures Wrap(r, x) == Wrap(r, wr + n) <==> x >= r.st && 0x1_0000 % r.Size() == 0
  {
    hide Wrap;
    WrapIsModulo(r, wr + n);
    if x >= r.st {
      WrapIsModulo(r, x);
      TurnIff(x - r.st, 0x1_0000, r.Size());
    } else {
      BelowStays(r, x);
    }
    hide Ring.Size;
  }

  lemma BelowStays(r: Ring, x: nat)
    requires r.Valid() && x < r.st
    ensures Wrap(r, x) == x
  {
  }

  lemma TurnIff(y: nat, k: nat, m: nat)
    requires m > 0
    ensures (y + k) % m == y % m <==> k % m == 0
  {
    if k % m == 0 {
      RemainderStays(y, k, m);
    }
    if (y + k) % m == y % m {
      RemaindersMeet(y, k, m);
    }
  }

  /** Loading moves the write pointer, bumps the count, writes the cells, and touches nothing else. */
  lemma LoadedKeeps(c: Chip, rec: Record)
    requires Wf(c) && InPlace(c)
    ensures var d, r, wr := Loaded(c, rec), RingOf(c), Get16(c.regs, ERXWRPTL);
            && Get16(d.regs, ERXWRPTL) == r.Advance(wr, 2 + |rec|)
            && Get16(d.regs, ERXRDPTL) == Get16(c.regs, ERXRDPTL)
            && d.regs[EPKTCNT] == Bumped(c.regs[EPKTCNT])
            && (forall i :: 0 <= i < 0x80 && i !in {ERXWRPTL, ERXWRPTL + 1, EPKTCNT} ==> d.regs[i] == c.regs[i])
            && d == c.(buf := WriteAll(c.buf, r, wr, PacketBytes(r, wr, rec)), regs := d.regs)
  {
  }

  lemma GapGrows(r: Ring, rd: nat, wr: nat, k: nat)
    requires r.Valid() && r.Has(rd) && r.Has(wr) && r.Gap(rd, wr) + k < r.Size()
    ensures r.Gap(rd, r.Advance(wr, k)) == r.Gap(rd, wr) + k
  {
    AdvanceByGap(r, rd, wr);
    AdvanceAdd(r, rd, r.Gap(rd, wr), k);
    GapOfAdvance(r, rd, r.Gap(rd, wr) + k);
  }

  lemma UseAfterLoad(c: Chip, rec: Record)
    requires Wf(c) && InPlace(c)
    requires 2 + |rec| <= FreeSpace(c)
    ensures Used(Loaded(c, rec)) == Used(c) + (2 + |rec|)
  {
    FreeSpaceFormula(c);
    LoadedKeeps(c, rec);
    GapGrows(RingOf(c), Get16(c.regs, ERXRDPTL), Get16(c.regs, ERXWRPTL), 2 + |rec|);
  }

  /** A packet that fits leaves every unread cell alone, and stands behind them complete. */
  lemma CellsAfterLoad(c: Chip, rec: Record)
    requires Wf(c) && InPlace(c)
    requires 2 + |rec| <= FreeSpace(c)
    ensures var r, rd, wr := RingOf(c), Get16(c.regs, ERXRDPTL), Get16(c.regs, ERXWRPTL);
            var buf := Loaded(c, rec).buf;
            && Take(buf, r, rd, Used(c)) == Take(c.buf, r, rd, Used(c))
            && Take(buf, r, wr, 2 + |rec|) == PacketBytes(r, wr, rec)
  {
    var r, rd, wr := RingOf(c), Get16(c.regs, ERXRDPTL), Get16(c.regs, ERXWRPTL);
    FreeSpaceFormula(c);
    LoadedKeeps(c, rec);
    AdvanceByGap(r, rd, wr);
    PacketBytesLength(r, wr, rec);
    hide WriteAll, PacketBytes, Take, Get16, Loaded;
    OccupiedCellsKept(c.buf, r, rd, Used(c), PacketBytes(r, wr, rec));
    ReadBack(c.buf, r, wr, PacketBytes(r, wr, rec));
  }

  /** The use of the ring grows by what was loaded exactly when it fit. */
  lemma LoadCountsIffFits(c: Chip, rec: Record)
    requires Wf(c) && InPlace(c)
    ensures Used(Loaded(c, rec)) == Used(c) + (2 + |rec|) <==> 2 + |rec| <= FreeSpace(c)
  {
    FreeSpaceFormula(c);
    LoadedKeeps(c, rec);
    if 2 + |rec| <= FreeSpace(c) {
      UseAfterLoad(c, rec);
    }
  }

  lemma StoredSize(f: Frame, status: seq<byte>)
    requires f.Valid() && f.fcs.Some? && |status| == 4
    ensures 2 + |Stored(f, status)| == PaddedSize(f)
  {
  }

  /** What the test for space promises: the frame adds to the unread packets and to their count. */
  predicate Counted(c: Chip, f: Frame, status: seq<byte>)
    requires Wf(c) && InPlace(c)
  {
    var d := Loaded(c, Stored(f, status));
    Used(d) == Used(c) + PaddedSize(f) && d.regs[EPKTCNT] as int == c.regs[EPKTCNT] as int + 1
  }

  /** An admitted frame is counted so exactly when it fits the free space and fewer than 255 packets are
      counted; the test lets it in when either holds. */
  lemma AdmittedFrameAddsIffFits(c: Chip, f: Frame, status: seq<byte>)
    requires Wf(c) && InPlace(c) && f.Valid() && f.fcs.Some? && |status| == 4
    requires FitsInBuffer(c, f)
    ensures Counted(c, f, status) <==> PaddedSize(f) <= FreeSpace(c) && c.regs[EPKTCNT] < 0xff
  {
    hide Loaded, Used, PaddedSize, Stored, FreeSpace;
    StoredSize(f, status);
    LoadCountsIffFits(c, Stored(f, status));
    LoadedKeeps(c, Stored(f, status));
  }

  /** The 256th packet, however well it fits, makes the count zero: the host is told that there is none. */
  lemma CountWrapsToZero(c: Chip, f: Frame, status: seq<byte>)
    requires Wf(c) && InPlace(c) && f.Valid() && f.fcs.Some? && |status| == 4
    requires c.regs[EPKTCNT] == 0xff
    ensures FitsInBuffer(c, f) <==> PaddedSize(f) <= FreeSpace(c)
    ensures Loaded(c, Stored(f, status)).regs[EPKTCNT] == 0
  {
    hide PaddedSize, Stored, FreeSpace;
    LoadedKeeps(c, Stored(f, status));
  }

  /** A packet that overruns the unread cells replaces the oldest unread byte. */
  lemma OverrunReplacesOldest(c: Chip, rec: Record)
    requires Wf(c) && InPlace(c)
    requires Used(c) > 0 && 2 + |rec| <= RingOf(c).Size() < Used(c) + 2 + |rec|
    ensures Loaded(c, rec).buf[Get16(c.regs, ERXRDPTL)]
         == PacketBytes(RingOf(c), Get16(c.regs, ERXWRPTL), rec)[RingOf(c).Size() - Used(c)]
  {
    hide PacketBytes, Get16;
    var r, rd, wr := RingOf(c), Get16(c.regs, ERXRDPTL), Get16(c.regs, ERXWRPTL);
    var data := PacketBytes(r, wr, rec);
    PacketBytesLength(r, wr, rec);
    AdvanceByGap(r, rd, wr);
    AdvanceAdd(r, rd, Used(c), r.Size() - Used(c));
    AdvanceTurn(r, rd, 0);
    WrittenCell(c.buf, r, wr, data, r.Size() - Used(c));
  }

  lemma PacketBytesLength(r: Ring, wr: nat, rec: Record)
    requires r.Valid()
    ensures |PacketBytes(r, wr, rec)| == 2 + |rec|
  {
  }

  /** A chip with a ring of the cells 0 to `nd`, all pointers at 0, and a packet count. */
  function RingChip(nd: word, count: byte): (c: Chip)
    ensures |c.regs| == 0x80 && |c.buf| == 0x2000
  {
    Chip(seq(0x80, i => RingChipRegister(i, nd, count)), seq(0x2000, _ => 0), 0, ReceivingCommand, 0, 0, false)
  }

  function RingChipRegister(i: int, nd: word, count: byte): byte {
    if i == ERXNDL then LowByte(nd) else if i == ERXNDH then HighByte(nd) else if i == EPKTCNT then count else 0
  }

  lemma RingChipRegisters(c: Chip, nd: word, count: byte)
    requires c == RingChip(nd, count) && nd < 0x2000
    ensures Get16(c.regs, ERXSTL) == 0 && Get16(c.regs, ERXNDL) == nd
    ensures Get16(c.regs, ERXRDPTL) == 0 && Get16(c.regs, ERXWRPTL) == 0
    ensures c.regs[ERXSTH] == 0 && c.regs[ERXNDH] < 0x20 && c.regs[EPKTCNT] == count
  {
    PartsOfWord(nd);
    assert c.regs[ERXNDL] == LowByte(nd) && c.regs[ERXNDH] == HighByte(nd) && c.regs[ERXSTL] == 0;
    assert c.regs[ERXRDPTL] == 0 && c.regs[ERXRDPTH] == 0 && c.regs[ERXWRPTL] == 0;
  }

  /** A 64-byte frame is admitted to a ring of 64 cells, which its 70 stored bytes overrun. */
  lemma OversizedFrameIsAdmitted(f: Frame)
    requires f.Valid() && f.fcs.Some? && f.TotalLength() == 64
    ensures var c := RingChip(0x3f, 0);
            Wf(c) && Sane(c) && FitsInBuffer(c, f) && PaddedSize(f) > FreeSpace(c)
  {
    hide RingChip, Get16;
    RingChipRegisters(RingChip(0x3f, 0), 0x3f, 0);
  }

  /** And to an ample ring with 255 packets counted, after which none is. */
  lemma FrameCanVanish(f: Frame, status: seq<byte>)
    requires f.Valid() && f.fcs.Some? && f.TotalLength() == 64 && |status| == 4
    ensures var c := RingChip(0x7ff, 0xff);
            Wf(c) && Sane(c) && FitsInBuffer(c, f) && Loaded(c, Stored(f, status)).regs[EPKTCNT] == 0
  {
    hide RingChip, Get16, Loaded, Stored;
    RingChipRegisters(RingChip(0x7ff, 0xff), 0x7ff, 0xff);
    CountWrapsToZero(RingChip(0x7ff, 0xff), f, status);
  }

  /** The frame and its status can be read off a stored packet: the first two status bytes are the frame
      length, high byte first. */
  lemma StoredFrameIsRecovered(c: Chip, f: Frame)
    requires Wf(c) && f.Valid() && RxStatus(c, f).Ok? && f.TotalLength() < 0x1_0000
    ensures var rec := Stored(f, RxStatus(c, f).value);
            && |rec| >= 4 + Word(rec[0], rec[1])
            && rec[..4] == RxStatus(c, f).value
            && rec[4..4 + Word(rec[0], rec[1])] == f.Wire()
  {
    var status := RxStatus(c, f).value;
    PartsOfWord(f.TotalLength());
    assert |f.Wire()| == f.TotalLength();
  }
}
