/** Whole runs of the receive path at SPI byte granularity: whatever the host does short of reconfiguring the
    ring, what it reads of the ring is the stream of admitted packets, whatever arrives in between. */
module EncRuns {
  import opened Steps
  import opened Wrappers
  import opened Bytes
  import opened RxRing
  import opened RxStream
  import opened EthFrame
  import opened EncChip
  import opened EncReception
  import opened EncRegisters

  /** A frame off the network, a change of the slave select line, or an SPI byte from the host. */
  datatype Event = Arrive(f: Frame) | Select(on: bool) | Spi(b: byte)

  function StepEvent(c: Chip, e: Event): Step<Chip>
    requires Wf(c) && (e.Arrive? ==> e.f.Valid())
  {
    match e
    case Arrive(f) => Receive(c, f)
    case Select(on) => Ok(OnSpiSlaveSelect(c, on))
    case Spi(b) =>
      var (d, _) :- HandleSpiData(c, b);
      Ok(d)
  }

  // ----- the invariant -----

  function ViewOf(c: Chip): View
    requires Wf(c)
  {
    View(RingOf(c), Get16(c.regs, ERXRDPTL), Get16(c.regs, ERXWRPTL), c.buf)
  }

  /** No pointer has left the buffer, no transmission is requested, and EPKTCNT is the number of packets
      loaded and not acknowledged. */
  predicate Control(c: Chip, t: Trace)
    requires Wf(c)
  {
    && c.regs[ERXRDPTH] < 0x20
    && c.regs[ERDPTL + 1] < 0x20
    && c.regs[EWRPTL + 1] < 0x20
    && !BitSet(c.regs[ECON1], 3)
    && t.acked <= |t.packets|
    && c.regs[EPKTCNT] == |t.packets| - t.acked
  }

  ghost predicate Inv(c: Chip, t: Trace) {
    Wf(c) && RxStream.Inv(ViewOf(c), t) && Control(c, t)
  }

  // ----- what the network and the host may do -----

  /** The frame is stored. */
  predicate Admits(c: Chip, f: Frame)
    requires Wf(c) && f.Valid()
  {
    && ReceptionEnabled(c)
    && FilterFrame(c, f) == Ok(true)
    && RxStatus(c, f).Ok?
    && Sane(c)
    && FitsInBuffer(c, f)
  }

  /** What is stored of it. */
  function RecordOf(c: Chip, f: Frame): Record
    requires Wf(c) && f.Valid() && RxStatus(c, f).Ok?
  {
    Stored(f, RxStatus(c, f).value)
  }

  /** The registers that place the ring. */
  predicate PlacesRing(reg: nat) {
    ERXSTL <= reg <= ERXNDH || reg == ERXWRPTL || reg == ERXWRPTL + 1
  }

  /** The register a command with an argument is for. */
  function Target(c: Chip): (m: nat)
    requires Wf(c)
    ensures m < 0x80
  {
    MapRegister(c, c.cmd % 0x20)
  }

  /** The value it asks for. */
  function Wanted(c: Chip, b: byte): byte
    requires Wf(c)
  {
    if c.cmd / 0x20 == 5 then And(c.regs[Target(c)], Not(b))
    else if c.cmd / 0x20 == 4 then Or(c.regs[Target(c)], b)
    else b
  }

  function Adjusted(c: Chip, b: byte): byte
    requires Wf(c)
  {
    AdjustRegWrite(Target(c), Wanted(c, b), c.regs[Target(c)])
  }

  predicate WritesRegister(c: Chip) {
    c.cmd / 0x20 in {2, 4, 5}
  }

  /** ERXRDPT may move over stored bytes only. */
  predicate MayFree(c: Chip, p: nat)
    requires Wf(c)
  {
    var r, rd, wr := RingOf(c), Get16(c.regs, ERXRDPTL), Get16(c.regs, ERXWRPTL);
    r.Valid() && r.Has(rd) && r.Has(wr) && r.Has(p) && r.Gap(rd, p) <= r.Gap(rd, wr)
  }

  /** The cell holds a stored byte that is not freed. */
  predicate InUse(c: Chip, p: nat)
    requires Wf(c)
  {
    var r, rd, wr := RingOf(c), Get16(c.regs, ERXRDPTL), Get16(c.regs, ERXWRPTL);
    r.Valid() && r.Has(rd) && r.Has(wr) && r.Has(p) && r.Gap(rd, p) < r.Gap(rd, wr)
  }

  /** Frames arrive at any time; they carry a check sequence and meet no unsupported filter, and those that are
      admitted fit and can be counted. The host sends what it likes, commands and arguments in any order, except
      what the chip throws at and what is outside the model; it does not place the ring anew, frees only
      stored bytes, and does not write over unfreed ones. */
  predicate Allowed(c: Chip, e: Event)
    requires Wf(c)
  {
    match e
    case Select(_) => true
    case Arrive(f) =>
      && f.Valid()
      && f.fcs.Some?
      && FilterFrame(c, f).Ok?
      && (Admits(c, f) ==> PaddedSize(f) <= FreeSpace(c) && c.regs[EPKTCNT] < 0xff)
    case Spi(b) =>
      && (c.state == ReceivingCommand || c.state == ReceivingCommandArg ==> HandleSpiData(c, b).Ok?)
      && (c.state == ReceivingBufferData ==> !InUse(c, Get16(c.regs, EWRPTL)))
      && (c.state == ReceivingCommandArg && WritesRegister(c) ==>
            && !PlacesRing(Target(c))
            && (Target(c) == ERXRDPTH ==> MayFree(c, Word(Adjusted(c, b), c.shadow))))
  }

  function WithPacket(c: Chip, t: Trace, rec: Record): Trace
    requires Wf(c)
  {
    var next := NextWrite(c, rec);
    t.(packets := t.packets + [rec], stream := t.stream + [LowByte(next), HighByte(next)] + rec)
  }

  /** Where the write pointer stands after `rec` is loaded. */
  function NextWrite(c: Chip, rec: Record): nat
    requires Wf(c)
  {
    var r, wr := RingOf(c), Get16(c.regs, ERXWRPTL);
    if r.Valid() && r.Has(wr) then r.Advance(wr, 2 + |rec|) else 0
  }

  /** The place in the stream of the cell at ERDPT. */
  function ReadPlace(c: Chip, t: Trace): nat
    requires Wf(c) && InUse(c, Get16(c.regs, ERDPTL))
  {
    t.gone + RingOf(c).Gap(Get16(c.regs, ERXRDPTL), Get16(c.regs, ERDPTL))
  }

  /** A read of an unfreed cell is noted with its place. */
  function WithRead(c: Chip, t: Trace): Trace
    requires Wf(c)
  {
    if InUse(c, Get16(c.regs, ERDPTL)) && RespondWithBufferData(c).Ok? then
      t.(seen := t.seen + [(ReadPlace(c, t), RespondWithBufferData(c).value.1)])
    else t
  }

  function WithWrite(c: Chip, t: Trace, b: byte): Trace
    requires Wf(c)
  {
    if Target(c) == ECON2 && BitSet(Adjusted(c, b), 6) && c.regs[EPKTCNT] > 0 then t.(acked := t.acked + 1)
    else if Target(c) == ERXRDPTH && MayFree(c, Word(Adjusted(c, b), c.shadow)) then
      t.(gone := t.gone + RingOf(c).Gap(Get16(c.regs, ERXRDPTL), Word(Adjusted(c, b), c.shadow)))
    else t
  }

  /** The history after an event. */
  function NextTrace(c: Chip, t: Trace, e: Event): Trace
    requires Wf(c) && (e.Arrive? ==> e.f.Valid())
  {
    match e
    case Select(_) => t
    case Arrive(f) => if Admits(c, f) then WithPacket(c, t, RecordOf(c, f)) else t
    case Spi(b) =>
      if c.state == RespondingWithBufferData then WithRead(c, t)
      else if c.state == ReceivingCommandArg && WritesRegister(c) then WithWrite(c, t, b)
      else t
  }

  // ----- reading and writing the buffer -----

  lemma InvIsSane(c: Chip, t: Trace)
    requires Inv(c, t)
    ensures Wf(c) && Sane(c)
    ensures Used(c) == |t.stream| - t.gone
  {
    WritePointerEven(ViewOf(c), t);
    UseIsUnfreed(ViewOf(c), t);
  }

  lemma InUseIsHeld(c: Chip, t: Trace, p: nat)
    requires Inv(c, t)
    ensures InUse(c, p) == Holds(ViewOf(c), t, p)
  {
    hide Ring.Gap, Ring.Advance, Take, Encode;
    UseIsUnfreed(ViewOf(c), t);
  }

  lemma SelectKeeps(c: Chip, t: Trace, on: bool)
    requires Inv(c, t)
    ensures Inv(OnSpiSlaveSelect(c, on), t)
    ensures OnSpiSlaveSelect(c, on) == c.(state := if on then ReceivingCommand else c.state)
  {
  }

  /** Steps that leave the ring alone keep the invariant if they keep the control bits. */
  lemma SameRingKeeps(c: Chip, t: Trace, d: Chip, u: Trace)
    requires Inv(c, t) && Wf(d) && ViewOf(d) == ViewOf(c) && Control(d, u)
    requires u == t.(acked := u.acked)
    ensures Inv(d, u)
  {
    hide Take, Encode, Ring.Advance;
  }

  lemma Set16Get16(regs: seq<byte>, low: nat, v: word)
    requires low + 1 < |regs|
    ensures Get16(Set16(regs, low, v), low) == v
  {
    PartsOfWord(v);
  }

  /** A read answers the byte at ERDPT and, autoincrementing, moves ERDPT one cell on, around the end of the
      ring; nothing else changes. */
  lemma ReadStep(c: Chip)
    requires Wf(c) && c.regs[ERDPTL + 1] < 0x20 && c.regs[ERXSTH] < 0x20
    ensures RespondWithBufferData(c).Ok?
    ensures var ((d, b), p) := (RespondWithBufferData(c).value, Get16(c.regs, ERDPTL));
            && p < 0x2000 && b == c.buf[p]
            && Wf(d) && d == c.(regs := d.regs) && d.regs[ERDPTL + 1] < 0x20
            && (forall i :: 2 <= i < 0x80 ==> d.regs[i] == c.regs[i])
            && Get16(d.regs, ERDPTL) ==
               (if !BitSet(c.regs[ECON2], 7) then p
                else if p == Get16(c.regs, ERXNDL) then Get16(c.regs, ERXSTL) else (p + 1) % 0x2000)
  {
    hide BitSet, Get16, Set16;
    PointerInside(c.regs, ERDPTL);
    PointerInside(c.regs, ERXSTL);
    var p := Get16(c.regs, ERDPTL);
    PointerSet(c.regs, ERDPTL, if p == Get16(c.regs, ERXNDL) then Get16(c.regs, ERXSTL) else (p + 1) % 0x2000);
  }

  lemma PointerInside(regs: seq<byte>, low: nat)
    requires low + 1 < |regs| && regs[low + 1] < 0x20
    ensures Get16(regs, low) < 0x2000
  {
  }

  lemma PointerSet(regs: seq<byte>, low: nat, v: nat)
    requires low + 1 < |regs| && v < 0x2000
    ensures var regs' := Set16(regs, low, v);
            && Get16(regs', low) == v && regs'[low + 1] < 0x20
            && forall i :: 0 <= i < |regs| && i != low && i != low + 1 ==> regs'[i] == regs[i]
  {
    Set16Get16(regs, low, v);
    assert HighByte(v) < 0x20;
  }

  /** A host read of an unfreed cell answers the stream's byte at its place. */
  lemma ReadAnswers(c: Chip, t: Trace, b: byte)
    requires Inv(c, t) && c.state == RespondingWithBufferData
    ensures HandleSpiData(c, b).Ok?
    ensures InUse(c, Get16(c.regs, ERDPTL)) ==>
              ReadPlace(c, t) < |t.stream| && HandleSpiData(c, b).value.1 == t.stream[ReadPlace(c, t)]
  {
    ReadStep(c);
    var p := Get16(c.regs, ERDPTL);
    InUseIsHeld(c, t, p);
    if InUse(c, p) {
      HeldByte(ViewOf(c), t, p);
    }
  }

  lemma SeenMore(c: Chip, t: Trace, k: nat, x: byte)
    requires Inv(c, t) && k < |t.stream| && t.stream[k] == x
    ensures Inv(c, t.(seen := t.seen + [(k, x)]))
  {
    hide Take, Encode, Ring.Advance;
  }

  lemma ReadMoves(c: Chip, t: Trace)
    requires Inv(c, t)
    ensures RespondWithBufferData(c).Ok? && Inv(RespondWithBufferData(c).value.0, t)
  {
    ReadStep(c);
    var d := RespondWithBufferData(c).value.0;
    hide RespondWithBufferData, Get16, BitSet;
    SameRingKeeps(c, t, d, t);
  }

  lemma ReadKeepsInv(c: Chip, t: Trace, b: byte)
    requires Inv(c, t) && c.state == RespondingWithBufferData
    ensures HandleSpiData(c, b).Ok?
    ensures Inv(HandleSpiData(c, b).value.0, NextTrace(c, t, Spi(b)))
  {
    ReadAnswers(c, t, b);
    ReadMoves(c, t);
    assert HandleSpiData(c, b) == RespondWithBufferData(c);
    assert Wf(c);
    hide RespondWithBufferData, InUse, Get16, Inv, ReadPlace, Wf;
    if InUse(c, Get16(c.regs, ERDPTL)) {
      SeenMore(HandleSpiData(c, b).value.0, t, ReadPlace(c, t), HandleSpiData(c, b).value.1);
    }
  }

  /** A buffer write outside the unfreed cells leaves the stream alone. */
  lemma WriteBufferKeeps(c: Chip, t: Trace, b: byte)
    requires Inv(c, t) && c.state == ReceivingBufferData && !InUse(c, Get16(c.regs, EWRPTL))
    ensures HandleBufferData(c, b).Ok? && Inv(HandleBufferData(c, b).value, t)
  {
    var p := Get16(c.regs, EWRPTL);
    InUseIsHeld(c, t, p);
    OtherCellKeeps(ViewOf(c), t, p, b);
    WriteStep(c, b);
    var d := HandleBufferData(c, b).value;
    hide HandleBufferData, InUse, Take, Encode, Ring.Advance, Holds;
    assert ViewOf(d) == ViewOf(c).(buf := c.buf[p := b]);
  }

  lemma WriteStep(c: Chip, b: byte)
    requires Wf(c) && c.regs[EWRPTL + 1] < 0x20
    ensures HandleBufferData(c, b).Ok?
    ensures var (d, p) := (HandleBufferData(c, b).value, Get16(c.regs, EWRPTL));
            && p < 0x2000 && Wf(d) && d == c.(buf := c.buf[p := b], regs := d.regs) && d.regs[EWRPTL + 1] < 0x20
            && (forall i :: 0 <= i < 0x80 && i != EWRPTL && i != EWRPTL + 1 ==> d.regs[i] == c.regs[i])
            && Get16(d.regs, ERXRDPTL) == Get16(c.regs, ERXRDPTL) && Get16(d.regs, ERXWRPTL) == Get16(c.regs, ERXWRPTL)
            && RingOf(d) == RingOf(c)
  {
    hide BitSet, Set16;
    PointerInside(c.regs, EWRPTL);
    PointerSet(c.regs, EWRPTL, (Get16(c.regs, EWRPTL) + 1) % 0x2000);
  }

  // ----- writing registers -----

  /** Every command with an argument stores a register, if it does not throw. */
  lemma ArgumentStores(c: Chip, b: byte)
    requires Wf(c) && HandleCommandArg(c, b).Ok?
    ensures HandleCommandArg(c, b) == if WritesRegister(c) then StoreReg(c, Target(c), Wanted(c, b)) else Ok(c)
  {
    hide StoreReg, And, Or, Not, MapRegister, IsMacReg, IsMiiReg;
  }

  /** A write to any register but four changes that register and nothing else. */
  lemma PlainStore(c: Chip, reg: nat, wanted: byte)
    requires Wf(c) && reg < 0x80 && reg !in {ECON2, ERXRDPTL, ERXRDPTH} && StoreReg(c, reg, wanted).Ok?
    ensures var v := AdjustRegWrite(reg, wanted, c.regs[reg]);
            && StoreReg(c, reg, wanted).value == c.(regs := c.regs[reg := v], state := ReceivingCommand)
            && (reg == ECON1 ==> !BitSet(v, 3))
  {
    hide AdjustRegWrite, BitSet;
  }

  lemma PointerStaysInside(reg: nat, wanted: byte, prev: byte)
    requires reg in {ERDPTL + 1, EWRPTL + 1, ERXRDPTH} && prev < 0x20
    ensures AdjustRegWrite(reg, wanted, prev) < 0x20
  {
    AdjustPointerHigh(reg, wanted, prev);
  }

  lemma PlainStoreKeeps(c: Chip, t: Trace, reg: nat, wanted: byte)
    requires Inv(c, t) && reg < 0x80 && reg !in {ECON2, ERXRDPTL, ERXRDPTH} && !PlacesRing(reg)
    requires StoreReg(c, reg, wanted).Ok?
    ensures Inv(StoreReg(c, reg, wanted).value, t)
  {
    hide StoreReg, BitSet, AdjustRegWrite;
    PlainStore(c, reg, wanted);
    var d := StoreReg(c, reg, wanted).value;
    var v := AdjustRegWrite(reg, wanted, c.regs[reg]);
    if reg == ERDPTL + 1 || reg == EWRPTL + 1 {
      PointerStaysInside(reg, wanted, c.regs[reg]);
    } else if reg == EPKTCNT {
      AdjustReadOnly(reg, wanted, c.regs[reg]);
    }
    hide Inv, Control;
    SameRingKeeps(c, t, d, t);
  }

  /** Writing ERXRDPTL only fills the shadow register. */
  lemma LatchStep(c: Chip, wanted: byte)
    requires Wf(c)
    ensures StoreReg(c, ERXRDPTL, wanted) ==
            Ok(c.(shadow := AdjustRegWrite(ERXRDPTL, wanted, c.regs[ERXRDPTL]), state := ReceivingCommand))
  {
    hide AdjustRegWrite;
    var v := AdjustRegWrite(ERXRDPTL, wanted, c.regs[ERXRDPTL]);
    assert c.regs[ERXRDPTL := v][ERXRDPTL := c.regs[ERXRDPTL]] == c.regs;
  }

  /** Writing ERXRDPTH moves both bytes of the free pointer at once. */
  lemma FreeStep(c: Chip, wanted: byte)
    requires Wf(c)
    ensures var v := AdjustRegWrite(ERXRDPTH, wanted, c.regs[ERXRDPTH]);
            && StoreReg(c, ERXRDPTH, wanted)
               == Ok(c.(regs := c.regs[ERXRDPTH := v][ERXRDPTL := c.shadow], state := ReceivingCommand))
            && Wf(StoreReg(c, ERXRDPTH, wanted).value)
            && ViewOf(StoreReg(c, ERXRDPTH, wanted).value) == ViewOf(c).(rd := Word(v, c.shadow))
  {
    hide AdjustRegWrite;
  }

  lemma FreeKeepsInv(c: Chip, t: Trace, wanted: byte)
    requires Inv(c, t)
    requires MayFree(c, Word(AdjustRegWrite(ERXRDPTH, wanted, c.regs[ERXRDPTH]), c.shadow))
    ensures var p := Word(AdjustRegWrite(ERXRDPTH, wanted, c.regs[ERXRDPTH]), c.shadow);
            && StoreReg(c, ERXRDPTH, wanted).Ok?
            && Inv(StoreReg(c, ERXRDPTH, wanted).value,
                   t.(gone := t.gone + RingOf(c).Gap(Get16(c.regs, ERXRDPTL), p)))
  {
    hide StoreReg, AdjustRegWrite, BitSet, RxStream.Inv, Word, MayFree, Control, Get16;
    FreeStep(c, wanted);
    HighInside(c, t);
    PointerStaysInside(ERXRDPTH, wanted, c.regs[ERXRDPTH]);
    FreedPointer(c, t, StoreReg(c, ERXRDPTH, wanted).value, AdjustRegWrite(ERXRDPTH, wanted, c.regs[ERXRDPTH]));
  }

  lemma HighInside(c: Chip, t: Trace)
    requires Inv(c, t)
    ensures Wf(c) && c.regs[ERXRDPTH] < 0x20
  {
  }

  lemma FreedPointer(c: Chip, t: Trace, d: Chip, v: byte)
    requires Inv(c, t) && v < 0x20 && MayFree(c, Word(v, c.shadow))
    requires d == c.(regs := c.regs[ERXRDPTH := v][ERXRDPTL := c.shadow], state := ReceivingCommand)
    requires Wf(d) && ViewOf(d) == ViewOf(c).(rd := Word(v, c.shadow))
    ensures Inv(d, t.(gone := t.gone + RingOf(c).Gap(Get16(c.regs, ERXRDPTL), Word(v, c.shadow))))
  {
    hide RxStream.Inv, Word, MayFree, Control, Get16;
    FreedControl(c, t, d, v);
    FreedInv(c, t, d, Word(v, c.shadow));
  }

  lemma FreedControl(c: Chip, t: Trace, d: Chip, v: byte)
    requires Wf(c) && Control(c, t) && v < 0x20
    requires d == c.(regs := c.regs[ERXRDPTH := v][ERXRDPTL := c.shadow], state := ReceivingCommand)
    ensures Wf(d) && Control(d, t)
  {
    hide BitSet;
  }

  lemma FreedInv(c: Chip, t: Trace, d: Chip, p: nat)
    requires Inv(c, t) && Wf(d) && MayFree(c, p) && ViewOf(d) == ViewOf(c).(rd := p) && Control(d, t)
    ensures Inv(d, t.(gone := t.gone + RingOf(c).Gap(Get16(c.regs, ERXRDPTL), p)))
  {
    hide Get16, Take, Encode, Ring.Advance, Ring.Gap;
    FreedTo(ViewOf(c), t, p);
    var n := t.gone + RingOf(c).Gap(Get16(c.regs, ERXRDPTL), p);
  }

  /** A cell of the unfreed part, as a place of the stream. */
  lemma FreedTo(v: View, t: Trace, p: nat)
    requires Placed(v, t) && v.r.Has(v.rd) && v.r.Has(v.wr) && v.r.Has(p) && v.r.Gap(v.rd, p) <= v.r.Gap(v.rd, v.wr)
    ensures t.gone + v.r.Gap(v.rd, p) <= |t.stream| && v.r.Advance(t.start, t.gone + v.r.Gap(v.rd, p)) == p
  {
    hide Take;
    UseIsUnfreed(v, t);
    AdvanceAdd(v.r, t.start, t.gone, v.r.Gap(v.rd, p));
    AdvanceByGap(v.r, v.rd, p);
  }

  /** A write to ECON2 lowers EPKTCNT, by one, exactly when the register then has PKTDEC set and a packet is
      counted; PKTDEC stays set until it is cleared, so a later write to ECON2 may count again. */
  lemma Econ2LowersIff(c: Chip, wanted: byte)
    requires Wf(c)
    ensures StoreReg(c, ECON2, wanted).Ok?
    ensures var (d, v) := (StoreReg(c, ECON2, wanted).value, AdjustRegWrite(ECON2, wanted, c.regs[ECON2]));
            && d.regs[EPKTCNT] == c.regs[EPKTCNT] - (if BitSet(v, 6) && c.regs[EPKTCNT] > 0 then 1 else 0)
            && d.regs[ECON2] == v && BitSet(v, 6) == BitSet(wanted, 6)
            && Wf(d) && d == c.(regs := d.regs, state := ReceivingCommand)
            && (forall i :: 0 <= i < 0x80 && i !in {ECON2, EIR, EPKTCNT} ==> d.regs[i] == c.regs[i])
  {
    hide AdjustRegWrite, BitSet, And;
    AdjustPktDec(c.regs[ECON2], wanted);
  }

  lemma OrKeepsBit(x: byte, mask: byte)
    ensures BitSet(x, 6) || BitSet(mask, 6) ==> BitSet(Or(x, mask), 6)
  {
    hide Or, Bits8;
    OrBit(x, mask, 1);
  }

  lemma SetAcknowledges(c: Chip, mask: byte)
    requires Wf(c) && c.regs[EPKTCNT] > 0 && (BitSet(c.regs[ECON2], 6) || BitSet(mask, 6))
    ensures StoreReg(c, ECON2, Or(c.regs[ECON2], mask)).Ok?
    ensures var d := StoreReg(c, ECON2, Or(c.regs[ECON2], mask)).value;
            Wf(d) && d.regs[EPKTCNT] == c.regs[EPKTCNT] - 1 && BitSet(d.regs[ECON2], 6)
  {
    hide StoreReg, Or, AdjustRegWrite, BitSet;
    Econ2LowersIff(c, Or(c.regs[ECON2], mask));
    OrKeepsBit(c.regs[ECON2], mask);
  }

  /** After setting PKTDEC, setting another bit of ECON2 acknowledges a second packet. */
  lemma PktDecCountsAgain(c: Chip, d: Chip, e: Chip)
    requires Wf(c) && Wf(d) && c.regs[EPKTCNT] >= 2
    requires StoreReg(c, ECON2, Or(c.regs[ECON2], 0x40)) == Ok(d)
    requires StoreReg(d, ECON2, Or(d.regs[ECON2], 0x80)) == Ok(e)
    ensures |e.regs| == 0x80 && e.regs[EPKTCNT] == c.regs[EPKTCNT] - 2
  {
    assert BitSet(0x40, 6);
    hide StoreReg, Or, BitSet;
    SetAcknowledges(c, 0x40);
    SetAcknowledges(d, 0x80);
  }

  lemma Econ2Keeps(c: Chip, t: Trace, wanted: byte)
    requires Inv(c, t)
    ensures StoreReg(c, ECON2, wanted).Ok?
    ensures var v := AdjustRegWrite(ECON2, wanted, c.regs[ECON2]);
            Inv(StoreReg(c, ECON2, wanted).value,
                if BitSet(v, 6) && c.regs[EPKTCNT] > 0 then t.(acked := t.acked + 1) else t)
  {
    hide StoreReg, AdjustRegWrite, BitSet, RxStream.Inv;
    Econ2LowersIff(c, wanted);
    var v := AdjustRegWrite(ECON2, wanted, c.regs[ECON2]);
    var d := StoreReg(c, ECON2, wanted).value;
    SameRingKeeps(c, t, d, if BitSet(v, 6) && c.regs[EPKTCNT] > 0 then t.(acked := t.acked + 1) else t);
  }

  lemma LatchKeeps(c: Chip, t: Trace, wanted: byte)
    requires Inv(c, t)
    ensures StoreReg(c, ERXRDPTL, wanted).Ok? && Inv(StoreReg(c, ERXRDPTL, wanted).value, t)
  {
    LatchStep(c, wanted);
    hide StoreReg, AdjustRegWrite;
    SameRingKeeps(c, t, StoreReg(c, ERXRDPTL, wanted).value, t);
  }

  lemma ArgumentKeeps(c: Chip, t: Trace, b: byte)
    requires Inv(c, t) && c.state == ReceivingCommandArg && Allowed(c, Spi(b))
    ensures HandleCommandArg(c, b).Ok?
    ensures Inv(HandleCommandArg(c, b).value, NextTrace(c, t, Spi(b)))
  {
    hide StoreReg, HandleCommandArg, Inv, AdjustRegWrite, Wanted, MayFree, BitSet, PlacesRing, Target, Word;
    InvIsSane(c, t);
    QuietOk(c, b);
    ArgumentStores(c, b);
    if WritesRegister(c) {
      var reg, wanted := Target(c), Wanted(c, b);
      if reg == ECON2 {
        Econ2Keeps(c, t, wanted);
      } else if reg == ERXRDPTL {
        LatchKeeps(c, t, wanted);
      } else if reg == ERXRDPTH {
        FreeKeepsInv(c, t, wanted);
      } else {
        PlainStoreKeeps(c, t, reg, wanted);
      }
    }
  }

  lemma QuietOk(c: Chip, b: byte)
    requires Wf(c) && HandleSpiData(c, b).Ok? && c.state == ReceivingCommandArg
    ensures HandleCommandArg(c, b).Ok? && HandleSpiData(c, b).value.0 == HandleCommandArg(c, b).value
  {
    hide HandleCommandArg;
  }

  /** A command byte changes the state of the command machine only. */
  lemma CommandStep(c: Chip, b: byte)
    requires Wf(c) && HandleCommandStart(c, b).Ok?
    ensures var d := HandleCommandStart(c, b).value; d == c.(state := d.state, cmd := d.cmd, response := d.response)
  {
    hide MapRegister, IsMacReg, IsMiiReg, BitSet;
  }

  lemma CommandKeeps(c: Chip, t: Trace, b: byte)
    requires Inv(c, t) && HandleCommandStart(c, b).Ok?
    ensures Inv(HandleCommandStart(c, b).value, t)
  {
    CommandStep(c, b);
    hide HandleCommandStart;
    SameRingKeeps(c, t, HandleCommandStart(c, b).value, t);
  }

  /** Every SPI byte the host may send keeps the invariant. */
  lemma SpiKeeps(c: Chip, t: Trace, b: byte)
    requires Inv(c, t) && Allowed(c, Spi(b))
    ensures HandleSpiData(c, b).Ok?
    ensures Inv(HandleSpiData(c, b).value.0, NextTrace(c, t, Spi(b)))
  {
    hide HandleCommandStart, HandleCommandArg, HandleBufferData, RespondWithBufferData, InUse, WithRead, WithWrite;
    match c.state
    case ReceivingCommand => CommandKeeps(c, t, b);
    case ReceivingCommandArg =>
      QuietOk(c, b);
      ArgumentKeeps(c, t, b);
    case ReceivingBufferData => WriteBufferKeeps(c, t, b);
    case RespondingWithBufferData => ReadKeepsInv(c, t, b);
    case PreResponding => SameRingKeeps(c, t, HandleSpiData(c, b).value.0, t);
    case Responding => SameRingKeeps(c, t, HandleSpiData(c, b).value.0, t);
  }

  // ----- frames -----

  /** An admitted frame is loaded; any other leaves the chip as it is. */
  lemma ReceiveCases(c: Chip, f: Frame)
    requires Wf(c) && f.Valid() && f.fcs.Some? && FilterFrame(c, f).Ok? && Sane(c)
    ensures Receive(c, f).Ok? && RxStatus(c, f).Ok?
    ensures Receive(c, f).value == if Admits(c, f) then Loaded(c, RecordOf(c, f)) else c
  {
    hide FilterFrame, ReceptionEnabled, Loaded, FitsInBuffer, Stored;
  }

  lemma StoredEven(f: Frame, status: seq<byte>)
    requires |status| == 4
    ensures |Stored(f, status)| % 2 == 0
  {
  }

  /** Loading, on the ring and its pointers. */
  lemma LoadedView(c: Chip, rec: Record)
    requires Wf(c) && InPlace(c)
    ensures var r, wr := RingOf(c), Get16(c.regs, ERXWRPTL);
            ViewOf(Loaded(c, rec))
            == ViewOf(c).(wr := r.Advance(wr, 2 + |rec|), buf := WriteAll(c.buf, r, wr, PacketBytes(r, wr, rec)))
  {
    LoadedKeeps(c, rec);
  }

  lemma Regroup(a: seq<byte>, b: seq<byte>, c: seq<byte>)
    ensures a + b + c == a + (b + c)
  {
  }

  lemma LoadPlaced(v: View, t: Trace, data: seq<byte>, v': View, t': Trace)
    requires Placed(v, t) && |t.stream| - t.gone + |data| < v.r.Size()
    requires v' == v.(wr := v.r.Advance(v.wr, |data|), buf := WriteAll(v.buf, v.r, v.wr, data))
    requires t' == t.(packets := t'.packets, stream := t.stream + data)
    ensures Placed(v', t')
  {
    hide WriteAll, Take, Ring.Advance, Ring.Gap;
    ReadBack(v.buf, v.r, v.wr, data);
    UnfreedKept(v, t, data);
    LoadKeeps(v, t, data, v', t');
  }

  lemma UnfreedKept(v: View, t: Trace, data: seq<byte>)
    requires Placed(v, t) && |t.stream| - t.gone + |data| < v.r.Size()
    ensures var n := |t.stream| - t.gone;
            Take(WriteAll(v.buf, v.r, v.wr, data), v.r, v.rd, n) == Take(v.buf, v.r, v.rd, n)
  {
    hide WriteAll, Take, Ring.Advance, Ring.Gap;
    UseIsUnfreed(v, t);
    AdvanceByGap(v.r, v.rd, v.wr);
    OccupiedCellsKept(v.buf, v.r, v.rd, |t.stream| - t.gone, data);
  }

  lemma PacketBytesAre(r: Ring, wr: nat, rec: Record)
    requires r.Valid() && r.Has(wr) && 2 + |rec| < r.Size()
    ensures var next := r.Advance(wr, 2 + |rec|);
            PacketBytes(r, wr, rec) == [LowByte(next), HighByte(next)] + rec
  {
    NextPointerIsWritePointer(r, wr, 2 + |rec|);
  }

  lemma LoadStreams(v: View, t: Trace, rec: Record, next: nat, t': Trace)
    requires Placed(v, t) && Streams(v.r, t) && |rec| % 2 == 0 && |rec| + 2 < v.r.Size()
    requires next == v.r.Advance(v.wr, 2 + |rec|)
    requires t' == t.(packets := t.packets + [rec], stream := t.stream + [LowByte(next), HighByte(next)] + rec)
    ensures Streams(v.r, t')
  {
    hide Take, Encode, Ring.Advance, LowByte, HighByte;
    StreamIsEncoded(v.r, t);
    AdvanceAdd(v.r, t.start, |t.stream|, 2 + |rec|);
    hide Placed;
    StreamGrows(v.r, t, rec, next, t');
  }

  /** Loading a packet that fits appends it to the stream. */
  lemma LoadKeepsInv(c: Chip, t: Trace, rec: Record)
    requires Inv(c, t) && |rec| % 2 == 0
    requires 2 + |rec| <= FreeSpace(c) && c.regs[EPKTCNT] < 0xff
    ensures Inv(Loaded(c, rec), WithPacket(c, t, rec))
  {
    hide WriteAll, PacketBytes, Encode, Take;
    InvIsSane(c, t);
    FreeSpaceFormula(c);
    LoadedKeeps(c, rec);
    LoadedView(c, rec);
    var r, wr, next := RingOf(c), Get16(c.regs, ERXWRPTL), NextWrite(c, rec);
    PacketBytesAre(r, wr, rec);
    Regroup(t.stream, [LowByte(next), HighByte(next)], rec);
    LoadPlaced(ViewOf(c), t, PacketBytes(r, wr, rec), ViewOf(Loaded(c, rec)), WithPacket(c, t, rec));
    LoadStreams(ViewOf(c), t, rec, next, WithPacket(c, t, rec));
  }

  lemma ArriveKeeps(c: Chip, t: Trace, f: Frame)
    requires Inv(c, t) && Allowed(c, Arrive(f))
    ensures Receive(c, f).Ok?
    ensures Inv(Receive(c, f).value, NextTrace(c, t, Arrive(f)))
  {
    hide FilterFrame, Loaded, Stored, Receive, Inv, FreeSpace, InPlace, WithPacket, Admits, PaddedSize, RxStatus;
    InvIsSane(c, t);
    ReceiveCases(c, f);
    if Admits(c, f) {
      StoredSize(f, RxStatus(c, f).value);
      StoredEven(f, RxStatus(c, f).value);
      LoadKeepsInv(c, t, RecordOf(c, f));
    }
  }

  /** Every allowed event is carried out without error and keeps the invariant. */
  lemma EventKeeps(c: Chip, t: Trace, e: Event)
    requires Inv(c, t) && Allowed(c, e)
    ensures StepEvent(c, e).Ok? && Inv(StepEvent(c, e).value, NextTrace(c, t, e))
  {
    hide Inv, Allowed, Receive, HandleSpiData;
    match e
    case Arrive(f) => ArriveKeeps(c, t, f);
    case Select(on) => SelectKeeps(c, t, on);
    case Spi(b) => SpiKeeps(c, t, b);
  }

  // ----- whole runs -----

  /** Every event is allowed when its turn comes. */
  ghost predicate AllowedRun(c: Chip, es: seq<Event>)
    decreases |es|
  {
    es == [] ||
    (Wf(c) && Allowed(c, es[0]) && (StepEvent(c, es[0]).Ok? ==> AllowedRun(StepEvent(c, es[0]).value, es[1..])))
  }

  ghost function RunAll(c: Chip, t: Trace, es: seq<Event>): Step<(Chip, Trace)>
    requires AllowedRun(c, es)
    decreases |es|
  {
    if es == [] then Ok((c, t))
    else
      match StepEvent(c, es[0])
      case Ok(d) => RunAll(d, NextTrace(c, t, es[0]), es[1..])
      case Fail => Fail
      case Outside => Outside
  }

  lemma {:induction false} RunKeeps(c: Chip, t: Trace, es: seq<Event>)
    requires Inv(c, t) && AllowedRun(c, es)
    ensures RunAll(c, t, es).Ok?
    ensures Inv(RunAll(c, t, es).value.0, RunAll(c, t, es).value.1)
    decreases |es|
  {
    hide NextTrace, StepEvent;
    if es != [] {
      EventKeeps(c, t, es[0]);
      RunKeeps(StepEvent(c, es[0]).value, NextTrace(c, t, es[0]), es[1..]);
    }
  }

  lemma {:induction false} HistoryGrows(c: Chip, t: Trace, es: seq<Event>)
    requires AllowedRun(c, es) && RunAll(c, t, es).Ok?
    ensures var u := RunAll(c, t, es).value.1;
            && u.ring == t.ring && u.start == t.start
            && |t.packets| <= |u.packets| && u.packets[..|t.packets|] == t.packets
    decreases |es|
  {
    hide Allowed, StepEvent, WithRead, WithWrite, RecordOf;
    if es != [] {
      StepGrows(c, t, es[0]);
      hide NextTrace;
      var u := NextTrace(c, t, es[0]);
      HistoryGrows(StepEvent(c, es[0]).value, u, es[1..]);
      var v := RunAll(c, t, es).value.1;
      assert v.packets[..|t.packets|] == v.packets[..|u.packets|][..|t.packets|];
    }
  }

  lemma StepGrows(c: Chip, t: Trace, e: Event)
    requires Wf(c) && Allowed(c, e)
    ensures e.Arrive? ==> e.f.Valid()
    ensures var u := NextTrace(c, t, e);
            && u.ring == t.ring && u.start == t.start
            && |t.packets| <= |u.packets| && u.packets[..|t.packets|] == t.packets
  {
    hide Admits, RecordOf, InUse, MayFree, Adjusted, BitSet, RespondWithBufferData;
  }

  /** A ring with nothing in it, whatever else the registers hold. */
  ghost predicate Empty(c: Chip) {
    && Wf(c)
    && c.regs[ERXRDPTH] < 0x20
    && c.regs[ERDPTL + 1] < 0x20
    && c.regs[EWRPTL + 1] < 0x20
    && RingOf(c).Valid()
    && Even(RingOf(c))
    && RingOf(c).Has(Get16(c.regs, ERXWRPTL))
    && Get16(c.regs, ERXWRPTL) % 2 == 0
    && Get16(c.regs, ERXRDPTL) == Get16(c.regs, ERXWRPTL)
    && c.regs[EPKTCNT] == 0
    && !BitSet(c.regs[ECON1], 3)
  }

  function NoHistory(c: Chip): Trace
    requires Wf(c)
  {
    Trace(RingOf(c), Get16(c.regs, ERXWRPTL), [], [], 0, [], 0)
  }

  lemma EmptyIsInv(c: Chip)
    requires Empty(c)
    ensures Inv(c, NoHistory(c))
  {
  }

  /** In every allowed run from an empty ring no step fails and every sanity check passes; every byte the host
      has read of an unfreed cell is the byte at its place in the stream of admitted packets, which its
      next-packet pointers take apart into exactly those packets; and EPKTCNT is packets loaded less packets
      acknowledged. */
  lemma ReceptionIsAFifo(c: Chip, es: seq<Event>)
    requires Empty(c) && AllowedRun(c, es)
    ensures RunAll(c, NoHistory(c), es).Ok?
    ensures var (d, t) := RunAll(c, NoHistory(c), es).value;
            && Wf(d) && Sane(d)
            && SeenTrue(t)
            && RingOf(d).Has(t.start)
            && Follow(RingOf(d), t.start, t.stream) == Some(t.packets)
            && d.regs[EPKTCNT] == |t.packets| - t.acked
  {
    hide *;
    EmptyIsInv(c);
    RunKeeps(c, NoHistory(c), es);
    InvDelivers(RunAll(c, NoHistory(c), es).value.0, RunAll(c, NoHistory(c), es).value.1);
  }

  /** What the invariant says of the host's view. */
  lemma InvDelivers(d: Chip, t: Trace)
    requires Inv(d, t)
    ensures Wf(d) && Sane(d) && SeenTrue(t) && RingOf(d).Valid() && RingOf(d).Has(t.start)
    ensures Follow(RingOf(d), t.start, t.stream) == Some(t.packets)
    ensures d.regs[EPKTCNT] == |t.packets| - t.acked
  {
    hide Encode, Follow, Ring.Advance;
    InvIsSane(d, t);
    StreamIsEncoded(RingOf(d), t);
    FollowEncoded(RingOf(d), t.start, t.packets);
  }
}
