/** The receive path delivers: a driver that follows the next-packet pointers reads every packet, and a chip set
    up over SPI from reset takes frames in. */
module EncDelivery {
  import opened Steps
  import opened Wrappers
  import opened Bytes
  import opened RxRing
  import opened RxStream
  import opened EthFrame
  import opened EncChip
  import opened EncReception
  import opened EncRegisters
  import opened EncRuns

  /** The run of es from c leads to d, and the history from t to u. */
  ghost predicate Leads(c: Chip, t: Trace, es: seq<Event>, d: Chip, u: Trace) {
    AllowedRun(c, es) && RunAll(c, t, es) == Ok((d, u))
  }

  lemma LeadsOne(c: Chip, t: Trace, e: Event, d: Chip)
    requires Wf(c) && Allowed(c, e) && StepEvent(c, e) == Ok(d)
    ensures Leads(c, t, [e], d, NextTrace(c, t, e))
  {
    AllowedFrame(c, e);
    hide Allowed, StepEvent, NextTrace;
    assert [e][1..] == [];
    assert AllowedRun(d, []) && RunAll(d, NextTrace(c, t, e), []) == Ok((d, NextTrace(c, t, e)));
  }

  lemma AllowedFrame(c: Chip, e: Event)
    requires Wf(c) && Allowed(c, e)
    ensures e.Arrive? ==> e.f.Valid()
  {
  }

  lemma {:induction false} LeadsConcat(c: Chip, t: Trace, a: seq<Event>, d: Chip, u: Trace, b: seq<Event>, e: Chip,
      v: Trace)
    requires Leads(c, t, a, d, u) && Leads(d, u, b, e, v)
    ensures Leads(c, t, a + b, e, v)
    decreases |a|
  {
    hide Allowed, StepEvent, NextTrace;
    if a == [] {
      assert a + b == b;
    } else {
      assert (a + b)[0] == a[0] && (a + b)[1..] == a[1..] + b;
      AllowedFrame(c, a[0]);
      LeadsConcat(StepEvent(c, a[0]).value, NextTrace(c, t, a[0]), a[1..], d, u, b, e, v);
    }
  }

  // ----- reading at a place of the stream -----

  /** n dummy bytes in the read-buffer state. */
  function Reads(n: nat): seq<Event> {
    if n == 0 then [] else [Spi(0)] + Reads(n - 1)
  }

  /** n bytes of the stream from place k on, each with its place. */
  function Noted(stream: seq<byte>, k: nat, n: nat): seq<(nat, byte)>
    requires k + n <= |stream|
    decreases n
  {
    if n == 0 then [] else [(k, stream[k])] + Noted(stream, k + 1, n - 1)
  }

  /** The chip reads buffer memory, autoincrementing, at place k of the stream. */
  ghost predicate Reading(c: Chip, t: Trace, k: nat) {
    && EncRuns.Inv(c, t)
    && c.state == RespondingWithBufferData
    && BitSet(c.regs[ECON2], 7)
    && t.gone <= k
    && RingOf(c).Has(t.start)
    && Get16(c.regs, ERDPTL) == RingOf(c).Advance(t.start, k)
  }

  /** Nothing changed that the receive path or the driver looks at, but ERDPT and the command machine. */
  predicate Steady(d: Chip, c: Chip) {
    && |c.regs| == |d.regs| == 0x80
    && d.buf == c.buf && d.shadow == c.shadow && d.phyReset == c.phyReset
    && forall i :: 2 <= i < 0x80 ==> d.regs[i] == c.regs[i]
  }

  lemma PlaceInUse(c: Chip, t: Trace, k: nat)
    requires Reading(c, t, k) && k < |t.stream|
    ensures InUse(c, Get16(c.regs, ERDPTL)) && ReadPlace(c, t) == k
  {
    PlaceOfStep(ViewOf(c), t, k);
    InUseIsHeld(c, t, Get16(c.regs, ERDPTL));
  }

  lemma NextCell(r: Ring, p: nat)
    requires r.Valid() && r.Has(p)
    ensures p < 0x2000 && r.Next(p) == if p == r.nd then r.st else (p + 1) % 0x2000
  {
  }

  lemma PointerAdvances(c: Chip, t: Trace, k: nat, d: Chip)
    requires Reading(c, t, k) && RespondWithBufferData(c).Ok? && d == RespondWithBufferData(c).value.0
    ensures Get16(d.regs, ERDPTL) == RingOf(c).Advance(t.start, k + 1)
    ensures Steady(d, c) && d.state == c.state && RingOf(d) == RingOf(c)
  {
    ReadStep(c);
    NextCell(RingOf(c), Get16(c.regs, ERDPTL));
    hide RespondWithBufferData, Take, Encode;
  }

  lemma ReadIsAllowed(c: Chip)
    requires Wf(c) && c.state == RespondingWithBufferData && RespondWithBufferData(c).Ok?
    ensures HandleSpiData(c, 0) == RespondWithBufferData(c) && Allowed(c, Spi(0))
    ensures StepEvent(c, Spi(0)) == Ok(RespondWithBufferData(c).value.0)
  {
    hide RespondWithBufferData;
  }

  lemma ReadTrace(c: Chip, t: Trace, k: nat)
    requires Reading(c, t, k) && k < |t.stream|
    ensures RespondWithBufferData(c).Ok?
    ensures NextTrace(c, t, Spi(0)) == t.(seen := t.seen + [(k, t.stream[k])])
  {
    ReadAnswers(c, t, 0);
    PlaceInUse(c, t, k);
    ReadIsAllowed(c);
    hide RespondWithBufferData, InUse, Get16, EncRuns.Inv, ReadPlace, BitSet, Ring.Advance;
  }

  lemma OneRead(c: Chip, t: Trace, k: nat)
    requires Reading(c, t, k) && k < |t.stream|
    ensures Wf(c) && Allowed(c, Spi(0)) && StepEvent(c, Spi(0)).Ok?
    ensures var d := StepEvent(c, Spi(0)).value;
            var u := t.(seen := t.seen + [(k, t.stream[k])]);
            NextTrace(c, t, Spi(0)) == u && Reading(d, u, k + 1) && Steady(d, c)
  {
    ReadKeepsInv(c, t, 0);
    ReadTrace(c, t, k);
    ReadIsAllowed(c);
    PointerAdvances(c, t, k, RespondWithBufferData(c).value.0);
    hide RespondWithBufferData, Get16, EncRuns.Inv, NextTrace, Ring.Advance, HandleSpiData, Allowed, StepEvent;
  }

  lemma SteadyChains(e: Chip, d: Chip, c: Chip)
    requires Steady(e, d) && Steady(d, c)
    ensures Steady(e, c)
  {
  }

  /** Reading on from a place gives the bytes from there on. */
  lemma {:induction false} ReadsOn(c: Chip, t: Trace, k: nat, n: nat) returns (d: Chip)
    requires Reading(c, t, k) && k + n <= |t.stream|
    ensures Leads(c, t, Reads(n), d, t.(seen := t.seen + Noted(t.stream, k, n)))
    ensures Reading(d, t.(seen := t.seen + Noted(t.stream, k, n)), k + n) && Steady(d, c)
    decreases n
  {
    hide *;
    if n == 0 {
      d := c;
      NoReads(c, t, k);
    } else {
      OneRead(c, t, k);
      var m, u := StepEvent(c, Spi(0)).value, t.(seen := t.seen + [(k, t.stream[k])]);
      LeadsOne(c, t, Spi(0), m);
      d := ReadsOn(m, u, k + 1, n - 1);
      SteadyChains(d, m, c);
      NotedHead(t.seen, t.stream, k, n);
      MoreReads(n);
      LeadsConcat(c, t, [Spi(0)], m, u, Reads(n - 1), d, u.(seen := u.seen + Noted(t.stream, k + 1, n - 1)));
    }
  }

  lemma NoReads(c: Chip, t: Trace, k: nat)
    requires Reading(c, t, k) && k <= |t.stream|
    ensures Leads(c, t, Reads(0), c, t.(seen := t.seen + Noted(t.stream, k, 0)))
    ensures Reading(c, t.(seen := t.seen + Noted(t.stream, k, 0)), k) && Steady(c, c)
  {
    hide EncRuns.Inv;
    assert t.seen + [] == t.seen;
    assert Wf(c) by { ReadingIsWf(c, t, k); }
  }

  lemma ReadingIsWf(c: Chip, t: Trace, k: nat)
    requires Reading(c, t, k)
    ensures Wf(c)
  {
  }

  lemma MoreReads(n: nat)
    requires n > 0
    ensures Reads(n) == [Spi(0)] + Reads(n - 1)
  {
  }

  lemma NotedHead(seen: seq<(nat, byte)>, stream: seq<byte>, k: nat, n: nat)
    requires n > 0 && k + n <= |stream|
    ensures (seen + [(k, stream[k])]) + Noted(stream, k + 1, n - 1) == seen + Noted(stream, k, n)
  {
  }

  // ----- a driver's commands -----

  /** Selecting the chip and writing one control register. */
  function WriteControl(reg: nat, v: byte): seq<Event>
    requires reg < 0x20
  {
    [Select(true), Spi(0x40 + reg), Spi(v)]
  }

  /** The chip once it waits for the argument of a write. */
  function Addressed(c: Chip, reg: nat): Chip
    requires reg < 0x20
  {
    c.(state := ReceivingCommandArg, cmd := 0x40 + reg)
  }

  lemma CommandLeads(c: Chip, t: Trace, reg: nat)
    requires Wf(c) && reg < 0x20
    ensures Leads(c, t, [Select(true)] + [Spi(0x40 + reg)], Addressed(c, reg), t) && Wf(Addressed(c, reg))
  {
    var b := c.(state := ReceivingCommand);
    assert HandleCommandStart(b, 0x40 + reg) == Ok(Addressed(c, reg));
    hide HandleCommandStart;
    LeadsOne(c, t, Select(true), b);
    LeadsOne(b, t, Spi(0x40 + reg), Addressed(c, reg));
    hide Leads, Addressed, Allowed, StepEvent;
    LeadsConcat(c, t, [Select(true)], b, t, [Spi(0x40 + reg)], Addressed(c, reg), t);
  }

  /** The three events, if the write is allowed. */
  lemma WritesControl(c: Chip, t: Trace, reg: nat, v: byte)
    requires Wf(c) && reg < 0x20 && Allowed(Addressed(c, reg), Spi(v))
    ensures var a := Addressed(c, reg);
            StoreReg(a, Target(a), v).Ok?
            && Leads(c, t, WriteControl(reg, v), StoreReg(a, Target(a), v).value, NextTrace(a, t, Spi(v)))
  {
    var a := Addressed(c, reg);
    CommandLeads(c, t, reg);
    ArgumentStep(a, v);
    hide StoreReg, Allowed, NextTrace, Target, Addressed, StepEvent, Leads;
    var d := StoreReg(a, Target(a), v).value;
    LeadsOne(a, t, Spi(v), d);
    LeadsConcat(c, t, [Select(true)] + [Spi(0x40 + reg)], a, t, [Spi(v)], d, NextTrace(a, t, Spi(v)));
    assert ([Select(true)] + [Spi(0x40 + reg)]) + [Spi(v)] == WriteControl(reg, v);
  }

  lemma ArgumentStep(a: Chip, v: byte)
    requires Wf(a) && a.state == ReceivingCommandArg && a.cmd / 0x20 == 2 && Allowed(a, Spi(v))
    ensures StoreReg(a, Target(a), v).Ok? && StepEvent(a, Spi(v)) == Ok(StoreReg(a, Target(a), v).value)
  {
    hide HandleCommandArg, StoreReg, MayFree, Target;
    QuietOk(a, v);
    ArgumentStores(a, v);
  }

  /** ERDPT is written as it is asked for. */
  lemma PointerValue(reg: nat, v: byte, prev: byte)
    requires reg == ERDPTL || (reg == ERDPTL + 1 && prev < 0x20)
    requires reg == ERDPTL + 1 ==> v < 0x20
    ensures AdjustRegWrite(reg, v, prev) == v
  {
    if reg == ERDPTL {
      AdjustWhole(reg, v, prev);
    } else {
      AdjustPointerHigh(reg, v, prev);
    }
  }

  lemma AddressedTarget(c: Chip, reg: nat)
    requires Wf(c) && c.regs[ECON1] % 4 == 0 && reg < 0x20
    ensures var a := Addressed(c, reg); Wf(a) && Target(a) == reg && WritesRegister(a) && a.cmd / 0x20 == 2
  {
  }

  lemma AddressedStores(c: Chip, reg: nat, v: byte)
    requires Wf(c) && c.regs[ECON1] % 4 == 0 && reg < 0x20
    ensures Wf(Addressed(c, reg))
    ensures HandleSpiData(Addressed(c, reg), v) == Quiet(StoreReg(Addressed(c, reg), reg, v))
  {
    hide StoreReg, And, Or, Not;
  }

  lemma PointerStores(c: Chip, reg: nat, v: byte)
    requires Wf(c) && reg in {ERDPTL, ERDPTL + 1}
    ensures StoreReg(c, reg, v).Ok?
  {
    hide AdjustRegWrite;
  }

  lemma PointerWriteAllowed(c: Chip, t: Trace, reg: nat, v: byte)
    requires Wf(c) && c.regs[ECON1] % 4 == 0 && reg in {ERDPTL, ERDPTL + 1}
    ensures var a := Addressed(c, reg);
            Wf(a) && Target(a) == reg && Allowed(a, Spi(v)) && NextTrace(a, t, Spi(v)) == t
  {
    var a := Addressed(c, reg);
    assert a.state == ReceivingCommandArg;
    AddressedTarget(c, reg);
    AddressedStores(c, reg, v);
    PointerStores(a, reg, v);
    hide Addressed, HandleSpiData, StoreReg, AdjustRegWrite, MayFree, BitSet, Target, Wf;
  }

  /** What a write to half of ERDPT leaves. */
  function Pointed(c: Chip, reg: nat, v: byte): Chip
    requires reg < 2 <= |c.regs|
  {
    c.(regs := c.regs[reg := v], state := ReceivingCommand, cmd := 0x40 + reg)
  }

  lemma WritesPointer(c: Chip, t: Trace, reg: nat, v: byte)
    requires EncRuns.Inv(c, t) && c.regs[ECON1] % 4 == 0 && reg < 2 && (reg == 1 ==> v < 0x20)
    ensures |c.regs| == 0x80 && Leads(c, t, WriteControl(reg, v), Pointed(c, reg, v), t)
    ensures EncRuns.Inv(Pointed(c, reg, v), t)
  {
    PointerWriteAllowed(c, t, reg, v);
    WritesControl(c, t, reg, v);
    PointerWritten(c, t, reg, v);
    hide StoreReg, Allowed, NextTrace, Target, Addressed, Pointed, Leads, EncRuns.Inv, WriteControl;
    LeadsKeeps(c, t, WriteControl(reg, v), Pointed(c, reg, v), t);
  }

  lemma PointerWritten(c: Chip, t: Trace, reg: nat, v: byte)
    requires EncRuns.Inv(c, t) && reg < 2 && (reg == 1 ==> v < 0x20)
    ensures |c.regs| == 0x80 && Wf(Addressed(c, reg))
    ensures StoreReg(Addressed(c, reg), reg, v) == Ok(Pointed(c, reg, v))
  {
    PointerValue(reg, v, c.regs[reg]);
    PointerStores(Addressed(c, reg), reg, v);
    PlainStore(Addressed(c, reg), reg, v);
    hide StoreReg, AdjustRegWrite;
  }

  lemma LeadsKeeps(c: Chip, t: Trace, es: seq<Event>, d: Chip, u: Trace)
    requires EncRuns.Inv(c, t) && Leads(c, t, es, d, u)
    ensures EncRuns.Inv(d, u)
  {
    hide EncRuns.Inv;
    RunKeeps(c, t, es);
  }

  /** The driver sets ERDPT to cell p and asks to read. */
  function SeekEvents(p: word): seq<Event>
    requires p < 0x2000
  {
    (WriteControl(0, LowByte(p)) + WriteControl(1, HighByte(p))) + ([Select(true)] + [Spi(0x3a)])
  }

  function Sought(c: Chip, p: word): Chip
    requires |c.regs| == 0x80 && p < 0x2000
  {
    Pointed(Pointed(c, 0, LowByte(p)), 1, HighByte(p)).(state := RespondingWithBufferData)
  }

  lemma AsksToRead(c: Chip, t: Trace)
    requires EncRuns.Inv(c, t)
    ensures Leads(c, t, [Select(true)] + [Spi(0x3a)], c.(state := RespondingWithBufferData), t)
  {
    assert Wf(c);
    var b := c.(state := ReceivingCommand);
    assert HandleCommandStart(b, 0x3a) == Ok(c.(state := RespondingWithBufferData));
    hide HandleCommandStart, EncRuns.Inv;
    LeadsOne(c, t, Select(true), b);
    LeadsOne(b, t, Spi(0x3a), c.(state := RespondingWithBufferData));
    hide Leads, Allowed, StepEvent;
    LeadsConcat(c, t, [Select(true)], b, t, [Spi(0x3a)], c.(state := RespondingWithBufferData), t);
  }

  lemma Seeks(c: Chip, t: Trace, p: word)
    requires EncRuns.Inv(c, t) && c.regs[ECON1] % 4 == 0 && p < 0x2000
    ensures |c.regs| == 0x80 && Leads(c, t, SeekEvents(p), Sought(c, p), t)
  {
    hide *;
    var l, h := LowByte(p), HighByte(p);
    WritesPointer(c, t, 0, l);
    var m := Pointed(c, 0, l);
    PointedBasics(c, 0, l);
    HighBelow(p);
    WritesPointer(m, t, 1, h);
    var e := Pointed(m, 1, h);
    AsksToRead(e, t);
    LeadsConcat(c, t, WriteControl(0, l), m, t, WriteControl(1, h), e, t);
    LeadsConcat(c, t, WriteControl(0, l) + WriteControl(1, h), e, t, [Select(true)] + [Spi(0x3a)],
                e.(state := RespondingWithBufferData), t);
    SeekIs(c, p);
  }

  lemma PointedBasics(c: Chip, reg: nat, v: byte)
    requires |c.regs| == 0x80 && reg < 2
    ensures |Pointed(c, reg, v).regs| == 0x80 && Pointed(c, reg, v).regs[ECON1] == c.regs[ECON1]
  {
  }

  lemma HighBelow(p: word)
    requires p < 0x2000
    ensures HighByte(p) < 0x20
  {
  }

  lemma SeekIs(c: Chip, p: word)
    requires |c.regs| == 0x80 && p < 0x2000
    ensures var (l, h) := (LowByte(p), HighByte(p));
            && SeekEvents(p) == (WriteControl(0, l) + WriteControl(1, h)) + ([Select(true)] + [Spi(0x3a)])
            && |Pointed(c, 0, l).regs| == 0x80
            && Sought(c, p) == Pointed(Pointed(c, 0, l), 1, h).(state := RespondingWithBufferData)
  {
  }

  /** What a driver needs of the chip: register bank 0 and autoincrement. */
  ghost predicate Driven(c: Chip, t: Trace) {
    EncRuns.Inv(c, t) && c.regs[ECON1] % 4 == 0 && BitSet(c.regs[ECON2], 7)
  }

  lemma SoughtReads(c: Chip, t: Trace, k: nat)
    requires Driven(c, t) && t.gone <= k <= |t.stream|
    ensures RingOf(c).Has(t.start) && RingOf(c).Advance(t.start, k) < 0x2000 && |c.regs| == 0x80
    ensures var p: word := RingOf(c).Advance(t.start, k);
            Leads(c, t, SeekEvents(p), Sought(c, p), t) && Reading(Sought(c, p), t, k) && Steady(Sought(c, p), c)
  {
    assert RingOf(c).Valid() && RingOf(c).Has(t.start);
    var p: word := RingOf(c).Advance(t.start, k);
    Seeks(c, t, p);
    var d := Sought(c, p);
    RunKeeps(c, t, SeekEvents(p));
    PartsOfWord(p);
    assert Get16(d.regs, ERDPTL) == p;
    hide EncRuns.Inv, Leads, SeekEvents, BitSet, Get16;
    SteadyRing(d, c);
  }

  lemma SteadyRing(d: Chip, c: Chip)
    requires Wf(c) && Wf(d) && Steady(d, c)
    ensures RingOf(d) == RingOf(c)
  {
  }

  // ----- whole packets -----

  /** Where packet i starts in the stream. */
  function Boundary(packets: seq<Record>, i: nat): nat
    requires i <= |packets|
  {
    StreamLength(packets[..i])
  }

  /** Packet i in the stream: the cell where the next begins, low byte first, and what was stored. */
  lemma PacketInStream(r: Ring, start: nat, packets: seq<Record>, i: nat)
    requires r.Valid() && r.Has(start) && i < |packets|
    ensures Boundary(packets, i + 1) == Boundary(packets, i) + 2 + |packets[i]| <= StreamLength(packets)
    ensures var s, k := Encode(r, start, packets), Boundary(packets, i);
            var next := r.Advance(start, Boundary(packets, i + 1));
            s[k..k + 2 + |packets[i]|] == [LowByte(next), HighByte(next)] + packets[i]
  {
    var (a, b, rest) := (packets[..i], packets[..i + 1], packets[i + 1..]);
    assert b[..i] == a && b[i] == packets[i];
    assert packets == b + rest;
    EncodeConcat(r, start, b, rest);
    StreamLengthConcat(b, rest);
    var next := r.Advance(start, StreamLength(b));
    var (x, y, z) := (Encode(r, start, a), [LowByte(next), HighByte(next)] + packets[i], Encode(r, next, rest));
    assert Encode(r, start, b) == x + [LowByte(next), HighByte(next)] + packets[i];
    Middle(x, [LowByte(next), HighByte(next)], packets[i], z);
  }

  lemma Middle(x: seq<byte>, u: seq<byte>, v: seq<byte>, z: seq<byte>)
    ensures (x + u + v + z)[|x|..|x| + |u + v|] == u + v
  {
  }

  lemma PacketPlaces(c: Chip, t: Trace, i: nat)
    requires Driven(c, t) && i < |t.packets|
    ensures t.ring.Valid() && t.ring.Has(t.start)
    ensures Boundary(t.packets, i) + 2 + |t.packets[i]| == Boundary(t.packets, i + 1) <= |t.stream|
    ensures var k := Boundary(t.packets, i); t.stream[k..k + 2 + |t.packets[i]|] == StoredPacket(t, i)
  {
    hide Encode, Ring.Advance, LowByte, HighByte, Boundary, Control;
    StreamIsEncoded(RingOf(c), t);
    PacketInStream(RingOf(c), t.start, t.packets, i);
  }

  /** The bytes a driver sends to read n bytes from a cell on. */
  function ReadFrom(next: nat, n: nat): seq<Event> {
    if next < 0x2000 then SeekEvents(next) + Reads(n) else []
  }

  /** What is stored of packet i, its pointer first. */
  function StoredPacket(t: Trace, i: nat): seq<byte>
    requires t.ring.Valid() && t.ring.Has(t.start) && i < |t.packets|
  {
    var next := t.ring.Advance(t.start, Boundary(t.packets, i + 1));
    [LowByte(next), HighByte(next)] + t.packets[i]
  }

  /** The cell packet i begins at, or will. */
  function PacketCell(t: Trace, i: nat): nat
    requires t.ring.Valid() && t.ring.Has(t.start) && i <= |t.packets|
  {
    t.ring.Advance(t.start, Boundary(t.packets, i))
  }

  lemma RingIsKnown(c: Chip, t: Trace)
    requires Driven(c, t)
    ensures Wf(c) && RingOf(c) == t.ring && t.ring.Valid() && t.ring.Has(t.start)
  {
  }

  /** From any state a run can be in, in the middle of whatever command, a driver that sets ERDPT to an unfreed
      packet and reads some of it gets that packet's bytes: first the cell where the next packet begins,
      then the stored status and frame. It is left ready for the next packet. */
  lemma DriverReadsPacket(c: Chip, t: Trace, i: nat, n: nat) returns (d: Chip, u: Trace)
    requires Driven(c, t) && i < |t.packets| && t.gone <= Boundary(t.packets, i) && n <= 2 + |t.packets[i]|
    ensures t.ring.Valid() && t.ring.Has(t.start) && Boundary(t.packets, i) + n <= |t.stream|
    ensures u == t.(seen := t.seen + Noted(t.stream, Boundary(t.packets, i), n))
    ensures Leads(c, t, ReadFrom(PacketCell(t, i), n), d, u) && Driven(d, u)
    ensures var k := Boundary(t.packets, i);
            n <= |StoredPacket(t, i)| && t.stream[k..k + n] == StoredPacket(t, i)[..n]
  {
    hide *;
    RingIsKnown(c, t);
    PacketPlaces(c, t, i);
    DrivenIsInv(c, t);
    var k := Boundary(t.packets, i);
    CellsAre(t, i, n);
    SoughtReads(c, t, k);
    var e := Sought(c, PacketCell(t, i));
    d := ReadsOn(e, t, k, n);
    u := t.(seen := t.seen + Noted(t.stream, k, n));
    LeadsConcat(c, t, SeekEvents(PacketCell(t, i)), e, t, Reads(n), d, u);
    SteadyChains(d, e, c);
    StillDriven(c, t, d, u, k + n);
  }

  lemma CellsAre(t: Trace, i: nat, n: nat)
    requires t.ring.Valid() && t.ring.Has(t.start) && i < |t.packets|
    ensures PacketCell(t, i) == t.ring.Advance(t.start, Boundary(t.packets, i)) < 0x2000
    ensures ReadFrom(PacketCell(t, i), n) == SeekEvents(PacketCell(t, i)) + Reads(n)
    ensures |StoredPacket(t, i)| == 2 + |t.packets[i]|
  {
    hide Ring.Advance, SeekEvents, Reads, Boundary;
  }

  lemma DrivenIsInv(c: Chip, t: Trace)
    requires Driven(c, t)
    ensures EncRuns.Inv(c, t) && Wf(c)
  {
  }

  lemma StillDriven(c: Chip, t: Trace, d: Chip, u: Trace, k: nat)
    requires Driven(c, t) && Reading(d, u, k) && Steady(d, c)
    ensures Wf(c) && Wf(d) && Driven(d, u) && RingOf(d) == RingOf(c)
  {
    hide EncRuns.Inv;
    assert Wf(c) by { DrivenIsInv(c, t); }
    assert Wf(d) by { ReadingIsWf(d, u, k); }
    SteadyRing(d, c);
  }

  // ----- a driver that goes by what it reads -----

  /** One round of the driver: whatever else happens first, frames arriving, packets freed and acknowledged among
      it; then it reads n bytes of the next packet. */
  datatype Round = Round(others: seq<Event>, n: nat)

  /** The pointer at the beginning of the last n bytes read. */
  function PointerRead(seen: seq<(nat, byte)>, n: nat): word
    requires 2 <= n <= |seen|
  {
    Word(seen[|seen| - n + 1].1, seen[|seen| - n].1)
  }

  /** Where a run leads. */
  ghost function After(c: Chip, t: Trace, es: seq<Event>): (Chip, Trace) {
    if AllowedRun(c, es) && RunAll(c, t, es).Ok? then RunAll(c, t, es).value else (c, t)
  }

  lemma AfterLeads(c: Chip, t: Trace, es: seq<Event>, d: Chip, u: Trace)
    requires Leads(c, t, es, d, u)
    ensures After(c, t, es) == (d, u)
  {
  }

  /** The driver's rounds from packet i on. What happens before each is allowed, frees nothing from the packet on,
      and leaves bank 0 chosen and autoincrement on; the packet has arrived, and at least its pointer is read. */
  ghost predicate Polite(c: Chip, t: Trace, next: nat, i: nat, rounds: seq<Round>)
    decreases |rounds|
  {
    rounds == [] ||
    var (r, (d, u)) := (rounds[0], After(c, t, rounds[0].others));
    var (e, v) := After(d, u, ReadFrom(next, r.n));
    && AllowedRun(c, r.others)
    && Driven(d, u)
    && i < |u.packets| && u.gone <= Boundary(u.packets, i) && 2 <= r.n <= 2 + |u.packets[i]|
    && (r.n <= |v.seen| ==> Polite(e, v, PointerRead(v.seen, r.n), i + 1, rounds[1..]))
  }

  /** The driver: each round it reads from the cell that the last packet's first two bytes named. The events it
      and the others cause, and what it reads each round. */
  ghost function Driver(c: Chip, t: Trace, next: nat, rounds: seq<Round>): (seq<Event>, seq<seq<byte>>)
    decreases |rounds|
  {
    if rounds == [] then ([], [])
    else
      var r := rounds[0];
      var (d, u) := After(c, t, r.others);
      var (e, v) := After(d, u, ReadFrom(next, r.n));
      if 2 <= r.n <= |v.seen| then
        var (es, got) := Driver(e, v, PointerRead(v.seen, r.n), rounds[1..]);
        (r.others + ReadFrom(next, r.n) + es, [BytesRead(v.seen, r.n)] + got)
      else (r.others + ReadFrom(next, r.n), [])
  }

  function BytesRead(seen: seq<(nat, byte)>, n: nat): seq<byte>
    requires n <= |seen|
  {
    seq(n, i requires 0 <= i < n => seen[|seen| - n + i].1)
  }

  lemma {:induction false} NotedIs(stream: seq<byte>, k: nat, n: nat)
    requires k + n <= |stream|
    ensures |Noted(stream, k, n)| == n
    ensures forall i :: 0 <= i < n ==> Noted(stream, k, n)[i].1 == stream[k..k + n][i]
    decreases n
  {
    if n > 0 {
      NotedIs(stream, k + 1, n - 1);
    }
  }

  lemma NotedBytes(seen: seq<(nat, byte)>, stream: seq<byte>, k: nat, n: nat)
    requires k + n <= |stream|
    ensures |Noted(stream, k, n)| == n
    ensures BytesRead(seen + Noted(stream, k, n), n) == stream[k..k + n]
  {
    hide Noted;
    NotedIs(stream, k, n);
  }

  /** The pointer read is that of the packet behind. */
  lemma PointerIsNext(t: Trace, i: nat, n: nat, seen: seq<(nat, byte)>)
    requires t.ring.Valid() && t.ring.Has(t.start) && i < |t.packets| && 2 <= n <= 2 + |t.packets[i]| && n <= |seen|
    requires BytesRead(seen, n) == StoredPacket(t, i)[..n]
    ensures PointerRead(seen, n) == PacketCell(t, i + 1)
  {
    hide Boundary, Ring.Advance, LowByte, HighByte, Word;
    var next := PacketCell(t, i + 1);
    assert next < 0x2000;
    var b := BytesRead(seen, n);
    assert b[0] == LowByte(next) && b[1] == HighByte(next);
    PartsOfWord(next);
  }

  lemma SameCell(t: Trace, u: Trace, i: nat)
    requires t.ring.Valid() && t.ring.Has(t.start) && u.ring == t.ring && u.start == t.start
    requires i <= |t.packets| <= |u.packets| && u.packets[..|t.packets|] == t.packets
    ensures PacketCell(u, i) == PacketCell(t, i)
  {
    hide Ring.Advance;
    assert u.packets[..i] == u.packets[..|t.packets|][..i];
  }

  /** One round: the packet's stored bytes are read, and the next pointer with them. */
  lemma RoundReads(d: Chip, u: Trace, next: nat, i: nat, n: nat) returns (e: Chip, v: Trace)
    requires Driven(d, u) && i < |u.packets| && u.gone <= Boundary(u.packets, i) && 2 <= n <= 2 + |u.packets[i]|
    requires u.ring.Valid() && u.ring.Has(u.start) && next == PacketCell(u, i)
    ensures Leads(d, u, ReadFrom(next, n), e, v) && Driven(e, v)
    ensures v.ring == u.ring && v.start == u.start && v.packets == u.packets
    ensures n <= |v.seen| && n <= |StoredPacket(u, i)|
    ensures BytesRead(v.seen, n) == StoredPacket(u, i)[..n] && PointerRead(v.seen, n) == PacketCell(u, i + 1)
  {
    hide *;
    e, v := DriverReadsPacket(d, u, i, n);
    StoredIsRead(u, i, n, v.seen);
  }

  lemma StoredIsRead(u: Trace, i: nat, n: nat, seen: seq<(nat, byte)>)
    requires u.ring.Valid() && u.ring.Has(u.start) && i < |u.packets| && 2 <= n <= 2 + |u.packets[i]|
    requires var k := Boundary(u.packets, i);
             && k + n <= |u.stream| && u.stream[k..k + n] == StoredPacket(u, i)[..n]
             && seen == u.seen + Noted(u.stream, k, n)
    ensures n <= |seen| && n <= |StoredPacket(u, i)|
    ensures BytesRead(seen, n) == StoredPacket(u, i)[..n] && PointerRead(seen, n) == PacketCell(u, i + 1)
  {
    hide Boundary, Noted, BytesRead, PointerRead, PacketCell, Ring.Advance, LowByte, HighByte;
    NotedBytes(u.seen, u.stream, Boundary(u.packets, i), n);
    PointerIsNext(u, i, n, seen);
  }

  lemma SameStored(t: Trace, u: Trace, i: nat)
    requires t.ring.Valid() && t.ring.Has(t.start) && u.ring == t.ring && u.start == t.start
    requires i < |t.packets| <= |u.packets| && u.packets[..|t.packets|] == t.packets
    ensures StoredPacket(u, i) == StoredPacket(t, i)
  {
    hide Ring.Advance;
    assert u.packets[..i + 1] == u.packets[..|t.packets|][..i + 1] && u.packets[i] == u.packets[..|t.packets|][i];
  }

  /** What happens before a round leaves the driver's packet where it was. */
  lemma OthersKeep(c: Chip, t: Trace, next: nat, i: nat, rounds: seq<Round>)
    requires EncRuns.Inv(c, t) && t.ring.Valid() && t.ring.Has(t.start) && rounds != []
    requires i <= |t.packets| && next == PacketCell(t, i) && Polite(c, t, next, i, rounds)
    ensures var (r, (d, u)) := (rounds[0], After(c, t, rounds[0].others));
            && Leads(c, t, r.others, d, u) && Driven(d, u)
            && i < |u.packets| && u.gone <= Boundary(u.packets, i) && 2 <= r.n <= 2 + |u.packets[i]|
            && u.ring == t.ring && u.start == t.start
            && |t.packets| <= |u.packets| && u.packets[..|t.packets|] == t.packets
            && next == PacketCell(u, i)
  {
    hide EncRuns.Inv, Driven, AllowedRun, RunAll, Boundary, PacketCell;
    RunKeeps(c, t, rounds[0].others);
    HistoryGrows(c, t, rounds[0].others);
    SameCell(t, After(c, t, rounds[0].others).1, i);
  }

  /** One round of the definitions. */
  lemma DriverStep(c: Chip, t: Trace, next: nat, i: nat, rounds: seq<Round>, d: Chip, u: Trace, e: Chip, v: Trace)
    requires rounds != [] && (d, u) == After(c, t, rounds[0].others)
    requires (e, v) == After(d, u, ReadFrom(next, rounds[0].n)) && 2 <= rounds[0].n <= |v.seen|
    ensures Polite(c, t, next, i, rounds) ==> Polite(e, v, PointerRead(v.seen, rounds[0].n), i + 1, rounds[1..])
    ensures var (es, got) := Driver(e, v, PointerRead(v.seen, rounds[0].n), rounds[1..]);
            Driver(c, t, next, rounds)
            == (rounds[0].others + ReadFrom(next, rounds[0].n) + es, [BytesRead(v.seen, rounds[0].n)] + got)
  {
    hide After, ReadFrom, BytesRead, PointerRead, Driven, AllowedRun, Boundary;
  }

  /** The run of the driver and the others leads to d; packets have only been added; and what was read in each
      round is the beginning of one packet after the other, as stored, from the i-th on. */
  ghost predicate Delivered(c: Chip, t: Trace, next: nat, i: nat, rounds: seq<Round>, d: Chip, u: Trace) {
    && Leads(c, t, Driver(c, t, next, rounds).0, d, u)
    && u.ring == t.ring && u.start == t.start && u.ring.Valid() && u.ring.Has(u.start)
    && |t.packets| <= |u.packets| && u.packets[..|t.packets|] == t.packets && i + |rounds| <= |u.packets|
    && InOrder(u, i, rounds, Driver(c, t, next, rounds).1)
  }

  ghost predicate InOrder(u: Trace, i: nat, rounds: seq<Round>, got: seq<seq<byte>>)
    requires u.ring.Valid() && u.ring.Has(u.start) && i + |rounds| <= |u.packets|
  {
    && |got| == |rounds|
    && forall j :: 0 <= j < |rounds| ==>
         rounds[j].n <= |StoredPacket(u, i + j)| && got[j] == StoredPacket(u, i + j)[..rounds[j].n]
  }

  /** A driver that starts at packet i and takes each next address from the two bytes it has read, whatever frames
      arrive and are freed and acknowledged between its rounds, reads the packets from the i-th on, in order and
      each as stored, as far as it asks. */
  lemma {:induction false} DriverReadsAll(c: Chip, t: Trace, next: nat, i: nat, rounds: seq<Round>)
    returns (d: Chip, u: Trace)
    requires EncRuns.Inv(c, t) && t.ring.Valid() && t.ring.Has(t.start)
    requires i <= |t.packets| && next == PacketCell(t, i) && Polite(c, t, next, i, rounds)
    ensures Delivered(c, t, next, i, rounds, d, u)
    decreases |rounds|
  {
    hide *;
    if rounds == [] {
      NoRounds(c, t, next, i);
      d, u := c, t;
    } else {
      OthersKeep(c, t, next, i, rounds);
      var (m, s) := After(c, t, rounds[0].others);
      var n := rounds[0].n;
      var e, v := RoundReads(m, s, next, i, n);
      AfterLeads(m, s, ReadFrom(next, n), e, v);
      DriverStep(c, t, next, i, rounds, m, s, e, v);
      SameCell(s, v, i + 1);
      DrivenIsInv(e, v);
      d, u := DriverReadsAll(e, v, PointerRead(v.seen, n), i + 1, rounds[1..]);
      RoundDelivers(c, t, next, i, rounds, m, s, e, v, d, u);
    }
  }

  lemma RoundDelivers(c: Chip, t: Trace, next: nat, i: nat, rounds: seq<Round>, m: Chip, s: Trace, e: Chip, v: Trace,
      d: Chip, u: Trace)
    requires rounds != [] && (m, s) == After(c, t, rounds[0].others) && Leads(c, t, rounds[0].others, m, s)
    requires var es := ReadFrom(next, rounds[0].n); (e, v) == After(m, s, es) && Leads(m, s, es, e, v)
    requires t.ring.Valid() && t.ring.Has(t.start) && v.ring == s.ring == t.ring && v.start == s.start == t.start
    requires v.packets == s.packets && |t.packets| <= |s.packets| && s.packets[..|t.packets|] == t.packets
    requires i < |s.packets| && 2 <= rounds[0].n <= |v.seen| && rounds[0].n <= |StoredPacket(s, i)|
    requires BytesRead(v.seen, rounds[0].n) == StoredPacket(s, i)[..rounds[0].n]
    requires Delivered(e, v, PointerRead(v.seen, rounds[0].n), i + 1, rounds[1..], d, u)
    ensures Delivered(c, t, next, i, rounds, d, u)
  {
    hide Leads, Driver, InOrder, After, StoredPacket, BytesRead, PointerRead, ReadFrom;
    var (n, es) := (rounds[0].n, ReadFrom(next, rounds[0].n));
    var rest := Driver(e, v, PointerRead(v.seen, n), rounds[1..]);
    DriverStep(c, t, next, i, rounds, m, s, e, v);
    LeadsConcat(c, t, rounds[0].others, m, s, es, e, v);
    LeadsConcat(c, t, rounds[0].others + es, e, v, rest.0, d, u);
    RoundsGather(t, s, v, u, i, rounds, BytesRead(v.seen, n), rest.1);
  }

  lemma NoRounds(c: Chip, t: Trace, next: nat, i: nat)
    requires EncRuns.Inv(c, t) && t.ring.Valid() && t.ring.Has(t.start) && i <= |t.packets|
    ensures Delivered(c, t, next, i, [], c, t)
  {
    hide EncRuns.Inv;
  }

  lemma RoundsGather(t: Trace, s: Trace, v: Trace, u: Trace, i: nat, rounds: seq<Round>, first: seq<byte>,
      got: seq<seq<byte>>)
    requires t.ring.Valid() && t.ring.Has(t.start) && u.ring == v.ring == s.ring == t.ring
    requires u.start == v.start == s.start == t.start && v.packets == s.packets && rounds != [] && i < |s.packets|
    requires |t.packets| <= |s.packets| <= |u.packets| && s.packets[..|t.packets|] == t.packets
    requires u.packets[..|v.packets|] == v.packets && i + 1 + |rounds[1..]| <= |u.packets|
    requires rounds[0].n <= |StoredPacket(s, i)| && first == StoredPacket(s, i)[..rounds[0].n]
    requires InOrder(u, i + 1, rounds[1..], got)
    ensures u.packets[..|t.packets|] == t.packets && i + |rounds| <= |u.packets|
    ensures InOrder(u, i, rounds, [first] + got)
  {
    hide StoredPacket;
    SameStored(s, u, i);
    assert u.packets[..|t.packets|] == u.packets[..|v.packets|][..|t.packets|];
    forall j | 0 <= j < |rounds|
      ensures rounds[j].n <= |StoredPacket(u, i + j)|
      ensures ([first] + got)[j] == StoredPacket(u, i + j)[..rounds[j].n]
    {
      if j > 0 {
        assert rounds[1..][j - 1] == rounds[j] && i + 1 + (j - 1) == i + j;
      }
    }
  }
}
