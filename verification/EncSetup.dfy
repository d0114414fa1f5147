/** A driver's commands lead from the reset registers to a chip that receives. */
module EncSetup {
  import opened Steps
  import opened Wrappers
  import opened Bytes
  import opened RxRing
  import opened EthFrame
  import opened EncChip
  import opened EncReception
  import opened EncRegisters
  import opened EncRuns

  /** The registers as reset leaves them; the command machine and the latch may hold anything. */
  ghost predicate IsReset(c: Chip) {
    && |c.regs| == 0x80 && |c.buf| == 0x2000 && !c.phyReset
    && forall i :: 0 <= i < 0x80 ==> c.regs[i] == ResetValue(i)
  }

  /** Selecting the chip and sending a command and its argument. */
  ghost function Command(c: Chip, op: byte, arg: byte): Step<Chip>
    requires Wf(c)
  {
    var (d, _) :- HandleSpiData(OnSpiSlaveSelect(c, true), op);
    if !Wf(d) then Fail
    else
      var (e, _) :- HandleSpiData(d, arg);
      if Wf(e) then Ok(e) else Fail
  }

  lemma CommandIsWf(c: Chip, op: byte, arg: byte)
    requires Wf(c) && Command(c, op, arg).Ok?
    ensures Wf(Command(c, op, arg).value)
  {
    hide HandleSpiData, Wf;
  }

  ghost function Commands(c: Chip, cs: seq<(byte, byte)>): Step<Chip>
    requires Wf(c)
    decreases |cs|
  {
    if cs == [] then Ok(c)
    else
      match Command(c, cs[0].0, cs[0].1)
      case Ok(d) => (CommandIsWf(c, cs[0].0, cs[0].1); Commands(d, cs[1..]))
      case Fail => Fail
      case Outside => Outside
  }

  /** A ring of 2 KB from cell 0, all of it free; the receiver enabled and taking control frames too. */
  const SETUP: seq<(byte, byte)> := RING + RECEIVER

  const RING: seq<(byte, byte)> := [(0x48, 0x00), (0x49, 0x00), (0x4a, 0xff), (0x4b, 0x07), (0x4c, 0x00), (0x4d, 0x00)]

  const RECEIVER: seq<(byte, byte)> := [(0x9f, 0x02), (0x40, 0x03), (0x41, 0x00), (0xbf, 0x03), (0x9f, 0x04)]

  /** The registers, the buffer and the PHY are as said. */
  predicate Holding(d: Chip, regs: seq<byte>, c: Chip) {
    d.regs == regs && d.buf == c.buf && d.phyReset == c.phyReset
  }

  /** The chip waiting for the argument of op. */
  function Waiting(c: Chip, op: byte): Chip {
    c.(state := ReceivingCommandArg, cmd := op)
  }

  lemma CommandIsStore(c: Chip, op: byte, arg: byte)
    requires Wf(c) && op / 0x20 in {2, 4, 5} && Wf(Waiting(c, op))
    requires op / 0x20 != 2 ==> !IsMacReg(Target(Waiting(c, op))) && !IsMiiReg(Target(Waiting(c, op)))
    requires var a := Waiting(c, op);
             StoreReg(a, Target(a), Wanted(a, arg)).Ok? && Wf(StoreReg(a, Target(a), Wanted(a, arg)).value)
    ensures var a := Waiting(c, op); Command(c, op, arg) == StoreReg(a, Target(a), Wanted(a, arg))
  {
    hide StoreReg, And, Or, Not, MapRegister, IsMacReg, IsMiiReg;
    assert HandleCommandStart(c.(state := ReceivingCommand), op) == Ok(Waiting(c, op));
  }

  lemma StorePlain(a: Chip, m: nat, wanted: byte, v: byte)
    requires Wf(a) && m < 0x80 && m !in {ECON1, ECON2, ERXRDPTL, ERXRDPTH} && !IsMiiReg(m)
    requires AdjustRegWrite(m, wanted, a.regs[m]) == v && (m in {ERXSTH, ERXNDH} ==> v < 0x20)
    ensures StoreReg(a, m, wanted).Ok? && Wf(StoreReg(a, m, wanted).value)
    ensures Holding(StoreReg(a, m, wanted).value, a.regs[m := v], a)
  {
    hide AdjustRegWrite;
  }

  /** Writing a plain register in the current bank. */
  lemma WriteCommand(c: Chip, op: byte, arg: byte, m: nat, v: byte) returns (d: Chip)
    requires Wf(c) && op / 0x20 == 2 && m == MapRegister(c, op % 0x20)
    requires m !in {ECON1, ECON2, ERXRDPTL, ERXRDPTH} && !IsMiiReg(m)
    requires AdjustRegWrite(m, arg, c.regs[m]) == v && (m in {ERXSTH, ERXNDH} ==> v < 0x20)
    ensures Command(c, op, arg) == Ok(d) && Wf(d) && Holding(d, c.regs[m := v], c)
  {
    var a := Waiting(c, op);
    assert Wf(a) && Target(a) == m && Wanted(a, arg) == arg;
    StorePlain(a, m, arg, v);
    CommandIsStore(c, op, arg);
    d := StoreReg(a, m, arg).value;
    hide StoreReg, Command, AdjustRegWrite;
  }

  lemma Econ1Command(c: Chip, op: byte, arg: byte, v: byte) returns (d: Chip)
    requires Wf(c) && op in {0x9f, 0xbf} && !BitSet(v, 3)
    requires v == if op == 0x9f then Or(c.regs[ECON1], arg) else And(c.regs[ECON1], Not(arg))
    ensures Command(c, op, arg) == Ok(d) && Wf(d) && Holding(d, c.regs[ECON1 := v], c)
  {
    hide Command, AdjustRegWrite, And, Or, Not, StoreReg, Target, Wanted, BitSet;
    var a := Waiting(c, op);
    Econ1Target(c, op, arg, v);
    AdjustWhole(ECON1, v, c.regs[ECON1]);
    Econ1Stores(a, v);
    CommandIsStore(c, op, arg);
    d := StoreReg(a, ECON1, v).value;
  }

  lemma Econ1Target(c: Chip, op: byte, arg: byte, v: byte)
    requires Wf(c) && op in {0x9f, 0xbf}
    requires v == if op == 0x9f then Or(c.regs[ECON1], arg) else And(c.regs[ECON1], Not(arg))
    ensures Wf(Waiting(c, op)) && Target(Waiting(c, op)) == ECON1 && Wanted(Waiting(c, op), arg) == v
  {
    hide And, Or, Not;
  }

  lemma Econ1Stores(a: Chip, v: byte)
    requires Wf(a) && !BitSet(v, 3) && AdjustRegWrite(ECON1, v, a.regs[ECON1]) == v
    ensures StoreReg(a, ECON1, v) == Ok(a.(regs := a.regs[ECON1 := v], state := ReceivingCommand))
    ensures Wf(StoreReg(a, ECON1, v).value)
  {
    hide AdjustRegWrite, BitSet;
  }

  lemma LatchCommand(c: Chip, arg: byte) returns (d: Chip)
    requires Wf(c) && c.regs[ECON1] % 4 == 0
    ensures Command(c, 0x4c, arg) == Ok(d) && Wf(d) && Holding(d, c.regs, c) && d.shadow == arg
  {
    var a := Waiting(c, 0x4c);
    assert Wf(a) && Target(a) == ERXRDPTL && Wanted(a, arg) == arg;
    AdjustWhole(ERXRDPTL, arg, c.regs[ERXRDPTL]);
    LatchStep(a, arg);
    CommandIsStore(c, 0x4c, arg);
    d := StoreReg(a, ERXRDPTL, arg).value;
    hide StoreReg, Command, AdjustRegWrite;
  }

  lemma FreeCommand(c: Chip, arg: byte) returns (d: Chip)
    requires Wf(c) && c.regs[ECON1] % 4 == 0 && c.regs[ERXRDPTH] < 0x20 && arg < 0x20
    ensures Command(c, 0x4d, arg) == Ok(d) && Wf(d) && Holding(d, c.regs[ERXRDPTH := arg][ERXRDPTL := c.shadow], c)
  {
    var a := Waiting(c, 0x4d);
    assert Wf(a) && Target(a) == ERXRDPTH && Wanted(a, arg) == arg;
    AdjustPointerHigh(ERXRDPTH, arg, c.regs[ERXRDPTH]);
    FreeStep(a, arg);
    CommandIsStore(c, 0x4d, arg);
    d := StoreReg(a, ERXRDPTH, arg).value;
    hide StoreReg, Command, AdjustRegWrite;
  }

  // ----- the setup, command by command -----

  lemma CommandsNext(c: Chip, cs: seq<(byte, byte)>, d: Chip)
    requires Wf(c) && cs != [] && Command(c, cs[0].0, cs[0].1) == Ok(d) && Wf(d)
    ensures Commands(c, cs) == Commands(d, cs[1..])
  {
    hide Command;
  }

  /** The six registers that place the ring. */
  function RingRegisters(regs: seq<byte>): seq<byte>
    requires |regs| == 0x80
  {
    regs[ERXSTL := 0][ERXSTH := 0][ERXNDL := 0xff][ERXNDH := 0x07][ERXRDPTH := 0][ERXRDPTL := 0]
  }

  lemma RingIsSet(c: Chip, more: seq<(byte, byte)>) returns (d: Chip)
    requires Wf(c) && c.regs[ECON1] % 4 == 0 && c.regs[ERXRDPTH] < 0x20
    ensures Wf(d) && Holding(d, RingRegisters(c.regs), c) && Commands(c, RING + more) == Commands(d, more)
  {
    hide Command, Commands, AdjustRegWrite, Wf;
    assert |c.regs| == 0x80 && c.regs[ERXSTH] < 0x20 && c.regs[ERXNDH] < 0x20 by { WfRegisters(c); }
    AdjustWhole(ERXSTL, 0x00, c.regs[ERXSTL]);
    var c1 := WriteCommand(c, 0x48, 0x00, ERXSTL, 0x00);
    AdjustPointerHigh(ERXSTH, 0x00, c1.regs[ERXSTH]);
    var c2 := WriteCommand(c1, 0x49, 0x00, ERXSTH, 0x00);
    AdjustWhole(ERXNDL, 0xff, c2.regs[ERXNDL]);
    var c3 := WriteCommand(c2, 0x4a, 0xff, ERXNDL, 0xff);
    AdjustPointerHigh(ERXNDH, 0x07, c3.regs[ERXNDH]);
    var c4 := WriteCommand(c3, 0x4b, 0x07, ERXNDH, 0x07);
    var c5 := LatchCommand(c4, 0x00);
    d := FreeCommand(c5, 0x00);
    var all := RING + more;
    assert |all| >= 6 && all[6..] == more;
    CommandsNext(c, all, c1);
    CommandsNext(c1, all[1..], c2);
    CommandsNext(c2, all[1..][1..], c3);
    CommandsNext(c3, all[1..][1..][1..], c4);
    CommandsNext(c4, all[1..][1..][1..][1..], c5);
    CommandsNext(c5, all[1..][1..][1..][1..][1..], d);
    assert all[1..][1..][1..][1..][1..][1..] == more;
  }

  lemma WfRegisters(c: Chip)
    requires Wf(c)
    ensures |c.regs| == 0x80 && c.regs[ERXSTH] < 0x20 && c.regs[ERXNDH] < 0x20
  {
  }

  lemma OrZero(x: byte)
    ensures Or(0, x) == x
  {
    hide Or;
    assert Bits8(0) == [false, false, false, false, false, false, false, false];
    forall i | 0 <= i < 8
      ensures Bits8(Or(0, x))[i] == Bits8(x)[i]
    {
      OrBit(0, x, i);
    }
    SameBits(Or(0, x), x);
  }

  lemma BankCleared()
    ensures And(0x02, Not(0x03)) == 0
  {
    hide And, Not;
    assert Bits8(0x02) == [false, false, false, false, false, false, true, false];
    assert Bits8(0x03)[6] && Bits8(0) == [false, false, false, false, false, false, false, false];
    forall i | 0 <= i < 8
      ensures Bits8(And(0x02, Not(0x03)))[i] == Bits8(0)[i]
    {
      AndBit(0x02, Not(0x03), i);
      NotBit(0x03, i);
    }
    SameBits(And(0x02, Not(0x03)), 0);
  }

  /** The reset bit of MACON2 can be written off. */
  lemma ResetBitCleared()
    ensures AdjustRegWrite(MACON2, 0x00, 0x80) == 0
  {
    hide AdjustRegWrite;
    assert WriteMask(MACON2) == 0xcf;
    assert Bits8(0xcf) == [true, true, false, false, true, true, true, true];
    assert Bits8(0x80) == [true, false, false, false, false, false, false, false];
    assert Bits8(0) == [false, false, false, false, false, false, false, false];
    forall i | 0 <= i < 8
      ensures Bits8(AdjustRegWrite(MACON2, 0x00, 0x80))[i] == Bits8(0)[i]
    {
      AdjustBit(MACON2, 0x00, 0x80, i);
    }
    SameBits(AdjustRegWrite(MACON2, 0x00, 0x80), 0);
  }

  lemma NoTransmission()
    ensures !BitSet(0x00, 3) && !BitSet(0x02, 3) && !BitSet(0x04, 3)
  {
  }

  function ReceiverRegisters(regs: seq<byte>): seq<byte>
    requires |regs| == 0x80
  {
    regs[ECON1 := 0x02][MACON1 := 0x03][MACON2 := 0x00][ECON1 := 0x00][ECON1 := 0x04]
  }

  lemma ReceiverIsSet(c: Chip) returns (d: Chip)
    requires Wf(c) && c.regs[ECON1] == 0 && c.regs[MACON1] == 0 && c.regs[MACON2] == 0x80
    ensures Wf(d) && Holding(d, ReceiverRegisters(c.regs), c) && Commands(c, RECEIVER) == Ok(d)
  {
    hide Command, Commands, AdjustRegWrite, Wf, Or, And, Not, BitSet;
    assert |c.regs| == 0x80 by { WfRegisters(c); }
    NoTransmission();
    OrZero(0x02);
    var c1 := Econ1Command(c, 0x9f, 0x02, 0x02);
    AdjustPointerHigh(MACON1, 0x03, c1.regs[MACON1]);
    var c2 := WriteCommand(c1, 0x40, 0x03, MACON1, 0x03);
    ResetBitCleared();
    var c3 := WriteCommand(c2, 0x41, 0x00, MACON2, 0x00);
    BankCleared();
    var c4 := Econ1Command(c3, 0xbf, 0x03, 0x00);
    OrZero(0x04);
    d := Econ1Command(c4, 0x9f, 0x04, 0x04);
    CommandsNext(c, RECEIVER, c1);
    CommandsNext(c1, RECEIVER[1..], c2);
    CommandsNext(c2, RECEIVER[1..][1..], c3);
    CommandsNext(c3, RECEIVER[1..][1..][1..], c4);
    CommandsNext(c4, RECEIVER[1..][1..][1..][1..], d);
    assert RECEIVER[1..][1..][1..][1..][1..] == [];
    NoCommands(d);
  }

  lemma NoCommands(c: Chip)
    requires Wf(c)
    ensures Commands(c, []) == Ok(c)
  {
  }

  /** What the setup leaves: the reset registers but for the ones it wrote, and any station address. */
  ghost predicate Listening(c: Chip) {
    && |c.regs| == 0x80 && |c.buf| == 0x2000 && !c.phyReset
    && forall i :: 0 <= i < 0x80 && !(0x60 <= i < 0x66) ==> c.regs[i] == ListeningRegister(i)
  }

  function ListeningRegister(i: nat): byte {
    match i
    case 0x08 => 0
    case 0x09 => 0
    case 0x0a => 0xff
    case 0x0b => 0x07
    case 0x0c => 0
    case 0x0d => 0
    case 0x1f => 0x04
    case 0x40 => 0x03
    case 0x41 => 0
    case _ => ResetValue(i)
  }

  lemma ResetBasics(c: Chip)
    requires IsReset(c)
    ensures Wf(c) && c.regs[ECON1] == 0 && c.regs[MACON1] == 0 && c.regs[MACON2] == 0x80 && c.regs[ERXRDPTH] < 0x20
  {
  }

  lemma SetupRegisters(c: Chip, m: Chip, d: Chip)
    requires IsReset(c) && Holding(m, RingRegisters(c.regs), c) && |m.regs| == 0x80
    requires Holding(d, ReceiverRegisters(m.regs), m)
    ensures Listening(d)
  {
    hide ResetValue;
  }

  /** From reset, whatever the command machine and the latch held, the setup commands are all carried out and lead
      to a chip with an empty ring that listens. */
  lemma SetupListens(c: Chip) returns (d: Chip)
    requires IsReset(c)
    ensures Wf(c) && Commands(c, SETUP) == Ok(d) && Listening(d)
  {
    ResetBasics(c);
    hide *;
    assert c.regs[ECON1] % 4 == 0;
    var m := RingIsSet(c, RECEIVER);
    RingKeepsRest(c, m);
    d := ReceiverIsSet(m);
    WfRegisters(m);
    SetupRegisters(c, m, d);
  }

  lemma RingKeepsRest(c: Chip, m: Chip)
    requires IsReset(c) && Wf(m) && Holding(m, RingRegisters(c.regs), c)
    ensures m.regs[ECON1] == 0 && m.regs[MACON1] == 0 && m.regs[MACON2] == 0x80
  {
  }

  // ----- frames get in -----

  lemma ListeningIsEmpty(c: Chip)
    requires Listening(c)
    ensures Empty(c) && RingOf(c) == Ring(0, 0x7ff) && FreeSpace(c) == 0x7ff && Sane(c)
  {
    hide *;
    SizesOf(c);
    ListeningValues(c);
    ListeningPointers(c);
    NothingStored(c);
  }

  lemma NothingStored(c: Chip)
    requires Wf(c) && RingOf(c) == Ring(0, 0x7ff) && Get16(c.regs, ERXWRPTL) == Get16(c.regs, ERXRDPTL) == 0
    requires c.regs[EPKTCNT] == 0 && c.regs[ECON1] == 0x04
    requires c.regs[ERXRDPTH] < 0x20 && c.regs[ERDPTL + 1] < 0x20 && c.regs[EWRPTL + 1] < 0x20
    ensures Empty(c) && FreeSpace(c) == 0x7ff && Sane(c)
  {
    hide Get16, BitSet;
    NoTransmission();
  }

  lemma SizesOf(c: Chip)
    requires Listening(c)
    ensures |c.regs| == 0x80 && |c.buf| == 0x2000
  {
  }

  lemma ListeningPointers(c: Chip)
    requires |c.regs| == 0x80 && |c.buf| == 0x2000
    requires c.regs[ERXSTL] == 0 && c.regs[ERXSTH] == 0 && c.regs[ERXNDL] == 0xff && c.regs[ERXNDH] == 0x07
    requires c.regs[ERXRDPTL] == 0 && c.regs[ERXRDPTH] == 0 && c.regs[ERXWRPTL] == 0 && c.regs[ERXWRPTL + 1] == 0
    ensures Wf(c) && RingOf(c) == Ring(0, 0x7ff) && Get16(c.regs, ERXWRPTL) == 0
    ensures Get16(c.regs, ERXRDPTL) == 0
  {
  }

  lemma ListeningValues(c: Chip)
    requires Listening(c)
    ensures c.regs[ERXSTL] == 0 && c.regs[ERXSTH] == 0 && c.regs[ERXNDL] == 0xff && c.regs[ERXNDH] == 0x07
    ensures c.regs[ERXRDPTL] == 0 && c.regs[ERXRDPTH] == 0 && c.regs[ERXWRPTL] == 0 && c.regs[ERXWRPTL + 1] == 0
    ensures c.regs[EPKTCNT] == 0 && c.regs[ECON1] == 0x04
    ensures c.regs[ERDPTL + 1] < 0x20 && c.regs[EWRPTL + 1] < 0x20
  {
  }

  lemma ListeningReceives(c: Chip)
    requires Listening(c)
    ensures Wf(c) && ReceptionEnabled(c)
  {
    assert c.regs[ECON1] == 0x04 && c.regs[MACON1] == 0x03 && c.regs[MACON2] == 0 && c.regs[MAPHSUP] == 0x10;
    hide And;
    hide Listening;
  }

  lemma ListeningAdmits(c: Chip, f: Frame)
    requires Empty(c) && FreeSpace(c) == 0x7ff && Sane(c) && ReceptionEnabled(c)
    requires f.Valid() && f.fcs.Some? && f.TotalLength() <= 1536 && FilterFrame(c, f).Ok?
    ensures Admits(c, f) <==> FilterFrame(c, f) == Ok(true)
    ensures PaddedSize(f) <= FreeSpace(c) && c.regs[EPKTCNT] < 0xff && RxStatus(c, f).Ok?
  {
    hide FilterFrame, ReceptionEnabled, FreeSpace, Get16;
  }

  lemma OneArrival(c: Chip, f: Frame)
    requires Empty(c) && f.Valid() && f.fcs.Some? && FilterFrame(c, f).Ok? && RxStatus(c, f).Ok?
    requires Sane(c) && PaddedSize(f) <= FreeSpace(c) && c.regs[EPKTCNT] < 0xff
    ensures AllowedRun(c, [Arrive(f)]) && RunAll(c, NoHistory(c), [Arrive(f)]).Ok?
    ensures RunAll(c, NoHistory(c), [Arrive(f)]).value.1.packets == if Admits(c, f) then [RecordOf(c, f)] else []
  {
    hide FilterFrame, RxStatus, FreeSpace, Receive, EncRuns.Inv, Sane, Admits, PaddedSize, Stored;
    EmptyIsInv(c);
    assert Wf(c);
    assert [Arrive(f)][1..] == [];
    EventKeeps(c, NoHistory(c), Arrive(f));
    hide Empty;
    assert NextTrace(c, NoHistory(c), Arrive(f)).packets == if Admits(c, f) then [RecordOf(c, f)] else [];
  }
}
