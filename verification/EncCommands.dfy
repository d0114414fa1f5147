/** Whole SPI commands, from bytes to answers and registers, in register numbers and bits. */
module EncCommands {
  import opened Steps
  import opened Wrappers
  import opened Bytes
  import opened RxRing
  import opened RxStream
  import opened EthFrame
  import opened EncChip
  import opened EncReception
  import opened EncRegisters
  import opened EncRuns

  /** Register writes keep the two ring bounds inside the buffer. */
  lemma StoreKeepsWf(c: Chip, reg: nat, wanted: byte)
    requires Wf(c) && reg < 0x80 && StoreReg(c, reg, wanted).Ok?
    ensures Wf(StoreReg(c, reg, wanted).value)
  {
    hide StoreReg, AdjustRegWrite, BitSet;
    if reg == ECON2 {
      Econ2LowersIff(c, wanted);
    } else if reg == ERXRDPTL {
      LatchStep(c, wanted);
    } else if reg == ERXRDPTH {
      FreeStep(c, wanted);
    } else {
      PlainStore(c, reg, wanted);
      PointerHighKeepsWf(c, reg, wanted);
    }
  }

  lemma PointerHighKeepsWf(c: Chip, reg: nat, wanted: byte)
    requires Wf(c) && reg < 0x80
    ensures Wf(c.(regs := c.regs[reg := AdjustRegWrite(reg, wanted, c.regs[reg])], state := ReceivingCommand))
  {
    if reg == ERXSTH || reg == ERXNDH {
      AdjustPointerHigh(reg, wanted, c.regs[reg]);
    }
    hide AdjustRegWrite;
  }

  lemma SpiKeepsWf(c: Chip, b: byte)
    requires Wf(c) && HandleSpiData(c, b).Ok?
    ensures Wf(HandleSpiData(c, b).value.0)
  {
    hide HandleCommandStart, HandleCommandArg, StoreReg;
    match c.state
    case ReceivingCommand => CommandStep(c, b);
    case ReceivingCommandArg =>
      ArgumentStores(c, b);
      if WritesRegister(c) {
        StoreKeepsWf(c, Target(c), Wanted(c, b));
      }
    case ReceivingBufferData => BufferKeepsWf(c, b);
    case RespondingWithBufferData => AnswerKeepsWf(c);
    case PreResponding =>
    case Responding =>
  }

  lemma BufferKeepsWf(c: Chip, b: byte)
    requires Wf(c) && HandleBufferData(c, b).Ok?
    ensures Wf(HandleBufferData(c, b).value)
  {
    hide BitSet, Get16, LowByte, HighByte;
  }

  lemma AnswerKeepsWf(c: Chip)
    requires Wf(c) && RespondWithBufferData(c).Ok?
    ensures Wf(RespondWithBufferData(c).value.0)
  {
    hide BitSet, Get16, LowByte, HighByte;
  }

  /** The bytes sent one after the other, and the bytes answered. */
  function Exchange(c: Chip, sent: seq<byte>): (r: Step<(Chip, seq<byte>)>)
    requires Wf(c)
    ensures r.Ok? ==> Wf(r.value.0) && |r.value.1| == |sent|
    decreases |sent|
  {
    if sent == [] then Ok((c, []))
    else
      match HandleSpiData(c, sent[0])
      case Fail => Fail
      case Outside => Outside
      case Ok((d, b)) =>
        SpiKeepsWf(c, sent[0]);
        var (e, answered) :- Exchange(d, sent[1..]);
        Ok((e, [b] + answered))
  }

  /** The register a command addresses: one of the five common ones, or one of the bank in ECON1. */
  function Addressed(regs: seq<byte>, r: byte): (m: nat)
    requires |regs| == 0x80 && r < 0x20
    ensures m < 0x80
  {
    if r >= 0x1b then r as nat else (regs[0x1f] % 4) * 0x20 + r
  }

  /** MAC and MII registers answer one byte late and take no bit commands; MAADR1, at 0x60, is not among them. */
  predicate Slow(m: nat) {
    0x40 <= m <= 0x4d || 0x61 <= m <= 0x65 || 0x51 <= m <= 0x59 || m == 0x6a
  }

  /** What a read of register m is sent. */
  function ReadCommand(m: nat, r: byte, filler: byte): seq<byte> {
    if Slow(m) then [r, filler, filler] else [r, filler]
  }

  lemma ExchangeTwo(c: Chip, a: byte, x: byte, d: Chip, b: byte, y: byte, e: Chip)
    requires Wf(c) && Wf(d) && Wf(e) && HandleSpiData(c, a) == Ok((d, x)) && HandleSpiData(d, b) == Ok((e, y))
    ensures Exchange(c, [a, b]) == Ok((e, [x, y]))
  {
    ExchangeOne(d, b, e, y);
    ExchangeNext(c, [a, b], d, x);
    hide *;
    assert [a, b][1..] == [b] && [x] + [y] == [x, y];
  }

  lemma ExchangeOne(c: Chip, a: byte, d: Chip, x: byte)
    requires Wf(c) && Wf(d) && HandleSpiData(c, a) == Ok((d, x))
    ensures Exchange(c, [a]) == Ok((d, [x]))
  {
    ExchangeNext(c, [a], d, x);
    ExchangeNothing(d);
    hide *;
    var none: seq<byte> := [];
    assert [a][1..] == none && [x] + none == [x];
  }

  lemma ExchangeNothing(c: Chip)
    requires Wf(c)
    ensures Exchange(c, []) == Ok((c, []))
  {
  }

  lemma ExchangeNext(c: Chip, sent: seq<byte>, d: Chip, x: byte)
    requires Wf(c) && Wf(d) && sent != [] && HandleSpiData(c, sent[0]) == Ok((d, x))
    ensures Exchange(c, sent) == match Exchange(d, sent[1..])
                                 case Ok((e, answered)) => Ok((e, [x] + answered))
                                 case Fail => Fail
                                 case Outside => Outside
  {
    hide HandleSpiData, Wf;
  }

  /** A control register is read by its command and a dummy byte, or two; the answer that counts is the last, and
      nothing else has changed. */
  lemma ReadAnswersRegister(c: Chip, r: byte, filler: byte) returns (d: Chip)
    requires Wf(c) && c.state == ReceivingCommand && r < 0x20
    ensures var m := Addressed(c.regs, r);
            && d == c.(response := c.regs[m])
            && Exchange(c, ReadCommand(m, r, filler)) ==
               if m == 0x58 && BitSet(c.regs[0x52], 1) then Outside
               else Ok((d, if Slow(m) then [0xff, 0xff, c.regs[m]] else [0xff, c.regs[m]]))
  {
    var m := Addressed(c.regs, r);
    d := c.(response := c.regs[m]);
    ReadStarts(c, r);
    hide HandleCommandStart, BitSet, Exchange;
    if m == 0x58 && BitSet(c.regs[0x52], 1) {
      ReadIsOutside(c, ReadCommand(m, r, filler));
    } else {
      var answering := d.(state := Responding);
      if Slow(m) {
        var waiting := d.(state := PreResponding);
        ExchangeTwo(waiting, filler, 0xff, answering, filler, c.regs[m], d);
        ExchangeNext(c, [r, filler, filler], waiting, 0xff);
        assert [r, filler, filler][1..] == [filler, filler];
        assert [0xff] + [0xff, c.regs[m]] == [0xff, 0xff, c.regs[m]];
      } else {
        ExchangeTwo(c, r, 0xff, answering, filler, c.regs[m], d);
      }
    }
  }

  lemma ReadIsOutside(c: Chip, sent: seq<byte>)
    requires Wf(c) && sent != [] && HandleSpiData(c, sent[0]).Outside?
    ensures Exchange(c, sent) == Outside
  {
    hide HandleSpiData;
  }

  lemma ReadStarts(c: Chip, r: byte)
    requires Wf(c) && r < 0x20
    ensures var m := Addressed(c.regs, r);
            HandleCommandStart(c, r) ==
            if m == 0x58 && BitSet(c.regs[0x52], 1) then Outside
            else Ok(c.(response := c.regs[m], state := if Slow(m) then PreResponding else Responding))
  {
    hide BitSet;
  }

  // ----- register writes -----

  /** The bits a write can set and clear. */
  predicate Writable(m: nat, k: nat) {
    match m
    case 0x1c => false
    case 0x1d => k == 0
    case 0x1e => k == 3 || k >= 5
    case 0x36 => k != 5
    case 0x37 => false
    case 0x39 => false
    case 0x40 => k < 5
    case 0x41 => k < 4 || k > 5
    case 0x43 => k < 2 || 4 <= k < 7
    case 0x48 => k < 4
    case 0x49 => k < 6
    case 0x4d => k == 0 || k == 3 || k == 4 || k == 7
    case 0x51 => k == 7
    case 0x52 => k < 2
    case 0x54 => k < 5
    case 0x6a => false
    case 0x72 => false
    case 0x75 => k < 3
    case 0x77 => k < 2
    case _ =>
      if (m < 0x18 && m % 2 == 1) || m == 0x35 then k < 5
      else if m in {0x44, 0x46, 0x47} then k < 7
      else true
  }

  /** The bits that writing zero clears and writing one leaves alone: flags of ESTAT, EIR and EWOLIR. */
  predicate ClearedByZero(m: nat, k: nat) {
    (m == 0x1d && k in {1, 4, 6}) || (m == 0x1c && k in {0, 1, 3, 5}) || (m == 0x37 && k != 5)
  }

  lemma ClearableBits(m: nat, k: nat)
    requires k < 8
    ensures BitSet(ClearableMask(m), k) == ClearedByZero(m, k)
  {
    FlagMasks();
    hide Bits8;
  }

  lemma FlagMasks()
    ensures Bits8(0x52) == [false, true, false, true, false, false, true, false]
    ensures Bits8(0x2b) == [false, false, true, false, true, false, true, true]
    ensures Bits8(0xdf) == [true, true, false, true, true, true, true, true]
    ensures Bits8(0) == [false, false, false, false, false, false, false, false]
  {
  }

  lemma WritableBits(m: nat, k: nat)
    requires k < 8
    ensures BitSet(WriteMask(m), k) == Writable(m, k)
  {
    SmallMasks();
    WideMasks();
    LargeMasks();
    ScatteredMasks();
    hide Bits8;
  }

  lemma SmallMasks()
    ensures Bits8(0x00) == [false, false, false, false, false, false, false, false]
    ensures Bits8(0x01) == [false, false, false, false, false, false, false, true]
    ensures Bits8(0x03) == [false, false, false, false, false, false, true, true]
    ensures Bits8(0x07) == [false, false, false, false, false, true, true, true]
  {
  }

  lemma WideMasks()
    ensures Bits8(0x0f) == [false, false, false, false, true, true, true, true]
    ensures Bits8(0x1f) == [false, false, false, true, true, true, true, true]
    ensures Bits8(0x3f) == [false, false, true, true, true, true, true, true]
    ensures Bits8(0x7f) == [false, true, true, true, true, true, true, true]
    ensures Bits8(0xff) == [true, true, true, true, true, true, true, true]
  {
  }

  lemma LargeMasks()
    ensures Bits8(0xe8) == [true, true, true, false, true, false, false, false]
    ensures Bits8(0xdf) == [true, true, false, true, true, true, true, true]
    ensures Bits8(0xcf) == [true, true, false, false, true, true, true, true]
  {
  }

  lemma ScatteredMasks()
    ensures Bits8(0x73) == [false, true, true, true, false, false, true, true]
    ensures Bits8(0x99) == [true, false, false, true, true, false, false, true]
    ensures Bits8(0x80) == [true, false, false, false, false, false, false, false]
  {
  }

  /** What a command asks a bit to be: written, set or cleared. */
  predicate Asked(op: byte, was: bool, arg: bool) {
    if op == 2 then arg else if op == 4 then was || arg else was && !arg
  }

  /** v is what a register holding prev is left with, bit by bit. */
  predicate Results(m: nat, op: byte, prev: byte, arg: byte, v: byte) {
    forall k :: 0 <= k < 8 ==>
      BitSet(v, k) == (var asked := Asked(op, BitSet(prev, k), BitSet(arg, k));
                       if Writable(m, k) then asked else BitSet(prev, k) && (asked || !ClearedByZero(m, k)))
  }

  /** The chip after v has gone into register m: ERXRDPTL is latched, ERXRDPTH takes the latch with it, and PKTDEC in
      ECON2 lowers EPKTCNT and with the last packet PKTIF, bit 6 of EIR. */
  function AfterWrite(c: Chip, m: nat, v: byte): Chip
    requires |c.regs| == 0x80 && m < 0x80
  {
    if m == 0x0c then c.(shadow := v)
    else if m == 0x0d then c.(regs := c.regs[0x0d := v][0x0c := c.shadow])
    else if m == 0x1e && BitSet(v, 6) && c.regs[0x39] == 1 then
      c.(regs := c.regs[0x1e := v][0x39 := 0][0x1c := WithBit(c.regs[0x1c], 6, false)])
    else if m == 0x1e && BitSet(v, 6) && c.regs[0x39] > 1 then
      c.(regs := c.regs[0x1e := v][0x39 := c.regs[0x39] - 1])
    else c.(regs := c.regs[m := v])
  }

  lemma ResultsAre(m: nat, op: byte, prev: byte, arg: byte)
    requires op in {2, 4, 5}
    ensures var wanted := if op == 5 then And(prev, Not(arg)) else if op == 4 then Or(prev, arg) else arg;
            Results(m, op, prev, arg, AdjustRegWrite(m, wanted, prev))
  {
    var wanted := if op == 5 then And(prev, Not(arg)) else if op == 4 then Or(prev, arg) else arg;
    hide AdjustRegWrite, And, Or, Not, ClearedByZero, Writable, WriteMask, ClearableMask, Bits8;
    forall k | 0 <= k < 8
      ensures BitSet(wanted, k) == Asked(op, BitSet(prev, k), BitSet(arg, k))
      ensures BitSet(AdjustRegWrite(m, wanted, prev), k)
           == if Writable(m, k) then BitSet(wanted, k)
              else BitSet(prev, k) && (BitSet(wanted, k) || !ClearedByZero(m, k))
    {
      AndBit(prev, Not(arg), 7 - k);
      NotBit(arg, 7 - k);
      OrBit(prev, arg, 7 - k);
      AdjustBit(m, wanted, prev, 7 - k);
      ClearableBits(m, k);
      WritableBits(m, k);
    }
  }

  lemma PktIfCleared(x: byte)
    ensures And(x, 0xbf) == WithBit(x, 6, false)
  {
    hide And, WithBit;
    WithBitBits(x, 6, false);
    assert Bits8(0xbf) == [true, false, true, true, true, true, true, true];
    forall i | 0 <= i < 8
      ensures Bits8(And(x, 0xbf))[i] == Bits8(WithBit(x, 6, false))[i]
    {
      AndBit(x, 0xbf, i);
    }
    SameBits(And(x, 0xbf), WithBit(x, 6, false));
  }

  lemma StorePlainIs(c: Chip, m: nat, wanted: byte)
    requires Wf(c) && m < 0x80 && m !in {0x0c, 0x0d, 0x1e}
    ensures var v := AdjustRegWrite(m, wanted, c.regs[m]);
            StoreReg(c, m, wanted) == if m == 0x52 || m == 0x57 || (m == 0x1f && BitSet(v, 3)) then Outside
                                      else Ok(c.(regs := c.regs[m := v], state := ReceivingCommand))
  {
    hide AdjustRegWrite, BitSet;
  }

  lemma StoreEcon2Is(c: Chip, wanted: byte)
    requires Wf(c)
    ensures StoreReg(c, 0x1e, wanted)
         == Ok(AfterWrite(c, 0x1e, AdjustRegWrite(0x1e, wanted, c.regs[0x1e])).(state := ReceivingCommand))
  {
    hide AdjustRegWrite, BitSet, And, WithBit;
    PktIfCleared(c.regs[0x1c]);
  }

  lemma StoreIs(c: Chip, m: nat, wanted: byte)
    requires Wf(c) && m < 0x80
    ensures var v := AdjustRegWrite(m, wanted, c.regs[m]);
            StoreReg(c, m, wanted) == if m == 0x52 || m == 0x57 || (m == 0x1f && BitSet(v, 3)) then Outside
                                      else Ok(AfterWrite(c, m, v).(state := ReceivingCommand))
  {
    hide StoreReg, AdjustRegWrite, BitSet, WithBit;
    if m == 0x0c {
      LatchStep(c, wanted);
    } else if m == 0x0d {
      FreeStep(c, wanted);
    } else if m == 0x1e {
      StoreEcon2Is(c, wanted);
      hide AfterWrite;
    } else {
      StorePlainIs(c, m, wanted);
    }
  }

  lemma Starts(c: Chip, op: byte, r: byte)
    requires Wf(c) && op in {2, 4, 5} && r < 0x20
    ensures HandleCommandStart(c, op * 0x20 + r) == Ok(c.(state := ReceivingCommandArg, cmd := op * 0x20 + r))
    ensures Wf(c.(state := ReceivingCommandArg, cmd := op * 0x20 + r)) && |c.regs| == 0x80
  {
  }

  lemma ArgumentIs(c: Chip, op: byte, r: byte, arg: byte)
    requires Wf(c) && op in {2, 4, 5} && r < 0x20 && c.cmd == op * 0x20 + r
    ensures var (m, prev) := (Addressed(c.regs, r), c.regs[Addressed(c.regs, r)]);
            HandleCommandArg(c, arg) ==
            if op != 2 && Slow(m) then Fail
            else StoreReg(c, m, if op == 5 then And(prev, Not(arg)) else if op == 4 then Or(prev, arg) else arg)
  {
    hide StoreReg, And, Or, Not;
  }

  /** A write, bit set or bit clear command, from its two bytes to the register it leaves. */
  lemma WriteStores(c: Chip, op: byte, r: byte, arg: byte) returns (v: byte, d: Chip)
    requires Wf(c) && c.state == ReceivingCommand && op in {2, 4, 5} && r < 0x20
    ensures var m := Addressed(c.regs, r);
            && Results(m, op, c.regs[m], arg, v)
            && d == AfterWrite(c, m, v).(cmd := op * 0x20 + r)
            && Exchange(c, [op * 0x20 + r, arg]) ==
               if op != 2 && Slow(m) then Fail
               else if m == 0x52 || m == 0x57 || (m == 0x1f && BitSet(v, 3)) then Outside
               else Ok((d, [0xff, 0xff]))
  {
    var m := Addressed(c.regs, r);
    var prev := c.regs[m];
    var wanted := if op == 5 then And(prev, Not(arg)) else if op == 4 then Or(prev, arg) else arg;
    v := AdjustRegWrite(m, wanted, prev);
    d := AfterWrite(c, m, v).(cmd := op * 0x20 + r);
    var waiting := c.(state := ReceivingCommandArg, cmd := op * 0x20 + r);
    Starts(c, op, r);
    hide *;
    ResultsAre(m, op, prev, arg);
    ArgumentIs(waiting, op, r, arg);
    StoreIs(waiting, m, wanted);
    AfterWaiting(c, m, v, op * 0x20 + r);
    var out := m == 0x52 || m == 0x57 || (m == 0x1f && BitSet(v, 3));
    WriteOutcome(c, op * 0x20 + r, waiting, arg, op != 2 && Slow(m), out, StoreReg(waiting, m, wanted), d);
  }

  lemma WriteOutcome(c: Chip, b: byte, waiting: Chip, arg: byte, slow: bool, out: bool, s: Step<Chip>, d: Chip)
    requires Wf(c) && Wf(waiting) && c.state == ReceivingCommand && waiting.state == ReceivingCommandArg
    requires HandleCommandStart(c, b) == Ok(waiting)
    requires HandleCommandArg(waiting, arg) == if slow then Fail else s
    requires s == if out then Outside else Ok(d)
    ensures Exchange(c, [b, arg]) == if slow then Fail else if out then Outside else Ok((d, [0xff, 0xff]))
  {
    hide *;
    WriteExchange(c, b, waiting, arg);
  }

  lemma AfterWaiting(c: Chip, m: nat, v: byte, b: byte)
    requires |c.regs| == 0x80 && m < 0x80 && c.state == ReceivingCommand
    ensures AfterWrite(c.(state := ReceivingCommandArg, cmd := b), m, v).(state := ReceivingCommand)
         == AfterWrite(c, m, v).(cmd := b)
  {
    hide BitSet, WithBit;
  }

  lemma WriteExchange(c: Chip, b: byte, d: Chip, arg: byte)
    requires Wf(c) && Wf(d) && c.state == ReceivingCommand && d.state == ReceivingCommandArg
    requires HandleCommandStart(c, b) == Ok(d)
    ensures Exchange(c, [b, arg]) == match HandleCommandArg(d, arg)
                                     case Ok(e) => Ok((e, [0xff, 0xff]))
                                     case Fail => Fail
                                     case Outside => Outside
  {
    hide HandleCommandArg, HandleCommandStart, Exchange, Wf;
    assert [b, arg][1..] == [arg];
    ExchangeNext(c, [b, arg], d, 0xff);
    match HandleCommandArg(d, arg)
    case Ok(e) =>
      SpiKeepsWf(d, arg);
      ExchangeOne(d, arg, e, 0xff);
      assert [0xff as byte] + [0xff] == [0xff, 0xff];
    case _ => ExchangeStops(d, arg);
  }

  lemma ExchangeStops(c: Chip, b: byte)
    requires Wf(c) && !HandleSpiData(c, b).Ok?
    ensures Exchange(c, [b]) == if HandleSpiData(c, b).Fail? then Fail else Outside
  {
    hide HandleSpiData;
  }

  /** A byte in the place of a command that is none is an error. */
  lemma CommandFailsIff(c: Chip, b: byte)
    requires Wf(c) && c.state == ReceivingCommand
    ensures Exchange(c, [b]).Fail? <==> b >= 0xc0 || (0x20 <= b < 0x40 && b != 0x3a) || (0x60 <= b < 0x80 && b != 0x7a)
  {
    hide MapRegister, BitSet;
  }

  // ----- the data buffer -----

  /** What the bytes leave of the buffer, from cell p on. */
  function Filled(buf: seq<byte>, p: nat, data: seq<byte>): (r: seq<byte>)
    requires |buf| == 0x2000 && p < 0x2000
    ensures |r| == 0x2000
    decreases |data|
  {
    if data == [] then buf else Filled(buf[p := data[0]], (p + 1) % 0x2000, data[1..])
  }

  /** Cell by cell: up to 8192 bytes land one behind the other, around the end of the buffer. */
  lemma {:induction false} FilledAt(buf: seq<byte>, p: nat, data: seq<byte>, q: nat)
    requires |buf| == 0x2000 && p < 0x2000 && q < 0x2000 && |data| <= 0x2000
    ensures var i := if q >= p then q - p else q + 0x2000 - p;
            Filled(buf, p, data)[q] == if i < |data| then data[i] else buf[q]
    decreases |data|
  {
    if data != [] {
      FilledAt(buf[p := data[0]], (p + 1) % 0x2000, data[1..], q);
    }
  }

  /** The chip after the bytes have landed from cell p on, and EWRPT has moved to q. */
  function Taking(c: Chip, p: nat, data: seq<byte>, q: nat): Chip
    requires Wf(c) && p < 0x2000 && q < 0x2000
  {
    c.(buf := Filled(c.buf, p, data), regs := c.regs[0x02 := q % 0x100][0x03 := q / 0x100])
  }

  /** One byte, with and without AUTOINC, and where EWRPT has left the buffer. */
  lemma BufferByte(c: Chip, b: byte)
    requires Wf(c) && c.state == ReceivingBufferData
    ensures var p: nat := Word(c.regs[0x03], c.regs[0x02]);
            HandleSpiData(c, b) ==
            if p >= 0x2000 then Fail
            else if BitSet(c.regs[0x1e], 7) then Ok((Taking(c, p, [b], (p + 1) % 0x2000), 0xff))
            else Ok((c.(buf := c.buf[p := b]), 0xff))
  {
    hide BitSet;
    var p: nat := Word(c.regs[0x03], c.regs[0x02]);
    if p < 0x2000 {
      assert Filled(c.buf, p, [b]) == c.buf[p := b];
      assert HighByte((p + 1) % 0x2000) == (p + 1) % 0x2000 / 0x100;
    }
  }

  lemma TakingMore(c: Chip, p: nat, b: byte, more: seq<byte>, q: nat)
    requires Wf(c) && p < 0x2000 && q < 0x2000
    ensures var next := Taking(c, p, [b], (p + 1) % 0x2000);
            && Wf(next) && next.state == c.state && next.regs[0x1e] == c.regs[0x1e]
            && Word(next.regs[0x03], next.regs[0x02]) == (p + 1) % 0x2000
            && Taking(next, (p + 1) % 0x2000, more, q) == Taking(c, p, [b] + more, q)
  {
    PartsOfWord((p + 1) % 0x2000);
    assert Filled(c.buf, p, [b]) == c.buf[p := b];
    assert ([b] + more)[1..] == more;
  }

  lemma AroundTheEnd(p: nat, n: nat)
    ensures ((p + 1) % 0x2000 + n) % 0x2000 == (p + (n + 1)) % 0x2000
  {
  }

  predicate Silent(answered: seq<byte>) {
    forall b :: b in answered ==> b == 0xff
  }

  lemma StillSilent(answered: seq<byte>)
    requires Silent(answered)
    ensures Silent([0xff] + answered)
  {
  }

  /** A driver's bytes land in the buffer from EWRPT on, and the pointer ends behind them. */
  lemma {:induction false} BufferTakes(c: Chip, data: seq<byte>)
    requires Wf(c) && c.state == ReceivingBufferData && BitSet(c.regs[0x1e], 7)
    requires Word(c.regs[0x03], c.regs[0x02]) < 0x2000
    ensures var p: nat := Word(c.regs[0x03], c.regs[0x02]);
            && Exchange(c, data).Ok? && Exchange(c, data).value.0 == Taking(c, p, data, (p + |data|) % 0x2000)
            && Silent(Exchange(c, data).value.1)
    decreases |data|
  {
    var p: nat := Word(c.regs[0x03], c.regs[0x02]);
    if data == [] {
      WordParts(c.regs[0x03], c.regs[0x02]);
    } else {
      var next := Taking(c, p, [data[0]], (p + 1) % 0x2000);
      BufferByte(c, data[0]);
      assert |c.regs| == 0x80;
      hide *;
      TakingMore(c, p, data[0], data[1..], (p + |data|) % 0x2000);
      assert [data[0]] + data[1..] == data;
      AroundTheEnd(p, |data| - 1);
      BufferTakes(next, data[1..]);
      ExchangeNext(c, data, next, 0xff);
      StillSilent(Exchange(next, data[1..]).value.1);
    }
  }

  /** 0x7a begins a write of the buffer and 0x3a a read of it. */
  lemma BufferCommands(c: Chip)
    requires Wf(c) && c.state == ReceivingCommand
    ensures Exchange(c, [0x7a]) == Ok((c.(state := ReceivingBufferData), [0xff]))
    ensures Exchange(c, [0x3a]) == Ok((c.(state := RespondingWithBufferData), [0xff]))
  {
    var writing, reading := c.(state := ReceivingBufferData), c.(state := RespondingWithBufferData);
    assert HandleCommandStart(c, 0x7a) == Ok(writing) && HandleCommandStart(c, 0x3a) == Ok(reading);
    hide HandleCommandStart;
    ExchangeOne(c, 0x7a, writing, 0xff);
    ExchangeOne(c, 0x3a, reading, 0xff);
  }

  // ----- polling -----

  /** At any point of an allowed run a driver that has bank 1 selected and asks for EPKTCNT is answered the packets
      loaded less the packets acknowledged. */
  lemma PollAnswers(c: Chip, t: Trace, filler: byte)
    requires EncRuns.Inv(c, t) && c.state == ReceivingCommand && c.regs[0x1f] % 4 == 1
    ensures t.acked <= |t.packets| < 0x100 + t.acked
    ensures Exchange(c, [0x19, filler]).Ok?
    ensures Exchange(c, [0x19, filler]).value.1 == [0xff, |t.packets| - t.acked]
  {
    hide Exchange, RxStream.Inv, BitSet;
    CountIsAnswered(c, filler);
  }

  lemma CountIsAnswered(d: Chip, filler: byte)
    requires Wf(d) && d.state == ReceivingCommand && d.regs[0x1f] % 4 == 1
    ensures Exchange(d, [0x19, filler]).Ok? && Exchange(d, [0x19, filler]).value.1 == [0xff, d.regs[0x39]]
  {
    hide Exchange, BitSet;
    var e := ReadAnswersRegister(d, 0x19, filler);
    assert Addressed(d.regs, 0x19) == 0x39;
  }
}
