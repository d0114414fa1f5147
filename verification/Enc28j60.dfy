/** The ENC28J60 as the object it is in src/devices/enc28j60/enc28j60.cpp: register and buffer arrays
    updated in place, each method tied to the functions of EncChip. */
module Enc28j60 {
  import opened Steps
  import opened Wrappers
  import opened Bytes
  import opened RxRing
  import opened EthFrame
  import opened EncChip
  import opened EncReception
  import opened EncRegisters
  import opened EncRuns
  import opened EncCommands

  class Enc28J60 {
    const regs: array<byte>
    const eth_buffer: array<byte>
    var reg_ERXRDPTL_shadow: byte
    var state: SpiState
    var cmd_byte: byte
    var response_byte: byte
    var phy_reset: bool

    function Snapshot(): Chip
      reads this, regs, eth_buffer
    {
      Chip(regs[..], eth_buffer[..], reg_ERXRDPTL_shadow, state, cmd_byte, response_byte, phy_reset)
    }

    ghost predicate Valid()
      reads this, regs, eth_buffer
    {
      regs != eth_buffer && Wf(Snapshot())
    }

    /** After a reset the write pointer is still 0 while the ring begins at 0x5fa, so the first frame
        fails the sanity checks unless the host has moved the ring or the pointer. */
    constructor ()
      ensures Valid() && fresh(regs) && fresh(eth_buffer)
      ensures forall i :: 0 <= i < 0x80 ==> regs[i] == ResetValue(i)
      ensures regs[0x38] == 0xa1 && regs[0x1e] == regs[0x41] == 0x80
      ensures Word(regs[0x01], regs[0x00]) == Word(regs[0x0d], regs[0x0c]) == 0x5fa
      ensures Word(regs[0x4b], regs[0x4a]) == 1536
      ensures regs[0x48] == 0x0f && regs[0x49] == 0x37 && regs[0x4d] == regs[0x79] == 0x10
      ensures regs[0x72] == 0x05 && regs[0x75] == 0x04
      ensures forall i :: 0 <= i < 0x80 && !NotZeroAtReset(i) ==> regs[i] == 0
      ensures forall i :: 0 <= i < 0x2000 ==> eth_buffer[i] == 0
      ensures !phy_reset
      ensures RingOf(Snapshot()) == Ring(0x5fa, 0x1fff) && !Sane(Snapshot())
    {
      var r := new byte[0x80];
      for i := 0 to 0x80
        invariant forall j :: 0 <= j < i ==> r[j] == ResetValue(j)
      {
        r[i] := ResetValue(i);
      }
      regs := r;
      eth_buffer := new byte[0x2000](_ => 0);
      phy_reset := false;
      WordIs(0x06, 0x00);
      WordIs(0x05, 0xfa);
      WordIs(0x1f, 0xff);
      WordIs(0x00, 0x00);
    }

    method Get16BitReg(low: nat) returns (v: word)
      requires Valid() && low < 0x7f
      ensures v == Get16(regs[..], low)
    {
      WordIs(regs[low + 1], regs[low]);
      v := 0x100 * (regs[low + 1] as int) + regs[low];
    }

    method Set16BitReg(low: nat, v: word)
      requires Valid() && low < 0x7f
      modifies regs
      ensures regs[..] == Set16(old(regs[..]), low, v)
    {
      regs[low] := LowByte(v);
      regs[low + 1] := HighByte(v);
    }

    method WrapToRxBuffer(pointer: word) returns (p: nat)
      requires Valid() && RingOf(Snapshot()).Valid()
      ensures p == Wrap(RingOf(Snapshot()), pointer)
    {
      var ERXST: int := Get16BitReg(ERXSTL);
      var ERXND: int := Get16BitReg(ERXNDL);
      p := SubtractLoop(Ring(ERXST, ERXND), pointer);
    }

    method GetFreeBufferSpace() returns (n: nat)
      requires Valid() && InPlace(Snapshot())
      ensures n == RingOf(Snapshot()).Size() - 1 - Used(Snapshot())
    {
      var ERXWRPT := Get16BitReg(ERXWRPTL);
      var ERXRDPT := Get16BitReg(ERXRDPTL);
      var ERXST := Get16BitReg(ERXSTL);
      var ERXND := Get16BitReg(ERXNDL);
      if ERXWRPT > ERXRDPT {
        n := (ERXND - ERXST) - (ERXWRPT - ERXRDPT);
      } else if ERXWRPT == ERXRDPT {
        n := ERXND - ERXST;
      } else {
        n := ERXRDPT - ERXWRPT - 1;
      }
    }

    method RxBufferSane() returns (ok: bool)
      requires Valid()
      ensures ok == Sane(Snapshot())
    {
      var ERXWRPT := Get16BitReg(ERXWRPTL);
      var ERXRDPT := Get16BitReg(ERXRDPTL);
      var ERXST := Get16BitReg(ERXSTL);
      var ERXND := Get16BitReg(ERXNDL);
      if ERXST > ERXND {
        return false;
      }
      if ERXWRPT < ERXST || ERXWRPT > ERXND {
        return false;
      }
      if ERXRDPT < ERXST || ERXRDPT > ERXND {
        return false;
      }
      return ERXWRPT % 2 == 0;
    }

    method FitsInBuffer(frame: Frame) returns (fits: bool)
      requires Valid() && InPlace(Snapshot())
      ensures fits == EncChip.FitsInBuffer(Snapshot(), frame)
    {
      var frame_size := 6 + frame.TotalLength();
      if frame_size % 2 == 1 {
        frame_size := frame_size + 1;
      }
      var free := GetFreeBufferSpace();
      FreeSpaceFormula(Snapshot());
      fits := regs[EPKTCNT] < 0xff || frame_size <= free;
    }

    /** The local buffer of the source holds 65536 bytes. */
    method LoadReceivedFrame(frame: Frame, rx_status: seq<byte>)
      requires Valid() && InPlace(Snapshot()) && |rx_status| == 4
      requires 2 + |Stored(frame, rx_status)| <= 0x1_0000
      modifies regs, eth_buffer
      ensures Valid() && Snapshot() == Loaded(old(Snapshot()), Stored(frame, rx_status))
    {
      ghost var before := Snapshot();
      var body := PaddedBody(frame, rx_status);
      hide Stored, WriteAll, Wrap, RingOf, Get16;
      var ERXWRPT := Get16BitReg(ERXWRPTL);
      var next_pkt_ptr := WrapToRxBuffer((ERXWRPT + 2 + |body|) % 0x1_0000);
      var data := [LowByte(next_pkt_ptr), HighByte(next_pkt_ptr)] + body;
      assert data == PacketBytes(RingOf(before), ERXWRPT, body);
      var ptr := WriteRing(ERXWRPT, data);
      Set16BitReg(ERXWRPTL, ptr);
      regs[EPKTCNT] := Bumped(regs[EPKTCNT]);
      assert regs[..] == LoadedRegs(before, ptr);
    }

    /** The write loop of loadReceivedFrame: one cell at a time, wrapping at the end of the ring. */
    method WriteRing(start: nat, data: seq<byte>) returns (ptr: nat)
      requires Valid() && RingOf(Snapshot()).Valid() && RingOf(Snapshot()).Has(start)
      modifies eth_buffer
      ensures Valid() && ptr == RingOf(old(Snapshot())).Advance(start, |data|)
      ensures eth_buffer[..] == WriteAll(old(eth_buffer[..]), RingOf(old(Snapshot())), start, data)
    {
      ghost var buf, r := eth_buffer[..], RingOf(Snapshot());
      ptr := start;
      for i := 0 to |data|
        invariant eth_buffer[..] == WriteAll(buf, r, start, data[..i])
        invariant ptr == r.Advance(start, i)
        invariant regs[..] == old(regs[..])
      {
        WriteOneMore(buf, r, start, data, i);
        WrapIsAdvance(r, ptr, 1);
        AdvanceNear(r, ptr, 1);
        eth_buffer[ptr] := data[i];
        ptr := WrapToRxBuffer(ptr + 1);
      }
      assert data[..|data|] == data;
    }

    /** doReceiveFrame, for a frame the local buffer of loadReceivedFrame can hold. */
    method DoReceiveFrame(frame: Frame) returns (s: Step<()>)
      requires Valid() && frame.Valid() && PaddedSize(frame) <= 0x1_0000
      modifies regs, eth_buffer
      ensures Valid()
      ensures match Receive(old(Snapshot()), frame)
              case Ok(c) => s == Ok(()) && Snapshot() == c
              case Fail => s == Fail && Snapshot() == old(Snapshot())
              case Outside => false
    {
      hide ReceptionEnabled, FilterFrame, RxStatus, Stored, Loaded, PaddedSize, InPlace, Get16;
      if !ReceptionEnabled(Snapshot()) {
        return Ok(());
      }
      var pass := FilterFrame(Snapshot(), frame);
      if pass != Ok(true) {
        return if pass.Ok? then Ok(()) else Fail;
      }
      var rx_status := RxStatus(Snapshot(), frame);
      if !rx_status.Ok? {
        return Fail;
      }
      var sane := RxBufferSane();
      if !sane {
        return Fail;
      }
      var fits := FitsInBuffer(frame);
      if !fits {
        return Ok(());
      }
      RxStatusNeedsFcs(Snapshot(), frame);
      StoredSize(frame, rx_status.value);
      LoadReceivedFrame(frame, rx_status.value);
      return Ok(());
    }

    // ----- the SPI command machine -----

    method OnRegWrite(reg: nat, value: byte, prev: byte) returns (s: Step<()>)
      requires regs.Length == 0x80 && regs != eth_buffer && reg < 0x80
      modifies regs, this`reg_ERXRDPTL_shadow
      ensures match EncChip.OnRegWrite(old(Snapshot()), reg, value, prev)
              case Ok(c) => s == Ok(()) && Snapshot() == c
              case Fail => s == Fail
              case Outside => s == Outside
    {
      if IsMiiReg(reg) {
        return if reg == MICMD || reg == MIWRH then Outside else Ok(());
      }
      if reg == ECON1 {
        return if BitSet(value, 3) then Outside else Ok(());
      }
      if reg == ECON2 {
        if BitSet(value, 6) && regs[EPKTCNT] > 0 {
          regs[EPKTCNT] := regs[EPKTCNT] - 1;
          if regs[EPKTCNT] == 0 {
            regs[EIR] := And(regs[EIR], 0xbf);
          }
        }
      } else if reg == ERXRDPTL {
        regs[ERXRDPTL] := prev;
        reg_ERXRDPTL_shadow := value;
      } else if reg == ERXRDPTH {
        regs[ERXRDPTL] := reg_ERXRDPTL_shadow;
      }
      return Ok(());
    }

    method StoreRegister(reg: nat, wanted: byte) returns (s: Step<()>)
      requires Valid() && reg < 0x80
      modifies regs, this`reg_ERXRDPTL_shadow, this`state
      ensures s.Ok? ==> Valid()
      ensures Tied(s, StoreReg(old(Snapshot()), reg, wanted), Snapshot())
    {
      ghost var before := Snapshot();
      var prev := regs[reg];
      var value := AdjustRegWrite(reg, wanted, prev);
      hide AdjustRegWrite;
      regs[reg] := value;
      assert Snapshot() == before.(regs := before.regs[reg := value]);
      s := OnRegWrite(reg, value, prev);
      if s.Ok? {
        state := ReceivingCommand;
        StoreKeepsWf(before, reg, wanted);
      }
    }

    method ExecReadCtrlReg(reg: nat) returns (s: Step<()>)
      requires Valid() && reg < 0x20
      modifies this`response_byte, this`state
      ensures Valid() && Tied(s, EncChip.ExecReadCtrlReg(old(Snapshot()), reg), Snapshot())
    {
      var m := MapRegister(Snapshot(), reg);
      if m == MIRDL && BitSet(regs[MICMD], 1) {
        return Outside;
      }
      response_byte := regs[m];
      state := if IsMacReg(m) || IsMiiReg(m) then PreResponding else Responding;
      return Ok(());
    }

    method HandleCommandArg(data: byte) returns (s: Step<()>)
      requires Valid()
      modifies regs, this`reg_ERXRDPTL_shadow, this`state
      ensures s.Ok? ==> Valid()
      ensures Tied(s, EncChip.HandleCommandArg(old(Snapshot()), data), Snapshot())
    {
      hide StoreReg, And, Or, Not;
      var opcode, arg := cmd_byte / 0x20, cmd_byte % 0x20;
      var m := MapRegister(Snapshot(), arg);
      if opcode == 2 {
        s := StoreRegister(m, data);
      } else if opcode == 5 || opcode == 4 {
        if IsMacReg(m) || IsMiiReg(m) {
          return Fail;
        }
        s := StoreRegister(m, if opcode == 5 then And(regs[m], Not(data)) else Or(regs[m], data));
      } else {
        return Ok(());
      }
    }

    method HandleCommandStart(data: byte) returns (s: Step<()>)
      requires Valid()
      modifies this`cmd_byte, this`response_byte, this`state
      ensures Valid() && Tied(s, EncChip.HandleCommandStart(old(Snapshot()), data), Snapshot())
    {
      var opcode := data / 0x20;
      if opcode == 0 {
        s := ExecReadCtrlReg(data % 0x20);
        return;
      }
      if opcode == 2 || opcode == 5 || opcode == 4 {
        cmd_byte := data;
        state := ReceivingCommandArg;
        return Ok(());
      }
      if opcode == 1 && data % 0x20 == 0x1a {
        state := RespondingWithBufferData;
        return Ok(());
      }
      if opcode == 3 && data % 0x20 == 0x1a {
        state := ReceivingBufferData;
        return Ok(());
      }
      return Fail;
    }

    method HandleBufferData(data: byte) returns (s: Step<()>)
      requires Valid()
      modifies regs, eth_buffer
      ensures Valid() && Tied(s, EncChip.HandleBufferData(old(Snapshot()), data), Snapshot())
    {
      var ptr := Get16BitReg(EWRPTL);
      if ptr >= 0x2000 {
        return Fail;
      }
      eth_buffer[ptr] := data;
      if BitSet(regs[ECON2], 7) {
        Set16BitReg(EWRPTL, (ptr + 1) % 0x2000);
      }
      return Ok(());
    }

    method RespondWithBufferData() returns (s: Step<()>, data: byte)
      requires Valid()
      modifies regs
      ensures Valid()
      ensures match EncChip.RespondWithBufferData(old(Snapshot()))
              case Ok((c, b)) => s == Ok(()) && Snapshot() == c && data == b
              case Fail => s == Fail
              case Outside => false
    {
      var ptr := Get16BitReg(ERDPTL);
      if ptr >= 0x2000 {
        return Fail, 0xff;
      }
      data := eth_buffer[ptr];
      if BitSet(regs[ECON2], 7) {
        var ERXND := Get16BitReg(ERXNDL);
        if ptr == ERXND {
          ptr := Get16BitReg(ERXSTL);
        } else {
          ptr := (ptr + 1) % 0x2000;
        }
        Set16BitReg(ERDPTL, ptr);
      }
      return Ok(()), data;
    }

    method HandleSpiData(data: byte) returns (s: Step<()>, reply: byte)
      requires Valid()
      modifies this, regs, eth_buffer
      ensures s.Ok? ==> Valid()
      ensures match EncChip.HandleSpiData(old(Snapshot()), data)
              case Ok((c, b)) => s == Ok(()) && Snapshot() == c && reply == b
              case Fail => s == Fail
              case Outside => s == Outside
    {
      hide StoreReg, EncChip.HandleCommandArg, EncChip.HandleCommandStart, EncChip.HandleBufferData;
      reply := 0xff;
      match state
      case ReceivingCommand => s := HandleCommandStart(data);
      case ReceivingCommandArg => s := HandleCommandArg(data);
      case ReceivingBufferData => s := HandleBufferData(data);
      case RespondingWithBufferData => s, reply := RespondWithBufferData();
      case PreResponding =>
        state := Responding;
        s := Ok(());
      case Responding =>
        state := ReceivingCommand;
        s := Ok(());
        reply := response_byte;
    }
  }

  /** ERDPT, the ring and its free pointer, ECON2, ERXFCON, MACON2, MACLCON1 and 2, MAMXFLH, MAPHSUP, EREVID, ECOCON
      and EPAUSH. */
  predicate NotZeroAtReset(i: nat) {
    i in {0x00, 0x01, 0x08, 0x09, 0x0a, 0x0b, 0x0c, 0x0d, 0x1e, 0x38, 0x41, 0x48, 0x49, 0x4b, 0x4d, 0x72, 0x75, 0x79}
  }

  /** A method's outcome and the state it leaves are those of the function. */
  ghost predicate Tied(s: Step<()>, expected: Step<Chip>, now: Chip) {
    match expected
    case Ok(c) => s == Ok(()) && now == c
    case Fail => s == Fail
    case Outside => s == Outside
  }

  method PaddedBody(frame: Frame, rx_status: seq<byte>) returns (body: seq<byte>)
    ensures body == Stored(frame, rx_status)
  {
    body := rx_status + frame.Wire();
    if (2 + |body|) % 2 == 1 {
      body := body + [0];
    }
  }

  lemma RxStatusNeedsFcs(c: Chip, f: Frame)
    requires Wf(c) && f.Valid() && RxStatus(c, f).Ok?
    ensures f.fcs.Some? && |RxStatus(c, f).value| == 4
  {
  }

  /** The loop of wrapToRxBuffer. */
  method SubtractLoop(r: Ring, pointer: nat) returns (p: nat)
    requires r.Valid()
    ensures p == Wrap(r, pointer)
  {
    p := pointer;
    while p > r.nd
      invariant Wrap(r, p) == Wrap(r, pointer)
    {
      p := p - (r.nd + 1 - r.st);
    }
  }

  lemma WriteOneMore(buf: seq<byte>, r: Ring, p: nat, data: seq<byte>, i: nat)
    requires r.Valid() && r.Has(p) && |buf| == 0x2000 && i < |data|
    ensures WriteAll(buf, r, p, data[..i + 1]) == WriteAll(buf, r, p, data[..i])[r.Advance(p, i) := data[i]]
    ensures r.Advance(p, i + 1) == r.Next(r.Advance(p, i))
  {
    assert data[..i + 1][..i] == data[..i];
  }
}
