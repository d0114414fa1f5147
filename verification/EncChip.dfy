/** The state of the ENC28J60 and what each SPI byte and each arriving frame does to it, after
    src/devices/enc28j60/enc28j60.cpp and defs.h, as functions of the state. */
module EncChip {
  import opened Steps
  import opened Wrappers
  import opened Bytes
  import opened RxRing
  import opened EthFrame

  const ERDPTL: nat := 0x00
  const EWRPTL: nat := 0x02
  const ERXSTL: nat := 0x08
  const ERXSTH: nat := 0x09
  const ERXNDL: nat := 0x0a
  const ERXNDH: nat := 0x0b
  const ERXRDPTL: nat := 0x0c
  const ERXRDPTH: nat := 0x0d
  const ERXWRPTL: nat := 0x0e
  const EIR: nat := 0x1c
  const ECON2: nat := 0x1e
  const ECON1: nat := 0x1f
  const ERXFCON: nat := 0x38
  const EPKTCNT: nat := 0x39
  const MACON1: nat := 0x40
  const MACON2: nat := 0x41
  const MACON3: nat := 0x42
  const MAMXFLL: nat := 0x4a
  const MAPHSUP: nat := 0x4d
  const MICMD: nat := 0x52
  const MIWRH: nat := 0x57
  const MIRDL: nat := 0x58

  datatype SpiState =
    | ReceivingCommand | ReceivingCommandArg | PreResponding | Responding
    | ReceivingBufferData | RespondingWithBufferData

  datatype Chip = Chip(
    regs: seq<byte>, buf: seq<byte>, shadow: byte,
    state: SpiState, cmd: byte, response: byte, phyReset: bool)

  ghost predicate Wf(c: Chip) {
    && |c.regs| == 0x80
    && |c.buf| == 0x2000
    && c.regs[ERXSTH] < 0x20
    && c.regs[ERXNDH] < 0x20
  }

  // ----- registers -----

  function ResetValue(reg: nat): byte {
    match reg
    case 0x1e => 0x80
    case 0x00 => 0xfa
    case 0x01 => 0x05
    case 0x08 => 0xfa
    case 0x09 => 0x05
    case 0x0a => 0xff
    case 0x0b => 0x1f
    case 0x0c => 0xfa
    case 0x0d => 0x05
    case 0x38 => 0xa1
    case 0x41 => 0x80
    case 0x48 => 0x0f
    case 0x49 => 0x37
    case 0x4b => 0x06
    case 0x4d => 0x10
    case 0x72 => 0x05
    case 0x75 => 0x04
    case 0x79 => 0x10
    case _ => 0x00
  }

  predicate IsCommonReg(reg: nat) {
    reg % 0x20 >= 0x1b
  }

  predicate IsMacReg(reg: nat) {
    (0x40 <= reg <= 0x4d) || (0x61 <= reg <= 0x65)
  }

  predicate IsMiiReg(reg: nat) {
    (0x51 <= reg <= 0x59) || reg == 0x6a
  }

  function Get16(regs: seq<byte>, low: nat): word
    requires low + 1 < |regs|
  {
    Word(regs[low + 1], regs[low])
  }

  function Set16(regs: seq<byte>, low: nat, v: word): (regs': seq<byte>)
    requires low + 1 < |regs|
    ensures |regs'| == |regs|
  {
    regs[low := LowByte(v)][low + 1 := HighByte(v)]
  }

  function WriteMask(reg: nat): byte {
    match reg
    case 0x1c => 0x00
    case 0x1d => 0x01
    case 0x1e => 0xe8
    case 0x01 => 0x1f
    case 0x03 => 0x1f
    case 0x05 => 0x1f
    case 0x07 => 0x1f
    case 0x09 => 0x1f
    case 0x0b => 0x1f
    case 0x0d => 0x1f
    case 0x0f => 0x1f
    case 0x11 => 0x1f
    case 0x13 => 0x1f
    case 0x15 => 0x1f
    case 0x17 => 0x1f
    case 0x35 => 0x1f
    case 0x39 => 0x00
    case 0x36 => 0xdf
    case 0x37 => 0x00
    case 0x40 => 0x1f
    case 0x41 => 0xcf
    case 0x43 => 0x73
    case 0x44 => 0x7f
    case 0x46 => 0x7f
    case 0x47 => 0x7f
    case 0x48 => 0x0f
    case 0x49 => 0x3f
    case 0x4d => 0x99
    case 0x51 => 0x80
    case 0x52 => 0x03
    case 0x54 => 0x1f
    case 0x6a => 0x00
    case 0x72 => 0x00
    case 0x75 => 0x07
    case 0x77 => 0x03
    case _ => 0xff
  }

  function ClearableMask(reg: nat): byte {
    match reg
    case 0x1d => 0x52
    case 0x1c => 0x2b
    case 0x37 => 0xdf
    case _ => 0x00
  }

  function AdjustRegWrite(reg: nat, value: byte, prev: byte): byte {
    var clr := ClearableMask(reg);
    var wr := WriteMask(reg);
    Or(And(And(prev, Not(And(Not(value), clr))), Not(wr)), And(value, wr))
  }

  function MapRegister(c: Chip, reg: nat): (m: nat)
    requires Wf(c) && reg < 0x20
    ensures m < 0x80
  {
    if IsCommonReg(reg) then reg else (c.regs[ECON1] % 4) * 0x20 + reg
  }

  /** _onRegWrite, with the new value already in the register. */
  function OnRegWrite(c: Chip, reg: nat, value: byte, prev: byte): Step<Chip>
    requires |c.regs| == 0x80 && reg < 0x80
  {
    if IsMiiReg(reg) then
      if reg == MICMD || reg == MIWRH then Outside else Ok(c)
    else if reg == ECON1 then
      if BitSet(value, 3) then Outside else Ok(c)
    else if reg == ECON2 then
      if BitSet(value, 6) && c.regs[EPKTCNT] > 0 then
        var left := c.regs[EPKTCNT] - 1;
        var regs := c.regs[EPKTCNT := left];
        Ok(c.(regs := if left == 0 then regs[EIR := And(regs[EIR], 0xbf)] else regs))
      else Ok(c)
    else if reg == ERXRDPTL then
      Ok(c.(regs := c.regs[ERXRDPTL := prev], shadow := value))
    else if reg == ERXRDPTH then
      Ok(c.(regs := c.regs[ERXRDPTL := c.shadow]))
    else Ok(c)
  }

  /** The common end of the three register-writing commands. */
  function StoreReg(c: Chip, reg: nat, wanted: byte): Step<Chip>
    requires Wf(c) && reg < 0x80
  {
    var prev := c.regs[reg];
    var value := AdjustRegWrite(reg, wanted, prev);
    var after := OnRegWrite(c.(regs := c.regs[reg := value]), reg, value, prev);
    if after.Ok? then Ok(after.value.(state := ReceivingCommand)) else after
  }

  function ExecReadCtrlReg(c: Chip, reg: nat): Step<Chip>
    requires Wf(c) && reg < 0x20
  {
    var m := MapRegister(c, reg);
    if m == MIRDL && BitSet(c.regs[MICMD], 1) then Outside
    else Ok(c.(response := c.regs[m], state := if IsMacReg(m) || IsMiiReg(m) then PreResponding else Responding))
  }

  function ExecWriteCtrlReg(c: Chip, reg: nat, data: byte): Step<Chip>
    requires Wf(c) && reg < 0x20
  {
    StoreReg(c, MapRegister(c, reg), data)
  }

  function ExecBitFieldClear(c: Chip, reg: nat, data: byte): Step<Chip>
    requires Wf(c) && reg < 0x20
  {
    var m := MapRegister(c, reg);
    if IsMacReg(m) || IsMiiReg(m) then Fail else StoreReg(c, m, And(c.regs[m], Not(data)))
  }

  function ExecBitFieldSet(c: Chip, reg: nat, data: byte): Step<Chip>
    requires Wf(c) && reg < 0x20
  {
    var m := MapRegister(c, reg);
    if IsMacReg(m) || IsMiiReg(m) then Fail else StoreReg(c, m, Or(c.regs[m], data))
  }

  // ----- the SPI command machine -----

  function HandleCommandStart(c: Chip, data: byte): Step<Chip>
    requires Wf(c)
  {
    var opcode, arg := data / 0x20, data % 0x20;
    if opcode == 0 then ExecReadCtrlReg(c, arg)
    else if opcode == 2 || opcode == 5 || opcode == 4 then Ok(c.(cmd := data, state := ReceivingCommandArg))
    else if opcode == 1 && arg == 0x1a then Ok(c.(state := RespondingWithBufferData))
    else if opcode == 3 && arg == 0x1a then Ok(c.(state := ReceivingBufferData))
    else Fail
  }

  function HandleCommandArg(c: Chip, data: byte): Step<Chip>
    requires Wf(c)
  {
    var opcode, arg := c.cmd / 0x20, c.cmd % 0x20;
    if opcode == 2 then ExecWriteCtrlReg(c, arg, data)
    else if opcode == 5 then ExecBitFieldClear(c, arg, data)
    else if opcode == 4 then ExecBitFieldSet(c, arg, data)
    else Ok(c)
  }

  function HandleBufferData(c: Chip, data: byte): Step<Chip>
    requires Wf(c)
  {
    var ptr := Get16(c.regs, EWRPTL);
    if ptr >= 0x2000 then Fail
    else
      var buf := c.buf[ptr := data];
      if BitSet(c.regs[ECON2], 7) then Ok(c.(buf := buf, regs := Set16(c.regs, EWRPTL, (ptr + 1) % 0x2000)))
      else Ok(c.(buf := buf))
  }

  function RespondWithBufferData(c: Chip): Step<(Chip, byte)>
    requires Wf(c)
  {
    var ptr := Get16(c.regs, ERDPTL);
    if ptr >= 0x2000 then Fail
    else if BitSet(c.regs[ECON2], 7) then
      var next := if ptr == Get16(c.regs, ERXNDL) then Get16(c.regs, ERXSTL) else (ptr + 1) % 0x2000;
      Ok((c.(regs := Set16(c.regs, ERDPTL, next)), c.buf[ptr]))
    else Ok((c, c.buf[ptr]))
  }

  function Quiet(s: Step<Chip>): Step<(Chip, byte)> {
    match s
    case Ok(c) => Ok((c, 0xff))
    case Fail => Fail
    case Outside => Outside
  }

  /** One byte in, one byte out. */
  function HandleSpiData(c: Chip, data: byte): Step<(Chip, byte)>
    requires Wf(c)
  {
    match c.state
    case ReceivingCommand => Quiet(HandleCommandStart(c, data))
    case ReceivingCommandArg => Quiet(HandleCommandArg(c, data))
    case ReceivingBufferData => Quiet(HandleBufferData(c, data))
    case RespondingWithBufferData => RespondWithBufferData(c)
    case PreResponding => Ok((c.(state := Responding), 0xff))
    case Responding => Ok((c.(state := ReceivingCommand), c.response))
  }

  function OnSpiSlaveSelect(c: Chip, select: bool): Chip {
    if select then c.(state := ReceivingCommand) else c
  }

  // ----- reception -----

  function RingOf(c: Chip): Ring
    requires Wf(c)
  {
    Ring(Get16(c.regs, ERXSTL), Get16(c.regs, ERXNDL))
  }

  /** The pointers lie in the ring. */
  predicate InPlace(c: Chip)
    requires Wf(c)
  {
    var r := RingOf(c);
    r.Valid() && r.Has(Get16(c.regs, ERXWRPTL)) && r.Has(Get16(c.regs, ERXRDPTL))
  }

  /** doRxBufferSanityChecks passes. */
  predicate Sane(c: Chip)
    requires Wf(c)
  {
    InPlace(c) && Get16(c.regs, ERXWRPTL) % 2 == 0
  }

  function FreeSpace(c: Chip): (n: nat)
    requires Wf(c) && InPlace(c)
  {
    var wr, rd := Get16(c.regs, ERXWRPTL), Get16(c.regs, ERXRDPTL);
    var r := RingOf(c);
    if wr > rd then (r.nd - r.st) - (wr - rd)
    else if wr == rd then r.nd - r.st
    else rd - wr - 1
  }

  function PaddedSize(f: Frame): nat {
    var n := 6 + f.TotalLength();
    if n % 2 == 1 then n + 1 else n
  }

  predicate FitsInBuffer(c: Chip, f: Frame)
    requires Wf(c) && InPlace(c)
  {
    c.regs[EPKTCNT] < 0xff || PaddedSize(f) <= FreeSpace(c)
  }

  /** What is stored behind the next-packet pointer: status, frame and a pad byte to even length. */
  function Stored(f: Frame, status: seq<byte>): Record {
    var n := 2 + |status| + |f.Wire()|;
    status + f.Wire() + (if n % 2 == 1 then [0] else [])
  }

  function Wrap(r: Ring, x: nat): nat
    requires r.Valid()
    decreases x
  {
    if x > r.nd then Wrap(r, x - r.Size()) else x
  }

  /** The stored pointer to the packet behind one of `n` bytes; the sum is a 16-bit value in the source. */
  function NextPointer(r: Ring, wr: nat, n: nat): nat
    requires r.Valid()
  {
    Wrap(r, (wr + n) % 0x1_0000)
  }

  /** The bytes loadReceivedFrame writes. */
  function PacketBytes(r: Ring, wr: nat, rec: Record): seq<byte>
    requires r.Valid()
  {
    var next := NextPointer(r, wr, 2 + |rec|);
    [LowByte(next), HighByte(next)] + rec
  }

  function LoadedRegs(c: Chip, wr': nat): (regs: seq<byte>)
    requires Wf(c) && InPlace(c) && RingOf(c).Has(wr')
    ensures |regs| == 0x80
    ensures regs[EPKTCNT] == Bumped(c.regs[EPKTCNT])
    ensures Get16(regs, ERXWRPTL) == wr'
    ensures forall i :: 0 <= i < 0x80 && i != ERXWRPTL && i != ERXWRPTL + 1 && i != EPKTCNT ==> regs[i] == c.regs[i]
  {
    PartsOfWord(wr');
    Set16(c.regs, ERXWRPTL, wr')[EPKTCNT := Bumped(c.regs[EPKTCNT])]
  }

  /** loadReceivedFrame, for a stored packet `rec`. */
  function Loaded(c: Chip, rec: Record): (d: Chip)
    requires Wf(c) && InPlace(c)
    ensures Wf(d) && RingOf(d) == RingOf(c) && InPlace(d)
  {
    var r, wr := RingOf(c), Get16(c.regs, ERXWRPTL);
    c.(buf := WriteAll(c.buf, r, wr, PacketBytes(r, wr, rec)), regs := LoadedRegs(c, r.Advance(wr, 2 + |rec|)))
  }

  function Bumped(n: byte): byte {
    if n == 0xff then 0 else n + 1
  }

  predicate ReceptionEnabled(c: Chip)
    requires Wf(c)
  {
    && BitSet(c.regs[ECON1], 2)
    && BitSet(c.regs[MACON1], 0)
    && !BitSet(c.regs[ECON1], 6)
    && And(c.regs[MACON2], 0x8c) == 0
    && !BitSet(c.regs[MAPHSUP], 3)
    && !c.phyReset
  }

  function MacAddress(c: Chip): seq<byte>
    requires Wf(c)
  {
    [c.regs[0x64], c.regs[0x65], c.regs[0x62], c.regs[0x63], c.regs[0x60], c.regs[0x61]]
  }

  predicate IsBroadcast(mac: seq<byte>) {
    mac == [0xff, 0xff, 0xff, 0xff, 0xff, 0xff]
  }

  predicate IsMulticast(mac: seq<byte>)
    requires |mac| == 6
  {
    BitSet(mac[0], 0) && !IsBroadcast(mac)
  }

  function Triggered(c: Chip, f: Frame): byte
    requires Wf(c) && f.Valid()
  {
    (if f.dest == MacAddress(c) then 0x80 else 0) +
    (if IsMulticast(f.dest) then 0x02 else 0) +
    (if IsBroadcast(f.dest) then 0x01 else 0)
  }

  function FilterFrame(c: Chip, f: Frame): Step<bool>
    requires Wf(c) && f.Valid()
  {
    var con := c.regs[ERXFCON];
    var enabled := And(con, Not(0x60));
    var triggered := Triggered(c, f);
    if f.TotalLength() < 64 then Ok(false)
    else if !BitSet(c.regs[MACON3], 2) && f.TotalLength() > Get16(c.regs, MAMXFLL) then Ok(false)
    else if BitSet(con, 4) || BitSet(con, 3) || BitSet(con, 2) then Fail
    else if BitSet(con, 6) && enabled != triggered then Ok(false)
    else if !BitSet(con, 6) && And(enabled, triggered) == 0 then Ok(false)
    else if BitSet(con, 5) && f.fcs.Some? && !f.FcsCorrect() then Ok(false)
    else if !BitSet(c.regs[MACON1], 1) && f.IsMacControl() then Ok(false)
    else Ok(true)
  }

  /** getRxStatusFlags, lowest byte first. The frame length goes in with its two bytes exchanged. */
  function RxStatus(c: Chip, f: Frame): (s: Step<seq<byte>>)
    requires Wf(c) && f.Valid()
    ensures s.Ok? ==> |s.value| == 4
  {
    if f.fcs.None? then Fail
    else
      var n := f.TotalLength();
      Ok([HighByte(n), LowByte(n),
          Byte([f.FcsCorrect() && f.LengthValid(), !f.LengthValid(),
                BitSet(c.regs[MACON3], 1) && !f.LengthCorrect(), !f.FcsCorrect(), false, false, false, false]),
          Byte([false, f.IsVlan(), f.IsMacControl() && !f.IsPause(), f.IsPause(),
                f.IsMacControl(), false, IsBroadcast(f.dest), IsMulticast(f.dest)])])
  }

  /** doReceiveFrame. */
  function Receive(c: Chip, f: Frame): Step<Chip>
    requires Wf(c) && f.Valid()
  {
    if !ReceptionEnabled(c) then Ok(c)
    else
      var pass := FilterFrame(c, f);
      if pass != Ok(true) then (if pass.Ok? then Ok(c) else Fail)
      else
        var status := RxStatus(c, f);
        if !status.Ok? || !Sane(c) then Fail
        else if !FitsInBuffer(c, f) then Ok(c)
        else Ok(Loaded(c, Stored(f, status.value)))
  }
}
