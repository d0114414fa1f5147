/** The SD card's SPI command machine, byte by byte, after src/devices/sd_card.cpp, as functions of the
    card's state. */
module SdProtocol {
  import opened Bytes
  import opened Crc
  import opened SdStore

  /** The exceptions the source throws; `UnexpectedState` is the one meant never to happen. */
  datatype Error = UnexpectedState | BadCommand | BadCrc | BadAddress | HostSpoke

  datatype Reply<T> = Ok(value: T) | Fail(error: Error)

  datatype Card = Card(
    file: seq<byte>, file_len: nat, capacity: uint32,
    in_sd_mode: bool, idle: bool, receiving_command: bool, expecting_acmd: bool,
    responding: bool, responding_with_data: bool, receiving_write_data: bool,
    substate: int, flags: word,
    cmd: seq<byte>, response: seq<byte>, response_length: int,
    read_block: seq<byte>, read_crc: Bits16,
    write_addr: uint32, write_block: seq<byte>, write_crc: Bits16,
    crc_enabled: bool)

  function Reset(c: Card): Card {
    c.(in_sd_mode := true, idle := true, crc_enabled := true, expecting_acmd := false, flags := 0)
  }

  function OnSelect(c: Card, select: bool): Card {
    if select then c.(idle := true) else c
  }

  predicate Sized(c: Card) {
    |c.cmd| == 6 && |c.response| == 5 && |c.read_block| == BLOCK && |c.write_block| == BLOCK
  }

  /** The range test of the two block commands, in the source's 32-bit arithmetic. */
  predicate Accepts(capacity: uint32, addr: uint32) {
    addr % 512 == 0 && (addr + BLOCK) % 0x1_0000_0000 < capacity
  }

  function PrepareR1(c: Card): Card
    requires Sized(c)
  {
    c.(response := c.response[0 := LowByte(c.flags)], response_length := 1, substate := 0, responding := true,
       flags := c.flags - c.flags % 0x100)
  }

  function Param(cmd: seq<byte>): uint32
    requires |cmd| == 6
  {
    BigEndian(cmd[1..5])
  }

  /** The switch over commands, data phases already cleared. */
  function SwitchCommand(c: Card, command: byte, param: uint32): Reply<Card>
    requires Sized(c)
  {
    if command == 0x40 then
      Ok(c.(crc_enabled := if c.in_sd_mode then false else c.crc_enabled, in_sd_mode := false))
    else if command == 0x77 then Ok(c.(expecting_acmd := true))
    else if command == 0x50 then (if param != 512 then Fail(BadCommand) else Ok(c))
    else if command == 0x51 then
      if !Accepts(c.capacity, param) then Fail(BadAddress)
      else
        var block := ReadBlock(c.file, c.file_len, param);
        Ok(c.(read_block := block, read_crc := Crc16(block), responding_with_data := true))
    else if command == 0x58 then
      if !Accepts(c.capacity, param) then Fail(BadAddress)
      else Ok(c.(write_addr := param, receiving_write_data := true))
    else Fail(BadCommand)
  }

  function ExecCommand(c: Card, command: byte, param: uint32): Reply<Card>
    requires Sized(c)
  {
    if c.in_sd_mode && command != 0x40 then Fail(BadCommand)
    else
      match SwitchCommand(c.(responding_with_data := false, receiving_write_data := false), command, param)
      case Ok(d) => Ok(PrepareR1(d))
      case Fail(error) => Fail(error)
  }

  function ExecAppCommand(c: Card, command: byte): Reply<Card>
    requires Sized(c)
  {
    if command == 0x69 then Ok(PrepareR1(c)) else Fail(BadCommand)
  }

  function CommandInIdle(c: Card, data: byte): Reply<(Card, byte)>
    requires Sized(c)
  {
    if data == 0xff then Ok((c, 0xff))
    else if data / 64 != 1 then Fail(BadCommand)
    else Ok((c.(cmd := c.cmd[0 := data], substate := 1, idle := false, receiving_command := true), 0xff))
  }

  /** The six command bytes are in. */
  function CommandComplete(c: Card): Reply<Card>
    requires Sized(c)
  {
    if c.cmd[5] % 2 == 0 then Fail(BadCommand)
    else if c.crc_enabled && !CommandChecks(c.cmd[..5], c.cmd[5]) then Fail(BadCrc)
    else if c.expecting_acmd then ExecAppCommand(c.(expecting_acmd := false), c.cmd[0])
    else ExecCommand(c, c.cmd[0], Param(c.cmd))
  }

  function Collect(c: Card, data: byte): Card
    requires Sized(c) && 0 <= c.substate < 6
  {
    c.(cmd := c.cmd[c.substate := data], substate := c.substate + 1)
  }

  function ReceivingCommand(c: Card, data: byte): Reply<(Card, byte)>
    requires Sized(c) && 0 <= c.substate < 6
  {
    var d := Collect(c, data);
    if d.substate < 6 then Ok((d, 0xff))
    else
      match CommandComplete(d.(receiving_command := false))
      case Ok(e) => Ok((e, 0xff))
      case Fail(error) => Fail(error)
  }

  function Responding(c: Card, data: byte): Reply<(Card, byte)>
    requires Sized(c) && 0 <= c.substate < 5
  {
    if data != 0xff then Fail(HostSpoke)
    else
      var d := c.(substate := c.substate + 1);
      var out := c.response[c.substate];
      if d.substate != c.response_length then Ok((d, out))
      else
        var more := c.responding_with_data || c.receiving_write_data;
        Ok((d.(responding := false, idle := !more, substate := if more then 0 else d.substate), out))
  }

  function RespondingWithData(c: Card, data: byte): Reply<(Card, byte)>
    requires Sized(c) && 0 <= c.substate
  {
    if data != 0xff then Fail(HostSpoke)
    else
      var d := c.(substate := c.substate + 1);
      if c.substate == 0 then Ok((d, 0xfe))
      else if c.substate <= BLOCK then Ok((d, c.read_block[c.substate - 1]))
      else if c.substate == BLOCK + 1 then Ok((d, Byte(c.read_crc[..8])))
      else Ok((d.(responding_with_data := false, idle := true), Byte(c.read_crc[8..])))
  }

  /** The data response: 0x0b for a wrong CRC, else 0x05, a write never failing without an exception. */
  function PrepareDataResponse(c: Card, crc_error: bool): Card
    requires Sized(c)
  {
    c.(response := c.response[0 := if crc_error then 0x0b else 0x05],
       response_length := 1, substate := 0, responding := true)
  }

  /** The block and both check bytes are in; the block is stored whether or not they match. */
  function BlockComplete(c: Card): Card
    requires Sized(c)
  {
    var crc_error := c.crc_enabled && c.write_crc != Crc16(c.write_block);
    var (file, len) := WriteBlock(c.file, c.file_len, c.write_addr, c.write_block);
    PrepareDataResponse(c.(file := file, file_len := len), crc_error).(receiving_write_data := false)
  }

  function Join(high: byte, low: byte): Bits16 {
    Bits8(high) + Bits8(low)
  }

  function ReceivingWriteData(c: Card, data: byte): Reply<(Card, byte)>
    requires Sized(c) && 0 <= c.substate
  {
    hide BlockComplete, Bits8;
    if c.substate == 0 then
      if data == 0xff then Ok((c, 0xff))
      else if data == 0xfe then Ok((c.(substate := 1), 0xff))
      else Fail(HostSpoke)
    else if c.substate <= BLOCK then
      Ok((c.(write_block := c.write_block[c.substate - 1 := data], substate := c.substate + 1), 0xff))
    else if c.substate == BLOCK + 1 then
      Ok((c.(write_crc := Join(data, 0), substate := c.substate + 1), 0xff))
    else Ok((BlockComplete(c.(write_crc := Join(Byte(c.write_crc[..8]), data))), 0xff))
  }

  /** In this state the next byte indexes inside its buffer. */
  predicate InRange(c: Card) {
    if c.idle then true
    else if c.receiving_command then 0 <= c.substate < 6
    else if c.responding then 0 <= c.substate < 5
    else 0 <= c.substate
  }

  function HandleSpiData(c: Card, data: byte): Reply<(Card, byte)>
    requires Sized(c) && InRange(c)
  {
    if c.idle then CommandInIdle(c, data)
    else if c.receiving_command then ReceivingCommand(c, data)
    else if c.responding then Responding(c, data)
    else if c.responding_with_data then RespondingWithData(c, data)
    else if c.receiving_write_data then ReceivingWriteData(c, data)
    else Fail(UnexpectedState)
  }
}
