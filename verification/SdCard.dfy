/** The SD card as the object it is in src/devices/sd_card.cpp: flags, buffers and backing file updated in
    place, each method tied to the functions of SdProtocol. */
module SdCard {
  import opened Bytes
  import opened Crc
  import opened SdStore
  import opened SdProtocol
  import opened SdSafety
  import opened Wrappers

  class SdCard {
    var backing_file: seq<byte>
    var backing_file_len: uint32
    var capacity: uint32
    var in_sd_mode: bool
    var idle: bool
    var receiving_command: bool
    var expecting_acmd: bool
    var responding: bool
    var responding_with_data: bool
    var receiving_write_data: bool
    var substate: int
    var flags: word
    const cmd_buffer: array<byte>
    const response: array<byte>
    var response_length: int
    const read_block_buffer: array<byte>
    var read_block_crc: Bits16
    var write_block_addr: uint32
    const write_block_buffer: array<byte>
    var write_block_crc: Bits16
    var crc_enabled: bool

    ghost function Snapshot(): Card
      reads this, cmd_buffer, response, read_block_buffer, write_block_buffer
    {
      Card(backing_file, backing_file_len, capacity, in_sd_mode, idle, receiving_command, expecting_acmd,
           responding, responding_with_data, receiving_write_data, substate, flags, cmd_buffer[..], response[..],
           response_length, read_block_buffer[..], read_block_crc, write_block_addr, write_block_buffer[..],
           write_block_crc, crc_enabled)
    }

    ghost predicate Valid()
      reads this, cmd_buffer, response, read_block_buffer, write_block_buffer
    {
      && Sized(Snapshot())
      && cmd_buffer != response && cmd_buffer != read_block_buffer && cmd_buffer != write_block_buffer
      && response != read_block_buffer && response != write_block_buffer
      && read_block_buffer != write_block_buffer
    }

    /** Opens a card over a backing file; a capacity that is not a whole number of blocks is an error of
        the caller. The flags reset() does not name stay uninitialised. */
    constructor (file: seq<byte>, capacity: uint32)
      requires capacity % 512 == 0 && |file| < 0x1_0000_0000
      ensures Valid() && Inv(Snapshot())
      ensures Snapshot() == Reset(Snapshot())
      ensures backing_file == file && backing_file_len == |file| && this.capacity == capacity
    {
      backing_file := file;
      backing_file_len := |file|;
      this.capacity := capacity;
      cmd_buffer := new byte[6];
      response := new byte[5];
      read_block_buffer := new byte[512];
      write_block_buffer := new byte[512];
      in_sd_mode := true;
      idle := true;
      crc_enabled := true;
      expecting_acmd := false;
      flags := 0;
    }

    /** init: a capacity that is not a whole number of blocks, or no image to open, is an error and makes no card. */
    static method Open(image: Option<seq<byte>>, capacity: uint32) returns (card: SdCard?)
      requires image.Some? ==> |image.value| < 0x1_0000_0000
      ensures card == null <==> capacity % 512 != 0 || image.None?
      ensures card != null ==>
                fresh(card) && card.Valid() && Inv(card.Snapshot()) && card.Snapshot() == Reset(card.Snapshot())
                && card.backing_file == image.value && card.backing_file_len == |image.value|
                && card.capacity == capacity
    {
      if capacity % 512 != 0 || image.None? {
        return null;
      }
      card := new SdCard(image.value, capacity);
    }

    method ResetCard()
      requires Valid()
      modifies this`in_sd_mode, this`idle, this`crc_enabled, this`expecting_acmd, this`flags
      ensures Valid() && Snapshot() == Reset(old(Snapshot()))
    {
      in_sd_mode := true;
      idle := true;
      crc_enabled := true;
      expecting_acmd := false;
      flags := 0;
    }

    /** The loop of expandBackingFile, in pieces of at most 64 KB. */
    method ExpandBackingFile(minimum_size: uint32)
      modifies this`backing_file, this`backing_file_len
      ensures (backing_file, backing_file_len as nat)
              == Expanded(old(backing_file), old(backing_file_len), minimum_size)
    {
      while backing_file_len < minimum_size
        invariant old(backing_file_len) <= backing_file_len
        invariant backing_file_len <= minimum_size || backing_file_len == old(backing_file_len)
        invariant backing_file == old(backing_file) + Fill(backing_file_len - old(backing_file_len), 0xff)
      {
        var count := if minimum_size - backing_file_len < 0x1_0000 then minimum_size - backing_file_len else 0x1_0000;
        backing_file := backing_file + Fill(count, 0xff);
        backing_file_len := backing_file_len + count;
      }
    }

    method WriteBlockToBackingFile(buffer: seq<byte>, offset: uint32)
      requires |buffer| == BLOCK
      modifies this`backing_file, this`backing_file_len
      ensures (backing_file, backing_file_len as nat)
              == WriteBlock(old(backing_file), old(backing_file_len), offset, buffer)
    {
      ExpandBackingFile((offset + |buffer|) % 0x1_0000_0000);
      if |backing_file| < offset {
        backing_file := backing_file + Fill(offset - |backing_file|, 0);
      }
      backing_file := backing_file[..offset] + buffer
                      + (if |backing_file| > offset + |buffer| then backing_file[offset + |buffer|..] else []);
    }

    /** memset to 0xff, then as much as the file has. */
    method ReadBlockFromBackingFile(offset: uint32)
      requires read_block_buffer.Length == BLOCK
      modifies read_block_buffer
      ensures read_block_buffer[..] == ReadBlock(backing_file, backing_file_len, offset)
    {
      for i := 0 to BLOCK
        invariant forall j :: 0 <= j < i ==> read_block_buffer[j] == 0xff
      {
        read_block_buffer[i] := 0xff;
      }
      if offset < backing_file_len {
        var i := 0;
        while i < BLOCK && offset + i < |backing_file|
          invariant 0 <= i <= BLOCK
          invariant forall j :: 0 <= j < i ==>
                      offset + j < |backing_file| && read_block_buffer[j] == backing_file[offset + j]
          invariant forall j :: i <= j < BLOCK ==> read_block_buffer[j] == 0xff
        {
          read_block_buffer[i] := backing_file[offset + i];
          i := i + 1;
        }
      }
    }

    method PrepareR1Response()
      requires Valid()
      modifies response, this`response_length, this`substate, this`responding, this`flags
      ensures Valid() && Snapshot() == PrepareR1(old(Snapshot()))
    {
      response[0] := LowByte(flags);
      response_length := 1;
      substate := 0;
      responding := true;
      flags := flags - flags % 0x100;
    }

    method ExecuteCommand(command: byte, param: uint32) returns (r: Reply<()>)
      requires Valid()
      modifies this, response, read_block_buffer
      ensures Valid() && Tied(r, ExecCommand(old(Snapshot()), command, param), Snapshot())
    {
      hide SdProtocol.SwitchCommand;
      if in_sd_mode && command != 0x40 {
        return Fail(BadCommand);
      }
      responding_with_data := false;
      receiving_write_data := false;
      r := SwitchCommand(command, param);
      if r.Ok? {
        PrepareR1Response();
      }
    }

    method SwitchCommand(command: byte, param: uint32) returns (r: Reply<()>)
      requires Valid()
      modifies this`crc_enabled, this`in_sd_mode, this`expecting_acmd, this`write_block_addr,
               this`receiving_write_data, this`read_block_crc, this`responding_with_data, read_block_buffer
      ensures Valid() && Tied(r, SdProtocol.SwitchCommand(old(Snapshot()), command, param), Snapshot())
    {
      hide ReadBlock, Crc16, Accepts, Sized;
      r := Ok(());
      if command == 0x40 {
        GoIdle();
      } else if command == 0x77 {
        ExpectAppCommand();
      } else if command == 0x50 {
        r := if param != 512 then Fail(BadCommand) else Ok(());
      } else if command == 0x51 || command == 0x58 {
        r := BlockCommand(command, param);
      } else {
        r := Fail(BadCommand);
      }
    }

    method BlockCommand(command: byte, param: uint32) returns (r: Reply<()>)
      requires Valid() && (command == 0x51 || command == 0x58)
      modifies this`write_block_addr, this`receiving_write_data, this`read_block_crc, this`responding_with_data,
               read_block_buffer
      ensures Valid() && Tied(r, SdProtocol.SwitchCommand(old(Snapshot()), command, param), Snapshot())
    {
      hide ReadBlock, Crc16, Accepts;
      var accepted := InBounds(param);
      if !accepted {
        return Fail(BadAddress);
      }
      if command == 0x51 {
        StartRead(param);
      } else {
        StartWrite(param);
      }
      return Ok(());
    }

    method GoIdle()
      requires Valid()
      modifies this`crc_enabled, this`in_sd_mode
      ensures Valid()
      ensures var crc := if old(in_sd_mode) then false else old(crc_enabled);
              Snapshot() == old(Snapshot()).(crc_enabled := crc, in_sd_mode := false)
    {
      if in_sd_mode {
        crc_enabled := false;
      }
      in_sd_mode := false;
    }

    method ExpectAppCommand()
      requires Valid()
      modifies this`expecting_acmd
      ensures Valid() && Snapshot() == old(Snapshot()).(expecting_acmd := true)
    {
      expecting_acmd := true;
    }

    /** The two range checks both block commands make, the sum wrapping in 32 bits. */
    method InBounds(param: uint32) returns (accepted: bool)
      ensures accepted == Accepts(capacity, param)
    {
      if param % 512 != 0 {
        return false;
      }
      if (param + 512) % 0x1_0000_0000 >= capacity {
        return false;
      }
      return true;
    }

    method StartWrite(param: uint32)
      requires Valid()
      modifies this`write_block_addr, this`receiving_write_data
      ensures Valid() && Snapshot() == old(Snapshot()).(write_addr := param, receiving_write_data := true)
    {
      write_block_addr := param;
      receiving_write_data := true;
    }

    method StartRead(param: uint32)
      requires Valid()
      modifies read_block_buffer, this`read_block_crc, this`responding_with_data
      ensures Valid()
      ensures var block := ReadBlock(backing_file, backing_file_len, param);
              Snapshot() == old(Snapshot()).(read_block := block, read_crc := Crc16(block),
                  responding_with_data := true)
    {
      hide ReadBlock, Crc16;
      ReadBlockFromBackingFile(param);
      read_block_crc := ComputeCrc16(read_block_buffer[..]);
      responding_with_data := true;
    }

    method ExecuteAppCommand(command: byte) returns (r: Reply<()>)
      requires Valid()
      modifies this, response
      ensures Valid() && Tied(r, ExecAppCommand(old(Snapshot()), command), Snapshot())
    {
      if command != 0x69 {
        return Fail(BadCommand);
      }
      PrepareR1Response();
      return Ok(());
    }

    method HandleCommandInIdle(data: byte) returns (r: Reply<()>, out: byte)
      requires Valid()
      modifies this, cmd_buffer
      ensures Valid() && Answered(r, out, CommandInIdle(old(Snapshot()), data), Snapshot())
    {
      out := 0xff;
      if data == 0xff {
        return Ok(()), 0xff;
      }
      if data / 64 != 1 {
        return Fail(BadCommand), 0xff;
      }
      cmd_buffer[0] := data;
      substate := 1;
      idle := false;
      receiving_command := true;
      return Ok(()), 0xff;
    }

    method HandleReceivingCommand(data: byte) returns (r: Reply<()>, out: byte)
      requires Valid() && 0 <= substate < 6
      modifies this, cmd_buffer, response, read_block_buffer
      ensures Valid() && Answered(r, out, ReceivingCommand(old(Snapshot()), data), Snapshot())
    {
      hide CommandComplete, Collect;
      out := 0xff;
      r := Ok(());
      CollectByte(data);
      if substate >= 6 {
        r := FinishCommand();
      }
    }

    method CollectByte(data: byte)
      requires Valid() && 0 <= substate < 6
      modifies this`substate, cmd_buffer
      ensures Valid() && substate == old(substate) + 1
      ensures Snapshot() == Collect(old(Snapshot()), data)
    {
      cmd_buffer[substate] := data;
      substate := substate + 1;
    }

    method FinishCommand() returns (r: Reply<()>)
      requires Valid()
      modifies this, response, read_block_buffer
      ensures Valid() && Tied(r, CommandComplete(old(Snapshot()).(receiving_command := false)), Snapshot())
    {
      hide CommandComplete;
      receiving_command := false;
      r := CompleteCommand();
    }

    method CompleteCommand() returns (r: Reply<()>)
      requires Valid()
      modifies this, response, read_block_buffer
      ensures Valid() && Tied(r, CommandComplete(old(Snapshot())), Snapshot())
    {
      hide ExecCommand, ExecAppCommand;
      if cmd_buffer[5] % 2 == 0 {
        return Fail(BadCommand);
      }
      if crc_enabled {
        var crc := ComputeCrc7(cmd_buffer[..5]);
        if Byte(crc) != cmd_buffer[5] / 2 {
          return Fail(BadCrc);
        }
      }
      if expecting_acmd {
        expecting_acmd := false;
        r := ExecuteAppCommand(cmd_buffer[0]);
      } else {
        r := ExecuteCommand(cmd_buffer[0], Param(cmd_buffer[..]));
      }
    }

    method HandleResponding(data: byte) returns (r: Reply<()>, out: byte)
      requires Valid() && 0 <= substate < 5
      modifies this
      ensures Valid() && Answered(r, out, Responding(old(Snapshot()), data), Snapshot())
    {
      if data != 0xff {
        return Fail(HostSpoke), 0xff;
      }
      out := response[substate];
      substate := substate + 1;
      if substate == response_length {
        responding := false;
        idle := !responding_with_data && !receiving_write_data;
        if responding_with_data || receiving_write_data {
          substate := 0;
        }
      }
      r := Ok(());
    }

    method HandleRespondingWithData(data: byte) returns (r: Reply<()>, out: byte)
      requires Valid() && 0 <= substate
      modifies this
      ensures Valid() && Answered(r, out, RespondingWithData(old(Snapshot()), data), Snapshot())
    {
      if data != 0xff {
        return Fail(HostSpoke), 0xff;
      }
      if substate == 0 {
        out := 0xfe;
      } else if substate <= BLOCK {
        out := read_block_buffer[substate - 1];
      } else if substate == BLOCK + 1 {
        out := Byte(read_block_crc[..8]);
      } else {
        out := Byte(read_block_crc[8..]);
        responding_with_data := false;
        idle := true;
      }
      substate := substate + 1;
      r := Ok(());
    }

    method HandleReceivingWriteData(data: byte) returns (r: Reply<()>, out: byte)
      requires Valid() && 0 <= substate
      modifies this, write_block_buffer, response
      ensures Valid() && Answered(r, out, ReceivingWriteData(old(Snapshot()), data), Snapshot())
    {
      hide BlockComplete, Join, Byte;
      out := 0xff;
      r := Ok(());
      if substate == 0 {
        if data == 0xff {
          return;
        }
        if data == 0xfe {
          substate := 1;
          return;
        }
        r := Fail(HostSpoke);
      } else if substate <= BLOCK {
        write_block_buffer[substate - 1] := data;
        substate := substate + 1;
      } else if substate == BLOCK + 1 {
        write_block_crc := Join(data, 0);
        substate := substate + 1;
      } else {
        write_block_crc := Join(Byte(write_block_crc[..8]), data);
        CompleteBlock();
      }
    }

    method CompleteBlock()
      requires Valid()
      modifies this, response
      ensures Valid() && Snapshot() == BlockComplete(old(Snapshot()))
    {
      hide Crc16, WriteBlock;
      var crc := ComputeCrc16(write_block_buffer[..]);
      var crc_error := crc_enabled && write_block_crc != crc;
      StoreBlock();
      PrepareDataResponse(crc_error);
      receiving_write_data := false;
    }

    method StoreBlock()
      requires Valid()
      modifies this`backing_file, this`backing_file_len
      ensures Valid()
      ensures var (file, len) := WriteBlock(old(backing_file), old(backing_file_len), write_block_addr,
              write_block_buffer[..]);
              Snapshot() == old(Snapshot()).(file := file, file_len := len)
    {
      hide WriteBlock;
      WriteBlockToBackingFile(write_block_buffer[..], write_block_addr);
    }

    method PrepareDataResponse(crc_error: bool)
      requires Valid()
      modifies response, this`response_length, this`substate, this`responding
      ensures Valid() && Snapshot() == SdProtocol.PrepareDataResponse(old(Snapshot()), crc_error)
    {
      response[0] := if crc_error then 0x0b else 0x05;
      response_length := 1;
      substate := 0;
      responding := true;
    }

    /** A byte to the selected card. From any state the invariant allows, some handler takes it. */
    method HandleData(data: byte) returns (r: Reply<()>, out: byte)
      requires Valid() && Inv(Snapshot())
      modifies this, cmd_buffer, response, read_block_buffer, write_block_buffer
      ensures Valid() && InRange(old(Snapshot()))
      ensures Answered(r, out, HandleSpiData(old(Snapshot()), data), Snapshot())
      ensures r != Fail(UnexpectedState) && (r.Ok? ==> Inv(Snapshot()))
    {
      ByteKeeps(Snapshot(), data);
      hide Inv, CommandInIdle, ReceivingCommand, Responding, RespondingWithData, ReceivingWriteData;
      out := 0xff;
      if idle {
        r, out := HandleCommandInIdle(data);
      } else if receiving_command {
        r, out := HandleReceivingCommand(data);
      } else if responding {
        r, out := HandleResponding(data);
      } else if responding_with_data {
        r, out := HandleRespondingWithData(data);
      } else if receiving_write_data {
        r, out := HandleReceivingWriteData(data);
      } else {
        r := Fail(UnexpectedState);
      }
    }
  }

  /** A method's outcome and the state it leaves are those of the function. */
  ghost predicate Tied(r: Reply<()>, expected: Reply<Card>, now: Card) {
    match expected
    case Ok(c) => r == Ok(()) && now == c
    case Fail(error) => r == Fail(error)
  }

  ghost predicate Answered(r: Reply<()>, out: byte, expected: Reply<(Card, byte)>, now: Card) {
    match expected
    case Ok((c, b)) => r == Ok(()) && now == c && out == b
    case Fail(error) => r == Fail(error)
  }
}
