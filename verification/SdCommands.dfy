/** What the SD card makes of every command, byte by byte, and of a byte sent out of turn. */
module SdCommands {
  import opened Wrappers
  import opened Bytes
  import opened Gf2
  import opened Crc
  import opened SdStore
  import opened SdProtocol
  import opened SdSafety
  import opened SdTransactions

  /** The 32-bit argument of a command, its highest byte first. */
  function Argument(b: seq<byte>): nat
    requires |b| == 6
  {
    b[1] as nat * 0x100_0000 + b[2] as nat * 0x1_0000 + b[3] as nat * 0x100 + b[4]
  }

  /** The last byte is the check sequence of the five before it, and bit 7 of the check register is clear. */
  ghost predicate Checked(b: seq<byte>)
    requires |b| == 6
  {
    && IsRemainder(MessageBits(b[..5]) + Zeros(7), TAIL7, Bits8(b[5] / 2)[1..])
    && !ShiftAll(TAIL7, Zeros(7), MessageBits(b[..5])[..39])[0]
  }

  /** Aligned, and its end, modulo 2^32, below the capacity. */
  predicate AddressTaken(c: Card, addr: nat) {
    addr % 512 == 0 && (addr + 512) % 0x1_0000_0000 < c.capacity
  }

  /** In SPI mode and not behind APP_CMD: the commands there are, and what their arguments must be. */
  function PlainError(c: Card, b: seq<byte>): Option<Error>
    requires |b| == 6
  {
    match b[0]
    case 0x40 => None
    case 0x77 => None
    case 0x50 => if Argument(b) == 512 then None else Some(BadCommand)
    case 0x51 => if AddressTaken(c, Argument(b)) then None else Some(BadAddress)
    case 0x58 => if AddressTaken(c, Argument(b)) then None else Some(BadAddress)
    case _ => Some(BadCommand)
  }

  /** The error a command meets, if any. It must end in a one. In SD mode only GO_IDLE_STATE is taken, with a check
      sequence that counts; behind APP_CMD only SD_SEND_OP_COND. */
  ghost function ErrorOf(c: Card, b: seq<byte>): Option<Error>
    requires |b| == 6
  {
    if b[5] % 2 == 0 then Some(BadCommand)
    else if c.in_sd_mode && !Checked(b) then Some(BadCrc)
    else if c.expecting_acmd then (if b[0] == 0x69 then None else Some(BadCommand))
    else if c.in_sd_mode && b[0] != 0x40 then Some(BadCommand)
    else PlainError(c, b)
  }

  /** The card that has taken a command and is about to answer R1, a zero. */
  function Taken(c: Card, b: seq<byte>): Card
    requires Sized(c) && |b| == 6
  {
    var d := c.(cmd := b, idle := false, receiving_command := false, responding := true, substate := 0,
                response := c.response[0 := 0], response_length := 1, expecting_acmd := false);
    if c.expecting_acmd then d
    else
      var e := d.(responding_with_data := false, receiving_write_data := false);
      match b[0]
      case 0x40 => e.(in_sd_mode := false, crc_enabled := false)
      case 0x77 => e.(expecting_acmd := true)
      case 0x51 =>
        var block := ReadBlock(c.file, c.file_len, BigEndian(b[1..5]));
        e.(responding_with_data := true, read_block := block, read_crc := Crc16(block))
      case 0x58 => e.(receiving_write_data := true, write_addr := BigEndian(b[1..5]))
      case _ => e
  }

  lemma ArgumentIs(b: seq<byte>)
    requires |b| == 6
    ensures Param(b) == Argument(b)
  {
    assert b[1..5] == [b[1], b[2], b[3], b[4]];
    WordIs(b[1], b[2]);
    WordIs(b[3], b[4]);
  }

  lemma CheckedIs(b: seq<byte>)
    requires |b| == 6
    ensures CommandChecks(b[..5], b[5]) <==> Checked(b)
  {
    hide IsRemainder, ShiftAll, CommandChecks, MessageBits;
    CommandAcceptedIff(b[..5], b[5]);
  }

  function Outcome(error: Option<Error>, d: Card): Reply<Card> {
    match error
    case None => Ok(d)
    case Some(e) => Fail(e)
  }

  lemma SwitchIs(c: Card, b: seq<byte>)
    requires Core(c) && |b| == 6 && !c.expecting_acmd && c.cmd == b && !c.idle && !c.receiving_command
    requires c.in_sd_mode ==> b[0] == 0x40
    ensures ExecCommand(c, b[0], Argument(b)) == Outcome(PlainError(c, b), Taken(c, b))
  {
    ArgumentIs(b);
    hide ReadBlock, Crc16, BigEndian, Argument;
  }

  lemma SdModeRefuses(c: Card, b: seq<byte>)
    requires Core(c) && |b| == 6 && c.in_sd_mode && b[0] != 0x40
    ensures ExecCommand(c, b[0], Argument(b)) == Fail(BadCommand)
  {
    ArgumentIs(b);
    hide SwitchCommand, Argument;
  }

  lemma AppIs(c: Card, b: seq<byte>)
    requires Core(c) && |b| == 6 && c.expecting_acmd && c.cmd == b && !c.idle && !c.receiving_command
    ensures ExecAppCommand(c.(expecting_acmd := false), b[0])
         == if b[0] == 0x69 then Ok(Taken(c, b)) else Fail(BadCommand)
  {
    hide ReadBlock, Crc16, BigEndian;
  }

  lemma CompleteCases(c: Card, b: seq<byte>)
    requires Core(c) && |b| == 6 && c.cmd == b
    ensures CommandComplete(c) ==
            if b[5] % 2 == 0 then Fail(BadCommand)
            else if c.in_sd_mode && !Checked(b) then Fail(BadCrc)
            else if c.expecting_acmd then ExecAppCommand(c.(expecting_acmd := false), b[0])
            else ExecCommand(c, b[0], Argument(b))
  {
    CheckedIs(b);
    ArgumentIs(b);
    hide Checked, CommandChecks, ExecCommand, ExecAppCommand, Param, Argument;
  }

  lemma CompleteIs(c: Card, b: seq<byte>)
    requires Core(c) && |b| == 6
    ensures CommandComplete(Collected(c, b)) == Outcome(ErrorOf(c, b), Taken(c, b))
  {
    var d := Collected(c, b);
    TakenIs(c, b);
    hide Checked, CommandComplete, ExecCommand, ExecAppCommand, Taken, PlainError, Argument;
    CompleteCases(d, b);
    if c.expecting_acmd {
      AppIs(d, b);
    } else if c.in_sd_mode && b[0] != 0x40 {
      SdModeRefuses(d, b);
    } else {
      SwitchIs(d, b);
    }
  }

  lemma TakenIs(c: Card, b: seq<byte>)
    requires Sized(c) && |b| == 6
    ensures Taken(Collected(c, b), b) == Taken(c, b) && PlainError(Collected(c, b), b) == PlainError(c, b)
  {
    hide ReadBlock, Crc16, BigEndian, Argument;
  }

  lemma LastFails(c: Card, b: seq<byte>, error: Error)
    requires Inv(c) && |b| == 6 && CommandComplete(Collected(c, b)) == Fail(error)
    ensures Inv(Collecting(c, b, 5)) && HandleSpiData(Collecting(c, b, 5), b[5]) == Fail(error)
  {
    hide CommandComplete;
    var a := Collecting(c, b, 5);
    assert a.cmd[5 := b[5]] == b;
    assert a.(cmd := b, substate := 6, receiving_command := false) == Collected(c, b);
  }

  lemma FailsFrom(c: Card, bytes: seq<byte>, error: Error)
    requires Inv(c) && bytes != [] && InRange(c)
    requires match HandleSpiData(c, bytes[0])
             case Fail(e) => e == error
             case Ok((d, _)) => Inv(d) && RunBytes(d, bytes[1..]) == Fail(error)
    ensures RunBytes(c, bytes) == Fail(error)
  {
    hide Inv, HandleSpiData, InRange;
    ByteKeeps(c, bytes[0]);
  }

  lemma {:induction false} RestFails(c: Card, b: seq<byte>, k: nat, error: Error)
    requires Inv(c) && |b| == 6 && 1 <= k <= 5 && CommandComplete(Collected(c, b)) == Fail(error)
    ensures Inv(Collecting(c, b, k)) && RunBytes(Collecting(c, b, k), b[k..]) == Fail(error)
    decreases 6 - k
  {
    var a := Collecting(c, b, k);
    hide Inv, HandleSpiData, InRange, CommandComplete, Collecting, Collected, RunBytes;
    if k == 5 {
      LastFails(c, b, error);
    } else {
      CollectOne(c, b, k);
      RestFails(c, b, k + 1, error);
    }
    InvInRange(a);
    FailsFrom(a, b[k..], error);
  }

  lemma SelectedIs(c: Card, b: seq<byte>)
    requires Inv(c) && |b| == 6
    ensures var s := OnSelect(c, true);
            && Inv(s) && Core(s) && s.idle && Sized(s) && Sized(c)
            && ErrorOf(s, b) == ErrorOf(c, b) && Taken(s, b) == Taken(c, b)
  {
    hide Checked, ReadBlock, Crc16, BigEndian, Argument;
  }

  lemma RunsIs(c: Card, bytes: seq<byte>, d: Card, outs: seq<byte>)
    requires Runs(c, bytes, d, outs)
    ensures Inv(c) && RunBytes(c, bytes) == Ok((d, outs))
  {
  }

  /** However the card was left, once selected it takes six bytes as a command, with these outcomes and no other. */
  lemma CommandOutcome(c: Card, b: seq<byte>)
    requires Inv(c) && |b| == 6 && b[0] / 64 == 1
    ensures var s := OnSelect(c, true);
            && Inv(s)
            && RunBytes(s, b) == match ErrorOf(c, b)
                                 case None => Ok((Taken(c, b), Fill(6, 0xff)))
                                 case Some(error) => Fail(error)
  {
    var s := OnSelect(c, true);
    SelectedIs(c, b);
    CompleteIs(s, b);
    hide *;
    OutcomeOf(s, b, ErrorOf(c, b), Taken(c, b));
  }

  lemma OutcomeOf(s: Card, b: seq<byte>, error: Option<Error>, d: Card)
    requires Inv(s) && s.idle && |b| == 6 && b[0] / 64 == 1 && CommandComplete(Collected(s, b)) == Outcome(error, d)
    ensures RunBytes(s, b) == match error
                              case None => Ok((d, Fill(6, 0xff)))
                              case Some(e) => Fail(e)
  {
    hide CommandComplete, Collected, Collecting, Inv, HandleSpiData, InRange, RunBytes, Fill, Runs;
    InvInRange(s);
    match error
    case None =>
      SendCommand(s, b, d);
      RunsIs(s, b, d, Fill(6, 0xff));
    case Some(e) =>
      CollectFirst(s, b);
      RestFails(s, b, 1, e);
      FailsFrom(s, b, e);
  }

  /** A byte that cannot begin a command: 0xff is passed over, and any other is an error. */
  lemma FirstByte(c: Card, b: byte)
    requires Inv(c) && b / 64 != 1
    ensures Inv(OnSelect(c, true))
    ensures RunBytes(OnSelect(c, true), [b]) == if b == 0xff then Ok((OnSelect(c, true), [0xff])) else Fail(BadCommand)
  {
    var s := OnSelect(c, true);
    hide Inv, InRange;
    EventKeeps(c, Select(true));
    InvInRange(s);
    if b == 0xff {
      RunsOne(s, b, s, 0xff);
      RunsIs(s, [b], s, [0xff]);
    } else {
      FailsFrom(s, [b], BadCommand);
    }
    hide HandleSpiData;
  }

  /** Between a command and the end of its data phase the host keeps silent, or, before a block it writes, sends
      the start token: any other byte, and nothing but such a byte, is that error. */
  lemma HostSpokeIff(c: Card, b: byte)
    requires Inv(c)
    ensures Sized(c) && InRange(c)
    ensures HandleSpiData(c, b) == Fail(HostSpoke) <==>
            && !c.idle && !c.receiving_command && b != 0xff
            && (c.responding || c.responding_with_data || (c.substate == 0 && b != 0xfe))
  {
    InvInRange(c);
    hide CommandComplete, BlockComplete, Crc16, Accepts;
    if !c.idle && c.receiving_command {
      NotWhileCollecting(c, b);
    }
  }

  lemma NotWhileCollecting(c: Card, b: byte)
    requires Sized(c) && 0 <= c.substate < 6
    ensures ReceivingCommand(c, b) != Fail(HostSpoke)
  {
    hide CommandChecks, ReadBlock, Crc16, Accepts, Param;
  }

  // ----- what no run reaches -----

  /** With the CRC checked, a wrong one would be answered 0x0b and the block stored all the same. */
  lemma WrongCrcStores(c: Card)
    requires Sized(c)
    ensures var d := BlockComplete(c);
            && d.response[0] == (if c.crc_enabled && c.write_crc != Crc16(c.write_block) then 0x0b else 0x05)
            && (d.file, d.file_len) == WriteBlock(c.file, c.file_len, c.write_addr, c.write_block)
  {
    hide WriteBlock, Crc16;
  }

  /** Flags, if any were ever set, would be answered by their low byte, which R1 clears. */
  lemma FlagsAreAnswered(c: Card)
    requires Sized(c)
    ensures var d := PrepareR1(c);
            d.response[0] as int == c.flags % 256 && d.flags as int == c.flags / 256 * 256
  {
  }
}
