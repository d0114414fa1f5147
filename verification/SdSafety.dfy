/** What holds of the SD card in every run of SPI bytes, selections and resets. */
module SdSafety {
  import opened Bytes
  import opened SdStore
  import opened SdProtocol
  import opened Crc

  datatype Event = Spi(b: byte) | Select(on: bool) | ResetCard

  /** A pending ACMD excludes a data phase; the CRC is checked exactly in SD mode; in SPI mode at most
      one data phase is under way, and a block to be written has an accepted address. */
  predicate Core(c: Card) {
    && Sized(c)
    && c.flags == 0
    && c.crc_enabled == c.in_sd_mode
    && (c.expecting_acmd ==> !c.in_sd_mode && !c.responding_with_data && !c.receiving_write_data)
    && (!c.in_sd_mode ==>
          && !(c.responding_with_data && c.receiving_write_data)
          && (c.receiving_write_data ==> Accepts(c.capacity, c.write_addr)))
  }

  /** Some handler takes the next byte, which falls inside its buffer; before GO_IDLE_STATE that handler
      takes command bytes. */
  predicate Phase(c: Card) {
    || c.idle
    || (c.receiving_command && 1 <= c.substate < 6)
    || (!c.receiving_command && !c.in_sd_mode && c.responding && c.substate == 0 && c.response_length == 1)
    || (&& !c.receiving_command && !c.in_sd_mode && !c.responding
        && (c.responding_with_data || c.receiving_write_data) && 0 <= c.substate <= BLOCK + 2)
  }

  predicate Inv(c: Card) {
    Core(c) && Phase(c)
  }

  lemma InvInRange(c: Card)
    requires Inv(c)
    ensures Sized(c) && InRange(c)
  {
  }

  lemma CommandKeeps(c: Card, command: byte, param: uint32)
    requires Core(c) && !c.expecting_acmd && !c.receiving_command
    ensures ExecCommand(c, command, param) != Fail(UnexpectedState)
    ensures ExecCommand(c, command, param).Ok? ==> Inv(ExecCommand(c, command, param).value)
  {
  }

  lemma AppCommandKeeps(c: Card, command: byte)
    requires Core(c) && !c.in_sd_mode && !c.expecting_acmd && !c.receiving_command
    ensures ExecAppCommand(c, command) != Fail(UnexpectedState)
    ensures ExecAppCommand(c, command).Ok? ==> Inv(ExecAppCommand(c, command).value)
  {
  }

  lemma CompleteKeeps(c: Card)
    requires Core(c) && !c.receiving_command
    ensures CommandComplete(c) != Fail(UnexpectedState)
    ensures CommandComplete(c).Ok? ==> Inv(CommandComplete(c).value)
  {
    hide CommandChecks, ExecCommand, ExecAppCommand;
    if c.expecting_acmd {
      AppCommandKeeps(c.(expecting_acmd := false), c.cmd[0]);
    } else {
      CommandKeeps(c, c.cmd[0], Param(c.cmd));
    }
  }

  lemma ReceivingCommandKeeps(c: Card, b: byte)
    requires Core(c) && !c.idle && c.receiving_command && 1 <= c.substate < 6
    ensures ReceivingCommand(c, b) != Fail(UnexpectedState)
    ensures ReceivingCommand(c, b).Ok? ==> Inv(ReceivingCommand(c, b).value.0)
  {
    hide CommandComplete;
    if c.substate == 5 {
      CompleteKeeps(c.(cmd := c.cmd[c.substate := b], substate := 6, receiving_command := false));
    }
  }

  /** One byte keeps the invariant, or fails for the host's sake: never in an unexpected state. */
  lemma ByteKeeps(c: Card, b: byte)
    requires Inv(c)
    ensures Sized(c) && InRange(c) && HandleSpiData(c, b) != Fail(UnexpectedState)
    ensures HandleSpiData(c, b).Ok? ==> Inv(HandleSpiData(c, b).value.0)
  {
    hide CommandComplete, WriteBlock, Accepts;
    if !c.idle && c.receiving_command {
      ReceivingCommandKeeps(c, b);
    }
  }

  function StepEvent(c: Card, e: Event): Reply<Card>
    requires Sized(c) && InRange(c)
  {
    match e
    case Select(on) => Ok(OnSelect(c, on))
    case ResetCard => Ok(Reset(c))
    case Spi(b) =>
      match HandleSpiData(c, b)
      case Ok((d, _)) => Ok(d)
      case Fail(error) => Fail(error)
  }

  lemma EventKeeps(c: Card, e: Event)
    requires Inv(c)
    ensures InRange(c) && StepEvent(c, e) != Fail(UnexpectedState)
    ensures StepEvent(c, e).Ok? ==> Inv(StepEvent(c, e).value)
    ensures e == Select(false) ==> StepEvent(c, e) == Ok(c)
  {
    match e
    case Spi(b) =>
      hide HandleSpiData;
      ByteKeeps(c, b);
    case _ =>
  }

  /** A run ends at the first failure. */
  function RunAll(c: Card, es: seq<Event>): Reply<Card>
    requires Inv(c)
    decreases |es|
  {
    if es == [] then Ok(c)
    else
      EventKeeps(c, es[0]);
      match StepEvent(c, es[0])
      case Ok(d) => RunAll(d, es[1..])
      case Fail(error) => Fail(error)
  }

  /** However the card is selected, deselected and reset, and whatever bytes it is sent, it never reaches
      a state without a handler, and every state it reaches keeps the invariant. The flags the source
      leaves uninitialised may start as anything. */
  lemma {:induction false} EveryRunIsSafe(c: Card, es: seq<Event>)
    requires Inv(c)
    ensures RunAll(c, es) != Fail(UnexpectedState)
    ensures RunAll(c, es).Ok? ==> Inv(RunAll(c, es).value)
    decreases |es|
  {
    if es != [] {
      hide Inv, StepEvent;
      EventKeeps(c, es[0]);
      if StepEvent(c, es[0]).Ok? {
        EveryRunIsSafe(StepEvent(c, es[0]).value, es[1..]);
      }
    }
  }

  /** Reset puts the card into SD mode, waiting for a command; the image and the buffers stay. */
  lemma ResetGivesInv(c: Card)
    requires Sized(c)
    ensures Inv(Reset(c))
    ensures var d := Reset(c);
            && d.in_sd_mode && d.idle && !d.expecting_acmd
            && d == c.(in_sd_mode := true, idle := true, crc_enabled := d.crc_enabled, expecting_acmd := false,
                       flags := d.flags)
  {
  }

  /** Before GO_IDLE_STATE nothing but 0xff is ever answered, the file stays as it is and no data phase begins;
      leaving it, the card is in none. */
  lemma SdModeIsSilent(c: Card, b: byte)
    requires Inv(c) && c.in_sd_mode && HandleSpiData(c, b).Ok?
    ensures HandleSpiData(c, b).value.1 == 0xff && HandleSpiData(c, b).value.0.file == c.file
    ensures var d := HandleSpiData(c, b).value.0;
            if d.in_sd_mode then
              d.responding_with_data == c.responding_with_data && d.receiving_write_data == c.receiving_write_data
            else !d.responding_with_data && !d.receiving_write_data
  {
    hide CommandChecks, Param, ReadBlock;
  }
}
