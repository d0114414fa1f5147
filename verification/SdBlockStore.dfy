/** Sequences of complete transactions: the SD card is a flat block store over SPI. */
module SdBlockStore {
  import opened Bytes
  import opened Crc
  import opened SdStore
  import opened SdProtocol
  import opened SdSafety
  import opened SdTransactions

  /** One complete transaction. Each command ends in a byte the card does not check beyond its low bit
      once in SPI mode; `gap` is how long the host waits before the data token. */
  datatype Txn =
    | GoIdle(arg: uint32, last: byte)
    | SetBlockLen(last: byte)
    | SendOpCond(arg: uint32, last: byte, arg': uint32, last': byte)
    | Read(addr: uint32, last: byte)
    | Write(addr: uint32, last: byte, gap: nat, data: seq<byte>, check: seq<byte>)

  /** Well formed, and for a block an address the card accepts. */
  predicate Proper(t: Txn, capacity: uint32) {
    match t
    case GoIdle(_, last) => last % 2 == 1
    case SetBlockLen(last) => last % 2 == 1
    case SendOpCond(_, last, _, last') => last % 2 == 1 && last' % 2 == 1
    case Read(addr, last) => last % 2 == 1 && Accepts(capacity, addr)
    case Write(addr, last, _, data, check) =>
      last % 2 == 1 && Accepts(capacity, addr) && |data| == BLOCK && |check| == 2
  }

  function Command(op: byte, arg: uint32, last: byte): (b: seq<byte>)
    ensures |b| == 6
  {
    [op] + FourBytes(arg) + [last]
  }

  /** What the host sends. */
  function BytesOf(t: Txn): seq<byte> {
    match t
    case GoIdle(arg, last) => Command(0x40, arg, last) + [0xff]
    case SetBlockLen(last) => Command(0x50, 512, last) + [0xff]
    case SendOpCond(arg, last, arg', last') =>
      (Command(0x77, arg, last) + [0xff]) + (Command(0x69, arg', last') + [0xff])
    case Read(addr, last) => (Command(0x51, addr, last) + [0xff]) + Fill(BLOCK + 3, 0xff)
    case Write(addr, last, gap, data, check) =>
      (Command(0x58, addr, last) + [0xff]) + ((Fill(gap, 0xff) + [0xfe]) + (data + (check + [0xff])))
  }

  /** What the card answers: R1, and for a read the token, the block as it is in the file, and its CRC16; for
      a write the acceptance response, whatever the check bytes were. */
  function AnswersTo(file: seq<byte>, len: nat, t: Txn): seq<byte> {
    match t
    case GoIdle(_, _) => Fill(6, 0xff) + [0]
    case SetBlockLen(_) => Fill(6, 0xff) + [0]
    case SendOpCond(_, _, _, _) => (Fill(6, 0xff) + [0]) + (Fill(6, 0xff) + [0])
    case Read(addr, _) => (Fill(6, 0xff) + [0]) + BlockStream(ReadBlock(file, len, addr))
    case Write(_, _, gap, _, _) =>
      (Fill(6, 0xff) + [0]) + (Fill(gap + 1, 0xff) + (Fill(BLOCK, 0xff) + ([0xff, 0xff] + [0x05])))
  }

  /** The file afterwards, and the length the card believes it has. */
  function FileAfter(file: seq<byte>, len: nat, t: Txn): (seq<byte>, nat) {
    if t.Write? then WriteBlock(file, len, t.addr, t.data) else (file, len)
  }

  /** In SPI mode, between transactions. */
  predicate Ready(c: Card) {
    Inv(c) && c.idle && !c.in_sd_mode && !c.expecting_acmd
  }

  // ----- commands -----

  lemma CommandParts(op: byte, arg: uint32, last: byte)
    ensures var b := Command(op, arg, last); b[0] == op && b[5] == last && Param(b) == arg
  {
    var b := Command(op, arg, last);
    assert b[1..5] == FourBytes(arg);
    FourBytesBack(arg);
  }

  /** In SPI mode a command whose last bit is set is carried out, whatever its CRC. */
  lemma CommandIsRun(c: Card, op: byte, arg: uint32, last: byte)
    requires Inv(c) && c.idle && !c.in_sd_mode && last % 2 == 1
    ensures var e := Collected(c, Command(op, arg, last));
            CommandComplete(e) == if c.expecting_acmd then ExecAppCommand(e.(expecting_acmd := false), op)
                                  else ExecCommand(e, op, arg)
  {
    CommandParts(op, arg, last);
    hide ExecCommand, ExecAppCommand, CommandChecks;
  }

  /** A card whose command has just been carried out answers R1 and goes on. */
  lemma CommandAndResponse(c: Card, bytes: seq<byte>, d: Card, e: Card)
    requires Inv(c) && c.idle && |bytes| == 6 && bytes[0] / 64 == 1
    requires CommandComplete(Collected(c, bytes)) == Ok(d)
    requires Inv(d) && !d.idle && !d.receiving_command && d.responding && d.response[0] == 0
    requires var more := d.responding_with_data || d.receiving_write_data;
             e == d.(responding := false, idle := !more, substate := if more then 0 else 1)
    ensures Runs(c, bytes + [0xff], e, Fill(6, 0xff) + [0])
  {
    hide Inv, CommandComplete, Runs, Collected;
    SendCommand(c, bytes, d);
    TakeResponse(d, e);
    RunsConcat(c, bytes, d, Fill(6, 0xff), [0xff], e, [0]);
  }

  /** A command without a data phase. */
  lemma PlainCommand(c: Card, op: byte, arg: uint32, last: byte) returns (d: Card)
    requires Inv(c) && c.idle && !c.in_sd_mode && last % 2 == 1
    requires if c.expecting_acmd then op == 0x69 else op == 0x40 || op == 0x77 || (op == 0x50 && arg == 512)
    ensures Runs(c, Command(op, arg, last) + [0xff], d, Fill(6, 0xff) + [0])
    ensures Inv(d) && d.idle && !d.in_sd_mode && d.expecting_acmd == (op == 0x77)
    ensures d.file == c.file && d.file_len == c.file_len && d.capacity == c.capacity
  {
    CommandParts(op, arg, last);
    CommandIsRun(c, op, arg, last);
    var done := CommandComplete(Collected(c, Command(op, arg, last))).value;
    d := done.(responding := false, idle := true, substate := 1);
    hide CommandComplete, Runs;
    CommandAndResponse(c, Command(op, arg, last), done, d);
  }

  // ----- the two block transactions -----

  lemma ReadCommand(c: Card, addr: uint32, last: byte) returns (d: Card)
    requires Ready(c) && last % 2 == 1 && Accepts(c.capacity, addr)
    ensures Runs(c, Command(0x51, addr, last) + [0xff], d, Fill(6, 0xff) + [0])
    ensures Sending(d) && d.substate == 0 && d.read_block == ReadBlock(c.file, c.file_len, addr)
    ensures !d.in_sd_mode && !d.expecting_acmd
    ensures d.file == c.file && d.file_len == c.file_len && d.capacity == c.capacity
  {
    CommandParts(0x51, addr, last);
    CommandIsRun(c, 0x51, addr, last);
    var done := CommandComplete(Collected(c, Command(0x51, addr, last))).value;
    d := done.(responding := false, idle := false, substate := 0);
    hide CommandComplete, Runs, ReadBlock;
    CommandAndResponse(c, Command(0x51, addr, last), done, d);
  }

  lemma ReadTransaction(c: Card, addr: uint32, last: byte) returns (d: Card)
    requires Ready(c) && last % 2 == 1 && Accepts(c.capacity, addr)
    ensures Runs(c, BytesOf(Read(addr, last)), d, AnswersTo(c.file, c.file_len, Read(addr, last)))
    ensures Ready(d) && d.file == c.file && d.file_len == c.file_len && d.capacity == c.capacity
  {
    var e := ReadCommand(c, addr, last);
    SendBlock(e);
    d := Sent(e);
    hide Runs, BlockStream, ReadBlock;
    RunsConcat(c, Command(0x51, addr, last) + [0xff], e, Fill(6, 0xff) + [0],
               Fill(BLOCK + 3, 0xff), d, BlockStream(e.read_block)[0..]);
    assert BlockStream(e.read_block)[0..] == BlockStream(e.read_block);
  }

  lemma WriteCommand(c: Card, addr: uint32, last: byte) returns (d: Card)
    requires Ready(c) && last % 2 == 1 && Accepts(c.capacity, addr)
    ensures Runs(c, Command(0x58, addr, last) + [0xff], d, Fill(6, 0xff) + [0])
    ensures Awaiting(d) && d.substate == 0 && d.write_addr == addr
    ensures !d.in_sd_mode && !d.expecting_acmd
    ensures d.file == c.file && d.file_len == c.file_len && d.capacity == c.capacity
  {
    CommandParts(0x58, addr, last);
    CommandIsRun(c, 0x58, addr, last);
    var done := CommandComplete(Collected(c, Command(0x58, addr, last))).value;
    d := done.(responding := false, idle := false, substate := 0);
    hide CommandComplete, Runs;
    CommandAndResponse(c, Command(0x58, addr, last), done, d);
  }

  /** Both check bytes and the request for the data response: the block is stored. */
  lemma FinishWrite(c: Card, check: seq<byte>) returns (d: Card)
    requires Awaiting(c) && c.substate == BLOCK + 1 && |check| == 2
    requires !c.in_sd_mode && !c.expecting_acmd
    ensures Runs(c, check + [0xff], d, [0xff, 0xff] + [0x05])
    ensures Ready(d) && d.capacity == c.capacity
    ensures (d.file, d.file_len) == WriteBlock(c.file, c.file_len, c.write_addr, c.write_block)
  {
    var c1 := c.(write_crc := Join(check[0], 0), substate := BLOCK + 2);
    FirstCheckByte(c, check[0], c1);
    var c2 := BlockComplete(c1.(write_crc := Join(Byte(c1.write_crc[..8]), check[1])));
    SecondCheckByte(c1, check[1], c2);
    d := c2.(responding := false, idle := true, substate := 1);
    TakeResponse(c2, d);
    StoredBlock(c1.(write_crc := Join(Byte(c1.write_crc[..8]), check[1])));
    ThreeBytes(c, check, c1, c2, d);
  }

  lemma ThreeBytes(c: Card, check: seq<byte>, c1: Card, c2: Card, d: Card)
    requires |check| == 2
    requires Runs(c, [check[0]], c1, [0xff]) && Runs(c1, [check[1]], c2, [0xff]) && Runs(c2, [0xff], d, [0x05])
    ensures Runs(c, check + [0xff], d, [0xff, 0xff] + [0x05])
  {
    hide Runs;
    RunsConcat(c, [check[0]], c1, [0xff], [check[1]], c2, [0xff]);
    RunsConcat(c, [check[0]] + [check[1]], c2, [0xff] + [0xff], [0xff], d, [0x05]);
    assert [check[0]] + [check[1]] == check && [0xff as byte] + [0xff] == [0xff, 0xff];
  }

  lemma StoredBlock(c: Card)
    requires Sized(c)
    ensures var d := BlockComplete(c);
            && (d.file, d.file_len) == WriteBlock(c.file, c.file_len, c.write_addr, c.write_block)
            && d.capacity == c.capacity && d.expecting_acmd == c.expecting_acmd && d.in_sd_mode == c.in_sd_mode
  {
    hide Crc16, WriteBlock;
  }

  lemma FirstCheckByte(c: Card, b: byte, d: Card)
    requires Awaiting(c) && c.substate == BLOCK + 1
    requires d == c.(write_crc := Join(b, 0), substate := BLOCK + 2)
    ensures Runs(c, [b], d, [0xff]) && Awaiting(d)
  {
    hide Join;
    assert HandleSpiData(c, b) == Ok((d, 0xff));
    RunsOne(c, b, d, 0xff);
  }

  lemma SecondCheckByte(c: Card, b: byte, d: Card)
    requires Awaiting(c) && c.substate == BLOCK + 2 && !c.in_sd_mode
    requires d == BlockComplete(c.(write_crc := Join(Byte(c.write_crc[..8]), b)))
    ensures Runs(c, [b], d, [0xff])
    ensures Inv(d) && !d.idle && !d.receiving_command && d.responding && d.response[0] == 0x05
    ensures !d.responding_with_data && !d.receiving_write_data
  {
    hide Join, WriteBlock, Crc16;
    assert HandleSpiData(c, b) == Ok((d, 0xff));
    RunsOne(c, b, d, 0xff);
  }

  lemma WriteTransaction(c: Card, t: Txn) returns (d: Card)
    requires Ready(c) && t.Write? && Proper(t, c.capacity)
    ensures Runs(c, BytesOf(t), d, AnswersTo(c.file, c.file_len, t))
    ensures Ready(d) && (d.file, d.file_len) == FileAfter(c.file, c.file_len, t) && d.capacity == c.capacity
  {
    var c1 := WriteCommand(c, t.addr, t.last);
    AwaitToken(c1, t.gap);
    var c2 := c1.(substate := 1);
    ReceiveBlock(c2, t.data);
    var c3 := c2.(write_block := t.data, substate := BLOCK + 1);
    assert t.data[0..] == t.data;
    d := FinishWrite(c3, t.check);
    hide Runs, Inv, Fill, WriteBlock, Command;
    RunsConcat(c2, t.data, c3, Fill(BLOCK, 0xff), t.check + [0xff], d, [0xff, 0xff] + [0x05]);
    RunsConcat(c1, Fill(t.gap, 0xff) + [0xfe], c2, Fill(t.gap + 1, 0xff),
               t.data + (t.check + [0xff]), d, Fill(BLOCK, 0xff) + ([0xff, 0xff] + [0x05]));
    RunsConcat(c, Command(0x58, t.addr, t.last) + [0xff], c1, Fill(6, 0xff) + [0],
               (Fill(t.gap, 0xff) + [0xfe]) + (t.data + (t.check + [0xff])), d,
               Fill(t.gap + 1, 0xff) + (Fill(BLOCK, 0xff) + ([0xff, 0xff] + [0x05])));
  }

  /** Any transaction: its bytes are answered as they should be, the file and the believed length change as
      they should, and the card is ready for the next. */
  lemma Transaction(c: Card, t: Txn) returns (d: Card)
    requires Ready(c) && Proper(t, c.capacity)
    ensures Runs(c, BytesOf(t), d, AnswersTo(c.file, c.file_len, t))
    ensures Ready(d) && (d.file, d.file_len) == FileAfter(c.file, c.file_len, t) && d.capacity == c.capacity
  {
    match t
    case GoIdle(arg, last) => d := PlainCommand(c, 0x40, arg, last);
    case SetBlockLen(last) => d := PlainCommand(c, 0x50, 512, last);
    case SendOpCond(arg, last, arg', last') =>
      var e := PlainCommand(c, 0x77, arg, last);
      d := PlainCommand(e, 0x69, arg', last');
      hide Runs;
      RunsConcat(c, Command(0x77, arg, last) + [0xff], e, Fill(6, 0xff) + [0],
                 Command(0x69, arg', last') + [0xff], d, Fill(6, 0xff) + [0]);
    case Read(addr, last) => d := ReadTransaction(c, addr, last);
    case Write(_, _, _, _, _) => d := WriteTransaction(c, t);
  }

  // ----- whole sequences -----

  predicate AllProper(ts: seq<Txn>, capacity: uint32) {
    forall t :: t in ts ==> Proper(t, capacity)
  }

  function AllBytes(ts: seq<Txn>): seq<byte> {
    if ts == [] then [] else AllBytes(ts[..|ts| - 1]) + BytesOf(ts[|ts| - 1])
  }

  function FileAfterAll(file: seq<byte>, len: nat, ts: seq<Txn>): (seq<byte>, nat) {
    if ts == [] then (file, len)
    else
      var (file', len') := FileAfterAll(file, len, ts[..|ts| - 1]);
      FileAfter(file', len', ts[|ts| - 1])
  }

  /** The byte last written at place `i`, or `before` if none was. */
  function LastWritten(ts: seq<Txn>, i: nat, before: byte): byte {
    if ts == [] then before
    else
      var t := ts[|ts| - 1];
      if t.Write? && t.addr <= i < t.addr + |t.data| then t.data[i - t.addr]
      else LastWritten(ts[..|ts| - 1], i, before)
  }

  lemma {:induction false} AllTransactions(c: Card, ts: seq<Txn>) returns (d: Card, outs: seq<byte>)
    requires Ready(c) && AllProper(ts, c.capacity)
    ensures Runs(c, AllBytes(ts), d, outs)
    ensures Ready(d) && (d.file, d.file_len) == FileAfterAll(c.file, c.file_len, ts) && d.capacity == c.capacity
  {
    hide Inv, HandleSpiData, BytesOf, AnswersTo, FileAfter;
    if ts == [] {
      return c, [];
    }
    var n := |ts| - 1;
    var e, outs' := AllTransactions(c, ts[..n]);
    d := Transaction(e, ts[n]);
    RunsConcat(c, AllBytes(ts[..n]), e, outs', BytesOf(ts[n]), d, AnswersTo(e.file, e.file_len, ts[n]));
    outs := outs' + AnswersTo(e.file, e.file_len, ts[n]);
  }

  // ----- the write that wraps -----

  /** A block just written reads back exactly when its end does not wrap, or the file already reached past its
      start, or it is all 0xff, as whatever is not in the file reads. */
  lemma WrittenReadsBackIff(file: seq<byte>, addr: uint32, data: seq<byte>)
    requires |data| == BLOCK && addr % 512 == 0
    ensures var (file', len') := WriteBlock(file, |file|, addr, data);
            ReadBlock(file', len', addr) == data
            <==> addr + BLOCK < 0x1_0000_0000 || |file| > addr || data == Fill(BLOCK, 0xff)
  {
    var (file', len') := WriteBlock(file, |file|, addr, data);
    hide WriteBlock;
    if addr + BLOCK < 0x1_0000_0000 || |file| > addr {
      assert ReadBlock(file', len', addr) == data;
    } else {
      WrapIsUnseen(file, addr, data);
      assert ReadBlock(file', len', addr) == Fill(BLOCK, 0xff);
    }
  }

  lemma WrapIsUnseen(file: seq<byte>, addr: uint32, data: seq<byte>)
    requires |data| == BLOCK && addr % 512 == 0 && addr + BLOCK >= 0x1_0000_0000 && |file| <= addr
    ensures WriteBlock(file, |file|, addr, data).1 <= addr
  {
  }

  /** Every card accepts a write at 2^32 - 512 and answers it like any other, and then reads 0xff there,
      unless its file already reached past that address. */
  lemma WrappedWriteIsLost(c: Card, t: Txn, last: byte) returns (d: Card)
    requires Ready(c) && c.file_len == |c.file| <= 0xffff_fe00 && c.capacity > 0
    requires t.Write? && t.addr == 0xffff_fe00 && Proper(t, c.capacity) && last % 2 == 1
    ensures Runs(c, BytesOf(t) + BytesOf(Read(t.addr, last)), d,
                 AnswersTo(c.file, c.file_len, t) + ((Fill(6, 0xff) + [0]) + BlockStream(Fill(BLOCK, 0xff))))
  {
    var e := Transaction(c, t);
    d := Transaction(e, Read(t.addr, last));
    WrapIsUnseen(c.file, t.addr, t.data);
    hide WriteBlock, Inv, BytesOf, Runs;
    assert ReadBlock(e.file, e.file_len, t.addr) == Fill(BLOCK, 0xff);
    RunsConcat(c, BytesOf(t), e, AnswersTo(c.file, c.file_len, t),
               BytesOf(Read(t.addr, last)), d, AnswersTo(e.file, e.file_len, Read(t.addr, last)));
  }

  // ----- from power-on -----

  /** From a reset, GO_IDLE_STATE with a command the CRC check accepts leads to SPI mode. */
  lemma GoIdleFromReset(c: Card, arg: uint32, last: byte) returns (d: Card)
    requires Sized(c) && last % 2 == 1
    requires CommandChecks(Command(0x40, arg, last)[..5], last)
    ensures Runs(Reset(c), Command(0x40, arg, last) + [0xff], d, Fill(6, 0xff) + [0])
    ensures Ready(d) && d.file == c.file && d.file_len == c.file_len && d.capacity == c.capacity
  {
    var r := Reset(c);
    CommandParts(0x40, arg, last);
    ResetGivesInv(c);
    var e := Collected(r, Command(0x40, arg, last));
    hide CommandChecks;
    assert CommandComplete(e) == ExecCommand(e, 0x40, arg);
    var done := ExecCommand(e, 0x40, arg).value;
    d := done.(responding := false, idle := true, substate := 1);
    hide CommandComplete, Runs, Collected;
    CommandAndResponse(r, Command(0x40, arg, last), done, d);
  }

  // ----- the range test -----

  /** For an aligned block and a capacity of whole blocks, the range test agrees with lying inside the
      card exactly when the block is neither the last one nor the one whose end wraps to 0. */
  lemma RangeTestIsRightIff(capacity: uint32, addr: uint32)
    requires capacity % 512 == 0 && addr % 512 == 0
    ensures (Accepts(capacity, addr) <==> addr + BLOCK <= capacity)
            <==> addr + BLOCK != capacity && (addr != 0xffff_fe00 || capacity == 0)
  {
  }

  /** A card of one block refuses its only block, and a card of any size accepts the last of 2^32. */
  lemma RangeTestCanBeWrong()
    ensures !Accepts(512, 0) && Accepts(512, 0xffff_fe00)
  {
  }
}
