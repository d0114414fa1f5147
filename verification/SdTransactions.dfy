/** Complete transactions with the SD card over its byte protocol: it is a flat block store. */
module SdTransactions {
  import opened Bytes
  import opened Crc
  import opened SdStore
  import opened SdProtocol
  import opened SdSafety

  /** The card's answers to a string of bytes, or the first failure. */
  function RunBytes(c: Card, bytes: seq<byte>): Reply<(Card, seq<byte>)>
    requires Inv(c)
    decreases |bytes|
  {
    if bytes == [] then Ok((c, []))
    else
      ByteKeeps(c, bytes[0]);
      match HandleSpiData(c, bytes[0])
      case Fail(error) => Fail(error)
      case Ok((d, out)) =>
        match RunBytes(d, bytes[1..])
        case Fail(error) => Fail(error)
        case Ok((e, outs)) => Ok((e, [out] + outs))
  }

  /** From `c`, the bytes are answered with `outs` and lead to `d`. */
  predicate Runs(c: Card, bytes: seq<byte>, d: Card, outs: seq<byte>) {
    Inv(c) && RunBytes(c, bytes) == Ok((d, outs))
  }

  lemma {:induction false} RunsKeep(c: Card, bytes: seq<byte>, d: Card, outs: seq<byte>)
    requires Runs(c, bytes, d, outs)
    ensures Inv(d) && |outs| == |bytes|
    decreases |bytes|
  {
    if bytes != [] {
      hide Inv, HandleSpiData;
      ByteKeeps(c, bytes[0]);
      RunsKeep(HandleSpiData(c, bytes[0]).value.0, bytes[1..], d, outs[1..]);
    }
  }

  lemma RunsOne(c: Card, b: byte, d: Card, out: byte)
    requires Inv(c) && InRange(c) && HandleSpiData(c, b) == Ok((d, out))
    ensures Runs(c, [b], d, [out])
  {
    hide Inv, HandleSpiData, InRange;
    ByteKeeps(c, b);
    assert [b][1..] == [] && [out] + [] == [out];
    assert RunBytes(d, []) == Ok((d, []));
  }

  lemma {:induction false} RunsConcat(c: Card, a: seq<byte>, d: Card, outs: seq<byte>, b: seq<byte>, e: Card,
      outs': seq<byte>)
    requires Runs(c, a, d, outs) && Runs(d, b, e, outs')
    ensures Runs(c, a + b, e, outs + outs')
    decreases |a|
  {
    hide Inv, HandleSpiData, InRange;
    if a == [] {
      assert a + b == b && outs + outs' == outs';
    } else {
      ByteKeeps(c, a[0]);
      var (c1, out) := HandleSpiData(c, a[0]).value;
      RunsConcat(c1, a[1..], d, outs[1..], b, e, outs');
      assert (a + b)[1..] == a[1..] + b;
      assert outs + outs' == [out] + (outs[1..] + outs');
    }
  }

  // ----- a command -----

  /** The card with the first `k` command bytes in. */
  function Collecting(c: Card, bytes: seq<byte>, k: nat): Card
    requires Sized(c) && |bytes| == 6 && k <= 6
  {
    c.(cmd := bytes[..k] + c.cmd[k..], substate := k, idle := false, receiving_command := true)
  }

  /** The card with the whole command in, about to carry it out. */
  function Collected(c: Card, bytes: seq<byte>): Card {
    c.(cmd := bytes, substate := 6, idle := false, receiving_command := false)
  }

  lemma CollectOne(c: Card, bytes: seq<byte>, k: nat)
    requires Inv(c) && |bytes| == 6 && 1 <= k < 5
    ensures Inv(Collecting(c, bytes, k))
    ensures HandleSpiData(Collecting(c, bytes, k), bytes[k]) == Ok((Collecting(c, bytes, k + 1), 0xff))
  {
    var a := Collecting(c, bytes, k);
    assert a.cmd[k := bytes[k]] == bytes[..k + 1] + c.cmd[k + 1..];
  }

  lemma CollectLast(c: Card, bytes: seq<byte>, d: Card)
    requires Inv(c) && |bytes| == 6
    requires CommandComplete(Collected(c, bytes)) == Ok(d)
    ensures Inv(Collecting(c, bytes, 5))
    ensures HandleSpiData(Collecting(c, bytes, 5), bytes[5]) == Ok((d, 0xff))
  {
    hide CommandComplete;
    var a := Collecting(c, bytes, 5);
    assert a.cmd[5 := bytes[5]] == bytes;
    assert a.(cmd := bytes, substate := 6, receiving_command := false) == Collected(c, bytes);
  }

  lemma CollectFirst(c: Card, bytes: seq<byte>)
    requires Inv(c) && c.idle && |bytes| == 6 && bytes[0] / 64 == 1
    ensures HandleSpiData(c, bytes[0]) == Ok((Collecting(c, bytes, 1), 0xff))
  {
    assert c.cmd[0 := bytes[0]] == bytes[..1] + c.cmd[1..];
  }

  lemma {:induction false} CollectRest(c: Card, bytes: seq<byte>, k: nat, d: Card)
    requires Inv(c) && |bytes| == 6 && 1 <= k <= 5
    requires CommandComplete(Collected(c, bytes)) == Ok(d)
    ensures Runs(Collecting(c, bytes, k), bytes[k..], d, Fill(6 - k, 0xff))
    decreases 6 - k
  {
    hide Inv, HandleSpiData, InRange, CommandComplete, Collecting, Collected;
    InvInRange(c);
    var a := Collecting(c, bytes, k);
    if k == 5 {
      CollectLast(c, bytes, d);
      InvInRange(a);
      RunsOne(a, bytes[5], d, 0xff);
      assert bytes[5..] == [bytes[5]] && Fill(1, 0xff) == [0xff];
    } else {
      CollectOne(c, bytes, k);
      InvInRange(a);
      RunsOne(a, bytes[k], Collecting(c, bytes, k + 1), 0xff);
      CollectRest(c, bytes, k + 1, d);
      RunsConcat(a, [bytes[k]], Collecting(c, bytes, k + 1), [0xff], bytes[k + 1..], d, Fill(5 - k, 0xff));
      assert bytes[k..] == [bytes[k]] + bytes[k + 1..];
      assert Fill(6 - k, 0xff) == [0xff] + Fill(5 - k, 0xff);
    }
  }

  /** Six command bytes are swallowed, and the command is carried out. */
  lemma SendCommand(c: Card, bytes: seq<byte>, d: Card)
    requires Inv(c) && c.idle && |bytes| == 6 && bytes[0] / 64 == 1
    requires CommandComplete(Collected(c, bytes)) == Ok(d)
    ensures Runs(c, bytes, d, Fill(6, 0xff))
  {
    hide Inv, HandleSpiData, InRange, CommandComplete, Collecting, Collected;
    CollectFirst(c, bytes);
    InvInRange(c);
    RunsOne(c, bytes[0], Collecting(c, bytes, 1), 0xff);
    CollectRest(c, bytes, 1, d);
    RunsConcat(c, [bytes[0]], Collecting(c, bytes, 1), [0xff], bytes[1..], d, Fill(5, 0xff));
    assert bytes == [bytes[0]] + bytes[1..];
    assert Fill(6, 0xff) == [0xff] + Fill(5, 0xff);
  }

  /** The one-byte response goes out, and the data phase, if any, begins. */
  lemma TakeResponse(c: Card, d: Card)
    requires Inv(c) && !c.idle && !c.receiving_command && c.responding
    requires var more := c.responding_with_data || c.receiving_write_data;
             d == c.(responding := false, idle := !more, substate := if more then 0 else 1)
    ensures Runs(c, [0xff], d, [c.response[0]])
  {
    assert HandleSpiData(c, 0xff) == Ok((d, c.response[0]));
    RunsOne(c, 0xff, d, c.response[0]);
  }

  // ----- a block going out -----

  /** Token, block and check bytes, in the order they are sent. */
  function BlockStream(block: seq<byte>): (s: seq<byte>)
    requires |block| == BLOCK
    ensures |s| == BLOCK + 3
  {
    [0xfe] + block + [Byte(Crc16(block)[..8]), Byte(Crc16(block)[8..])]
  }

  predicate Sending(c: Card) {
    && Inv(c)
    && !c.idle && !c.receiving_command && !c.responding && c.responding_with_data
    && c.read_crc == Crc16(c.read_block)
  }

  function Sent(c: Card): Card {
    c.(substate := BLOCK + 3, responding_with_data := false, idle := true)
  }

  lemma SendOne(c: Card)
    requires Sending(c)
    ensures HandleSpiData(c, 0xff).Ok?
    ensures HandleSpiData(c, 0xff).value.1 == BlockStream(c.read_block)[c.substate]
    ensures HandleSpiData(c, 0xff).value.0 ==
            if c.substate == BLOCK + 2 then Sent(c) else c.(substate := c.substate + 1)
    ensures c.substate < BLOCK + 2 ==> Sending(c.(substate := c.substate + 1))
  {
    hide Crc16;
  }

  lemma SendRest(c: Card, d: Card, n: nat, s: seq<byte>, k: nat)
    requires n > 0 && k < |s|
    requires Runs(c, [0xff], d, [s[k]]) && Runs(d, Fill(n - 1, 0xff), Sent(c), s[k + 1..])
    ensures Runs(c, Fill(n, 0xff), Sent(c), s[k..])
  {
    hide Inv, RunBytes, Fill;
    FillHead(n, 0xff);
    RunsConcat(c, [0xff], d, [s[k]], Fill(n - 1, 0xff), Sent(c), s[k + 1..]);
    assert s[k..] == [s[k]] + s[k + 1..];
  }

  lemma LastByte(s: seq<byte>, k: nat)
    requires |s| == k + 1
    ensures s[k..] == [s[k]] && Fill(1, 0xff) == [0xff]
  {
  }

  function Advanced(c: Card): Card {
    if c.substate == BLOCK + 2 then Sent(c) else c.(substate := c.substate + 1)
  }

  lemma SendOneRuns(c: Card)
    requires Sending(c)
    ensures 0 <= c.substate <= BLOCK + 2 && |c.read_block| == BLOCK
    ensures Runs(c, [0xff], Advanced(c), [BlockStream(c.read_block)[c.substate]])
    ensures c.substate < BLOCK + 2 ==> Sending(Advanced(c)) && Sent(Advanced(c)) == Sent(c)
  {
    InvInRange(c);
    SendOne(c);
    hide HandleSpiData, InRange, BlockStream, Runs, Crc16;
    RunsOne(c, 0xff, Advanced(c), BlockStream(c.read_block)[c.substate]);
  }

  lemma {:induction false} SendBlock(c: Card)
    requires Sending(c)
    ensures Runs(c, Fill(BLOCK + 3 - c.substate, 0xff), Sent(c), BlockStream(c.read_block)[c.substate..])
    decreases BLOCK + 3 - c.substate
  {
    hide BlockStream, Runs, Fill, Sending, Sent;
    SendOneRuns(c);
    var s, k := BlockStream(c.read_block), c.substate;
    if k == BLOCK + 2 {
      LastByte(s, k);
    } else {
      SendBlock(Advanced(c));
      SendRest(c, Advanced(c), BLOCK + 3 - k, s, k);
    }
  }

  // ----- a block coming in -----

  predicate Awaiting(c: Card) {
    && Inv(c)
    && !c.idle && !c.receiving_command && !c.responding && !c.responding_with_data && c.receiving_write_data
  }

  lemma {:induction false} AwaitToken(c: Card, gap: nat)
    requires Awaiting(c) && c.substate == 0
    ensures Runs(c, Fill(gap, 0xff) + [0xfe], c.(substate := 1), Fill(gap + 1, 0xff))
    decreases gap
  {
    InvInRange(c);
    if gap == 0 {
      assert HandleSpiData(c, 0xfe) == Ok((c.(substate := 1), 0xff));
      RunsOne(c, 0xfe, c.(substate := 1), 0xff);
      assert Fill(0, 0xff) + [0xfe] == [0xfe] && Fill(1, 0xff) == [0xff];
    } else {
      assert HandleSpiData(c, 0xff) == Ok((c, 0xff));
      hide HandleSpiData, InRange;
      RunsOne(c, 0xff, c, 0xff);
      AwaitToken(c, gap - 1);
      RunsConcat(c, [0xff], c, [0xff], Fill(gap - 1, 0xff) + [0xfe], c.(substate := 1), Fill(gap, 0xff));
      assert Fill(gap, 0xff) + [0xfe] == [0xff] + (Fill(gap - 1, 0xff) + [0xfe]);
      assert Fill(gap + 1, 0xff) == [0xff] + Fill(gap, 0xff);
    }
  }

  lemma {:induction false} ReceiveBlock(c: Card, data: seq<byte>)
    requires Awaiting(c) && 1 <= c.substate <= BLOCK + 1 && |data| == BLOCK
    requires c.write_block[..c.substate - 1] == data[..c.substate - 1]
    ensures Runs(c, data[c.substate - 1..], c.(write_block := data, substate := BLOCK + 1),
                 Fill(BLOCK + 1 - c.substate, 0xff))
    decreases BLOCK + 1 - c.substate
  {
    InvInRange(c);
    var k := c.substate - 1;
    if k == BLOCK {
      assert data[k..] == [] && Fill(0, 0xff) == [];
      assert data[..k] == data && c.write_block[..k] == c.write_block;
    } else {
      var d := c.(write_block := c.write_block[k := data[k]], substate := k + 2);
      assert HandleSpiData(c, data[k]) == Ok((d, 0xff));
      assert d.write_block[..k + 1] == data[..k + 1];
      hide HandleSpiData, InRange;
      RunsOne(c, data[k], d, 0xff);
      ReceiveBlock(d, data);
      RunsConcat(c, [data[k]], d, [0xff], data[k + 1..], c.(write_block := data, substate := BLOCK + 1),
                 Fill(BLOCK - 1 - k, 0xff));
      assert data[k..] == [data[k]] + data[k + 1..];
      assert Fill(BLOCK - k, 0xff) == [0xff] + Fill(BLOCK - 1 - k, 0xff);
    }
  }
}
