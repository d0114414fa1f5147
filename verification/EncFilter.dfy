/** Which frames get in and what is stored of them, in terms of registers, bits and frame bytes. */
module EncFilter {
  import opened Steps
  import opened Wrappers
  import opened Bytes
  import opened RxRing
  import opened EthFrame
  import opened EncChip
  import opened EncReception
  import opened EncRegisters
  import opened EncRuns
  import opened EncSetup

  /** The frame is sent to the station address, which MAADR1 to MAADR6 hold in this order of registers. */
  predicate ToStation(regs: seq<byte>, f: Frame)
    requires |regs| == 0x80
  {
    f.dest == [regs[0x64], regs[0x65], regs[0x62], regs[0x63], regs[0x60], regs[0x61]]
  }

  predicate ToAll(f: Frame) {
    f.dest == [0xff, 0xff, 0xff, 0xff, 0xff, 0xff]
  }

  /** To a group that is not everyone. */
  predicate ToGroup(f: Frame)
    requires f.Valid()
  {
    f.dest[0] % 2 == 1 && !ToAll(f)
  }

  /** The address filters of ERXFCON: UCEN is bit 7, ANDOR bit 6, MCEN bit 1 and BCEN bit 0. With ANDOR every enabled
      filter must be met and no other; without it one that is enabled is enough. */
  predicate AddressMeets(regs: seq<byte>, f: Frame)
    requires |regs| == 0x80 && f.Valid()
  {
    var con := regs[0x38];
    if BitSet(con, 6) then
      (BitSet(con, 7) <==> ToStation(regs, f)) && (BitSet(con, 1) <==> ToGroup(f)) && (BitSet(con, 0) <==> ToAll(f))
    else
      (BitSet(con, 7) && ToStation(regs, f)) || (BitSet(con, 1) && ToGroup(f)) || (BitSet(con, 0) && ToAll(f))
  }

  /** Neither too short nor, unless huge frames are let in, longer than MAMXFL. */
  predicate SizeMeets(regs: seq<byte>, f: Frame)
    requires |regs| == 0x80
  {
    64 <= |f.payload| + 18 && (BitSet(regs[0x42], 2) || |f.payload| + 18 <= Word(regs[0x4b], regs[0x4a]))
  }

  lemma LowBit(x: byte)
    ensures BitSet(x, 0) == (x % 2 == 1)
  {
  }

  /** The filters a frame triggers, as bits. */
  lemma TriggeredBits(c: Chip, f: Frame, k: nat)
    requires Wf(c) && f.Valid() && k < 8
    ensures BitSet(Triggered(c, f), k) ==
            ((k == 7 && ToStation(c.regs, f)) || (k == 1 && ToGroup(f)) || (k == 0 && ToAll(f)))
  {
    LowBit(f.dest[0]);
    TriggerBits(ToStation(c.regs, f), ToGroup(f), ToAll(f), k);
    hide BitSet;
  }

  lemma TriggerBits(u: bool, m: bool, b: bool, k: nat)
    requires k < 8 && !(m && b)
    ensures BitSet((if u then 0x80 else 0) + (if m then 0x02 else 0) + (if b then 0x01 else 0), k)
         == ((k == 7 && u) || (k == 1 && m) || (k == 0 && b))
  {
    var x: byte := (if u then 0x80 else 0) + (if m then 0x02 else 0) + (if b then 0x01 else 0);
    assert Bits8(x) == [u, false, false, false, false, false, m, b];
  }

  /** What the source takes for enabled filters: ERXFCON without ANDOR and CRCEN. */
  lemma EnabledBits(con: byte, k: nat)
    requires k < 8
    ensures BitSet(And(con, Not(0x60)), k) == (BitSet(con, k) && k != 5 && k != 6)
  {
    hide And, Not;
    assert Bits8(0x60) == [false, true, true, false, false, false, false, false];
    AndBit(con, Not(0x60), 7 - k);
    NotBit(0x60, 7 - k);
  }

  lemma EqualIff(a: byte, b: byte)
    ensures a == b <==> forall k :: 0 <= k < 8 ==> BitSet(a, k) == BitSet(b, k)
  {
    if forall k :: 0 <= k < 8 ==> BitSet(a, k) == BitSet(b, k) {
      forall i | 0 <= i < 8
        ensures Bits8(a)[i] == Bits8(b)[i]
      {
        assert BitSet(a, 7 - i) == BitSet(b, 7 - i);
      }
      SameBits(a, b);
    }
  }

  lemma MeetIff(a: byte, b: byte)
    ensures And(a, b) == 0 <==> forall k :: 0 <= k < 8 ==> !(BitSet(a, k) && BitSet(b, k))
  {
    hide And;
    assert Bits8(0) == [false, false, false, false, false, false, false, false];
    forall k | 0 <= k < 8
      ensures BitSet(And(a, b), k) == (BitSet(a, k) && BitSet(b, k)) && !BitSet(0, k)
    {
      AndBit(a, b, 7 - k);
    }
    hide Bits8, BitSet;
    EqualIff(And(a, b), 0);
  }

  lemma AddressIff(c: Chip, f: Frame)
    requires Wf(c) && f.Valid()
    requires !BitSet(c.regs[0x38], 4) && !BitSet(c.regs[0x38], 3) && !BitSet(c.regs[0x38], 2)
    ensures var (enabled, triggered) := (And(c.regs[0x38], Not(0x60)), Triggered(c, f));
            AddressMeets(c.regs, f)
            <==> if BitSet(c.regs[0x38], 6) then enabled == triggered else And(enabled, triggered) != 0
  {
    hide And, Not, Triggered, BitSet, ToStation, ToGroup, ToAll;
    var (con, enabled, triggered) := (c.regs[0x38], And(c.regs[0x38], Not(0x60)), Triggered(c, f));
    forall k | 0 <= k < 8
      ensures BitSet(enabled, k) == (BitSet(con, k) && k != 5 && k != 6)
      ensures BitSet(triggered, k) ==
              ((k == 7 && ToStation(c.regs, f)) || (k == 1 && ToGroup(f)) || (k == 0 && ToAll(f)))
    {
      EnabledBits(con, k);
      TriggeredBits(c, f, k);
    }
    EqualIff(enabled, triggered);
    MeetIff(enabled, triggered);
    assert BitSet(enabled, 7) == BitSet(con, 7) && BitSet(enabled, 1) == BitSet(con, 1);
    assert BitSet(enabled, 0) == BitSet(con, 0);
  }

  /** The check sequence, if CRCEN asks for it, and control frames, if PASSALL does not. */
  predicate ContentMeets(regs: seq<byte>, f: Frame)
    requires |regs| == 0x80
  {
    && (BitSet(regs[0x38], 5) && f.fcs.Some? ==> f.FcsCorrect())
    && (BitSet(regs[0x40], 1) || f.ethertype != 0x8808)
  }

  /** Pattern match, magic packet and hash table, which the source does not support. */
  predicate Unsupported(regs: seq<byte>)
    requires |regs| == 0x80
  {
    BitSet(regs[0x38], 4) || BitSet(regs[0x38], 3) || BitSet(regs[0x38], 2)
  }

  lemma FilterIff(c: Chip, f: Frame)
    requires Wf(c) && f.Valid()
    ensures FilterFrame(c, f) ==
            if !SizeMeets(c.regs, f) then Ok(false)
            else if Unsupported(c.regs) then Fail
            else Ok(AddressMeets(c.regs, f) && ContentMeets(c.regs, f))
  {
    hide And, Not, Triggered, BitSet, AddressMeets, Word;
    if !Unsupported(c.regs) {
      AddressIff(c, f);
    }
  }

  /** RXEN and MARXEN set, and no part of the receiver in reset. */
  predicate ReceiverOn(c: Chip)
    requires Wf(c)
  {
    && BitSet(c.regs[0x1f], 2) && !BitSet(c.regs[0x1f], 6) && BitSet(c.regs[0x40], 0)
    && !BitSet(c.regs[0x41], 7) && !BitSet(c.regs[0x41], 3) && !BitSet(c.regs[0x41], 2)
    && !BitSet(c.regs[0x4d], 3) && !c.phyReset
  }

  lemma ReceiverOnIff(c: Chip)
    requires Wf(c)
    ensures ReceptionEnabled(c) <==> ReceiverOn(c)
  {
    hide And, BitSet;
    ResetBits();
    MeetIff(c.regs[0x41], 0x8c);
  }

  lemma ResetBits()
    ensures forall k :: 0 <= k < 8 ==> (BitSet(0x8c, k) <==> k == 7 || k == 3 || k == 2)
  {
    assert Bits8(0x8c) == [true, false, false, false, true, true, false, false];
  }

  /** The pointers are inside the ring, and the write pointer is even. */
  predicate RingInOrder(regs: seq<byte>)
    requires |regs| == 0x80
  {
    var (st, nd) := (Word(regs[0x09], regs[0x08]), Word(regs[0x0b], regs[0x0a]));
    var (rd, wr) := (Word(regs[0x0d], regs[0x0c]), Word(regs[0x0f], regs[0x0e]));
    st <= nd && st <= wr <= nd && st <= rd <= nd && wr % 2 == 0
  }

  lemma SaneIff(c: Chip)
    requires Wf(c)
    ensures Sane(c) <==> RingInOrder(c.regs)
  {
    WordIs(c.regs[0x0b], c.regs[0x0a]);
  }

  /** The frame and its seven bytes of pointer, status and pad fit, or fewer than 255 packets are counted. */
  predicate HasRoom(c: Chip, f: Frame)
    requires Wf(c) && RingInOrder(c.regs)
  {
    SaneIff(c);
    c.regs[0x39] < 255 || (|f.payload| + 25) / 2 * 2 <= FreeSpace(c)
  }

  lemma RoomIff(c: Chip, f: Frame)
    requires Wf(c) && RingInOrder(c.regs)
    ensures Sane(c) && (FitsInBuffer(c, f) <==> HasRoom(c, f))
  {
    SaneIff(c);
    hide RingInOrder, FreeSpace;
  }

  lemma StatusIsThere(c: Chip, f: Frame)
    requires Wf(c) && f.Valid() && f.fcs.Some?
    ensures RxStatus(c, f).Ok?
  {
  }

  /** What becomes of an arriving frame with a check sequence. */
  lemma ReceiveIs(c: Chip, f: Frame)
    requires Wf(c) && f.Valid() && f.fcs.Some?
    ensures RxStatus(c, f).Ok? && (RingInOrder(c.regs) ==> Sane(c))
    ensures Receive(c, f) ==
            if !ReceiverOn(c) || !SizeMeets(c.regs, f) then Ok(c)
            else if Unsupported(c.regs) then Fail
            else if !AddressMeets(c.regs, f) || !ContentMeets(c.regs, f) then Ok(c)
            else if !RingInOrder(c.regs) then Fail
            else if !HasRoom(c, f) then Ok(c)
            else Ok(Loaded(c, Stored(f, RxStatus(c, f).value)))
  {
    hide *;
    WfRegisters(c);
    StatusIsThere(c, f);
    SaneIff(c);
    ReceiverOnIff(c);
    FilterIff(c, f);
    if RingInOrder(c.regs) {
      RoomIff(c, f);
    }
    ReceiveCases(c, f);
  }

  /** Receive, by its own cases. */
  lemma ReceiveCases(c: Chip, f: Frame)
    requires Wf(c) && f.Valid() && RxStatus(c, f).Ok?
    ensures !ReceptionEnabled(c) ==> Receive(c, f) == Ok(c)
    ensures ReceptionEnabled(c) && FilterFrame(c, f) == Ok(false) ==> Receive(c, f) == Ok(c)
    ensures ReceptionEnabled(c) && FilterFrame(c, f).Fail? ==> Receive(c, f) == Fail
    ensures ReceptionEnabled(c) && FilterFrame(c, f) == Ok(true) ==>
              Receive(c, f) == if !Sane(c) then Fail
                               else if !FitsInBuffer(c, f) then Ok(c)
                               else Ok(Loaded(c, Stored(f, RxStatus(c, f).value)))
  {
    hide FilterFrame, ReceptionEnabled, FitsInBuffer, Loaded, Stored, Sane, RxStatus;
    hide InPlace;
  }

  // ----- the status of a frame -----

  /** Bits 23 to 16: received well, length field out of range, length checked and wrong, check sequence wrong. */
  function FoundLow(check: bool, f: Frame): (r: seq<bool>)
    requires f.fcs.Some?
    ensures |r| == 8
  {
    var valid := f.ethertype <= 1500 || f.ethertype >= 1536;
    [f.FcsCorrect() && valid, !valid, check && (f.ethertype > 1500 || f.ethertype != |f.payload|), !f.FcsCorrect(),
     false, false, false, false]
  }

  /** Bits 31 to 24: VLAN, control frame of unknown opcode, pause, control, broadcast, multicast. */
  function FoundHigh(f: Frame): (r: seq<bool>)
    requires f.Valid()
    ensures |r| == 8
  {
    [false, f.ethertype == 0x8100, f.ethertype == 0x8808 && !IsPauseFrame(f), IsPauseFrame(f),
     f.ethertype == 0x8808, false, ToAll(f), ToGroup(f)]
  }

  lemma StatusBytes(c: Chip, f: Frame)
    requires Wf(c) && f.Valid() && f.fcs.Some?
    ensures RxStatus(c, f) == Ok([HighByte(|f.payload| + 18), LowByte(|f.payload| + 18),
                                  Byte(FoundLow(BitSet(c.regs[0x42], 1), f)), Byte(FoundHigh(f))])
  {
    GroupsAre(f);
    hide BitSet, Bits8, Byte, Frame.FcsCorrect, HighByte, LowByte, IsMulticast, IsBroadcast, ToAll, ToGroup;
  }

  lemma GroupsAre(f: Frame)
    requires f.Valid()
    ensures IsMulticast(f.dest) == ToGroup(f) && IsBroadcast(f.dest) == ToAll(f)
  {
    LowBit(f.dest[0]);
    hide BitSet;
  }

  /** The 32 status bits, the lowest of the four bytes first: the length with its two bytes exchanged, then what
      was found of the frame, bit by bit. */
  lemma StatusIs(c: Chip, f: Frame)
    requires Wf(c) && f.Valid() && f.fcs.Some? && |f.payload| + 18 < 0x1_0000
    ensures RxStatus(c, f).Ok?
    ensures var s := RxStatus(c, f).value;
            && |s| == 4 && Word(s[0], s[1]) == |f.payload| + 18
            && Bits8(s[2]) == FoundLow(BitSet(c.regs[0x42], 1), f) && Bits8(s[3]) == FoundHigh(f)
  {
    StatusBytes(c, f);
    PartsOfWord(|f.payload| + 18);
    BitsOfByte(FoundLow(BitSet(c.regs[0x42], 1), f));
    BitsOfByte(FoundHigh(f));
    hide *;
  }

  /** A control frame with opcode 1. */
  predicate IsPauseFrame(f: Frame) {
    f.ethertype == 0x8808 && |f.payload| >= 2 && f.payload[0] == 0 && f.payload[1] == 1
  }

  // ----- a listening chip -----

  lemma ListeningFilters(c: Chip)
    requires Listening(c)
    ensures |c.regs| == 0x80 && c.regs[0x38] == 0xa1 && c.regs[0x4a] == 0 && c.regs[0x4b] == 0x06
    ensures c.regs[0x40] == 0x03
  {
  }

  lemma ListeningContent(c: Chip, f: Frame)
    requires |c.regs| == 0x80 && c.regs[0x38] == 0xa1 && c.regs[0x4a] == 0 && c.regs[0x4b] == 0x06
    requires c.regs[0x40] == 0x03
    requires f.Valid() && f.fcs.Some? && 64 <= |f.payload| + 18 <= 1536
    ensures SizeMeets(c.regs, f) && !Unsupported(c.regs)
    ensures AddressMeets(c.regs, f) <==> ToStation(c.regs, f) || ToAll(f)
    ensures ContentMeets(c.regs, f) <==> f.FcsCorrect()
  {
    WordIs(0x06, 0);
    assert Bits8(0xa1) == [true, false, true, false, false, false, false, true];
    assert Bits8(0x03) == [false, false, false, false, false, false, true, true];
    hide Bits8, Frame.FcsCorrect, ToStation, ToAll, ToGroup;
  }

  /** On a chip set up from reset, a frame of legal size, of whatever type and contents, is loaded exactly when it is
      sent to the address in the MAADR registers or to everyone and its check sequence is right: frames do arrive in
      the runs of the FIFO theorem. */
  lemma ListeningLoads(c: Chip, f: Frame)
    requires Listening(c) && f.Valid() && f.fcs.Some? && 64 <= |f.payload| + 18 <= 1536
    ensures Empty(c) && RxStatus(c, f).Ok? && AllowedRun(c, [Arrive(f)])
    ensures RunAll(c, NoHistory(c), [Arrive(f)]).Ok?
    ensures RunAll(c, NoHistory(c), [Arrive(f)]).value.1.packets ==
            if (ToStation(c.regs, f) || ToAll(f)) && f.FcsCorrect() then [RecordOf(c, f)] else []
  {
    hide *;
    ListeningIsEmpty(c);
    ListeningReceives(c);
    ListeningFilters(c);
    ListeningContent(c, f);
    FilterIff(c, f);
    StatusIsThere(c, f);
    LengthIs(f);
    ListeningAdmits(c, f);
    OneArrival(c, f);
  }

  lemma LengthIs(f: Frame)
    ensures f.TotalLength() == |f.payload| + 18
  {
  }

  // ----- the station address, set by commands -----

  /** Bank 3, the six bytes of the address, bank 0. */
  function StationSetup(mac: seq<byte>): seq<(byte, byte)>
    requires |mac| == 6
  {
    [(0x9f, 0x03), (0x44, mac[0]), (0x45, mac[1]), (0x42, mac[2]), (0x43, mac[3]), (0x40, mac[4]), (0x41, mac[5]),
     (0xbf, 0x03)]
  }

  function StationRegisters(regs: seq<byte>, mac: seq<byte>): (r: seq<byte>)
    requires |regs| == 0x80 && |mac| == 6
    ensures |r| == 0x80
  {
    regs[0x64 := mac[0]][0x65 := mac[1]][0x62 := mac[2]][0x63 := mac[3]][0x60 := mac[4]][0x61 := mac[5]]
  }

  lemma BankBits()
    ensures Or(0x04, 0x03) == 0x07 && And(0x07, Not(0x03)) == 0x04
    ensures !BitSet(0x07, 3) && !BitSet(0x04, 3)
  {
    hide And, Or, Not;
    assert Bits8(0x04) == [false, false, false, false, false, true, false, false];
    assert Bits8(0x03) == [false, false, false, false, false, false, true, true];
    assert Bits8(0x07) == [false, false, false, false, false, true, true, true];
    forall i | 0 <= i < 8
      ensures Bits8(Or(0x04, 0x03))[i] == Bits8(0x07)[i] && Bits8(And(0x07, Not(0x03)))[i] == Bits8(0x04)[i]
    {
      OrBit(0x04, 0x03, i);
      AndBit(0x07, Not(0x03), i);
      NotBit(0x03, i);
    }
    SameBits(Or(0x04, 0x03), 0x07);
    SameBits(And(0x07, Not(0x03)), 0x04);
  }

  /** In bank 3 a write to a MAADR register stores the byte. */
  lemma StoresAddressByte(c: Chip, r: byte, b: byte) returns (d: Chip)
    requires Wf(c) && c.regs[0x1f] == 0x07 && r < 6
    ensures Command(c, 0x40 + r, b) == Ok(d) && Wf(d) && Holding(d, c.regs[0x60 + r := b], c)
    ensures |d.regs| == 0x80 && d.regs[0x1f] == 0x07
  {
    var m := 0x60 + r as nat;
    AddressRegister(c, r);
    assert ECON1 == 0x1f && |c.regs| == 0x80;
    hide *;
    AdjustWhole(m, b, c.regs[m]);
    d := WriteCommand(c, 0x40 + r, b, m, b);
    IsHolding(d, c.regs[m := b], c);
  }

  lemma IsHolding(d: Chip, regs: seq<byte>, c: Chip)
    requires Holding(d, regs, c)
    ensures d.regs == regs
  {
  }

  lemma AddressRegister(c: Chip, r: byte)
    requires Wf(c) && c.regs[0x1f] == 0x07 && r < 6
    ensures var m := 0x60 + r as nat;
            && (0x40 + r) / 0x20 == 2 && m == MapRegister(c, (0x40 + r) % 0x20) && WriteMask(m) == 0xff
            && m !in {ECON1, ECON2, ERXRDPTL, ERXRDPTH, ERXSTH, ERXNDH} && !IsMiiReg(m)
  {
  }

  /** The commands are all carried out; after them the chip listens on the address given, whatever it was before. */
  lemma StationIsSet(c: Chip, mac: seq<byte>) returns (d: Chip)
    requires Listening(c) && |mac| == 6
    ensures Wf(c) && Commands(c, StationSetup(mac)) == Ok(d) && Listening(d)
    ensures forall f: Frame :: ToStation(d.regs, f) <==> f.dest == mac
  {
    hide Command, Commands, Wf, And, Or, Not, BitSet, Listening;
    ListeningReceives(c);
    var cs := StationSetup(mac);
    WfRegisters(c);
    var c1 := BankThree(c);
    var c2 := StoresAddressByte(c1, 4, mac[0]);
    var c3 := StoresAddressByte(c2, 5, mac[1]);
    var c4 := StoresAddressByte(c3, 2, mac[2]);
    var c5 := StoresAddressByte(c4, 3, mac[3]);
    var c6 := StoresAddressByte(c5, 0, mac[4]);
    var c7 := StoresAddressByte(c6, 1, mac[5]);
    d := BankZero(c7);
    CommandsNext(c, cs, c1);
    CommandsNext(c1, cs[1..], c2);
    CommandsNext(c2, cs[1..][1..], c3);
    CommandsNext(c3, cs[1..][1..][1..], c4);
    CommandsNext(c4, cs[1..][1..][1..][1..], c5);
    CommandsNext(c5, cs[1..][1..][1..][1..][1..], c6);
    CommandsNext(c6, cs[1..][1..][1..][1..][1..][1..], c7);
    CommandsNext(c7, cs[1..][1..][1..][1..][1..][1..][1..], d);
    var rest: seq<(byte, byte)> := cs[1..][1..][1..][1..][1..][1..][1..];
    assert rest == [(0xbf, 0x03)] && |rest[1..]| == 0;
    NoCommands(d);
    StillListening(c, d, mac);
  }

  lemma BankThree(c: Chip) returns (d: Chip)
    requires Listening(c) && Wf(c)
    ensures Command(c, 0x9f, 0x03) == Ok(d) && Wf(d) && Holding(d, c.regs[0x1f := 0x07], c)
  {
    assert c.regs[0x1f] == 0x04;
    assert ECON1 == 0x1f;
    hide *;
    WfRegisters(c);
    BankBits();
    d := Econ1Command(c, 0x9f, 0x03, 0x07);
  }

  lemma BankZero(c: Chip) returns (d: Chip)
    requires Wf(c) && c.regs[0x1f] == 0x07
    ensures Command(c, 0xbf, 0x03) == Ok(d) && Wf(d) && Holding(d, c.regs[0x1f := 0x04], c)
  {
    assert ECON1 == 0x1f;
    hide *;
    WfRegisters(c);
    BankBits();
    d := Econ1Command(c, 0xbf, 0x03, 0x04);
  }

  lemma StillListening(c: Chip, d: Chip, mac: seq<byte>)
    requires Listening(c) && Wf(d) && |mac| == 6
    requires Holding(d, StationRegisters(c.regs[0x1f := 0x07], mac)[0x1f := 0x04], c)
    ensures Listening(d) && forall f: Frame :: ToStation(d.regs, f) <==> f.dest == mac
  {
    hide Wf;
    assert mac == [mac[0], mac[1], mac[2], mac[3], mac[4], mac[5]];
  }
}
