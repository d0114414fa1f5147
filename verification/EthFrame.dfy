/** Ethernet frames, after src/networking/eth_frame.cpp. */
module EthFrame {
  import opened Wrappers
  import opened Bytes
  import opened Crc
  import opened Crc32

  /** The contents of a well-formed frame. */
  datatype Frame = Frame(dest: seq<byte>, src: seq<byte>, ethertype: word, payload: seq<byte>, fcs: Option<uint32>) {

    predicate Valid() {
      |dest| == 6 && |src| == 6
    }

    /** The bytes the check sequence covers. */
    function Covered(): seq<byte> {
      dest + src + [HighByte(ethertype), LowByte(ethertype)] + payload
    }

    function Wire(): seq<byte> {
      Covered() + (if fcs.Some? then FourBytes(fcs.value) else [])
    }

    function TotalLength(): nat {
      |payload| + 18
    }

    predicate LengthValid() {
      ethertype <= 1500 || ethertype >= 1536
    }

    predicate LengthCorrect() {
      ethertype <= 1500 && ethertype == |payload|
    }

    predicate IsMacControl() {
      ethertype == 0x8808
    }

    predicate IsPause() {
      ethertype == 0x8808 && |payload| >= 2 && payload[0] == 0 && payload[1] == 1
    }

    predicate IsVlan() {
      ethertype == 0x8100
    }

    predicate FcsCorrect()
      requires fcs.Some?
    {
      fcs.value == BigEndian(Fcs(Covered()))
    }
  }

  class EthernetFrame {
    var dest_mac: seq<byte>
    var src_mac: seq<byte>
    var ethertype: word
    var payload: seq<byte>
    var has_fcs: bool
    var fcs: uint32
    var is_malformed: bool
    var is_null: bool

    ghost function Value(): Frame
      reads this
    {
      Frame(dest_mac, src_mac, ethertype, payload, if has_fcs then Some(fcs) else None)
    }

    /** A buffer long enough for its header, and check bytes if any, is taken apart without loss. */
    constructor (data: seq<byte>, with_fcs: bool)
      ensures !is_null
      ensures |data| < 14 + (if with_fcs then 4 else 0) ==> is_malformed
      ensures |data| >= 14 + (if with_fcs then 4 else 0) ==>
                Value().Valid() && Value().Wire() == data && has_fcs == with_fcs
    {
      var min_size := 14 + (if with_fcs then 4 else 0);
      is_null := false;
      if |data| < min_size {
        is_malformed := true;
      } else {
        dest_mac := data[..6];
        src_mac := data[6..12];
        ethertype := Word(data[12], data[13]);
        payload := data[14..|data| - min_size + 14];
        has_fcs := with_fcs;
        var sum: uint32 := 0;
        if with_fcs {
          sum := ReadCheck(data[|data| - 4..]);
        }
        fcs := sum;
        TakenApart(data, with_fcs);
        hide BigEndian, Word, Frame.Wire;
      }
    }

    /** toBuffer: the wire bytes land at `offset`, and nothing else in the buffer changes. */
    method ToBuffer(buffer: array<byte>, offset: nat) returns (data_len: nat)
      requires Value().Valid()
      requires offset + |Value().Wire()| <= buffer.Length
      modifies buffer
      ensures data_len == |Value().Wire()|
      ensures Written(buffer[..], old(buffer[..]), Value().Wire(), offset, data_len)
    {
      ghost var w := Value().Wire();
      ghost var before := buffer[..];
      WireSlices(Value());
      data_len := Append(buffer, offset, 0, dest_mac, before, w);
      data_len := Append(buffer, offset, data_len, src_mac, before, w);
      data_len := Append(buffer, offset, data_len, [HighByte(ethertype), LowByte(ethertype)], before, w);
      data_len := Append(buffer, offset, data_len, payload, before, w);
      if has_fcs {
        data_len := Append(buffer, offset, data_len, FourBytes(fcs), before, w);
      }
    }

    /** checkFcs; a frame without a check sequence is an error. */
    method CheckFcs() returns (r: Outcome<bool>)
      ensures r == if has_fcs then Done(Value().FcsCorrect()) else Failed
    {
      if !has_fcs {
        return Failed;
      }
      var sum := ComputeFcs();
      return Done(sum == fcs);
    }

    method ComputeFcs() returns (sum: uint32)
      ensures sum == BigEndian(Fcs(Value().Covered()))
    {
      var data := dest_mac + src_mac + [HighByte(ethertype), LowByte(ethertype)] + payload;
      var crc := Ones(32);
      for i := 0 to |data|
        invariant crc == FeedAll32(Ones(32), data[..i])
      {
        crc := Crc32Feed(crc, data[i]);
        assert data[..i + 1][..i] == data[..i];
      }
      assert data[..|data|] == data;
      sum := BigEndian(FcsBytes(crc));
    }

    method AddFcs() returns (r: Outcome<()>)
      modifies this`fcs, this`has_fcs
      ensures r == if old(has_fcs) then Failed else Done(())
      ensures r.Failed? ==> unchanged(this)
      ensures r.Done? ==> has_fcs && Value() == old(Value()).(fcs := Value().fcs) && Value().FcsCorrect()
    {
      if has_fcs {
        return Failed;
      }
      fcs := ComputeFcs();
      has_fcs := true;
      return Done(());
    }

    /** padTo: zeros are added to reach the length asked for, and a longer frame is left alone. */
    method PadTo(pad_length: int)
      modifies this`payload
      ensures old(payload) <= payload && forall i :: |old(payload)| <= i < |payload| ==> payload[i] == 0
      ensures Value().TotalLength() == if pad_length > old(Value()).TotalLength() then pad_length
                                       else old(Value()).TotalLength()
    {
      var extra := pad_length - (|payload| + 18);
      if extra <= 0 {
        return;
      }
      payload := payload + seq(extra, _ => 0);
    }
  }

  lemma WireSlices(f: Frame)
    requires f.Valid()
    ensures var w, n := f.Wire(), 14 + |f.payload|;
            && |w| == n + (if f.fcs.Some? then 4 else 0)
            && w[0..6] == f.dest && w[6..12] == f.src
            && w[12..14] == [HighByte(f.ethertype), LowByte(f.ethertype)]
            && w[14..n] == f.payload
            && (f.fcs.Some? ==> w[n..n + 4] == FourBytes(f.fcs.value))
  {
    hide FourBytes;
    var check := if f.fcs.Some? then FourBytes(f.fcs.value) else [];
  }

  /** The frame the constructor reads out of a buffer. */
  function Parsed(data: seq<byte>, with_fcs: bool): Frame
    requires |data| >= 14 + (if with_fcs then 4 else 0)
  {
    var n := |data| - (if with_fcs then 4 else 0);
    Frame(data[..6], data[6..12], Word(data[12], data[13]), data[14..n],
          if with_fcs then Some(BigEndian(data[n..])) else None)
  }

  lemma TakenApart(data: seq<byte>, with_fcs: bool)
    requires |data| >= 14 + (if with_fcs then 4 else 0)
    ensures Parsed(data, with_fcs).Wire() == data
  {
    var n := |data| - (if with_fcs then 4 else 0);
    WordParts(data[12], data[13]);
    assert data[..n] == data[..6] + data[6..12] + [data[12], data[13]] + data[14..n];
    if with_fcs {
      BigEndianBack(data[n..]);
    }
  }

  /** Copies `octets` into the buffer behind the `n` bytes already there. */
  method Append(buffer: array<byte>, offset: nat, n: nat, octets: seq<byte>, ghost before: seq<byte>,
      ghost w: seq<byte>)
    returns (data_len: nat)
    requires offset + |w| <= |before| && n + |octets| <= |w| && w[n..n + |octets|] == octets
    requires Written(buffer[..], before, w, offset, n)
    modifies buffer
    ensures data_len == n + |octets|
    ensures Written(buffer[..], before, w, offset, data_len)
  {
    data_len := n;
    for i := 0 to |octets|
      invariant data_len == n + i
      invariant Written(buffer[..], before, w, offset, data_len)
    {
      buffer[offset + data_len] := octets[i];
      data_len := data_len + 1;
    }
  }

  /** The first `n` bytes of `w` are in the buffer at `offset`; the rest is as it was before. */
  ghost predicate Written(buffer: seq<byte>, before: seq<byte>, w: seq<byte>, offset: nat, n: nat)
    requires offset + n <= |before| && n <= |w|
  {
    buffer == before[..offset] + w[..n] + before[offset + n..]
  }

  /** The loop that reads the check sequence. */
  method ReadCheck(octets: seq<byte>) returns (sum: uint32)
    requires |octets| == 4
    ensures sum == BigEndian(octets)
  {
    hide Leading;
    sum := 0;
    LeadingEnds(octets);
    for i := 0 to 4
      invariant sum == Leading(octets, i)
    {
      LeadingStep(octets, i);
      sum := (0x100 * sum) % 0x1_0000_0000 + octets[i];
    }
  }

  lemma LeadingEnds(b: seq<byte>)
    requires |b| == 4
    ensures Leading(b, 0) == 0 && Leading(b, 4) == BigEndian(b)
  {
  }

  lemma LeadingStep(b: seq<byte>, i: nat)
    requires |b| == 4 && i < 4
    ensures Leading(b, i + 1) == (0x100 * (Leading(b, i) as int)) % 0x1_0000_0000 + b[i]
  {
    var x: int := Leading(b, i);
    WordIs(b[0], b[1]);
    WordIs(b[2], b[3]);
    assert x < 0x100_0000 && Leading(b, i + 1) == 0x100 * x + b[i];
    hide Leading;
  }

  /** The value of the first `i` of four bytes. */
  function Leading(b: seq<byte>, i: nat): uint32
    requires |b| == 4 && i <= 4
  {
    if i == 0 then 0
    else if i == 1 then b[0]
    else if i == 2 then Word(b[0], b[1])
    else if i == 3 then 0x100 * (Word(b[0], b[1]) as int) + b[2]
    else BigEndian(b)
  }

  /** A frame is determined by its wire bytes, so taking apart what toBuffer wrote gives the frame back. */
  lemma WireDeterminesFrame(f: Frame, g: Frame)
    requires f.Valid() && g.Valid() && f.fcs.Some? == g.fcs.Some?
    requires f.Wire() == g.Wire()
    ensures f == g
  {
    WireSlices(f);
    WireSlices(g);
    PartsOfWord(f.ethertype);
    PartsOfWord(g.ethertype);
    assert f.Wire()[12] == HighByte(f.ethertype) && f.Wire()[13] == LowByte(f.ethertype);
    assert g.Wire()[12] == HighByte(g.ethertype) && g.Wire()[13] == LowByte(g.ethertype);
    if f.fcs.Some? {
      FourBytesBack(f.fcs.value);
      FourBytesBack(g.fcs.value);
    }
  }

  /** checkFcs accepts exactly the frames whose wire bytes, check bytes included, leave the residue. */
  lemma FcsCorrectIffResidue(f: Frame)
    requires f.fcs.Some?
    ensures f.FcsCorrect() <==> FeedAll32(Ones(32), f.Wire()) == RESIDUE
  {
    ResidueIff(f.Covered(), FourBytes(f.fcs.value));
    FourBytesBack(f.fcs.value);
    BigEndianBack(Fcs(f.Covered()));
  }

  /** Any error burst of at most 32 bits on the wire, in header, payload or check bytes, makes checkFcs fail. */
  lemma BurstFailsTheCheck(f: Frame, g: Frame)
    requires f.fcs.Some? && g.fcs.Some? && f.FcsCorrect()
    requires DifferInBurst(WireBits(f.Wire()), WireBits(g.Wire()), 32)
    ensures !g.FcsCorrect()
  {
    FcsCorrectIffResidue(f);
    FcsCorrectIffResidue(g);
    FeedAllIsShifts32(Ones(32), f.Wire());
    FeedAllIsShifts32(Ones(32), g.Wire());
    BurstsChangeTheRegister(TAIL32, Ones(32), WireBits(f.Wire()), WireBits(g.Wire()));
  }
}
