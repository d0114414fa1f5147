/** The check sequences, as the shift loops compute them: compute_crc7 and compute_crc16 of
    src/devices/sd_card.cpp and crc32_feed of src/networking/eth_frame.cpp. A check register is an
    unsigned integer held as its binary digits, so `<<`, `>>`, `^` and the bit tests act on places. */
module Crc {
  import opened Bytes
  import opened Gf2

  /** The bits of a message, each byte from its top bit down. */
  function MessageBits(s: seq<byte>): (r: Bits)
    ensures |r| == 8 * |s|
  {
    if s == [] then [] else MessageBits(s[..|s| - 1]) + Bits8(s[|s| - 1])
  }

  lemma {:induction false} MessageBitsConcat(s: seq<byte>, t: seq<byte>)
    ensures MessageBits(s + t) == MessageBits(s) + MessageBits(t)
  {
    if t == [] {
      assert s + t == s;
    } else {
      var n := |t| - 1;
      assert (s + t)[..|s + t| - 1] == s + t[..n];
      MessageBitsConcat(s, t[..n]);
    }
  }

  lemma SingleByteBits(b: byte)
    ensures MessageBits([b]) == Bits8(b)
  {
    assert [b][..0] == [];
    assert MessageBits([b]) == MessageBits([]) + Bits8(b);
  }

  lemma MiddleByteBits(before: seq<byte>, v: byte, after: seq<byte>)
    ensures MessageBits(before + ([v] + after)) == MessageBits(before) + Bits8(v) + MessageBits(after)
  {
    MessageBitsConcat(before, [v] + after);
    MessageBitsConcat([v], after);
    SingleByteBits(v);
  }

  /** Two bit strings agree except inside one window of at most `w` places. */
  ghost predicate DifferInBurst(m: Bits, m': Bits, w: nat) {
    exists before: Bits, burst: Bits, burst': Bits, after: Bits ::
      Burst(m, m', before, burst, burst', after, w)
  }

  ghost predicate Burst(m: Bits, m': Bits, before: Bits, burst: Bits, burst': Bits, after: Bits, w: nat) {
    && |burst| == |burst'| <= w
    && burst != burst'
    && m == before + burst + after
    && m' == before + burst' + after
  }

  lemma BurstsChangeTheRegister(tail: Bits, r: Bits, m: Bits, m': Bits)
    requires |r| == |tail| > 0 && tail[|tail| - 1]
    requires DifferInBurst(m, m', |tail|)
    ensures ShiftAll(tail, r, m) != ShiftAll(tail, r, m')
  {
    var before, burst, burst', after :| Burst(m, m', before, burst, burst', after, |tail|);
    BurstsAreCaught(tail, r, before, burst, burst', after);
  }

  /** A single wrong byte is a burst of eight places. */
  lemma OneByteIsABurst(s: seq<byte>, i: nat, v: byte, w: nat)
    requires i < |s| && v != s[i] && w >= 8
    ensures DifferInBurst(MessageBits(s), MessageBits(s[i := v]), w)
  {
    var before, after := s[..i], s[i + 1..];
    assert s == before + ([s[i]] + after) && s[i := v] == before + ([v] + after);
    MiddleByteBits(before, s[i], after);
    MiddleByteBits(before, v, after);
    ByteOfBits(s[i]);
    ByteOfBits(v);
    assert Burst(MessageBits(s), MessageBits(s[i := v]),
                 MessageBits(before), Bits8(s[i]), Bits8(v), MessageBits(after), w);
  }

  // ----- CRC16 of a data block -----

  type Bits16 = r: Bits | |r| == 16 witness Zeros(16)

  /** 0x1021: x^16 + x^12 + x^5 + 1 without its leading term. */
  const TAIL16: Bits16 :=
    [false, false, false, true, false, false, false, false,
     false, false, true, false, false, false, false, true]

  function Round16(crc: Bits16): Bits16 {
    Xor(crc[1..] + [false], if crc[0] then TAIL16 else Zeros(16))
  }

  function Rounds16(crc: Bits16, n: nat): Bits16 {
    if n == 0 then crc else Round16(Rounds16(crc, n - 1))
  }

  function FeedAll16(crc: Bits16, s: seq<byte>): Bits16 {
    if s == [] then crc
    else Rounds16(Xor(FeedAll16(crc, s[..|s| - 1]), Bits8(s[|s| - 1]) + Zeros(8)), 8)
  }

  function Crc16(s: seq<byte>): Bits16 {
    FeedAll16(Zeros(16), s)
  }

  method ComputeCrc16(buffer: seq<byte>) returns (crc: Bits16)
    ensures crc == Crc16(buffer)
  {
    crc := Zeros(16);
    for i := 0 to |buffer|
      invariant crc == FeedAll16(Zeros(16), buffer[..i])
    {
      var data := Bits8(buffer[i]);
      crc := Xor(crc, data + Zeros(8));
      ghost var start := crc;
      for j := 0 to 8
        invariant crc == Rounds16(start, j)
      {
        crc := Xor(crc[1..] + [false], if crc[0] then TAIL16 else Zeros(16));
      }
      assert buffer[..i + 1][..i] == buffer[..i];
    }
    assert buffer[..|buffer|] == buffer;
  }

  lemma RoundIsShift16(crc: Bits16)
    ensures Round16(crc) == Shift(TAIL16, crc, false)
  {
    assert Xor(crc[1..] + [false], Zeros(16)) == crc[1..] + [false];
  }

  lemma {:induction false} RoundsAreShifts16(crc: Bits16, n: nat)
    ensures Rounds16(crc, n) == ShiftAll(TAIL16, crc, Zeros(n))
  {
    if n > 0 {
      RoundsAreShifts16(crc, n - 1);
      RoundIsShift16(Rounds16(crc, n - 1));
      assert Zeros(n)[..n - 1] == Zeros(n - 1);
    }
  }

  lemma {:induction false} FeedAllIsShifts16(crc: Bits16, s: seq<byte>)
    ensures FeedAll16(crc, s) == ShiftAll(TAIL16, crc, MessageBits(s))
  {
    if s != [] {
      var n := |s| - 1;
      var r, data := FeedAll16(crc, s[..n]), Bits8(s[n]);
      FeedAllIsShifts16(crc, s[..n]);
      RoundsAreShifts16(Xor(r, data + Zeros(8)), 8);
      ChunkIntoRegister(TAIL16, r, data);
      ShiftAllConcat(TAIL16, crc, MessageBits(s[..n]), data);
    }
  }

  /** The loop divides: its result, and nothing else, is the remainder of message * x^16. */
  lemma Crc16IsRemainder(s: seq<byte>, rem: Bits)
    ensures IsRemainder(MessageBits(s) + Zeros(16), TAIL16, rem) <==> rem == Crc16(s)
  {
    var m := MessageBits(s);
    FeedAllIsShifts16(Zeros(16), s);
    RegisterIsRemainder(TAIL16, Zeros(16), m);
    assert Dividend(Zeros(16), m) == m + Zeros(16);
    if IsRemainder(m + Zeros(16), TAIL16, rem) {
      RemainderIsUnique(m + Zeros(16), TAIL16, rem, Crc16(s));
    }
  }

  lemma TwoByteBits(high: byte, low: byte)
    ensures MessageBits([high, low]) == Bits8(high) + Bits8(low)
  {
    assert [high, low] == [high] + [low];
    MessageBitsConcat([high], [low]);
    SingleByteBits(high);
    SingleByteBits(low);
  }

  /** A block followed by two bytes checks to zero exactly when they are its CRC, high byte first. */
  lemma AppendedCrc16(s: seq<byte>, high: byte, low: byte)
    ensures Crc16(s + [high, low]) == Zeros(16) <==> Bits8(high) + Bits8(low) == Crc16(s)
  {
    var r, bits := Crc16(s), Bits8(high) + Bits8(low);
    FeedAllIsShifts16(Zeros(16), s);
    FeedAllIsShifts16(Zeros(16), s + [high, low]);
    MessageBitsConcat(s, [high, low]);
    TwoByteBits(high, low);
    ShiftAllConcat(TAIL16, Zeros(16), MessageBits(s), bits);
    OwnContentEmpties(TAIL16, r);
    if bits != r {
      ShortMessagesDiffer(TAIL16, r, r, bits);
    }
  }

  /** Blocks that differ in one burst of at most 16 bits never share a CRC. */
  lemma BurstsChangeCrc16(s: seq<byte>, t: seq<byte>)
    requires DifferInBurst(MessageBits(s), MessageBits(t), 16)
    ensures Crc16(s) != Crc16(t)
  {
    FeedAllIsShifts16(Zeros(16), s);
    FeedAllIsShifts16(Zeros(16), t);
    BurstsChangeTheRegister(TAIL16, Zeros(16), MessageBits(s), MessageBits(t));
  }

  lemma OneByteChangesCrc16(s: seq<byte>, i: nat, v: byte)
    requires i < |s| && v != s[i]
    ensures Crc16(s) != Crc16(s[i := v])
  {
    OneByteIsABurst(s, i, v, 16);
    BurstsChangeCrc16(s, s[i := v]);
  }

  // ----- CRC7 of a command -----

  /** 0x09: x^7 + x^3 + 1 without its leading term. */
  const TAIL7: Bits := [false, false, false, true, false, false, true]

  type Octet = r: Bits | |r| == 8 witness Zeros(8)

  /** One pass of the inner loop over the eight-place register and the data byte. */
  function Round7(crc: Octet, data: Octet): Octet {
    var up: Octet := crc[1..] + [false];
    if data[0] != up[0] then Xor(up, [false] + TAIL7) else up
  }

  function Rounds7(crc: Octet, data: Octet, n: nat): (Octet, Octet) {
    if n == 0 then (crc, data)
    else
      var (c, d) := Rounds7(crc, data, n - 1);
      (Round7(c, d), d[1..] + [false])
  }

  function FeedAll7(crc: Octet, s: seq<byte>): Octet {
    if s == [] then crc else Rounds7(FeedAll7(crc, s[..|s| - 1]), Bits8(s[|s| - 1]), 8).0
  }

  function Crc7(s: seq<byte>): Octet {
    FeedAll7(Zeros(8), s)
  }

  method ComputeCrc7(buffer: seq<byte>) returns (crc: Octet)
    ensures crc == Crc7(buffer)
  {
    crc := Zeros(8);
    for i := 0 to |buffer|
      invariant crc == FeedAll7(Zeros(8), buffer[..i])
    {
      var data: Octet := Bits8(buffer[i]);
      ghost var start := crc;
      for j := 0 to 8
        invariant (crc, data) == Rounds7(start, Bits8(buffer[i]), j)
      {
        crc := crc[1..] + [false];
        if data[0] != crc[0] {
          crc := Xor(crc, [false] + TAIL7);
        }
        data := data[1..] + [false];
      }
      assert buffer[..i + 1][..i] == buffer[..i];
    }
    assert buffer[..|buffer|] == buffer;
  }

  lemma RoundIsShift7(crc: Octet, data: Octet)
    ensures Round7(crc, data)[1..] == Shift(TAIL7, crc[1..], data[0])
    ensures Round7(crc, data)[0] == crc[1]
  {
    var up: Octet := crc[1..] + [false];
    assert up[1..] == crc[1..][1..] + [false];
    assert Xor(up, [false] + TAIL7)[1..] == Xor(up[1..], TAIL7);
  }

  lemma {:induction false} RoundsAreShifts7(crc: Octet, data: Octet, n: nat)
    requires n <= 8
    ensures Rounds7(crc, data, n).1 == data[n..] + Zeros(n)
    ensures Rounds7(crc, data, n).0[1..] == ShiftAll(TAIL7, crc[1..], data[..n])
  {
    if n > 0 {
      RoundsAreShifts7(crc, data, n - 1);
      var (c, d) := Rounds7(crc, data, n - 1);
      RoundIsShift7(c, d);
      assert d[0] == data[n - 1];
      assert data[..n][..n - 1] == data[..n - 1];
    }
  }

  lemma {:induction false} FeedAllIsShifts7(crc: Octet, s: seq<byte>)
    ensures FeedAll7(crc, s)[1..] == ShiftAll(TAIL7, crc[1..], MessageBits(s))
  {
    if s != [] {
      var n := |s| - 1;
      FeedAllIsShifts7(crc, s[..n]);
      var data := Bits8(s[n]);
      RoundsAreShifts7(FeedAll7(crc, s[..n]), data, 8);
      assert data[..8] == data;
      ShiftAllConcat(TAIL7, crc[1..], MessageBits(s[..n]), data);
    }
  }

  /** The low seven places of the result, and nothing else, are the remainder of message * x^7. */
  lemma Crc7IsRemainder(s: seq<byte>, rem: Bits)
    ensures IsRemainder(MessageBits(s) + Zeros(7), TAIL7, rem) <==> rem == Crc7(s)[1..]
  {
    var m := MessageBits(s);
    FeedAllIsShifts7(Zeros(8), s);
    assert Zeros(8)[1..] == Zeros(7);
    RegisterIsRemainder(TAIL7, Zeros(7), m);
    assert Dividend(Zeros(7), m) == m + Zeros(7);
    if IsRemainder(m + Zeros(7), TAIL7, rem) {
      RemainderIsUnique(m + Zeros(7), TAIL7, rem, Crc7(s)[1..]);
    }
  }

  /** What the command check compares: the whole register with the upper seven bits of the last byte. */
  predicate CommandChecks(s: seq<byte>, last: byte) {
    Byte(Crc7(s)) == last / 2
  }

  lemma CheckOfRegister(r: Octet, half: byte)
    requires half < 128
    ensures Byte(r) == half <==> !r[0] && r[1..] == Bits8(half)[1..]
  {
    ByteOfBits(half);
    BitsOfByte(r);
    assert !Bits8(half)[0];
    if !r[0] && r[1..] == Bits8(half)[1..] {
      assert r == [r[0]] + r[1..];
      assert Bits8(half) == [Bits8(half)[0]] + Bits8(half)[1..];
    }
  }

  /** A command carrying its true CRC7 passes the check exactly when dividing all but its last bit
      leaves no x^6 term; otherwise that term is still in the register's top place and it is refused.
      No command passes with any other seven bits. */
  lemma CommandAcceptedIff(s: seq<byte>, last: byte)
    requires s != []
    ensures CommandChecks(s, last) <==>
            && IsRemainder(MessageBits(s) + Zeros(7), TAIL7, Bits8(last / 2)[1..])
            && !ShiftAll(TAIL7, Zeros(7), MessageBits(s)[..8 * |s| - 1])[0]
  {
    Crc7IsRemainder(s, Bits8(last / 2)[1..]);
    TopPlace7(s);
    CheckOfRegister(Crc7(s), last / 2);
  }

  lemma TopOfRounds7(crc: Octet, data: Octet, head: Bits)
    requires crc[1..] == ShiftAll(TAIL7, Zeros(7), head)
    ensures Rounds7(crc, data, 8).0[0] == ShiftAll(TAIL7, Zeros(7), head + data[..7])[0]
  {
    RoundsAreShifts7(crc, data, 7);
    var (c, d) := Rounds7(crc, data, 7);
    RoundIsShift7(c, d);
    ShiftAllConcat(TAIL7, Zeros(7), head, data[..7]);
  }

  lemma AllButLastBit(s: seq<byte>)
    requires s != []
    ensures MessageBits(s)[..8 * |s| - 1] == MessageBits(s[..|s| - 1]) + Bits8(s[|s| - 1])[..7]
  {
  }

  lemma LastByteFed7(s: seq<byte>)
    requires s != []
    ensures Crc7(s) == Rounds7(Crc7(s[..|s| - 1]), Bits8(s[|s| - 1]), 8).0
  {
  }

  lemma TopAfterByte7(init: seq<byte>, data: Octet)
    ensures Rounds7(Crc7(init), data, 8).0[0] == ShiftAll(TAIL7, Zeros(7), MessageBits(init) + data[..7])[0]
  {
    FeedAllIsShifts7(Zeros(8), init);
    assert Zeros(8)[1..] == Zeros(7);
    TopOfRounds7(Crc7(init), data, MessageBits(init));
  }

  lemma TopPlace7(s: seq<byte>)
    requires s != []
    ensures Crc7(s)[0] == ShiftAll(TAIL7, Zeros(7), MessageBits(s)[..8 * |s| - 1])[0]
  {
    AllButLastBit(s);
    LastByteFed7(s);
    TopAfterByte7(s[..|s| - 1], Bits8(s[|s| - 1]));
  }

  lemma OneMoreZero(r: Bits, n: nat)
    requires |r| == 7
    ensures ShiftAll(TAIL7, r, Zeros(n + 1)) == Shift(TAIL7, ShiftAll(TAIL7, r, Zeros(n)), false)
  {
    assert Zeros(n + 1)[..n] == Zeros(n);
  }

  /** x^10 leaves x^6 + x^3, so a register holding x^3 ends with its top place set. */
  lemma CubeReachesTheTop(u: Bits)
    requires u == [false, false, false, true, false, false, false]
    ensures ShiftAll(TAIL7, u, Zeros(7))[0]
  {
    CubeShifted(u);
    hide Shift, ShiftAll, Zeros;
    OneMoreZero(u, 3);
    OneMoreZero(u, 4);
    OneMoreZero(u, 5);
    OneMoreZero(u, 6);
    TopShifted(ShiftAll(TAIL7, u, Zeros(3)));
  }

  lemma CubeShifted(u: Bits)
    requires u == [false, false, false, true, false, false, false]
    ensures ShiftAll(TAIL7, u, Zeros(3)) == [true, false, false, false, false, false, false]
  {
    assert ShiftAll(TAIL7, u, Zeros(0)) == u;
    hide ShiftAll, Zeros;
    OneMoreZero(u, 0);
    var one := Shift(TAIL7, u, false);
    assert one == [false, false, true, false, false, false, false];
    OneMoreZero(u, 1);
    var two := Shift(TAIL7, one, false);
    assert two == [false, true, false, false, false, false, false];
    OneMoreZero(u, 2);
    assert Shift(TAIL7, two, false) == [true, false, false, false, false, false, false];
  }

  lemma TopShifted(u: Bits)
    requires u == [true, false, false, false, false, false, false]
    ensures var t := Shift(TAIL7, u, false);
            Shift(TAIL7, Shift(TAIL7, Shift(TAIL7, t, false), false), false)[0]
  {
    var t := Shift(TAIL7, u, false);
    assert t == [false, false, false, true, false, false, true];
    var v := Shift(TAIL7, Shift(TAIL7, t, false), false);
    assert v == [false, true, false, false, true, false, false];
  }

  /** However a command begins, there is a last argument byte with which its true CRC7 is refused. */
  lemma TrueCrc7CanBeRefused(init: seq<byte>)
    ensures exists v: byte, last: byte ::
      && IsRemainder(MessageBits(init + [v]) + Zeros(7), TAIL7, Bits8(last / 2)[1..])
      && !CommandChecks(init + [v], last)
  {
    var u := [false, false, false, true, false, false, false];
    var r := Crc7(init)[1..];
    var chunk: Bits := Xor(r, u);
    var data := chunk + [false];
    var v := Byte(data);
    BitsOfByte(data);
    var s := init + [v];
    assert s[..|s| - 1] == init;
    assert Crc7(s)[0] by {
      LastByteFed7(s);
      TopAfterByte7(init, data);
      FeedAllIsShifts7(Zeros(8), init);
      assert Zeros(8)[1..] == Zeros(7);
      ShiftAllConcat(TAIL7, Zeros(7), MessageBits(init), chunk);
      ChunkIntoRegister(TAIL7, r, chunk);
      assert Xor(r, chunk + Zeros(0)) == u;
      CubeReachesTheTop(u);
      assert data[..7] == chunk;
    }
    var half := Byte([false] + Crc7(s)[1..]);
    BitsOfByte([false] + Crc7(s)[1..]);
    assert half < 128;
    Crc7IsRemainder(s, Bits8(half)[1..]);
    CheckOfRegister(Crc7(s), half);
    var last: byte := 2 * half + 1;
    assert last / 2 == half;
  }
}
