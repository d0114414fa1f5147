/** The frame check sequence of src/networking/eth_frame.cpp (IEEE 802.3 section 3.2.9). */
module Crc32 {
  import opened Bytes
  import opened Gf2
  import opened Crc

  /** The check register, lowest place first. */
  type Bits32 = r: Bits | |r| == 32 witness Zeros(32)

  /** 0xedb88320 from its lowest place up: the powers of x below 32 with a term in
      x^32 + x^26 + x^23 + x^22 + x^16 + x^12 + x^11 + x^10 + x^8 + x^7 + x^5 + x^4 + x^2 + x + 1. */
  const TAIL32: Bits32 :=
    [false, false, false, false, false, true, false, false,
     true, true, false, false, false, false, false, true,
     false, false, false, true, true, true, false, true,
     true, false, true, true, false, true, true, true]

  function Ones(n: nat): (r: Bits)
    ensures |r| == n
  {
    seq(n, _ => true)
  }

  /** The digits of a byte from the bottom up, the order in which the register takes them. */
  function Rising(b: byte): (r: Bits)
    ensures |r| == 8
  {
    Reverse(Bits8(b))
  }

  function Reverse(s: Bits): (r: Bits)
    ensures |r| == |s|
  {
    seq(|s|, i requires 0 <= i < |s| => s[|s| - 1 - i])
  }

  lemma ReverseTwice(s: Bits)
    ensures Reverse(Reverse(s)) == s
  {
  }

  function WireBits(s: seq<byte>): (r: Bits)
    ensures |r| == 8 * |s|
  {
    if s == [] then [] else WireBits(s[..|s| - 1]) + Rising(s[|s| - 1])
  }

  function Round32(crc: Bits32): Bits32 {
    if crc[0] then Xor(crc[1..] + [false], TAIL32) else crc[1..] + [false]
  }

  function Rounds32(crc: Bits32, n: nat): Bits32 {
    if n == 0 then crc else Round32(Rounds32(crc, n - 1))
  }

  function FeedAll32(crc: Bits32, s: seq<byte>): Bits32 {
    if s == [] then crc
    else Rounds32(Xor(FeedAll32(crc, s[..|s| - 1]), Rising(s[|s| - 1]) + Zeros(24)), 8)
  }

  method Crc32Feed(crc: Bits32, b: byte) returns (crc': Bits32)
    ensures crc' == Rounds32(Xor(crc, Rising(b) + Zeros(24)), 8)
  {
    crc' := Xor(crc, Rising(b) + Zeros(24));
    ghost var start := crc';
    for i := 0 to 8
      invariant crc' == Rounds32(start, i)
    {
      if crc'[0] {
        crc' := Xor(crc'[1..] + [false], TAIL32);
      } else {
        crc' := crc'[1..] + [false];
      }
    }
  }

  lemma {:induction false} WireBitsConcat(s: seq<byte>, t: seq<byte>)
    ensures WireBits(s + t) == WireBits(s) + WireBits(t)
  {
    if t == [] {
      assert s + t == s;
    } else {
      var n := |t| - 1;
      assert (s + t)[..|s + t| - 1] == s + t[..n];
      WireBitsConcat(s, t[..n]);
    }
  }

  lemma SingleWireBits(b: byte)
    ensures WireBits([b]) == Rising(b)
  {
    assert [b][..0] == [];
    assert WireBits([b]) == WireBits([]) + Rising(b);
  }

  lemma {:induction false} RoundsAreShifts32(crc: Bits32, n: nat)
    ensures Rounds32(crc, n) == ShiftAll(TAIL32, crc, Zeros(n))
  {
    if n > 0 {
      RoundsAreShifts32(crc, n - 1);
      assert Zeros(n)[..n - 1] == Zeros(n - 1);
    }
  }

  lemma {:induction false} FeedAllIsShifts32(crc: Bits32, s: seq<byte>)
    ensures FeedAll32(crc, s) == ShiftAll(TAIL32, crc, WireBits(s))
  {
    if s != [] {
      var n := |s| - 1;
      var r, data := FeedAll32(crc, s[..n]), Rising(s[n]);
      FeedAllIsShifts32(crc, s[..n]);
      RoundsAreShifts32(Xor(r, data + Zeros(24)), 8);
      ChunkIntoRegister(TAIL32, r, data);
      ShiftAllConcat(TAIL32, crc, WireBits(s[..n]), data);
    }
  }

  // ----- the four check bytes -----

  function Complement(r: Bits): (c: Bits)
    ensures |c| == |r|
  {
    seq(|r|, i requires 0 <= i < |r| => !r[i])
  }

  /** The bytes of `~crc`, lowest first: the order computeFcs packs them in, and the order they are sent in. */
  function FcsBytes(crc: Bits32): (fcs: seq<byte>)
    ensures |fcs| == 4
  {
    var c := Complement(crc);
    [Byte(Reverse(c[..8])), Byte(Reverse(c[8..16])), Byte(Reverse(c[16..24])), Byte(Reverse(c[24..]))]
  }

  function Fcs(s: seq<byte>): (fcs: seq<byte>)
    ensures |fcs| == 4
  {
    FcsBytes(FeedAll32(Ones(32), s))
  }

  lemma FourWireBits(t: seq<byte>)
    requires |t| == 4
    ensures WireBits(t) == Rising(t[0]) + Rising(t[1]) + Rising(t[2]) + Rising(t[3])
  {
    assert t == [t[0]] + [t[1]] + [t[2]] + [t[3]];
    WireBitsConcat([t[0]] + [t[1]] + [t[2]], [t[3]]);
    WireBitsConcat([t[0]] + [t[1]], [t[2]]);
    WireBitsConcat([t[0]], [t[1]]);
    SingleWireBits(t[0]);
    SingleWireBits(t[1]);
    SingleWireBits(t[2]);
    SingleWireBits(t[3]);
  }

  lemma RisingOfReversed(r: Bits)
    requires |r| == 8
    ensures Rising(Byte(Reverse(r))) == r
  {
    BitsOfByte(Reverse(r));
    ReverseTwice(r);
  }

  lemma FcsBytesOnTheWire(crc: Bits32)
    ensures WireBits(FcsBytes(crc)) == Complement(crc)
  {
    var c := Complement(crc);
    FourWireBits(FcsBytes(crc));
    RisingOfReversed(c[..8]);
    RisingOfReversed(c[8..16]);
    RisingOfReversed(c[16..24]);
    RisingOfReversed(c[24..]);
    assert c == c[..8] + c[8..16] + c[16..24] + c[24..];
  }

  lemma RisingInjective(a: byte, b: byte)
    requires Rising(a) == Rising(b)
    ensures a == b
  {
    ReverseTwice(Bits8(a));
    ReverseTwice(Bits8(b));
    ByteOfBits(a);
    ByteOfBits(b);
  }

  lemma {:induction false} WireBitsInjective(s: seq<byte>, t: seq<byte>)
    requires |s| == |t| && WireBits(s) == WireBits(t)
    ensures s == t
  {
    if s != [] {
      var n := |s| - 1;
      assert WireBits(s)[..8 * n] == WireBits(s[..n]) && WireBits(t)[..8 * n] == WireBits(t[..n]);
      assert WireBits(s)[8 * n..] == Rising(s[n]) && WireBits(t)[8 * n..] == Rising(t[n]);
      WireBitsInjective(s[..n], t[..n]);
      RisingInjective(s[n], t[n]);
      assert s == s[..n] + [s[n]] && t == t[..n] + [t[n]];
    }
  }

  /** The register after a message and its true check bytes, whatever the message was. */
  const RESIDUE: Bits32 := Rounds32(Ones(32), 32)

  lemma ComplementedContent(r: Bits32)
    ensures ShiftAll(TAIL32, r, Complement(r)) == RESIDUE
  {
    ChunkIntoRegister(TAIL32, r, Complement(r));
    assert Xor(r, Complement(r) + Zeros(0)) == Ones(32);
    RoundsAreShifts32(Ones(32), 32);
  }

  /** A message followed by four bytes ends in the residue exactly when they are its check bytes. */
  lemma ResidueIff(s: seq<byte>, fcs: seq<byte>)
    requires |fcs| == 4
    ensures FeedAll32(Ones(32), s + fcs) == RESIDUE <==> fcs == Fcs(s)
  {
    var r := FeedAll32(Ones(32), s);
    FeedAllIsShifts32(Ones(32), s);
    FeedAllIsShifts32(Ones(32), s + fcs);
    WireBitsConcat(s, fcs);
    ShiftAllConcat(TAIL32, Ones(32), WireBits(s), WireBits(fcs));
    FcsBytesOnTheWire(r);
    ComplementedContent(r);
    if fcs != Fcs(s) {
      if WireBits(fcs) == Complement(r) {
        WireBitsInjective(fcs, Fcs(s));
      }
      ShortMessagesDiffer(TAIL32, r, WireBits(fcs), Complement(r));
    }
  }

  /** The register divides: what it holds, and nothing else, is the remainder of message * x^32 with
      the first 32 places complemented, as the all-ones start makes it. */
  lemma Crc32IsRemainder(s: seq<byte>, rem: Bits)
    ensures IsRemainder(Dividend(Ones(32), WireBits(s)), TAIL32, rem) <==> rem == FeedAll32(Ones(32), s)
  {
    var m := WireBits(s);
    FeedAllIsShifts32(Ones(32), s);
    RegisterIsRemainder(TAIL32, Ones(32), m);
    if IsRemainder(Dividend(Ones(32), m), TAIL32, rem) {
      RemainderIsUnique(Dividend(Ones(32), m), TAIL32, rem, FeedAll32(Ones(32), s));
    }
  }

  lemma FcsBytesInjective(crc: Bits32, crc': Bits32)
    requires FcsBytes(crc) == FcsBytes(crc')
    ensures crc == crc'
  {
    FcsBytesOnTheWire(crc);
    FcsBytesOnTheWire(crc');
    forall i | 0 <= i < 32
      ensures crc[i] == crc'[i]
    {
      assert Complement(crc)[i] == Complement(crc')[i];
    }
  }

  /** Messages that differ in one burst of at most 32 wire bits never share a check sequence. */
  lemma BurstsChangeFcs(s: seq<byte>, t: seq<byte>)
    requires DifferInBurst(WireBits(s), WireBits(t), 32)
    ensures Fcs(s) != Fcs(t)
  {
    FeedAllIsShifts32(Ones(32), s);
    FeedAllIsShifts32(Ones(32), t);
    BurstsChangeTheRegister(TAIL32, Ones(32), WireBits(s), WireBits(t));
    if Fcs(s) == Fcs(t) {
      FcsBytesInjective(FeedAll32(Ones(32), s), FeedAll32(Ones(32), t));
    }
  }

  lemma MiddleWireBits(before: seq<byte>, v: byte, after: seq<byte>)
    ensures WireBits(before + ([v] + after)) == WireBits(before) + Rising(v) + WireBits(after)
  {
    WireBitsConcat(before, [v] + after);
    WireBitsConcat([v], after);
    SingleWireBits(v);
  }

  lemma OneByteChangesFcs(s: seq<byte>, i: nat, v: byte)
    requires i < |s| && v != s[i]
    ensures Fcs(s) != Fcs(s[i := v])
  {
    var before, after := s[..i], s[i + 1..];
    assert s == before + ([s[i]] + after) && s[i := v] == before + ([v] + after);
    MiddleWireBits(before, s[i], after);
    MiddleWireBits(before, v, after);
    if Rising(s[i]) == Rising(v) {
      RisingInjective(s[i], v);
    }
    assert Burst(WireBits(s), WireBits(s[i := v]),
                 WireBits(before), Rising(s[i]), Rising(v), WireBits(after), 32);
    BurstsChangeFcs(s, s[i := v]);
  }
}
