/** Machine bytes, kept as bounded integers, and the few bit macros of src/utils/bit_macros.h. */
module Bytes {

  type byte = x: int | 0 <= x < 256

  type word = x: int | 0 <= x < 0x1_0000

  function LowByte(x: nat): byte {
    x % 256
  }

  function HighByte(x: nat): byte {
    (x / 256) % 256
  }

  /** (high << 8) + low, counted a page of 256 at a time; WordIs gives its value. */
  function Word(high: byte, low: byte): (w: word)
    ensures w <= 0x100 * (high as int) + 0xff
  {
    if high == 0 then low else 0x100 + Word(high - 1, low)
  }

  lemma {:induction false} WordIs(high: byte, low: byte)
    ensures Word(high, low) == 0x100 * (high as int) + low
  {
    if high > 0 {
      WordIs(high - 1, low);
    }
  }

  lemma WordParts(high: byte, low: byte)
    ensures HighByte(Word(high, low)) == high && LowByte(Word(high, low)) == low
  {
    WordIs(high, low);
  }

  lemma PartsOfWord(x: word)
    ensures Word(HighByte(x), LowByte(x)) == x
  {
    WordIs(HighByte(x), LowByte(x));
  }

  type uint32 = x: int | 0 <= x < 0x1_0000_0000

  function BigEndian(b: seq<byte>): uint32
    requires |b| == 4
  {
    0x1_0000 * (Word(b[0], b[1]) as int) + Word(b[2], b[3])
  }

  function FourBytes(v: uint32): (b: seq<byte>)
    ensures |b| == 4
  {
    [HighByte(v / 0x1_0000), LowByte(v / 0x1_0000), HighByte(v % 0x1_0000), LowByte(v % 0x1_0000)]
  }

  lemma FourBytesBack(v: uint32)
    ensures BigEndian(FourBytes(v)) == v
  {
    PartsOfWord(v / 0x1_0000);
    PartsOfWord(v % 0x1_0000);
  }

  lemma BigEndianBack(b: seq<byte>)
    requires |b| == 4
    ensures FourBytes(BigEndian(b)) == b
  {
    var v := BigEndian(b);
    assert v / 0x1_0000 == Word(b[0], b[1]) && v % 0x1_0000 == Word(b[2], b[3]);
    WordParts(b[0], b[1]);
    WordParts(b[2], b[3]);
  }

  /** The binary digits of a hexadecimal digit, top digit first. */
  function Bits4(n: nat): (r: seq<bool>)
    requires n < 16
    ensures |r| == 4
  {
    [n >= 8, n % 8 >= 4, n % 4 >= 2, n % 2 == 1]
  }

  /** The binary digits of a byte, top digit first. */
  function Bits8(b: byte): (r: seq<bool>)
    ensures |r| == 8
  {
    Bits4(b / 16) + Bits4(b % 16)
  }

  function Nibble(r: seq<bool>): (n: nat)
    requires |r| == 4
    ensures n < 16
  {
    (if r[0] then 8 else 0) + (if r[1] then 4 else 0) + (if r[2] then 2 else 0) + (if r[3] then 1 else 0)
  }

  /** The byte with the given binary digits, top digit first. */
  function Byte(r: seq<bool>): byte
    requires |r| == 8
  {
    16 * Nibble(r[..4]) + Nibble(r[4..])
  }

  lemma NibbleInverse(n: nat)
    requires n < 16
    ensures Nibble(Bits4(n)) == n
  {
  }

  lemma Bits4Inverse(r: seq<bool>)
    requires |r| == 4
    ensures Bits4(Nibble(r)) == r
  {
  }

  lemma ByteOfBits(b: byte)
    ensures Byte(Bits8(b)) == b
  {
    NibbleInverse(b / 16);
    NibbleInverse(b % 16);
    assert Bits8(b)[..4] == Bits4(b / 16) && Bits8(b)[4..] == Bits4(b % 16);
  }

  lemma BitsOfByte(r: seq<bool>)
    requires |r| == 8
    ensures Bits8(Byte(r)) == r
  {
    var h, l := Nibble(r[..4]), Nibble(r[4..]);
    assert Byte(r) / 16 == h && Byte(r) % 16 == l;
    assert Bits4(h) + Bits4(l) == r by {
      Bits4Inverse(r[..4]);
      Bits4Inverse(r[4..]);
    }
  }

  // ----- bit operators -----

  /** bit_is_set. */
  predicate BitSet(x: byte, k: nat)
    requires k < 8
  {
    Bits8(x)[7 - k]
  }

  function And(a: byte, b: byte): byte {
    Byte(seq(8, i requires 0 <= i < 8 => Bits8(a)[i] && Bits8(b)[i]))
  }

  function Or(a: byte, b: byte): byte {
    Byte(seq(8, i requires 0 <= i < 8 => Bits8(a)[i] || Bits8(b)[i]))
  }

  function Not(a: byte): byte {
    Byte(seq(8, i requires 0 <= i < 8 => !Bits8(a)[i]))
  }

  lemma AndBit(a: byte, b: byte, i: nat)
    requires i < 8
    ensures Bits8(And(a, b))[i] == (Bits8(a)[i] && Bits8(b)[i])
  {
    BitsOfByte(seq(8, i requires 0 <= i < 8 => Bits8(a)[i] && Bits8(b)[i]));
  }

  lemma OrBit(a: byte, b: byte, i: nat)
    requires i < 8
    ensures Bits8(Or(a, b))[i] == (Bits8(a)[i] || Bits8(b)[i])
  {
    BitsOfByte(seq(8, i requires 0 <= i < 8 => Bits8(a)[i] || Bits8(b)[i]));
  }

  lemma NotBit(a: byte, i: nat)
    requires i < 8
    ensures Bits8(Not(a))[i] == !Bits8(a)[i]
  {
    BitsOfByte(seq(8, i requires 0 <= i < 8 => !Bits8(a)[i]));
  }

  lemma SameBits(a: byte, b: byte)
    requires forall i :: 0 <= i < 8 ==> Bits8(a)[i] == Bits8(b)[i]
    ensures a == b
  {
    assert Bits8(a) == Bits8(b);
    ByteOfBits(a);
    ByteOfBits(b);
  }

  /** chg_bit, set_bit and clear_bit. */
  function WithBit(x: byte, k: nat, v: bool): byte
    requires k < 8
  {
    Byte(Bits8(x)[7 - k := v])
  }

  lemma WithBitBits(x: byte, k: nat, v: bool)
    requires k < 8
    ensures Bits8(WithBit(x, k, v)) == Bits8(x)[7 - k := v]
  {
    BitsOfByte(Bits8(x)[7 - k := v]);
  }
}
