/** The mask tests of src/devices/atmega32/cpu_core.cpp as tests of opcode fields. */
module AvrMasks {
  import opened Bytes
  import opened BitMasks

  predicate Digits(op: word, a: nat, b: nat, c: nat, d: nat) {
    op == Hex4(a, b, c, d) && a < 16 && b < 16 && c < 16 && d < 16
  }

  lemma DigitsUnder(op: word, a: nat, b: nat, c: nat, d: nat, ma: nat, mb: nat, mc: nat, md: nat)
    requires Digits(op, a, b, c, d) && mb < 16 && mc < 16 && md < 16
    ensures BitAnd(op, Hex4(ma, mb, mc, md)) == Hex4(BitAnd(a, ma), BitAnd(b, mb), BitAnd(c, mc), BitAnd(d, md))
    ensures forall x :: x in {a, b, c, d} ==>
              && BitAnd(x, 0x0) == 0 && BitAnd(x, 0x8) == x / 8 * 8 && BitAnd(x, 0xc) == x / 4 * 4
              && BitAnd(x, 0xd) == x / 4 * 4 + x % 2 && BitAnd(x, 0xe) == x / 2 * 2 && BitAnd(x, 0xf) == x
  {
    hide BitAnd, Hex4;
    UnderMask(a, b, c, d, ma, mb, mc, md);
    DigitUnder(a);
    DigitUnder(b);
    DigitUnder(c);
    DigitUnder(d);
  }

  lemma TopSevenMask(op: word, a: nat, b: nat, c: nat, d: nat)
    requires Digits(op, a, b, c, d)
    ensures BitAnd(op, 0xfe00) == 0x9600 <==> op / 0x200 == 0x4b
    ensures BitAnd(op, 0xfe00) == 0x9400 <==> op / 0x200 == 0x4a
    ensures BitAnd(op, 0xfe00) == 0x0200 <==> op / 0x200 == 1
  {
    hide BitAnd;
    DigitsUnder(op, a, b, c, d, 0xf, 0xe, 0x0, 0x0);
    Fields(op, a, b, c, d);
  }

  lemma TopSixMask(op: word, a: nat, b: nat, c: nat, d: nat)
    requires Digits(op, a, b, c, d)
    ensures BitAnd(op, 0xfc00) == 0x9000 <==> op / 0x400 == 0x24
    ensures BitAnd(op, 0xfc00) == 0x9800 <==> op / 0x400 == 0x26
    ensures BitAnd(op, 0xfc00) == 0x9c00 <==> op / 0x400 == 0x27
  {
    hide BitAnd;
    DigitsUnder(op, a, b, c, d, 0xf, 0xc, 0x0, 0x0);
    Fields(op, a, b, c, d);
  }

  lemma TopFourMask(op: word, a: nat, b: nat, c: nat, d: nat)
    requires Digits(op, a, b, c, d)
    ensures BitAnd(op, 0xf000) == 0xe000 <==> op / 0x1000 == 0xe
    ensures BitAnd(op, 0xf000) == 0xb000 <==> op / 0x1000 == 0xb
  {
    hide BitAnd;
    DigitsUnder(op, a, b, c, d, 0xf, 0x0, 0x0, 0x0);
    Fields(op, a, b, c, d);
  }

  lemma TopThreeMask(op: word, a: nat, b: nat, c: nat, d: nat)
    requires Digits(op, a, b, c, d)
    ensures BitAnd(op, 0xe000) == 0xc000 <==> op / 0x2000 == 6
  {
    hide BitAnd;
    DigitsUnder(op, a, b, c, d, 0xe, 0x0, 0x0, 0x0);
    Fields(op, a, b, c, d);
  }

  lemma TopFiveMask(op: word, a: nat, b: nat, c: nat, d: nat)
    requires Digits(op, a, b, c, d)
    ensures BitAnd(op, 0xf800) == 0xf000 <==> op / 0x800 == 0x1e
    ensures BitAnd(op, 0xf800) == 0xf800 <==> op / 0x800 == 0x1f
  {
    hide BitAnd;
    DigitsUnder(op, a, b, c, d, 0xf, 0x8, 0x0, 0x0);
    Fields(op, a, b, c, d);
  }

  lemma TopByteMask(op: word, a: nat, b: nat, c: nat, d: nat)
    requires Digits(op, a, b, c, d)
    ensures BitAnd(op, 0xff00) == 0x0100 <==> op / 0x100 == 1
  {
    hide BitAnd;
    DigitsUnder(op, a, b, c, d, 0xf, 0xf, 0x0, 0x0);
    Fields(op, a, b, c, d);
  }

  lemma LoadStoreMask(op: word, a: nat, b: nat, c: nat, d: nat)
    requires Digits(op, a, b, c, d)
    ensures BitAnd(op, 0xd000) == 0x8000 <==> op / 0x4000 == 2 && op / 0x1000 % 2 == 0
  {
    hide BitAnd;
    DigitsUnder(op, a, b, c, d, 0xd, 0x0, 0x0, 0x0);
    Fields(op, a, b, c, d);
  }

  lemma IndirectMask(op: word, a: nat, b: nat, c: nat, d: nat)
    requires Digits(op, a, b, c, d)
    ensures BitAnd(op, 0xfeef) == 0x9409 <==> op / 0x200 == 0x4a && op / 0x20 % 8 == 0 && op % 16 == 9
  {
    hide BitAnd;
    IndirectDigits(op, a, b, c, d);
    Fields(op, a, b, c, d);
  }

  lemma IndirectDigits(op: word, a: nat, b: nat, c: nat, d: nat)
    requires Digits(op, a, b, c, d)
    ensures BitAnd(op, 0xfeef) == Hex4(a, b / 2 * 2, c / 2 * 2, d)
  {
    hide BitAnd;
    DigitsUnder(op, a, b, c, d, 0xf, 0xe, 0xe, 0xf);
  }

  lemma ReturnMask(op: word, a: nat, b: nat, c: nat, d: nat)
    requires Digits(op, a, b, c, d)
    ensures BitAnd(op, 0xffef) == 0x9508 <==> op / 0x20 == 0x4a8 && op % 16 == 8
  {
    hide BitAnd;
    ReturnDigits(op, a, b, c, d);
    LowerFields(op, a, b, c, d);
  }

  lemma ReturnDigits(op: word, a: nat, b: nat, c: nat, d: nat)
    requires Digits(op, a, b, c, d)
    ensures BitAnd(op, 0xffef) == Hex4(a, b, c / 2 * 2, d)
  {
    hide BitAnd;
    DigitsUnder(op, a, b, c, d, 0xf, 0xf, 0xe, 0xf);
  }

  lemma ControlMask(op: word, a: nat, b: nat, c: nat, d: nat)
    requires Digits(op, a, b, c, d)
    ensures BitAnd(op, 0xffcf) == 0x95c8 <==> op / 0x40 == 0x257 && op % 16 == 8
    ensures BitAnd(op, 0xffcf) == 0x9588 <==> op / 0x40 == 0x256 && op % 16 == 8
  {
    hide BitAnd;
    ControlDigits(op, a, b, c, d);
    Fields(op, a, b, c, d);
  }

  lemma ControlDigits(op: word, a: nat, b: nat, c: nat, d: nat)
    requires Digits(op, a, b, c, d)
    ensures BitAnd(op, 0xffcf) == Hex4(a, b, c / 4 * 4, d)
  {
    hide BitAnd;
    DigitsUnder(op, a, b, c, d, 0xf, 0xf, 0xc, 0xf);
  }

  lemma LongJumpMask(op: word, a: nat, b: nat, c: nat, d: nat)
    requires Digits(op, a, b, c, d)
    ensures BitAnd(op, 0xfe0c) == 0x940c <==> op / 0x200 == 0x4a && op / 4 % 4 == 3
  {
    hide BitAnd;
    DigitsUnder(op, a, b, c, d, 0xf, 0xe, 0x0, 0xc);
    Fields(op, a, b, c, d);
  }

  lemma FlagMask(op: word, a: nat, b: nat, c: nat, d: nat)
    requires Digits(op, a, b, c, d)
    ensures BitAnd(op, 0xff0f) == 0x9408 <==> op / 0x100 == 0x94 && op % 16 == 8
  {
    hide BitAnd;
    DigitsUnder(op, a, b, c, d, 0xf, 0xf, 0x0, 0xf);
    Fields(op, a, b, c, d);
  }

  lemma DirectMask(op: word, a: nat, b: nat, c: nat, d: nat)
    requires Digits(op, a, b, c, d)
    ensures BitAnd(op, 0xfc0f) == 0x9000 <==> op / 0x400 == 0x24 && op % 16 == 0
  {
    hide BitAnd;
    DirectDigits(op, a, b, c, d);
    Fields(op, a, b, c, d);
  }

  lemma DirectDigits(op: word, a: nat, b: nat, c: nat, d: nat)
    requires Digits(op, a, b, c, d)
    ensures BitAnd(op, 0xfc0f) == Hex4(a, b / 4 * 4, 0, d)
  {
    hide BitAnd;
    DigitsUnder(op, a, b, c, d, 0xf, 0xc, 0x0, 0xf);
  }

  lemma LowMask(op: word, a: nat, b: nat, c: nat, d: nat)
    requires Digits(op, a, b, c, d)
    ensures BitAnd(op, 0x0f) == d
  {
    hide BitAnd, Hex3;
    AndOfDigits(op, Hex3(a, b, c), d, 0x0f, 0, 0xf);
    AndWithZero(Hex3(a, b, c));
    DigitUnder(d);
  }

  lemma Fields(op: word, a: nat, b: nat, c: nat, d: nat)
    requires Digits(op, a, b, c, d)
    ensures op / 0x100 == 16 * a + b && op / 0x200 == 8 * a + b / 2 && op / 0x400 == 4 * a + b / 4
    ensures op / 0x800 == 2 * a + b / 8 && op / 0x1000 == a && op / 0x2000 == a / 2 && op / 0x4000 == a / 4
    ensures op / 0x20 == 128 * a + 8 * b + c / 2 && op / 0x40 == 64 * a + 4 * b + c / 4 && op / 0x20 % 8 == c / 2
    ensures op % 16 == d && op / 4 % 4 == d / 4 && op / 0x10 % 16 == c && op / 0x100 % 16 == b
  {
    LowerFields(op, a, b, c, d);
  }

  /** All the tests of init_fn_table and is_double_width_instruction. */
  lemma MaskTests(op: word)
    ensures BitAnd(op, 0xfe00) == 0x9600 <==> op / 0x200 == 0x4b
    ensures BitAnd(op, 0xfe00) == 0x9400 <==> op / 0x200 == 0x4a
    ensures BitAnd(op, 0xfe00) == 0x0200 <==> op / 0x200 == 1
    ensures BitAnd(op, 0xfc00) == 0x9000 <==> op / 0x400 == 0x24
    ensures BitAnd(op, 0xfc00) == 0x9800 <==> op / 0x400 == 0x26
    ensures BitAnd(op, 0xfc00) == 0x9c00 <==> op / 0x400 == 0x27
    ensures BitAnd(op, 0xf000) == 0xe000 <==> op / 0x1000 == 0xe
    ensures BitAnd(op, 0xf000) == 0xb000 <==> op / 0x1000 == 0xb
    ensures BitAnd(op, 0xe000) == 0xc000 <==> op / 0x2000 == 6
    ensures BitAnd(op, 0xf800) == 0xf000 <==> op / 0x800 == 0x1e
    ensures BitAnd(op, 0xf800) == 0xf800 <==> op / 0x800 == 0x1f
    ensures BitAnd(op, 0xff00) == 0x0100 <==> op / 0x100 == 1
    ensures BitAnd(op, 0xd000) == 0x8000 <==> op / 0x4000 == 2 && op / 0x1000 % 2 == 0
    ensures BitAnd(op, 0xfeef) == 0x9409 <==> op / 0x200 == 0x4a && op / 0x20 % 8 == 0 && op % 16 == 9
    ensures BitAnd(op, 0xffef) == 0x9508 <==> op / 0x20 == 0x4a8 && op % 16 == 8
    ensures BitAnd(op, 0xffcf) == 0x95c8 <==> op / 0x40 == 0x257 && op % 16 == 8
    ensures BitAnd(op, 0xffcf) == 0x9588 <==> op / 0x40 == 0x256 && op % 16 == 8
    ensures BitAnd(op, 0xfe0c) == 0x940c <==> op / 0x200 == 0x4a && op / 4 % 4 == 3
    ensures BitAnd(op, 0xff0f) == 0x9408 <==> op / 0x100 == 0x94 && op % 16 == 8
    ensures BitAnd(op, 0xfc0f) == 0x9000 <==> op / 0x400 == 0x24 && op % 16 == 0
    ensures BitAnd(op, 0x0f) == op % 16
  {
    hide BitAnd, Hex4;
    DigitsOf(op);
    var a, b, c, d := op / 0x1000, op / 0x100 % 16, op / 0x10 % 16, op % 16;
    TopSevenMask(op, a, b, c, d);
    TopSixMask(op, a, b, c, d);
    TopFourMask(op, a, b, c, d);
    TopThreeMask(op, a, b, c, d);
    TopFiveMask(op, a, b, c, d);
    TopByteMask(op, a, b, c, d);
    LoadStoreMask(op, a, b, c, d);
    IndirectMask(op, a, b, c, d);
    ReturnMask(op, a, b, c, d);
    ControlMask(op, a, b, c, d);
    LongJumpMask(op, a, b, c, d);
    FlagMask(op, a, b, c, d);
    DirectMask(op, a, b, c, d);
    LowMask(op, a, b, c, d);
  }
}
