/** The bit operators on numbers of any size, and what a mask selects. */
module BitMasks {
  import opened Bytes
  import opened Division

  function BitAnd(a: nat, b: nat): nat {
    if a == 0 then 0 else 2 * BitAnd(a / 2, b / 2) + (if a % 2 == 1 && b % 2 == 1 then 1 else 0)
  }

  function BitXor(a: nat, b: nat): nat
    decreases a + b
  {
    if a == 0 && b == 0 then 0 else 2 * BitXor(a / 2, b / 2) + (if a % 2 != b % 2 then 1 else 0)
  }

  // ----- masks by hexadecimal digits -----

  lemma AndHalf(a: nat, b: nat)
    ensures BitAnd(a, b) == 2 * BitAnd(a / 2, b / 2) + BitAnd(a % 2, b % 2)
    ensures a < 2 ==> BitAnd(a, b) == if a == 1 && b % 2 == 1 then 1 else 0
  {
    assert BitAnd(0, b / 2) == 0;
  }

  lemma AndQuarter(a: nat, b: nat)
    ensures BitAnd(a, b) == 4 * BitAnd(a / 4, b / 4) + BitAnd(a % 4, b % 4)
  {
    hide BitAnd;
    AndHalf(a, b);
    AndHalf(a / 2, b / 2);
    AndHalf(a % 4, b % 4);
    Halves(a);
    Halves(b);
  }

  lemma Halves(a: nat)
    ensures a / 2 / 2 == a / 4 && a % 4 / 2 == a / 2 % 2 && a % 4 % 2 == a % 2
  {
  }

  lemma Quarters(a: nat)
    ensures a / 4 / 4 == a / 16 && a % 16 / 4 == a / 4 % 4 && a % 16 % 4 == a % 4
  {
  }

  lemma AndDigit(a: nat, b: nat)
    ensures BitAnd(a, b) == 16 * BitAnd(a / 16, b / 16) + BitAnd(a % 16, b % 16)
  {
    hide BitAnd;
    AndQuarter(a, b);
    AndQuarter(a / 4, b / 4);
    AndQuarter(a % 16, b % 16);
    Quarters(a);
    Quarters(b);
  }

  lemma PairUnder(e: nat)
    requires e < 4
    ensures BitAnd(e, 0) == 0 && BitAnd(e, 1) == e % 2 && BitAnd(e, 2) == e / 2 * 2 && BitAnd(e, 3) == e
  {
    hide BitAnd;
    AndHalf(e, 0);
    AndHalf(e, 1);
    AndHalf(e, 2);
    AndHalf(e, 3);
    AndHalf(e / 2, 0);
    AndHalf(e / 2, 1);
    AndHalf(e % 2, 0);
    AndHalf(e % 2, 1);
  }

  /** A digit under a mask of its upper bits, of none, or of all but one. */
  lemma DigitUnder(d: nat)
    requires d < 16
    ensures BitAnd(d, 0x0) == 0 && BitAnd(d, 0x8) == d / 8 * 8 && BitAnd(d, 0xc) == d / 4 * 4
    ensures BitAnd(d, 0xd) == d / 4 * 4 + d % 2 && BitAnd(d, 0xe) == d / 2 * 2 && BitAnd(d, 0xf) == d
  {
    hide BitAnd;
    PairUnder(d / 4);
    PairUnder(d % 4);
    UpperUnder(d);
    AndQuarter(d, 0xd);
    AndQuarter(d, 0xe);
    AndQuarter(d, 0xf);
  }

  lemma UpperUnder(d: nat)
    requires d < 16
    ensures BitAnd(d, 0x0) == 0 && BitAnd(d, 0x8) == d / 8 * 8 && BitAnd(d, 0xc) == d / 4 * 4
  {
    hide BitAnd;
    PairUnder(d / 4);
    PairUnder(d % 4);
    AndQuarter(d, 0x0);
    AndQuarter(d, 0x8);
    AndQuarter(d, 0xc);
    assert d / 4 / 2 == d / 8;
  }

  /** The number with the given hexadecimal digits. */
  function Hex4(a: nat, b: nat, c: nat, d: nat): nat {
    0x10 * Hex3(a, b, c) + d
  }

  function Hex3(a: nat, b: nat, c: nat): nat {
    0x100 * a + 0x10 * b + c
  }

  lemma DigitsOf(x: word)
    ensures x == Hex4(x / 0x1000, x / 0x100 % 16, x / 0x10 % 16, x % 16) && x / 0x1000 < 16
  {
    assert x / 16 / 16 == x / 256 && x / 256 / 16 == x / 4096;
    assert x == 16 * (x / 16) + x % 16;
    assert x / 16 == 16 * (x / 16 / 16) + x / 16 % 16;
    assert x / 256 == 16 * (x / 256 / 16) + x / 256 % 16;
  }

  lemma LowerFields(op: word, a: nat, b: nat, c: nat, d: nat)
    requires op == Hex4(a, b, c, d) && b < 16 && c < 16 && d < 16
    ensures op / 0x20 == 128 * a + 8 * b + c / 2 && op / 0x40 == 64 * a + 4 * b + c / 4 && op / 0x20 % 8 == c / 2
    ensures op % 16 == d && op / 4 % 4 == d / 4 && op / 0x10 % 16 == c && op / 0x100 % 16 == b
  {
    var e, f := 16 * a + b, 16 * (16 * a + b) + c;
    LowDigit(op, f, d);
    LowDigit(f, e, c);
    LowDigit(e, a, b);
    FewBits(f, e, c);
    FewBits(op, f, d);
  }

  lemma LowDigit(x: nat, q: nat, r: nat)
    requires x == 16 * q + r && r < 16
    ensures x / 16 == q && x % 16 == r
  {
  }

  lemma FewBits(x: nat, q: nat, r: nat)
    requires x == 16 * q + r && r < 16
    ensures x / 2 == 8 * q + r / 2 && x / 4 == 4 * q + r / 4 && x / 2 % 8 == r / 2 && x / 4 % 4 == r / 4
  {
  }

  /** A number under a mask, digit by digit. */
  lemma UnderMask(a: nat, b: nat, c: nat, d: nat, ma: nat, mb: nat, mc: nat, md: nat)
    requires b < 16 && c < 16 && d < 16 && mb < 16 && mc < 16 && md < 16
    ensures BitAnd(Hex4(a, b, c, d), Hex4(ma, mb, mc, md))
            == Hex4(BitAnd(a, ma), BitAnd(b, mb), BitAnd(c, mc), BitAnd(d, md))
  {
    hide BitAnd, Hex3;
    ThreeUnder(a, b, c, ma, mb, mc);
    AndOfDigits(Hex4(a, b, c, d), Hex3(a, b, c), d, Hex4(ma, mb, mc, md), Hex3(ma, mb, mc), md);
  }

  lemma ThreeUnder(a: nat, b: nat, c: nat, ma: nat, mb: nat, mc: nat)
    requires b < 16 && c < 16 && mb < 16 && mc < 16
    ensures BitAnd(Hex3(a, b, c), Hex3(ma, mb, mc)) == Hex3(BitAnd(a, ma), BitAnd(b, mb), BitAnd(c, mc))
  {
    hide BitAnd;
    var (e, me) := (16 * a + b, 16 * ma + mb);
    AndOfDigits(e, a, b, me, ma, mb);
    AndOfDigits(Hex3(a, b, c), e, c, Hex3(ma, mb, mc), me, mc);
  }

  lemma AndOfDigits(x: nat, q: nat, r: nat, m: nat, mq: nat, mr: nat)
    requires x == 16 * q + r && m == 16 * mq + mr && r < 16 && mr < 16
    ensures BitAnd(x, m) == 16 * BitAnd(q, mq) + BitAnd(r, mr)
  {
    hide BitAnd;
    LowDigit(x, q, r);
    LowDigit(m, mq, mr);
    AndDigit(x, m);
  }

  // ----- a counter's bits -----

  predicate PowerOfTwo(p: nat) {
    p == 1 || (p > 0 && p % 2 == 0 && PowerOfTwo(p / 2))
  }

  lemma {:induction false} XorSelf(x: nat)
    ensures BitXor(x, x) == 0
  {
    if x > 0 {
      XorSelf(x / 2);
    }
  }

  lemma XorHalf(a: nat, b: nat)
    ensures BitXor(a, b) == 2 * BitXor(a / 2, b / 2) + if a % 2 != b % 2 then 1 else 0
  {
  }

  lemma XorOfEven(h: nat)
    ensures BitXor(2 * h + 1, 2 * h) == 1
  {
    hide BitXor;
    XorHalf(2 * h + 1, 2 * h);
    XorSelf(h);
  }

  lemma XorOfOdd(h: nat)
    ensures BitXor(2 * h + 2, 2 * h + 1) == 2 * BitXor(h + 1, h) + 1
  {
    hide BitXor;
    XorHalf(2 * h + 2, 2 * h + 1);
  }

  lemma AndOfDouble(y: nat, bit: nat, q: nat)
    requires bit < 2
    ensures BitAnd(2 * y + bit, 2 * q) == 2 * BitAnd(y, q)
  {
    AndHalf(2 * y + bit, 2 * q);
    hide BitAnd;
    AndHalf(bit, 0);
  }

  /** The bit of weight p differs in a number and the next exactly when the next is a multiple of p. */
  lemma {:induction false} BitTurnsIff(x: nat, p: nat)
    requires PowerOfTwo(p)
    ensures BitAnd(BitXor(x + 1, x), p) != 0 <==> Multiple(x + 1, p)
  {
    hide BitAnd, BitXor, Multiple;
    var h, q := x / 2, p / 2;
    if p == 1 {
      OneTurnsAlways(x);
    } else if x % 2 == 0 {
      assert x == 2 * h && p == 2 * q;
      XorOfEven(h);
      AndOfDouble(0, 1, q);
      assert BitAnd(0, q) == 0 by { AndOfZero(q); }
      MultipleOfDouble(h, q);
    } else {
      assert x == 2 * h + 1 && p == 2 * q && x + 1 == 2 * (h + 1);
      XorOfOdd(h);
      AndOfDouble(BitXor(h + 1, h), 1, q);
      MultipleOfDouble(h + 1, q);
      BitTurnsIff(h, q);
    }
  }

  lemma AndOfZero(b: nat)
    ensures BitAnd(0, b) == 0
  {
  }

  lemma OneTurnsAlways(x: nat)
    ensures BitAnd(BitXor(x + 1, x), 1) == 1 && Multiple(x + 1, 1)
  {
    hide BitAnd, BitXor;
    XorHalf(x + 1, x);
    AndHalf(BitXor(x + 1, x), 1);
    AndWithZero(BitXor(x + 1, x) / 2);
    AndHalf(1, 1);
  }

  lemma {:induction false} AndWithZero(a: nat)
    ensures BitAnd(a, 0) == 0
  {
    if a > 0 {
      AndWithZero(a / 2);
    }
  }
}
