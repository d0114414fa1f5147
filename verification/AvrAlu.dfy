/** The adder and subtracter of src/devices/atmega32/cpu_core.cpp: the status flags its bit formulas give are
    the carries and overflows of true arithmetic. */
module AvrAlu {
  import opened Bytes

  datatype Flags = Flags(i: bool, t: bool, h: bool, s: bool, v: bool, n: bool, z: bool, c: bool)

  function FlagsOf(sreg: byte): Flags {
    var b := Bits8(sreg);
    Flags(b[0], b[1], b[2], b[3], b[4], b[5], b[6], b[7])
  }

  function Bit(b: bool): nat {
    if b then 1 else 0
  }

  /** The expressions of do_add whose bits 3 and 7 are H and C, and whose bit 7 is V. */
  function AddCarries(d: byte, value: byte, result: byte): byte {
    Or(Or(And(d, value), And(value, Not(result))), And(Not(result), d))
  }

  function AddOverflow(d: byte, value: byte, result: byte): byte {
    Or(And(And(d, value), Not(result)), And(And(Not(d), Not(value)), result))
  }

  /** Those of do_cp_or_sub. */
  function SubBorrows(d: byte, value: byte, result: byte): byte {
    Or(Or(And(Not(d), value), And(value, result)), And(result, Not(d)))
  }

  function SubOverflow(d: byte, value: byte, result: byte): byte {
    Or(And(And(d, Not(value)), Not(result)), And(And(Not(d), value), result))
  }

  /** do_add on a byte: the result and the flags after it. */
  function Add(f: Flags, d: byte, value: byte, carry: bool): (byte, Flags) {
    var result := LowByte(d + value + Bit(carry && f.c));
    var h, c := BitSet(AddCarries(d, value, result), 3), BitSet(AddCarries(d, value, result), 7);
    var v, n := BitSet(AddOverflow(d, value, result), 7), BitSet(result, 7);
    (result, f.(h := h, c := c, v := v, n := n, z := result == 0, s := n != v))
  }

  function Difference(d: byte, value: byte, c: nat): byte {
    (d - value - c) % 256
  }

  /** do_cp_or_sub. */
  function Sub(f: Flags, d: byte, value: byte, carry: bool): (byte, Flags) {
    var result := Difference(d, value, Bit(carry && f.c));
    var h, c := BitSet(SubBorrows(d, value, result), 3), BitSet(SubBorrows(d, value, result), 7);
    var v, n := BitSet(SubOverflow(d, value, result), 7), BitSet(result, 7);
    (result, f.(h := h, c := c, v := v, n := n, z := result == 0 && (!carry || f.z), s := n != v))
  }

  /** The number a byte stands for in two's complement. */
  function Signed(b: byte): int {
    if b >= 128 then b - 256 else b
  }

  predicate Fits(x: int) {
    -128 <= x <= 127
  }

  // ----- the formulas, bit by bit -----

  lemma AddCarriesBit(d: byte, value: byte, result: byte, k: nat)
    requires k < 8
    ensures var x, y, r := BitSet(d, k), BitSet(value, k), BitSet(result, k);
            BitSet(AddCarries(d, value, result), k) == ((x && y) || (y && !r) || (!r && x))
  {
    hide And, Or, Not, Bits8;
    var nr := Not(result);
    NotBit(result, 7 - k);
    AndBit(d, value, 7 - k);
    AndBit(value, nr, 7 - k);
    AndBit(nr, d, 7 - k);
    OrBit(And(d, value), And(value, nr), 7 - k);
    OrBit(Or(And(d, value), And(value, nr)), And(nr, d), 7 - k);
  }

  lemma SubBorrowsBit(d: byte, value: byte, result: byte, k: nat)
    requires k < 8
    ensures var x, y, r := BitSet(d, k), BitSet(value, k), BitSet(result, k);
            BitSet(SubBorrows(d, value, result), k) == ((!x && y) || (y && r) || (r && !x))
  {
    hide And, Or, Not, Bits8;
    var nd := Not(d);
    NotBit(d, 7 - k);
    AndBit(nd, value, 7 - k);
    AndBit(value, result, 7 - k);
    AndBit(result, nd, 7 - k);
    OrBit(And(nd, value), And(value, result), 7 - k);
    OrBit(Or(And(nd, value), And(value, result)), And(result, nd), 7 - k);
  }

  lemma AddOverflowBit(d: byte, value: byte, result: byte, k: nat)
    requires k < 8
    ensures var x, y, r := BitSet(d, k), BitSet(value, k), BitSet(result, k);
            BitSet(AddOverflow(d, value, result), k) == ((x && y && !r) || (!x && !y && r))
  {
    hide And, Or, Not, Bits8;
    var nd, nv, nr := Not(d), Not(value), Not(result);
    NotBit(d, 7 - k);
    NotBit(value, 7 - k);
    NotBit(result, 7 - k);
    AndBit(d, value, 7 - k);
    AndBit(And(d, value), nr, 7 - k);
    AndBit(nd, nv, 7 - k);
    AndBit(And(nd, nv), result, 7 - k);
    OrBit(And(And(d, value), nr), And(And(nd, nv), result), 7 - k);
  }

  lemma SubOverflowBit(d: byte, value: byte, result: byte, k: nat)
    requires k < 8
    ensures var x, y, r := BitSet(d, k), BitSet(value, k), BitSet(result, k);
            BitSet(SubOverflow(d, value, result), k) == ((x && !y && !r) || (!x && y && r))
  {
    hide And, Or, Not, Bits8;
    var nd, nv, nr := Not(d), Not(value), Not(result);
    NotBit(d, 7 - k);
    NotBit(value, 7 - k);
    NotBit(result, 7 - k);
    AndBit(d, nv, 7 - k);
    AndBit(And(d, nv), nr, 7 - k);
    AndBit(nd, value, 7 - k);
    AndBit(And(nd, value), result, 7 - k);
    OrBit(And(And(d, nv), nr), And(And(nd, value), result), 7 - k);
  }

  lemma SignBit(x: byte)
    ensures BitSet(x, 7) == (x >= 128)
  {
  }

  lemma HalfBit(x: byte)
    ensures BitSet(x, 3) == (x % 16 >= 8)
  {
  }

  // ----- what the flags mean -----

  lemma CarryOut(d: nat, value: nat, c: nat, m: nat, r: nat)
    requires d < 2 * m && value < 2 * m && c <= 1 && r == (d + value + c) % (2 * m) && m in {8, 128}
    ensures ((d >= m && value >= m) || (value >= m && r < m) || (r < m && d >= m)) <==> d + value + c >= 2 * m
    ensures r == d + value + c - if d + value + c >= 2 * m then 2 * m else 0
  {
  }

  lemma BorrowOut(d: nat, value: nat, c: nat, m: nat, r: nat)
    requires d < 2 * m && value < 2 * m && c <= 1 && r == (d - value - c) % (2 * m) && m in {8, 128}
    ensures ((d < m && value >= m) || (value >= m && r >= m) || (r >= m && d < m)) <==> d < value + c
    ensures r == d - value - c + if d < value + c then 2 * m else 0
  {
  }

  /** After do_add, C is the carry out of the byte. */
  lemma AddCarry(f: Flags, d: byte, value: byte, carry: bool)
    ensures var (result, g) := Add(f, d, value, carry);
            result + 256 * Bit(g.c) == d + value + Bit(carry && f.c)
  {
    hide BitSet, AddCarries, AddOverflow;
    var c := Bit(carry && f.c);
    var result := LowByte(d + value + c);
    AddCarriesBit(d, value, result, 7);
    SignBit(d);
    SignBit(value);
    SignBit(result);
    CarryOut(d, value, c, 128, result);
  }

  /** H is the carry out of its low half. */
  lemma AddHalfCarry(f: Flags, d: byte, value: byte, carry: bool)
    ensures Add(f, d, value, carry).1.h <==> d % 16 + value % 16 + Bit(carry && f.c) >= 16
  {
    hide BitSet, AddCarries, AddOverflow;
    var c := Bit(carry && f.c);
    var result := LowByte(d + value + c);
    AddCarriesBit(d, value, result, 3);
    HalfBit(d);
    HalfBit(value);
    HalfBit(result);
    LowHalves(d, value, c);
    CarryOut(d % 16, value % 16, c, 8, result % 16);
  }

  lemma LowHalves(d: nat, value: nat, c: nat)
    ensures (d + value + c) % 256 % 16 == (d % 16 + value % 16 + c) % 16
  {
    var x, k := d % 16 + value % 16 + c, d / 16 + value / 16;
    assert d + value + c == 16 * k + x;
  }

  /** V is signed overflow, N the sign of the result and S that of the true sum. */
  lemma AddSigns(f: Flags, d: byte, value: byte, carry: bool)
    ensures var (result, g) := Add(f, d, value, carry);
            var sum := Signed(d) + Signed(value) + Bit(carry && f.c);
            && (g.v <==> !Fits(sum))
            && (g.n <==> Signed(result) < 0)
            && (g.s <==> sum < 0)
            && (g.z <==> result == 0)
            && g.i == f.i && g.t == f.t
  {
    hide BitSet, AddCarries, AddOverflow;
    var c := Bit(carry && f.c);
    var result := LowByte(d + value + c);
    AddOverflowBit(d, value, result, 7);
    SignBit(d);
    SignBit(value);
    SignBit(result);
  }

  /** After do_cp_or_sub, C is the borrow into the byte. */
  lemma SubBorrow(f: Flags, d: byte, value: byte, carry: bool)
    ensures var (result, g) := Sub(f, d, value, carry);
            result - 256 * Bit(g.c) == d - value - Bit(carry && f.c)
  {
    hide BitSet, SubBorrows, SubOverflow;
    var c := Bit(carry && f.c);
    var result: byte := (d - value - c) % 256;
    SubBorrowsBit(d, value, result, 7);
    SignBit(d);
    SignBit(value);
    SignBit(result);
    BorrowOut(d, value, c, 128, result);
  }

  /** H is the borrow into its low half. */
  lemma SubHalfBorrow(f: Flags, d: byte, value: byte, carry: bool)
    ensures Sub(f, d, value, carry).1.h <==> d % 16 < value % 16 + Bit(carry && f.c)
  {
    hide BitSet, SubBorrows, SubOverflow;
    var c := Bit(carry && f.c);
    var result: byte := (d - value - c) % 256;
    SubBorrowsBit(d, value, result, 3);
    HalfBit(d);
    HalfBit(value);
    HalfBit(result);
    LowHalfDifference(d, value, c);
    BorrowOut(d % 16, value % 16, c, 8, result % 16);
  }

  lemma LowHalfDifference(d: nat, value: nat, c: nat)
    ensures (d - value - c) % 256 % 16 == (d % 16 - value % 16 - c) % 16
  {
    var x, k := d % 16 - value % 16 - c, d / 16 - value / 16;
    assert d - value - c == 16 * k + x;
  }

  /** V is signed overflow, S the sign of the true difference, and with carry Z can only be kept. */
  lemma SubSigns(f: Flags, d: byte, value: byte, carry: bool)
    ensures var (result, g) := Sub(f, d, value, carry);
            var difference := Signed(d) - Signed(value) - Bit(carry && f.c);
            && (g.v <==> !Fits(difference))
            && (g.n <==> Signed(result) < 0)
            && (g.s <==> difference < 0)
            && (g.z <==> result == 0 && (!carry || f.z))
            && g.i == f.i && g.t == f.t
  {
    hide BitSet, SubBorrows, SubOverflow;
    var c := Bit(carry && f.c);
    var result: byte := (d - value - c) % 256;
    SubOverflowBit(d, value, result, 7);
    SignBit(d);
    SignBit(value);
    SignBit(result);
  }

  // ----- where the core departs from the AVR -----

  /** set_logical_op_flags: S is computed before V is cleared. */
  function LogicalFlags(f: Flags, result: byte): Flags {
    var g := f.(n := BitSet(result, 7), z := result == 0);
    g.(s := g.n != g.v).(v := false)
  }

  /** After AND, OR or EOR the S flag is the sign of the result exactly when V was clear before. */
  lemma LogicalSignIff(f: Flags, result: byte)
    ensures (LogicalFlags(f, result).s <==> Signed(result) < 0) <==> !f.v
    ensures var g := LogicalFlags(f, result);
            g == f.(n := Signed(result) < 0, z := result == 0, s := g.s, v := false)
  {
    SignBit(result);
  }

  /** After 0x7f + 0x01 has set V, AND of 0x80 with itself leaves S clear, although the result is negative. */
  lemma LogicalSignCanBeWrong(f: Flags)
    ensures var g := Add(f, 0x7f, 0x01, false).1; g.v && !LogicalFlags(g, 0x80).s && Signed(0x80) < 0
  {
    AddSigns(f, 0x7f, 0x01, false);
    SignBit(0x80);
  }
}
