/** exec_multiplications of src/devices/atmega32/cpu_core.cpp. */
module AvrMultiply {
  import opened Steps
  import opened Bytes
  import opened AvrAlu
  import opened AvrChains

  /** MUL, MULS and MULSU. */
  datatype Form = Unsigned | SignedBoth | Mixed

  function FormOf(op: word): Form {
    if op / 0x400 % 2 == 1 then Unsigned else if op / 0x100 % 2 == 0 then SignedBoth else Mixed
  }

  function Left(op: word): (d: nat)
    ensures d < 32
  {
    match FormOf(op)
    case Unsigned => op / 16 % 32
    case SignedBoth => 16 + op / 16 % 16
    case Mixed => 16 + op / 16 % 8
  }

  function Right(op: word): (r: nat)
    ensures r < 32
  {
    match FormOf(op)
    case Unsigned => 16 * (op / 0x200 % 2) + op % 16
    case SignedBoth => 16 + op % 16
    case Mixed => 16 + op % 8
  }

  predicate Fractional(op: word) {
    FormOf(op) == Mixed && (op / 8 % 2 == 1 || op / 0x80 % 2 == 1)
  }

  /** The product as the source forms it: the sign of the left operand's type decides for both. */
  function Product(form: Form, d: byte, r: byte): word {
    (if form == Unsigned then d * r else Signed(d) * Signed(r)) % 0x1_0000
  }

  function ExecMultiplications(ram: Ram, op: word): Step<Ram> {
    if Fractional(op) then Fail
    else
      var result := Product(FormOf(op), ram[Left(op)], ram[Right(op)]);
      var sreg := WithBit(WithBit(ram[SREG], 0, result >= 0x8000), 1, result == 0);
      Ok(ram[0 := LowByte(result)][1 := HighByte(result)][SREG := sreg])
  }

  /** What the instruction is for: a signed operand by an unsigned one for MULSU. */
  function TrueProduct(form: Form, d: byte, r: byte): int {
    match form
    case Unsigned => d as int * r as int
    case SignedBoth => Signed(d) * Signed(r)
    case Mixed => Signed(d) * r as int
  }

  /** The product is in R1:R0, C is its top bit, Z says whether it is zero, and nothing else has changed. */
  ghost predicate Multiplied(ram': Ram, ram: Ram, product: int) {
    && Word(ram'[1], ram'[0]) == product % 0x1_0000
    && FlagsOf(ram'[SREG])
       == FlagsOf(ram[SREG]).(c := product % 0x1_0000 >= 0x8000, z := product % 0x1_0000 == 0)
    && forall k :: 2 <= k < 0x860 && k != SREG ==> ram'[k] == ram[k]
  }

  lemma TwoFlags(sreg: byte, c: bool, z: bool)
    ensures FlagsOf(WithBit(WithBit(sreg, 0, c), 1, z)) == FlagsOf(sreg).(c := c, z := z)
  {
    hide Byte, WithBit;
    WithBitBits(sreg, 0, c);
    WithBitBits(WithBit(sreg, 0, c), 1, z);
  }

  lemma ProductIff(form: Form, d: byte, r: byte)
    ensures Product(form, d, r) == TrueProduct(form, d, r) % 0x1_0000 <==> form != Mixed || r < 128 || d == 0
  {
    var s: int := Signed(d);
    if form == Mixed && r >= 128 {
      assert s * Signed(r) == s * r - 256 * s;
    }
  }

  /** Every multiplication that is carried out is right, registers and flags, except MULSU of a left operand
      other than zero by a right one of 128 or more. */
  lemma MultiplicationIff(ram: Ram, op: word)
    requires ExecMultiplications(ram, op).Ok?
    ensures var (form, d, r) := (FormOf(op), ram[Left(op)], ram[Right(op)]);
            Multiplied(ExecMultiplications(ram, op).value, ram, TrueProduct(form, d, r))
            <==> form != Mixed || r < 128 || d == 0
  {
    hide Product, TrueProduct, WithBit, FlagsOf, Left, Right, FormOf;
    var (form, d, r) := (FormOf(op), ram[Left(op)], ram[Right(op)]);
    var result := Product(form, d, r);
    TwoFlags(ram[SREG], result >= 0x8000, result == 0);
    PartsOfWord(result);
    ProductIff(form, d, r);
  }

  /** One by 255, MULSU R16, R17, comes out as 0xffff. */
  lemma MulsuIsWrong(ram: Ram)
    requires ram[16] == 1 && ram[17] == 255
    ensures ExecMultiplications(ram, 0x0301).Ok?
    ensures var ram' := ExecMultiplications(ram, 0x0301).value;
            Word(ram'[1], ram'[0]) == 0xffff && TrueProduct(Mixed, 1, 255) == 255
  {
    hide WithBit;
    assert FormOf(0x0301) == Mixed && Left(0x0301) == 16 && Right(0x0301) == 17;
    assert Product(Mixed, 1, 255) == 0xffff;
    hide FormOf, Left, Right, Product;
    PartsOfWord(0xffff);
  }
}
