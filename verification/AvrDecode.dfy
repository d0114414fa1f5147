/** Instruction decoding and the program counter, after src/devices/atmega32/cpu_core.cpp. */
module AvrDecode {
  import opened Steps
  import opened Bytes
  import opened BitMasks
  import opened AvrMasks
  import opened AvrAlu
  import opened AvrChains
  import opened AvrStack
  import opened AvrMultiply

  datatype Handler =
    | WordImm | RegReg | RegMem | RegImm | Io | SingleReg | IndirectJump | Ret | RelativeJump | ProgMem | IoBit
    | Branch | BitOp | Movw | Ldd | LongJump | FlagOp | Multiply | McuControl | Nop | NotImplemented

  predicate DoubleWidth(op: word) {
    || BitAnd(op, 0xfc0f) == 0x9000 // LDS/STS
    || BitAnd(op, 0xfe0c) == 0x940c // JMP/CALL
  }

  /** The handler of each opcode, by its fields. */
  function Decode(op: word): Handler {
    if op / 0x200 == 0x4b then WordImm
    else if 0x0400 <= op <= 0x2fff then RegReg
    else if op / 0x400 == 0x24 then RegMem
    else if 0x3000 <= op <= 0x7fff || op / 0x1000 == 0xe then RegImm
    else if op / 0x1000 == 0xb then Io
    else if op / 0x200 == 0x4a && (op % 16 <= 7 || op % 16 == 0xa) then SingleReg
    else if op / 0x200 == 0x4a && op / 0x20 % 8 == 0 && op % 16 == 9 then IndirectJump
    else if op / 0x20 == 0x4a8 && op % 16 == 8 then Ret
    else if op / 0x2000 == 6 then RelativeJump
    else if op / 0x40 == 0x257 && op % 16 == 8 then ProgMem
    else if op / 0x400 == 0x26 then IoBit
    else if op / 0x800 == 0x1e then Branch
    else if op / 0x800 == 0x1f then BitOp
    else if op / 0x100 == 1 then Movw
    else if op / 0x4000 == 2 && op / 0x1000 % 2 == 0 then Ldd
    else if op / 0x200 == 0x4a && op / 4 % 4 == 3 then LongJump
    else if op / 0x100 == 0x94 && op % 16 == 8 then FlagOp
    else if op / 0x200 == 1 || op / 0x400 == 0x27 then Multiply
    else if op / 0x40 == 0x256 && op % 16 == 8 then McuControl
    else if op == 0 then Nop
    else NotImplemented
  }

  /** init_fn_table: the chain of mask tests gives each opcode the handler its fields call for. */
  method InitFnTable() returns (fn_table: array<Handler>)
    ensures fresh(fn_table) && fn_table.Length == 0x1_0000
    ensures forall op: word :: fn_table[op] == Decode(op)
  {
    hide Decode;
    fn_table := new Handler[0x1_0000];
    var op := 0;
    while op < 0x1_0000
      invariant 0 <= op <= 0x1_0000
      invariant forall k: word :: k < op ==> fn_table[k] == Decode(k)
    {
      fn_table[op] := ChooseHandler(op);
      op := op + 1;
    }
  }

  method ChooseHandler(op: word) returns (fn: Handler)
    ensures fn == Decode(op)
  {
    hide BitAnd;
    MaskTests(op);
    fn := NotImplemented;
    if BitAnd(op, 0xfe00) == 0x9600 {
      fn := WordImm;
    } else if 0x0400 <= op && op <= 0x2fff {
      fn := RegReg;
    } else if BitAnd(op, 0xfc00) == 0x9000 {
      fn := RegMem;
    } else if (0x3000 <= op && op <= 0x7fff) || BitAnd(op, 0xf000) == 0xe000 {
      fn := RegImm;
    } else if BitAnd(op, 0xf000) == 0xb000 {
      fn := Io;
    } else if BitAnd(op, 0xfe00) == 0x9400 && (BitAnd(op, 0x0f) <= 0x07 || BitAnd(op, 0x0f) == 0x0a) {
      fn := SingleReg;
    } else if BitAnd(op, 0xfeef) == 0x9409 {
      fn := IndirectJump;
    } else if BitAnd(op, 0xffef) == 0x9508 {
      fn := Ret;
    } else if BitAnd(op, 0xe000) == 0xc000 {
      fn := RelativeJump;
    } else if BitAnd(op, 0xffcf) == 0x95c8 {
      fn := ProgMem;
    } else if BitAnd(op, 0xfc00) == 0x9800 {
      fn := IoBit;
    } else if BitAnd(op, 0xf800) == 0xf000 {
      fn := Branch;
    } else if BitAnd(op, 0xf800) == 0xf800 {
      fn := BitOp;
    } else if BitAnd(op, 0xff00) == 0x0100 {
      fn := Movw;
    } else if BitAnd(op, 0xd000) == 0x8000 {
      fn := Ldd;
    } else if BitAnd(op, 0xfe0c) == 0x940c {
      fn := LongJump;
    } else if BitAnd(op, 0xff0f) == 0x9408 {
      fn := FlagOp;
    } else if BitAnd(op, 0xfe00) == 0x0200 || BitAnd(op, 0xfc00) == 0x9c00 {
      fn := Multiply;
    } else if BitAnd(op, 0xffcf) == 0x9588 {
      fn := McuControl;
    } else if op == 0 {
      fn := Nop;
    } else if BitAnd(op, 0xff0f) == 0x940b {
      fn := NotImplemented;
    }
  }

  type Flash = s: seq<word> | |s| == FLASH_SIZE witness seq(FLASH_SIZE, _ => 0)

  function Fetch(c: Core, flash: Flash): Step<(word, Core)>
    requires 0 <= c.pc
  {
    if c.pc >= FLASH_SIZE then Fail else Ok((flash[c.pc], c.(pc := c.pc + 1, fetched := c.fetched + 1)))
  }

  function SkipInstruction(c: Core, flash: Flash): Step<Core>
    requires 0 <= c.pc
  {
    var (opcode, d) :- Fetch(c, flash);
    if DoubleWidth(opcode) then
      var (_, e) :- Fetch(d, flash);
      Ok(e)
    else Ok(d)
  }

  /** The operand words that executing the instruction fetches: LDS and STS, JMP and CALL take one. */
  function OperandWords(op: word): nat {
    if (Decode(op) == RegMem && op % 16 == 0) || Decode(op) == LongJump then 1 else 0
  }

  lemma LastPair(op: word)
    ensures op % 16 / 4 == op / 4 % 4
  {
  }

  /** Every opcode the width test calls double takes one operand word where the table sends it, and no other
      does: no earlier test of the chain catches a double-width opcode. */
  lemma WidthAgreesWithTable(op: word)
    ensures OperandWords(op) == 1 <==> DoubleWidth(op)
  {
    hide BitAnd;
    MaskTests(op);
    LastPair(op);
  }

  // ----- where each instruction leaves the program counter -----

  function SignExtend(x: nat, half: nat): int {
    if x >= half then x - 2 * half else x
  }

  function Register(ram: Ram, r: nat): byte
    requires r < 32
  {
    ram[r]
  }

  function MaybeSkip(c: Core, flash: Flash, skip: bool): Step<Core>
    requires 0 <= c.pc
  {
    if skip then SkipInstruction(c, flash) else Ok(c)
  }

  function CallOrJump(c: Core, call: bool, target: int): Step<Core> {
    if call then Call(c, target) else DoJump(c, target)
  }

  function SourceRegister(op: word): nat {
    op % 16 + 16 * (op / 0x200 % 2)
  }

  /** What a tick leaves open: the RAM after the timers have run, what comes of an instruction that is not worked out
      below, and the bit an I/O skip reads. */
  datatype World = World(timed: Ram, effect: Step<Ram>, port_bit: bool)

  /** The core with the RAM an instruction leaves. */
  function Leaving(c: Core, effect: Step<Ram>): Step<Core> {
    var m :- effect;
    Ok(c.(ram := m))
  }

  function PushOrPop(c: Core, push: bool, d: nat): Step<Core>
    requires d < 32
  {
    if push then
      var m :- Push(c.ram, c.ram[d]);
      Ok(c.(ram := m))
    else
      var (value, m) :- Pop(c.ram);
      Ok(c.(ram := m[d := value]))
  }

  /** exec_reg_reg_op, but for CPSE; the logical operations and MOV are open. */
  function RegRegResult(ram: Ram, op: word, effect: Step<Ram>): Step<Ram> {
    var k, d, value := op / 0x400, op / 16 % 32, Register(ram, SourceRegister(op));
    if k in {1, 2, 5, 6} then Ok(DoCpOrSub(ram, d, value, k <= 2, k % 2 == 0))
    else if k in {3, 7} then Ok(DoAdd(ram, d, value, k == 7))
    else effect
  }

  /** exec_reg_imm_op; the logical operations and LDI are open. */
  function RegImmResult(ram: Ram, op: word, effect: Step<Ram>): Step<Ram> {
    var k, d, value := op / 0x1000, 16 + op / 16 % 16, 16 * (op / 0x100 % 16) + op % 16;
    if k in {3, 4, 5} then Ok(DoCpOrSub(ram, d, value, k == 4, k != 3)) else effect
  }

  /** Executing op, already fetched: the instructions that move the program counter, the stack or the flags
      one at a time, that add, subtract, compare and multiply are worked out, and of the others it is open whether
      they are carried out and what RAM they leave. */
  function Execute(c: Core, flash: Flash, op: word, w: World): Step<Core>
    requires 0 <= c.pc
  {
    match Decode(op)
    case NotImplemented => Fail
    case RegReg =>
      if op / 0x400 == 4 then
        MaybeSkip(c, flash, Register(c.ram, op / 16 % 32) == Register(c.ram, SourceRegister(op)))
      else Leaving(c, RegRegResult(c.ram, op, w.effect))
    case RegImm => Leaving(c, RegImmResult(c.ram, op, w.effect))
    case Multiply => Leaving(c, ExecMultiplications(c.ram, op))
    case RegMem =>
      if op % 16 == 0 then
        var (_, d) :- Fetch(c, flash);
        Leaving(d, w.effect)
      else if op % 16 == 15 then PushOrPop(c, op / 0x200 % 2 == 1, op / 16 % 32)
      else Leaving(c, w.effect)
    case BitOp =>
      if op / 0x400 % 2 == 1 then
        MaybeSkip(c, flash, BitSet(Register(c.ram, op / 16 % 32), op % 8) == (op / 0x200 % 2 == 1))
      else Leaving(c, w.effect)
    case IoBit =>
      if op / 0x100 % 2 == 1 then MaybeSkip(c, flash, w.port_bit == (op / 0x200 % 2 == 1))
      else Leaving(c, w.effect)
    case Branch =>
      if BitSet(c.ram[SREG], op % 8) != (op / 0x400 % 2 == 1) then DoJump(c, c.pc + SignExtend(op / 8 % 128, 64))
      else Ok(c)
    case RelativeJump => CallOrJump(c, op / 0x1000 % 2 == 1, c.pc + SignExtend(op % 0x1000, 0x800))
    case LongJump =>
      var (low, d) :- Fetch(c, flash);
      CallOrJump(d, op / 2 % 2 == 1, low + 0x1_0000 * (op % 2) + 0x2_0000 * (op / 16 % 32))
    case IndirectJump =>
      if op / 16 % 2 == 1 then Fail
      else CallOrJump(c, op / 0x100 % 2 == 1, Word(Register(c.ram, 31), Register(c.ram, 30)))
    case Ret => Return(c, op / 16 % 2 == 1)
    case FlagOp => Ok(c.(ram := c.ram[SREG := WithBit(c.ram[SREG], op / 16 % 8, op / 0x80 % 2 == 0)]))
    case Nop => Ok(c)
    case _ => Leaving(c, w.effect)
  }

  /** atmega32_core_step. */
  function CoreStep(c: Core, flash: Flash, w: World): Step<Core>
    requires 0 <= c.pc
  {
    var (op, d) :- Fetch(c, flash);
    Execute(d, flash, op, w)
  }

  /** act on a tick: an interrupt may come first, then the timers run. */
  function Act(c: Core, flash: Flash, w: World): Step<Core>
    requires 0 <= c.pc
  {
    var d :- HandleIrqs(c);
    CoreStep(d.(ram := w.timed), flash, w)
  }

  predicate InRange(r: Step<Core>) {
    r.Ok? ==> 0 <= r.value.pc <= FLASH_SIZE
  }

  lemma JumpInRange(c: Core, call: bool, target: int)
    ensures InRange(CallOrJump(c, call, target))
  {
  }

  lemma SkipInRange(c: Core, flash: Flash, skip: bool)
    requires 0 <= c.pc <= FLASH_SIZE
    ensures InRange(MaybeSkip(c, flash, skip))
  {
    hide DoubleWidth;
  }

  lemma ReturnInRange(c: Core, from_irq: bool)
    ensures InRange(Return(c, from_irq))
  {
    hide PopWord;
  }

  lemma PushOrPopKeepsPc(c: Core, push: bool, d: nat)
    requires d < 32
    ensures PushOrPop(c, push, d).Ok? ==> PushOrPop(c, push, d).value.pc == c.pc
    ensures PushOrPop(c, push, d).Ok? ==> PushOrPop(c, push, d).value.fetched == c.fetched
  {
    hide Push, Pop;
  }

  lemma ExecuteInRange(c: Core, flash: Flash, op: word, w: World)
    requires 0 <= c.pc <= FLASH_SIZE
    ensures InRange(Execute(c, flash, op, w))
  {
    hide Decode, MaybeSkip, CallOrJump, Return, BitSet, Register, SignExtend, PushOrPop, WithBit, RegRegResult,
         RegImmResult, ExecMultiplications;
    PushOrPopKeepsPc(c, op / 0x200 % 2 == 1, op / 16 % 32);
    match Decode(op)
    case RegReg =>
      SkipInRange(c, flash, Register(c.ram, op / 16 % 32) == Register(c.ram, SourceRegister(op)));
    case BitOp =>
      SkipInRange(c, flash, BitSet(Register(c.ram, op / 16 % 32), op % 8) == (op / 0x200 % 2 == 1));
    case IoBit => SkipInRange(c, flash, w.port_bit == (op / 0x200 % 2 == 1));
    case RelativeJump => JumpInRange(c, op / 0x1000 % 2 == 1, c.pc + SignExtend(op % 0x1000, 0x800));
    case LongJump =>
      if c.pc < FLASH_SIZE {
        var (low, d) := Fetch(c, flash).value;
        JumpInRange(d, op / 2 % 2 == 1, low + 0x1_0000 * (op % 2) + 0x2_0000 * (op / 16 % 32));
      }
    case IndirectJump => JumpInRange(c, op / 0x100 % 2 == 1, Word(Register(c.ram, 31), Register(c.ram, 30)));
    case Ret => ReturnInRange(c, op / 16 % 2 == 1);
    case _ =>
  }

  /** Every successful step, interrupts included, keeps the program counter within 0 and the flash size. */
  lemma ActKeepsPc(c: Core, flash: Flash, w: World)
    requires 0 <= c.pc <= FLASH_SIZE
    ensures InRange(Act(c, flash, w))
    ensures HandleIrqs(c).Ok? ==> 0 <= HandleIrqs(c).value.pc <= FLASH_SIZE
  {
    hide Execute, PushWord, ClaimIrq, BitSet, SetI;
    ClaimConsumesOne(c.ram, 0);
    if HandleIrqs(c).Ok? && HandleIrqs(c).value.pc < FLASH_SIZE {
      var (op, e) := Fetch(HandleIrqs(c).value.(ram := w.timed), flash).value;
      ExecuteInRange(e, flash, op, w);
    }
  }

  // ----- words fetched -----

  /** op finds its condition true and skips. */
  predicate Skips(c: Core, op: word, w: World) {
    match Decode(op)
    case RegReg => op / 0x400 == 4 && Register(c.ram, op / 16 % 32) == Register(c.ram, SourceRegister(op))
    case BitOp => op / 0x400 % 2 == 1 && BitSet(Register(c.ram, op / 16 % 32), op % 8) == (op / 0x200 % 2 == 1)
    case IoBit => op / 0x100 % 2 == 1 && w.port_bit == (op / 0x200 % 2 == 1)
    case _ => false
  }

  lemma TransferFetches(c: Core, call: bool, target: int, from_irq: bool)
    ensures CallOrJump(c, call, target).Ok? ==> CallOrJump(c, call, target).value.fetched == c.fetched
    ensures Return(c, from_irq).Ok? ==> Return(c, from_irq).value.fetched == c.fetched
  {
    hide PushWord, PopWord, SetI;
  }

  lemma SkipFetches(c: Core, flash: Flash)
    requires 0 <= c.pc && SkipInstruction(c, flash).Ok?
    ensures c.pc < FLASH_SIZE
    ensures SkipInstruction(c, flash).value.fetched == c.fetched + 1 + OperandWords(flash[c.pc])
    ensures OperandWords(flash[c.pc]) <= 1
  {
    hide DoubleWidth, Decode;
    WidthAgreesWithTable(flash[c.pc]);
  }

  /** Executing an instruction fetches its operand words and no more, or, if it skips, the words of the
      instruction behind it. */
  lemma ExecuteFetches(c: Core, flash: Flash, op: word, w: World)
    requires 0 <= c.pc && Execute(c, flash, op, w).Ok?
    ensures !Skips(c, op, w) ==> Execute(c, flash, op, w).value.fetched == c.fetched + OperandWords(op)
    ensures Skips(c, op, w) ==> c.pc < FLASH_SIZE && OperandWords(op) == 0
    ensures Skips(c, op, w) ==>
              Execute(c, flash, op, w).value.fetched == c.fetched + 1 + OperandWords(flash[c.pc])
  {
    hide Decode, CallOrJump, Return, BitSet, Register, SignExtend, PushOrPop, WithBit, SourceRegister,
         SkipInstruction, RegRegResult, RegImmResult, ExecMultiplications;
    if Skips(c, op, w) {
      SkipFetches(c, flash);
    } else {
      PlainFetches(c, flash, op, w);
    }
  }

  lemma PlainFetches(c: Core, flash: Flash, op: word, w: World)
    requires 0 <= c.pc && Execute(c, flash, op, w).Ok? && !Skips(c, op, w)
    ensures Execute(c, flash, op, w).value.fetched == c.fetched + OperandWords(op)
  {
    hide Decode, CallOrJump, Return, BitSet, Register, SignExtend, PushOrPop, WithBit, SourceRegister, RegRegResult,
         RegImmResult, ExecMultiplications;
    PushOrPopKeepsPc(c, op / 0x200 % 2 == 1, op / 16 % 32);
    match Decode(op)
    case Branch => TransferFetches(c, false, c.pc + SignExtend(op / 8 % 128, 64), false);
    case RelativeJump =>
      TransferFetches(c, op / 0x1000 % 2 == 1, c.pc + SignExtend(op % 0x1000, 0x800), false);
    case LongJump =>
      var (low, d) := Fetch(c, flash).value;
      TransferFetches(d, op / 2 % 2 == 1, low + 0x1_0000 * (op % 2) + 0x2_0000 * (op / 16 % 32), false);
    case IndirectJump =>
      TransferFetches(c, op / 0x100 % 2 == 1, Word(Register(c.ram, 31), Register(c.ram, 30)), false);
    case Ret => TransferFetches(c, false, 0, op / 16 % 2 == 1);
    case _ =>
  }

  /** Skipping an instruction moves the program counter exactly as far as executing it fetches, if it does not
      skip in its turn. */
  lemma SkipIsFetch(c: Core, flash: Flash, w: World)
    requires 0 <= c.pc < FLASH_SIZE && CoreStep(c, flash, w).Ok?
    requires !Skips(Fetch(c, flash).value.1, flash[c.pc], w)
    ensures SkipInstruction(c, flash).Ok?
    ensures SkipInstruction(c, flash).value.pc - c.pc == CoreStep(c, flash, w).value.fetched - c.fetched
  {
    hide DoubleWidth, OperandWords, Execute, Skips;
    var (op, d) := Fetch(c, flash).value;
    WidthAgreesWithTable(op);
    ExecuteFetches(d, flash, op, w);
    OperandIsThere(d, flash, op, w);
  }

  lemma OperandIsThere(c: Core, flash: Flash, op: word, w: World)
    requires 0 <= c.pc && Execute(c, flash, op, w).Ok?
    ensures OperandWords(op) <= 1 && (OperandWords(op) == 1 ==> c.pc < FLASH_SIZE)
  {
    hide Decode, CallOrJump, Return, BitSet, Register, SignExtend, PushOrPop, WithBit, SourceRegister, DoJump,
         RegRegResult, RegImmResult, ExecMultiplications;
  }

  // ----- calls and returns of the instruction set -----

  function Opcode(c: Core, flash: Flash): word
    requires 0 <= c.pc < FLASH_SIZE
  {
    flash[c.pc]
  }

  predicate IsCall(op: word) {
    match Decode(op)
    case RelativeJump => op / 0x1000 % 2 == 1
    case LongJump => op / 2 % 2 == 1
    case IndirectJump => op / 0x100 % 2 == 1
    case _ => false
  }

  /** Whatever its form, a call leaves on the stack the address a skip over it would have reached. */
  lemma CallReturnsPastItself(c: Core, flash: Flash, w: World)
    requires 0 <= c.pc < FLASH_SIZE && 0x61 <= SP(c.ram) < RAM_SIZE && IsCall(Opcode(c, flash))
    requires CoreStep(c, flash, w).Ok?
    ensures SkipInstruction(c, flash).Ok?
    ensures var d := CoreStep(c, flash, w).value;
            && SP(d.ram) == SP(c.ram) - 2
            && Word(d.ram[SP(c.ram) - 1], d.ram[SP(c.ram)]) == SkipInstruction(c, flash).value.pc
  {
    hide Decode, SP, PushWord, Word, LowByte, HighByte, SignExtend, DoubleWidth, Register;
    var op := Opcode(c, flash);
    WidthAgreesWithTable(op);
    PushWordWrites(c.ram, c.pc + 1);
    PushWordWrites(c.ram, (c.pc + 2) % 0x1_0000);
    PartsOfWord(c.pc + 1);
    PartsOfWord((c.pc + 2) % 0x1_0000);
  }
}
