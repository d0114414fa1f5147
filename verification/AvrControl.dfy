/** Where control goes after each kind of jump, branch, call, return and skip, by opcode. */
module AvrControl {
  import opened Steps
  import opened Bytes
  import opened AvrAlu
  import opened AvrChains
  import opened AvrStack
  import opened AvrMultiply
  import opened AvrDecode

  /** The core goes on at the target, having fetched so many words; outside the flash it fails. */
  function Landing(c: Core, target: int, words: nat): Step<Core> {
    if 0 <= target < 0x4000 then Ok(c.(pc := target, fetched := c.fetched + words)) else Fail
  }

  /** The same with the return address pushed first. */
  function Calling(c: Core, target: int, words: nat): Step<Core> {
    var m :- PushWord(c.ram, (c.pc + words) % 0x1_0000);
    Landing(c.(ram := m), target, words)
  }

  /** The core behind the instruction. */
  function Past(c: Core): Core {
    c.(pc := c.pc + 1, fetched := c.fetched + 1)
  }

  lemma StepExecutes(c: Core, flash: Flash, w: World)
    requires 0 <= c.pc < 0x4000
    ensures Past(c).pc == c.pc + 1 && CoreStep(c, flash, w) == Execute(Past(c), flash, flash[c.pc], w)
  {
    hide Execute;
  }

  // ----- branches and jumps -----

  lemma BranchFields(op: word, k: int, s: nat, clear: nat)
    requires s < 8 && -64 <= k < 64 && clear < 2
    requires op == 0xf000 + 0x400 * clear + 8 * (if k < 0 then k + 128 else k) + s
    ensures Decode(op) == Branch && op % 8 == s && op / 0x400 % 2 == clear && SignExtend(op / 8 % 128, 64) == k
  {
    BranchRange(op);
    hide Decode;
    var j := if k < 0 then k + 128 else k;
    assert op / 8 == 0x1e00 + 0x80 * clear + j;
  }

  lemma BranchRange(op: word)
    requires 0xf000 <= op < 0xf800
    ensures Decode(op) == Branch
  {
  }

  lemma BranchExecutes(c: Core, flash: Flash, op: word, w: World, k: int, s: nat, clear: bool)
    requires 0 <= c.pc < 0x4000 && s < 8
    requires Decode(op) == Branch && op % 8 == s && op / 0x400 % 2 == if clear then 1 else 0
    requires SignExtend(op / 8 % 128, 64) == k
    ensures Execute(Past(c), flash, op, w) ==
            if BitSet(c.ram[0x5f], s) == clear then Ok(Past(c)) else Landing(c, c.pc + 1 + k, 1)
  {
    hide Decode, BitSet, SignExtend;
  }

  /** BRBS s, k and BRBC s, k: taken exactly when bit s of SREG is set, or clear. */
  lemma BranchGoes(c: Core, flash: Flash, w: World, k: int, s: nat, clear: bool)
    requires s < 8 && -64 <= k < 64 && 0 <= c.pc < 0x4000
    requires flash[c.pc] == 0xf000 + 0x400 * (if clear then 1 else 0) + 8 * (if k < 0 then k + 128 else k) + s
    ensures CoreStep(c, flash, w) ==
            if BitSet(c.ram[0x5f], s) == clear then Ok(Past(c)) else Landing(c, c.pc + 1 + k, 1)
  {
    var op := flash[c.pc];
    hide *;
    BranchFields(op, k, s, if clear then 1 else 0);
    BranchExecutes(c, flash, op, w, k, s, clear);
    StepExecutes(c, flash, w);
  }

  lemma RelativeFields(op: word, k: int, call: nat)
    requires -0x800 <= k < 0x800 && call < 2
    requires op == 0xc000 + 0x1000 * call + (if k < 0 then k + 0x1000 else k)
    ensures Decode(op) == RelativeJump && op / 0x1000 % 2 == call && SignExtend(op % 0x1000, 0x800) == k
  {
    RelativeRange(op);
    hide Decode;
  }

  lemma RelativeRange(op: word)
    requires 0xc000 <= op < 0xe000
    ensures Decode(op) == RelativeJump
  {
  }

  lemma RelativeExecutes(c: Core, flash: Flash, op: word, w: World, k: int, call: bool)
    requires 0 <= c.pc < 0x4000
    requires Decode(op) == RelativeJump && op / 0x1000 % 2 == (if call then 1 else 0)
    requires SignExtend(op % 0x1000, 0x800) == k
    ensures Execute(Past(c), flash, op, w) == if call then Calling(c, c.pc + 1 + k, 1) else Landing(c, c.pc + 1 + k, 1)
  {
    hide Decode, PushWord, SignExtend;
  }

  /** RJMP k and RCALL k. */
  lemma RelativeGoes(c: Core, flash: Flash, w: World, k: int, call: bool)
    requires -0x800 <= k < 0x800 && 0 <= c.pc < 0x4000
    requires flash[c.pc] == 0xc000 + 0x1000 * (if call then 1 else 0) + (if k < 0 then k + 0x1000 else k)
    ensures CoreStep(c, flash, w) == if call then Calling(c, c.pc + 1 + k, 1) else Landing(c, c.pc + 1 + k, 1)
  {
    var op := flash[c.pc];
    hide *;
    RelativeFields(op, k, if call then 1 else 0);
    RelativeExecutes(c, flash, op, w, k, call);
    StepExecutes(c, flash, w);
  }

  lemma LongFields(op: word, high: nat, call: nat)
    requires high < 64 && call < 2 && op == 0x940c + 2 * call + 0x10 * (high / 2) + high % 2
    ensures Decode(op) == LongJump && op / 2 % 2 == call && op % 2 == high % 2 && op / 16 % 32 == high / 2
  {
    assert op / 16 == 0x940 + high / 2 && op % 16 == 12 + 2 * call + high % 2;
    LongDecodes(op);
    hide Decode;
    assert op / 2 == 0x4a06 + call + 8 * (high / 2);
  }

  lemma LongDecodes(op: word)
    requires 0x9400 <= op < 0x9600 && op % 16 >= 12
    ensures Decode(op) == LongJump
  {
    LastPair(op);
  }

  lemma LongExecutes(c: Core, flash: Flash, op: word, w: World, high: nat, call: bool)
    requires 0 <= c.pc < 0x4000
    requires Decode(op) == LongJump && op / 2 % 2 == (if call then 1 else 0)
    requires op % 2 == high % 2 && op / 16 % 32 == high / 2
    ensures Execute(Past(c), flash, op, w) ==
            if c.pc == 0x3fff then Fail
            else
              var target := 0x1_0000 * high + flash[c.pc + 1];
              if call then Calling(c, target, 2) else Landing(c, target, 2)
  {
    hide Decode, PushWord;
  }

  /** JMP and CALL: the opcode holds the high six bits of the address and the word behind it the others. */
  lemma LongGoes(c: Core, flash: Flash, w: World, high: nat, call: bool)
    requires high < 64 && 0 <= c.pc < 0x4000
    requires flash[c.pc] == 0x940c + 2 * (if call then 1 else 0) + 0x10 * (high / 2) + high % 2
    ensures CoreStep(c, flash, w) ==
            if c.pc == 0x3fff then Fail
            else
              var target := 0x1_0000 * high + flash[c.pc + 1];
              if call then Calling(c, target, 2) else Landing(c, target, 2)
  {
    var op := flash[c.pc];
    hide *;
    LongFields(op, high, if call then 1 else 0);
    LongExecutes(c, flash, op, w, high, call);
    StepExecutes(c, flash, w);
  }

  /** IJMP, 0x9409, and ICALL, 0x9509, go to the address in R31:R30, and the extended forms fail. */
  lemma IndirectGoes(c: Core, flash: Flash, w: World)
    requires 0 <= c.pc < 0x4000
    ensures var target := Word(c.ram[31], c.ram[30]);
            && (flash[c.pc] == 0x9409 ==> CoreStep(c, flash, w) == Landing(c, target, 1))
            && (flash[c.pc] == 0x9509 ==> CoreStep(c, flash, w) == Calling(c, target, 1))
            && (flash[c.pc] in {0x9419, 0x9519} ==> CoreStep(c, flash, w) == Fail)
  {
    var op := flash[c.pc];
    hide *;
    StepExecutes(c, flash, w);
    if op in {0x9409, 0x9509, 0x9419, 0x9519} {
      IndirectDecodes();
      IndirectExecutes(c, flash, op, w);
    }
  }

  lemma IndirectExecutes(c: Core, flash: Flash, op: word, w: World)
    requires 0 <= c.pc < 0x4000 && Decode(op) == IndirectJump
    ensures var target := Word(c.ram[31], c.ram[30]);
            && (op == 0x9409 ==> Execute(Past(c), flash, op, w) == Landing(c, target, 1))
            && (op == 0x9509 ==> Execute(Past(c), flash, op, w) == Calling(c, target, 1))
            && (op in {0x9419, 0x9519} ==> Execute(Past(c), flash, op, w) == Fail)
  {
    hide Decode, PushWord, Word;
  }

  lemma IndirectDecodes()
    ensures Decode(0x9409) == Decode(0x9509) == Decode(0x9419) == Decode(0x9519) == IndirectJump
    ensures Decode(0x9508) == Decode(0x9518) == Ret
  {
  }

  /** From m the core has gone on to the address in the two bytes above its stack pointer, or failed there; I is set
      if that was asked for. */
  ghost predicate Resumed(r: Step<Core>, m: Ram, set_i: bool)
    requires 0x5f <= SP(m) < 0x85e
  {
    var target := Word(m[SP(m) + 1], m[SP(m) + 2]);
    && (r.Ok? <==> target < 0x4000)
    && (r.Ok? ==>
          && r.value.pc == target && SP(r.value.ram) == SP(m) + 2
          && BitSet(r.value.ram[0x5f], 7) == (set_i || BitSet(m[0x5f], 7))
          && forall k :: 0 <= k < 0x860 && k !in {0x5d, 0x5e, 0x5f} ==> r.value.ram[k] == m[k])
  }

  lemma ReturnExecutes(c: Core, flash: Flash, op: word, w: World, from_irq: bool)
    requires 0 <= c.pc && op == if from_irq then 0x9518 else 0x9508
    ensures Execute(c, flash, op, w) == Return(c, from_irq)
  {
    IndirectDecodes();
    hide Decode, Return;
  }

  lemma ReturnLands(c: Core, from_irq: bool)
    requires 0x5f <= SP(c.ram) < 0x85e
    ensures Resumed(Return(c, from_irq), c.ram, from_irq)
  {
    PopWordReads(c.ram);
    var m := PopWord(c.ram).value.1;
    SetIFrame(m, true);
    hide PopWord, SP, Word, BitSet, SetI;
  }

  /** RET, 0x9508, and RETI, 0x9518, which sets I. */
  lemma ReturnGoes(c: Core, flash: Flash, w: World, from_irq: bool)
    requires 0 <= c.pc < 0x4000 && 0x5f <= SP(c.ram) < 0x85e
    requires flash[c.pc] == if from_irq then 0x9518 else 0x9508
    ensures Resumed(CoreStep(c, flash, w), c.ram, from_irq)
  {
    var op := flash[c.pc];
    assert Past(c).ram == c.ram;
    hide *;
    StepExecutes(c, flash, w);
    ReturnExecutes(Past(c), flash, op, w, from_irq);
    ReturnLands(Past(c), from_irq);
  }

  // ----- skips -----

  /** LDS and STS, JMP and CALL are followed by an operand word. */
  predicate TwoWords(op: word) {
    (op / 0x400 == 0x24 && op % 16 == 0) || (op / 0x200 == 0x4a && op / 4 % 4 == 3)
  }

  /** What a skip instruction does: on with the next instruction, or over all its words. */
  function Skipping(c: Core, flash: Flash, skip: bool): Step<Core>
    requires 0 <= c.pc < 0x4000
  {
    if !skip then Ok(Past(c))
    else if c.pc == 0x3fff then Fail
    else if !TwoWords(flash[c.pc + 1]) then Ok(c.(pc := c.pc + 2, fetched := c.fetched + 2))
    else if c.pc == 0x3ffe then Fail
    else Ok(c.(pc := c.pc + 3, fetched := c.fetched + 3))
  }

  lemma WidthIs(op: word)
    ensures DoubleWidth(op) <==> TwoWords(op)
  {
    hide DoubleWidth, Decode;
    WidthAgreesWithTable(op);
    WideHandlers(op);
  }

  lemma WideHandlers(op: word)
    ensures Decode(op) == RegMem <==> op / 0x400 == 0x24
    ensures Decode(op) == LongJump <==> op / 0x200 == 0x4a && op / 4 % 4 == 3
  {
    LastPair(op);
  }

  lemma SkipIs(c: Core, flash: Flash, skip: bool)
    requires 0 <= c.pc < 0x4000
    ensures MaybeSkip(Past(c), flash, skip) == Skipping(c, flash, skip)
  {
    hide DoubleWidth, TwoWords;
    if c.pc < 0x3fff {
      WidthIs(flash[c.pc + 1]);
    }
  }

  lemma CompareExecutes(c: Core, flash: Flash, op: word, w: World, d: nat, r: nat)
    requires 0 <= c.pc && d < 32 && r < 32
    requires Decode(op) == RegReg && op / 0x400 == 4 && op / 16 % 32 == d && SourceRegister(op) == r
    ensures Execute(c, flash, op, w) == MaybeSkip(c, flash, c.ram[d] == c.ram[r])
  {
    hide Decode, MaybeSkip, SourceRegister;
  }

  /** CPSE d, r. */
  lemma CompareSkips(c: Core, flash: Flash, w: World, d: nat, r: nat)
    requires d < 32 && r < 32 && 0 <= c.pc < 0x4000
    requires flash[c.pc] == 0x1000 + 0x200 * (r / 16) + 0x10 * d + r % 16
    ensures CoreStep(c, flash, w) == Skipping(c, flash, c.ram[d] == c.ram[r])
  {
    var op := flash[c.pc];
    assert Past(c).ram == c.ram;
    hide *;
    StepExecutes(c, flash, w);
    CompareFields(op, d, r);
    CompareExecutes(Past(c), flash, op, w, d, r);
    SkipIs(c, flash, c.ram[d] == c.ram[r]);
  }

  lemma CompareFields(op: word, d: nat, r: nat)
    requires d < 32 && r < 32 && op == 0x1000 + 0x200 * (r / 16) + 0x10 * d + r % 16
    ensures Decode(op) == RegReg && op / 0x400 == 4 && op / 16 % 32 == d && SourceRegister(op) == r
  {
    hide Decode;
    RegRegDecodes(op);
    assert op / 16 == 0x100 + 0x20 * (r / 16) + d && op % 16 == r % 16;
    assert op / 0x200 == 8 + r / 16;
  }

  lemma RegRegDecodes(op: word)
    requires 0x400 <= op <= 0x2fff
    ensures Decode(op) == RegReg
  {
  }

  lemma BitExecutes(c: Core, flash: Flash, op: word, w: World, d: nat, b: nat, on_set: bool)
    requires 0 <= c.pc && d < 32 && b < 8 && Decode(op) == BitOp && op / 0x400 % 2 == 1
    requires op / 0x200 % 2 == (if on_set then 1 else 0) && op / 16 % 32 == d && op % 8 == b
    ensures Execute(c, flash, op, w) == MaybeSkip(c, flash, BitSet(c.ram[d], b) == on_set)
  {
    hide Decode, MaybeSkip, BitSet;
  }

  /** SBRC d, b and SBRS d, b: over the next instruction exactly when bit b of the register is clear, or set. */
  lemma BitSkips(c: Core, flash: Flash, w: World, d: nat, b: nat, on_set: bool)
    requires d < 32 && b < 8 && 0 <= c.pc < 0x4000
    requires flash[c.pc] == 0xfc00 + 0x200 * (if on_set then 1 else 0) + 0x10 * d + b
    ensures CoreStep(c, flash, w) == Skipping(c, flash, BitSet(c.ram[d], b) == on_set)
  {
    var op := flash[c.pc];
    assert Past(c).ram == c.ram;
    hide *;
    StepExecutes(c, flash, w);
    BitFields(op, d, b, if on_set then 1 else 0);
    BitExecutes(Past(c), flash, op, w, d, b, on_set);
    SkipIs(c, flash, BitSet(c.ram[d], b) == on_set);
  }

  lemma BitFields(op: word, d: nat, b: nat, on_set: nat)
    requires d < 32 && b < 8 && on_set < 2 && op == 0xfc00 + 0x200 * on_set + 0x10 * d + b
    ensures Decode(op) == BitOp && op / 0x400 % 2 == 1 && op / 0x200 % 2 == on_set
    ensures op / 16 % 32 == d && op % 8 == b
  {
    hide Decode;
    BitDecodes(op);
    assert op / 16 == 0xfc0 + 0x20 * on_set + d;
  }

  lemma BitDecodes(op: word)
    requires op >= 0xf800
    ensures Decode(op) == BitOp
  {
  }

  lemma PortExecutes(c: Core, flash: Flash, op: word, w: World)
    requires 0 <= c.pc && Decode(op) == IoBit && op / 0x100 % 2 == 1
    ensures Execute(c, flash, op, w) == MaybeSkip(c, flash, w.port_bit == (op / 0x200 % 2 == 1))
  {
    hide Decode, MaybeSkip;
  }

  /** SBIC a, b and SBIS a, b: the same of the bit read from an I/O port. */
  lemma PortSkips(c: Core, flash: Flash, w: World, a: nat, b: nat, on_set: bool)
    requires a < 32 && b < 8 && 0 <= c.pc < 0x4000
    requires flash[c.pc] == (if on_set then 0x9b00 else 0x9900) + 8 * a + b
    ensures CoreStep(c, flash, w) == Skipping(c, flash, w.port_bit == on_set)
  {
    var op := flash[c.pc];
    hide *;
    StepExecutes(c, flash, w);
    PortFields(op);
    PortExecutes(Past(c), flash, op, w);
    SkipIs(c, flash, w.port_bit == on_set);
  }

  lemma PortFields(op: word)
    requires 0x9900 <= op < 0x9a00 || 0x9b00 <= op < 0x9c00
    ensures Decode(op) == IoBit && op / 0x100 % 2 == 1 && (op / 0x200 % 2 == 1 <==> op >= 0x9b00)
  {
  }

  // ----- single flags, the stack, immediates, products -----

  /** BSET s and BCLR s: that bit of SREG and no other. */
  lemma FlagSets(c: Core, flash: Flash, w: World, s: nat, clear: bool)
    requires s < 8 && 0 <= c.pc < 0x4000 && flash[c.pc] == (if clear then 0x9488 else 0x9408) + 0x10 * s
    ensures CoreStep(c, flash, w).Ok?
    ensures var d := CoreStep(c, flash, w).value;
            && d == Past(c).(ram := c.ram[0x5f := d.ram[0x5f]])
            && forall k :: 0 <= k < 8 ==> BitSet(d.ram[0x5f], k) == if k == s then !clear else BitSet(c.ram[0x5f], k)
  {
    StepExecutes(c, flash, w);
    FlagFields(flash[c.pc], s, if clear then 1 else 0);
    forall k | 0 <= k < 8
      ensures BitSet(WithBit(c.ram[0x5f], s, !clear), k) == if k == s then !clear else BitSet(c.ram[0x5f], k)
    {
      WithBitSet(c.ram[0x5f], s, !clear, k);
    }
    hide Decode, BitSet, WithBit;
  }

  lemma FlagFields(op: word, s: nat, clear: nat)
    requires s < 8 && clear < 2 && op == 0x9408 + 0x80 * clear + 0x10 * s
    ensures Decode(op) == FlagOp && op / 16 % 8 == s && op / 0x80 % 2 == clear
  {
    FlagDecodes(op);
    hide Decode;
    assert op / 16 == 0x940 + 8 * clear + s;
  }

  lemma FlagDecodes(op: word)
    requires 0x9400 <= op < 0x9500 && op % 16 == 8
    ensures Decode(op) == FlagOp
  {
    assert op / 0x100 == 0x94 && op / 0x200 == 0x4a && op / 0x400 == 0x25 && op / 0x800 == 0x12;
  }

  lemma StackFields(op: word, d: nat, push: nat)
    requires d < 32 && push < 2 && op == 0x900f + 0x200 * push + 0x10 * d
    ensures Decode(op) == RegMem && op % 16 == 15 && op / 16 % 32 == d && op / 0x200 % 2 == push
  {
    StackDecodes(op);
    hide Decode;
    assert op / 16 == 0x900 + 0x20 * push + d;
  }

  lemma StackDecodes(op: word)
    requires 0x9000 <= op < 0x9400
    ensures Decode(op) == RegMem
  {
  }

  /** From m the core has put the byte on the stack. */
  ghost predicate PutOnStack(r: Step<Core>, m: Ram, value: byte)
    requires 0x60 <= SP(m) < 0x860
  {
    && r.Ok? && SP(r.value.ram) == SP(m) - 1 && r.value.ram[SP(m)] == value
    && forall k :: 0 <= k < 0x860 && k !in {0x5d, 0x5e, SP(m) as int} ==> r.value.ram[k] == m[k]
  }

  /** From m the core has taken the byte above the stack pointer into register d. */
  ghost predicate TakenOffStack(r: Step<Core>, m: Ram, d: nat)
    requires 0x5f <= SP(m) < 0x85f && d < 32
  {
    && r.Ok? && SP(r.value.ram) == SP(m) + 1 && r.value.ram[d] == m[SP(m) + 1]
    && forall k :: 0 <= k < 0x860 && k !in {0x5d, 0x5e, d} ==> r.value.ram[k] == m[k]
  }

  lemma PushPuts(c: Core, d: nat)
    requires 0x60 <= SP(c.ram) < 0x860 && d < 32
    ensures PutOnStack(PushOrPop(c, true, d), c.ram, c.ram[d]) && PushOrPop(c, true, d).value.pc == c.pc
  {
    SPBack(c.ram[SP(c.ram) := c.ram[d]], SP(c.ram) - 1);
    hide SP, WithSP;
  }

  lemma PopTakes(c: Core, d: nat)
    requires 0x5f <= SP(c.ram) < 0x85f && d < 32
    ensures TakenOffStack(PushOrPop(c, false, d), c.ram, d) && PushOrPop(c, false, d).value.pc == c.pc
  {
    SPBack(c.ram, SP(c.ram) + 1);
    RegisterKeepsSP(WithSP(c.ram, SP(c.ram) + 1), d, c.ram[SP(c.ram) + 1]);
    hide SP, WithSP;
  }

  lemma StackExecutes(c: Core, flash: Flash, op: word, w: World, d: nat, push: nat)
    requires 0 <= c.pc && d < 32 && Decode(op) == RegMem && op % 16 == 15
    requires op / 16 % 32 == d && op / 0x200 % 2 == push
    ensures Execute(c, flash, op, w) == PushOrPop(c, push == 1, d)
  {
    hide Decode, PushOrPop;
  }

  /** PUSH d. */
  lemma PushGoes(c: Core, flash: Flash, w: World, d: nat)
    requires d < 32 && 0 <= c.pc < 0x4000 && flash[c.pc] == 0x920f + 0x10 * d && 0x60 <= SP(c.ram) < 0x860
    ensures PutOnStack(CoreStep(c, flash, w), c.ram, c.ram[d])
    ensures CoreStep(c, flash, w).Ok? && CoreStep(c, flash, w).value.pc == c.pc + 1
  {
    var op := flash[c.pc];
    assert Past(c).ram == c.ram;
    PushPuts(Past(c), d);
    hide SP, Decode, Execute, PushOrPop;
    StepExecutes(c, flash, w);
    StackFields(op, d, 1);
    StackExecutes(Past(c), flash, op, w, d, 1);
    hide *;
  }

  /** Neither reaches past the RAM, which fails, nor an I/O register, which is outside this model. */
  lemma StackEdges(c: Core, d: nat)
    requires d < 32
    ensures var (push, sp) := (PushOrPop(c, true, d), SP(c.ram) as int);
            (push.Fail? <==> sp >= 0x860) && (push.Outside? <==> 0x20 <= sp < 0x60)
    ensures var (pop, sp) := (PushOrPop(c, false, d), (SP(c.ram) as int + 1) % 0x1_0000);
            (pop.Fail? <==> sp >= 0x860) && (pop.Outside? <==> 0x20 <= sp < 0x60)
  {
    hide SP, WithSP;
  }

  /** POP d. */
  lemma PopGoes(c: Core, flash: Flash, w: World, d: nat)
    requires d < 32 && 0 <= c.pc < 0x4000 && flash[c.pc] == 0x900f + 0x10 * d && 0x5f <= SP(c.ram) < 0x85f
    ensures TakenOffStack(CoreStep(c, flash, w), c.ram, d)
    ensures CoreStep(c, flash, w).Ok? && CoreStep(c, flash, w).value.pc == c.pc + 1
  {
    var op := flash[c.pc];
    assert Past(c).ram == c.ram;
    PopTakes(Past(c), d);
    hide SP, Decode, Execute, PushOrPop;
    StepExecutes(c, flash, w);
    StackFields(op, d, 0);
    StackExecutes(Past(c), flash, op, w, d, 0);
    hide *;
  }

  lemma RegisterKeepsSP(ram: Ram, d: nat, value: byte)
    requires d < 32
    ensures SP(ram[d := value]) == SP(ram)
  {
  }

  lemma ImmediateFields(op: word, k: nat, d: nat, value: byte)
    requires 3 <= k < 6 && 16 <= d < 32
    requires op == 0x1000 * k + 0x100 * (value / 16) + 0x10 * (d - 16) + value % 16
    ensures Decode(op) == RegImm && op / 0x1000 == k && 16 + op / 16 % 16 == d
    ensures 16 * (op / 0x100 % 16) + op % 16 == value
  {
    ImmediateDecodes(op);
    hide Decode;
    assert op / 16 == 0x100 * k + 0x10 * (value / 16) + (d - 16);
    assert op / 0x100 == 0x10 * k + value / 16;
  }

  lemma ImmediateDecodes(op: word)
    requires 0x3000 <= op <= 0x7fff
    ensures Decode(op) == RegImm
  {
  }

  /** CPI, SBCI and SUBI, with k 3, 4 and 5, are CP, SBC and SUB of a constant. */
  lemma ImmediateGoes(c: Core, flash: Flash, w: World, k: nat, d: nat, value: byte)
    requires 3 <= k < 6 && 16 <= d < 32
    requires 0 <= c.pc < 0x4000 && flash[c.pc] == 0x1000 * k + 0x100 * (value / 16) + 0x10 * (d - 16) + value % 16
    ensures CoreStep(c, flash, w) ==
            Ok(Past(c).(ram := DoCpOrSub(c.ram, d, value, k == 4, k != 3)))
  {
    StepExecutes(c, flash, w);
    ImmediateFields(flash[c.pc], k, d, value);
    ImmediateIs(c.ram, flash[c.pc], w.effect, k, d, value);
    hide Decode, DoCpOrSub, RegImmResult;
  }

  lemma ImmediateIs(ram: Ram, op: word, effect: Step<Ram>, k: nat, d: nat, value: byte)
    requires 3 <= k < 6 && 16 <= d < 32 && op / 0x1000 == k && 16 + op / 16 % 16 == d
    requires 16 * (op / 0x100 % 16) + op % 16 == value
    ensures RegImmResult(ram, op, effect) == Ok(DoCpOrSub(ram, d, value, k == 4, k != 3))
  {
    hide DoCpOrSub;
  }

  /** The operands each form of multiplication has, and its opcode. */
  predicate Multiplies(op: nat, form: Form, d: nat, r: nat) {
    match form
    case Unsigned => d < 32 && r < 32 && op == 0x9c00 + 0x200 * (r / 16) + 0x10 * d + r % 16
    case SignedBoth => 16 <= d < 32 && 16 <= r < 32 && op == 0x0200 + 0x10 * (d - 16) + (r - 16)
    case Mixed => 16 <= d < 24 && 16 <= r < 24 && op == 0x0300 + 0x10 * (d - 16) + (r - 16)
  }

  lemma MultiplyFields(op: word, form: Form, d: nat, r: nat)
    requires Multiplies(op, form, d, r)
    ensures FormOf(op) == form && Left(op) == d && Right(op) == r && !Fractional(op)
  {
    match form
    case Unsigned =>
      assert op / 16 == 0x9c0 + 0x20 * (r / 16) + d && op / 0x200 == 0x4e + r / 16;
    case SignedBoth => assert op / 16 == 0x20 + (d - 16);
    case Mixed => assert op / 16 == 0x30 + (d - 16);
  }

  lemma MultiplyDecodes(op: word)
    requires 0x0200 <= op < 0x0400 || 0x9c00 <= op < 0xa000
    ensures Decode(op) == Multiply
  {
  }

  /** MUL d, r, MULS d, r and MULSU d, r leave the true product of the two registers in R1:R0, but for MULSU of a
      left operand other than zero by a right one of 128 or more. */
  lemma MultiplyGoes(c: Core, flash: Flash, w: World, form: Form, d: nat, r: nat)
    requires 0 <= c.pc < 0x4000 && Multiplies(flash[c.pc], form, d, r)
    ensures d < 32 && r < 32 && CoreStep(c, flash, w).Ok?
    ensures CoreStep(c, flash, w).value.pc == c.pc + 1
    ensures Multiplied(CoreStep(c, flash, w).value.ram, c.ram, TrueProduct(form, c.ram[d], c.ram[r]))
            <==> form != Mixed || c.ram[r] < 128 || c.ram[d] == 0
  {
    var op := flash[c.pc];
    OperandsAre(op, form, d, r);
    assert Past(c).ram == c.ram && Past(c).pc == c.pc + 1;
    hide *;
    MultiplyFields(op, form, d, r);
    MultiplyDecodes(op);
    StepExecutes(c, flash, w);
    MultiplyExecutes(Past(c), flash, op, w);
    MultiplicationIff(c.ram, op);
  }

  lemma OperandsAre(op: word, form: Form, d: nat, r: nat)
    requires Multiplies(op, form, d, r)
    ensures d < 32 && r < 32 && (0x0200 <= op < 0x0400 || 0x9c00 <= op < 0xa000)
  {
  }

  lemma MultiplyExecutes(c: Core, flash: Flash, op: word, w: World)
    requires 0 <= c.pc && Decode(op) == Multiply
    ensures Fractional(op) ==> Execute(c, flash, op, w) == Fail
    ensures !Fractional(op) ==>
              ExecMultiplications(c.ram, op).Ok?
              && Execute(c, flash, op, w) == Ok(c.(ram := ExecMultiplications(c.ram, op).value))
  {
    hide Decode, Product, Fractional, WithBit, Left, Right;
  }

  /** FMUL, FMULS and FMULSU fail. */
  lemma FractionalFails(c: Core, flash: Flash, w: World, base: nat, d: nat, r: nat)
    requires 16 <= d < 24 && 16 <= r < 24 && base in {0x0308, 0x0380, 0x0388}
    requires 0 <= c.pc < 0x4000 && flash[c.pc] == base + 0x10 * (d - 16) + (r - 16)
    ensures CoreStep(c, flash, w) == Fail
  {
    var op := flash[c.pc];
    FractionalFields(op, base, d, r);
    hide *;
    StepExecutes(c, flash, w);
    MultiplyDecodes(op);
    MultiplyExecutes(Past(c), flash, op, w);
  }

  lemma FractionalFields(op: word, base: nat, d: nat, r: nat)
    requires 16 <= d < 24 && 16 <= r < 24 && base in {0x0308, 0x0380, 0x0388}
    requires op == base + 0x10 * (d - 16) + (r - 16)
    ensures Fractional(op) && 0x0200 <= op < 0x0400
  {
  }

  // ----- the other opcodes -----

  /** MOVW; AND, EOR, OR and MOV; ORI and ANDI; LDD and STD; ADIW and SBIW; CBI and SBI; IN and OUT; LDI; BLD and BST;
      COM to DEC; LPM and SPM; SLEEP, BREAK and WDR; loads and stores without an operand word. */
  predicate IsData(op: word) {
    || 0x0100 <= op < 0x0200 || 0x2000 <= op < 0x3000 || 0x6000 <= op < 0x9000 || 0xa000 <= op < 0xc000
    || 0x9600 <= op < 0x9900 || 0x9a00 <= op < 0x9b00 || 0xe000 <= op < 0xf000 || 0xf800 <= op < 0xfc00
    || (0x9400 <= op < 0x9600 && (op % 16 < 8 || op % 16 == 10)) || (0x9580 <= op < 0x9600 && op % 16 == 8)
    || (0x9000 <= op < 0x9400 && op % 16 != 0 && op % 16 != 15)
  }

  /** What follows 0x0000, NOP, and the gaps between the one-word opcodes at 0x9400. */
  predicate IsUnknown(op: word) {
    || 0x0000 < op < 0x0100
    || (0x9400 <= op < 0x9600 && (op % 16 == 11 || (op % 16 == 9 && op !in {0x9409, 0x9419, 0x9509, 0x9519})))
    || (0x9520 <= op < 0x9580 && op % 16 == 8)
  }

  lemma UnknownDecodes(op: word)
    requires IsUnknown(op)
    ensures Decode(op) == NotImplemented
  {
    LastPair(op);
  }

  /** These fail; NOP does nothing; each of the others takes one word, and LDS and STS two, and leaves what it may. */
  lemma OtherOpcodes(c: Core, flash: Flash, w: World)
    requires 0 <= c.pc < 0x4000
    ensures flash[c.pc] == 0 ==> CoreStep(c, flash, w) == Ok(Past(c))
    ensures IsUnknown(flash[c.pc]) ==> CoreStep(c, flash, w) == Fail
    ensures IsData(flash[c.pc]) ==> CoreStep(c, flash, w) == Leaving(Past(c), w.effect)
    ensures 0x9000 <= flash[c.pc] < 0x9400 && flash[c.pc] % 16 == 0 ==>
              CoreStep(c, flash, w) == if c.pc == 0x3fff then Fail else Leaving(Past(Past(c)), w.effect)
  {
    var op := flash[c.pc];
    hide *;
    if 0x9000 <= op < 0x9400 && op % 16 == 0 {
      StackDecodes(op);
      DirectExecutes(c, flash, op, w);
    }
    StepExecutes(c, flash, w);
    if IsUnknown(op) {
      UnknownDecodes(op);
      UnknownExecutes(Past(c), flash, op, w);
    }
    if IsData(op) {
      DataExecutes(Past(c), flash, op, w);
    }
    if op == 0 {
      NopExecutes(Past(c), flash, w);
    }
  }

  lemma DirectExecutes(c: Core, flash: Flash, op: word, w: World)
    requires 0 <= c.pc < 0x4000 && Decode(op) == RegMem && op % 16 == 0
    ensures Execute(Past(c), flash, op, w) == if c.pc == 0x3fff then Fail else Leaving(Past(Past(c)), w.effect)
  {
    hide Decode;
  }

  lemma NopExecutes(c: Core, flash: Flash, w: World)
    requires 0 <= c.pc
    ensures Execute(c, flash, 0, w) == Ok(c)
  {
    assert Decode(0) == Nop;
    hide Decode;
  }

  lemma UnknownExecutes(c: Core, flash: Flash, op: word, w: World)
    requires 0 <= c.pc && Decode(op) == NotImplemented
    ensures Execute(c, flash, op, w) == Fail
  {
    hide Decode;
  }

  lemma DataDecodes(op: word)
    requires IsData(op)
    ensures match Decode(op)
            case RegReg => op / 0x400 > 7
            case RegImm => op / 0x1000 !in {3, 4, 5}
            case RegMem => op % 16 != 0 && op % 16 != 15
            case BitOp => op / 0x400 % 2 == 0
            case IoBit => op / 0x100 % 2 == 0
            case Movw => true
            case Ldd => true
            case WordImm => true
            case Io => true
            case SingleReg => true
            case ProgMem => true
            case McuControl => true
            case _ => false
  {
    LastPair(op);
  }

  lemma DataExecutes(c: Core, flash: Flash, op: word, w: World)
    requires 0 <= c.pc && IsData(op)
    ensures Execute(c, flash, op, w) == Leaving(c, w.effect)
  {
    DataDecodes(op);
    hide Decode, IsData, Leaving;
  }
}
