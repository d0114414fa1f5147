/** The stack in RAM, calls, returns and interrupts, after src/devices/atmega32/cpu_core.cpp and
    src/devices/atmega32/atmega32.cpp. */
module AvrStack {
  import opened Steps
  import opened Bytes
  import opened AvrAlu
  import opened AvrChains

  const RAM_SIZE := 0x860
  const FLASH_SIZE := 0x4000
  const SPL := 0x5d
  const SPH := 0x5e
  const TIFR := 0x58
  const TIMSK := 0x59
  const ADCSRA := 0x26

  /** The core, and how many words it has fetched from the program memory. */
  datatype Core = Core(ram: Ram, pc: int, fetched: nat)

  function SP(ram: Ram): word {
    Word(ram[SPH], ram[SPL])
  }

  function WithSP(ram: Ram, sp: word): Ram {
    ram[SPL := LowByte(sp)][SPH := HighByte(sp)]
  }

  function WriteMem(ram: Ram, addr: word, value: byte): Step<Ram> {
    if addr >= RAM_SIZE then Fail
    else if 0x20 <= addr < 0x60 then Outside
    else Ok(ram[addr := value])
  }

  function ReadMem(ram: Ram, addr: word): Step<byte> {
    if addr >= RAM_SIZE then Fail
    else if 0x20 <= addr < 0x60 then Outside
    else Ok(ram[addr])
  }

  function Push(ram: Ram, value: byte): Step<Ram> {
    var m :- WriteMem(ram, SP(ram), value);
    Ok(WithSP(m, (SP(ram) - 1) % 0x1_0000))
  }

  function Pop(ram: Ram): Step<(byte, Ram)> {
    var sp := (SP(ram) + 1) % 0x1_0000;
    var value :- ReadMem(ram, sp);
    Ok((value, WithSP(ram, sp)))
  }

  function PushWord(ram: Ram, value: word): Step<Ram> {
    var m :- Push(ram, LowByte(value));
    Push(m, HighByte(value))
  }

  /** The first byte popped is the high one; the source's single expression is read from left to right. */
  function PopWord(ram: Ram): Step<(word, Ram)> {
    var (high, m) :- Pop(ram);
    var (low, m') :- Pop(m);
    Ok((Word(high, low), m'))
  }

  function DoJump(c: Core, address: int): Step<Core> {
    if 0 <= address < FLASH_SIZE then Ok(c.(pc := address)) else Fail
  }

  /** A call: what exec_long_jump, exec_indirect_jump and exec_relative_jump do once the target is known. */
  function Call(c: Core, target: int): Step<Core> {
    var m :- PushWord(c.ram, c.pc % 0x1_0000);
    DoJump(c.(ram := m), target)
  }

  function SetI(ram: Ram, value: bool): Ram {
    ram[SREG := WithBit(ram[SREG], 7, value)]
  }

  function Return(c: Core, from_irq: bool): Step<Core> {
    var (addr, m) :- PopWord(c.ram);
    var d :- DoJump(c.(ram := m), addr);
    Ok(if from_irq then d.(ram := SetI(d.ram, true)) else d)
  }

  // ----- interrupts -----

  /** The vector _handleTimerIrqs returns for the highest pending and enabled flag. */
  function TimerVector(irqs: byte): (v: nat)
    ensures v == 0 || 5 <= v <= 12
  {
    if BitSet(irqs, 7) then 5
    else if BitSet(irqs, 6) then 6
    else if BitSet(irqs, 5) then 7
    else if BitSet(irqs, 4) then 8
    else if BitSet(irqs, 3) then 9
    else if BitSet(irqs, 2) then 10
    else if BitSet(irqs, 1) then 11
    else if BitSet(irqs, 0) then 12
    else 0
  }

  /** The vector to serve, zero for none, and the RAM with its flag cleared. */
  function ClaimIrq(ram: Ram): (nat, Ram) {
    var vector := TimerVector(And(ram[TIFR], ram[TIMSK]));
    if vector != 0 then
      (vector, ram[TIFR := WithBit(ram[TIFR], 12 - vector, false)])
    else if BitSet(ram[ADCSRA], 4) && BitSet(ram[ADCSRA], 3) then
      (17, ram[ADCSRA := WithBit(ram[ADCSRA], 4, false)])
    else (0, ram)
  }

  function HandleIrqs(c: Core): Step<Core> {
    if !BitSet(c.ram[SREG], 7) || ClaimIrq(c.ram).0 == 0 then Ok(c)
    else
      var (irq, m) := ClaimIrq(c.ram);
      var m' :- PushWord(SetI(m, false), c.pc % 0x1_0000);
      Ok(c.(ram := m', pc := 2 * (irq - 1)))
  }

  /** Vector v has its flag and its enable bit set. */
  predicate Pending(ram: Ram, v: nat) {
    if 5 <= v <= 12 then BitSet(ram[TIFR], 12 - v) && BitSet(ram[TIMSK], 12 - v)
    else v == 17 && BitSet(ram[ADCSRA], 4) && BitSet(ram[ADCSRA], 3)
  }

  lemma TimerVectorIsLowest(irqs: byte)
    ensures var v := TimerVector(irqs);
            && (v == 0 || 5 <= v <= 12)
            && (v != 0 ==> BitSet(irqs, 12 - v))
            && (forall k :: 0 <= k < 8 && BitSet(irqs, k) ==> v != 0 && v <= 12 - k)
  {
    hide Bits8;
    forall k | 0 <= k < 8 && BitSet(irqs, k)
      ensures TimerVector(irqs) != 0 && TimerVector(irqs) <= 12 - k
    {
      assert k == 0 || k == 1 || k == 2 || k == 3 || k == 4 || k == 5 || k == 6 || k == 7;
    }
  }

  /** The vector chosen is the lowest pending one, if there is any. */
  lemma ClaimsLowest(ram: Ram, v: nat)
    ensures Pending(ram, v) ==> ClaimIrq(ram).0 != 0 && ClaimIrq(ram).0 <= v
    ensures ClaimIrq(ram).0 != 0 ==> Pending(ram, ClaimIrq(ram).0)
  {
    hide BitSet, TimerVector, And, WithBit;
    var irqs := And(ram[TIFR], ram[TIMSK]);
    TimerVectorIsLowest(irqs);
    var t := TimerVector(irqs);
    if 5 <= v <= 12 {
      AndSet(ram[TIFR], ram[TIMSK], 12 - v);
    }
    if t != 0 {
      AndSet(ram[TIFR], ram[TIMSK], 12 - t);
    }
  }

  lemma AndSet(a: byte, b: byte, k: nat)
    requires k < 8
    ensures BitSet(And(a, b), k) == (BitSet(a, k) && BitSet(b, k))
  {
    AndBit(a, b, 7 - k);
  }

  lemma WithBitSet(x: byte, k: nat, v: bool, j: nat)
    requires k < 8 && j < 8
    ensures BitSet(WithBit(x, k, v), j) == if j == k then v else BitSet(x, j)
  {
    WithBitBits(x, k, v);
  }

  /** Serving it consumes exactly that flag: no other byte changes, and no other bit of the flag register. */
  lemma ClaimConsumesOne(ram: Ram, k: nat)
    requires k < 8
    ensures var (v, m) := ClaimIrq(ram);
            && (v == 0 ==> m == ram)
            && (5 <= v <= 12 ==>
                  (m == ram[TIFR := m[TIFR]] && BitSet(m[TIFR], k) == (BitSet(ram[TIFR], k) && k != 12 - v)))
            && (v == 17 ==>
                  (m == ram[ADCSRA := m[ADCSRA]] && BitSet(m[ADCSRA], k) == (BitSet(ram[ADCSRA], k) && k != 4)))
            && (v == 0 || v == 17 || 5 <= v <= 12)
  {
    hide BitSet, TimerVector, And, WithBit;
    var (v, m) := ClaimIrq(ram);
    TimerVectorIsLowest(And(ram[TIFR], ram[TIMSK]));
    if 5 <= v <= 12 {
      WithBitSet(ram[TIFR], 12 - v, false, k);
    } else if v == 17 {
      WithBitSet(ram[ADCSRA], 4, false, k);
    }
  }

  /** Everything else that was pending still is. */
  lemma PendingAfterClaim(ram: Ram, v: nat)
    requires ClaimIrq(ram).0 != 0
    ensures Pending(ClaimIrq(ram).1, v) <==> Pending(ram, v) && v != ClaimIrq(ram).0
  {
    hide BitSet, ClaimIrq;
    ClaimsLowest(ram, 17);
    ClaimConsumesOne(ram, if 5 <= v <= 12 then 12 - v else 4);
  }

  // ----- one stack operation -----

  lemma SPBack(ram: Ram, sp: word)
    ensures SP(WithSP(ram, sp)) == sp
    ensures forall k :: 0 <= k < RAM_SIZE && k != SPL && k != SPH ==> WithSP(ram, sp)[k] == ram[k]
  {
    PartsOfWord(sp);
  }

  ghost predicate SameFrom(m: Ram, ram: Ram, a: int) {
    forall k :: 0 <= k < RAM_SIZE && k >= a ==> m[k] == ram[k]
  }

  ghost predicate SameBelowStack(m: Ram, ram: Ram) {
    forall k :: 0 <= k < 0x60 && k != SPL && k != SPH ==> m[k] == ram[k]
  }

  lemma PushWrites(ram: Ram, value: byte)
    requires 0x60 <= SP(ram) < RAM_SIZE
    ensures Push(ram, value).Ok?
    ensures var m := Push(ram, value).value;
            && SP(m) == SP(ram) - 1 && m[SP(ram)] == value
            && SameFrom(m, ram, SP(ram) + 1) && SameBelowStack(m, ram)
  {
    hide SP, WithSP;
    var sp := SP(ram);
    SPBack(ram[sp := value], sp - 1);
  }

  lemma PopReads(ram: Ram)
    requires 0x5f <= SP(ram) < RAM_SIZE - 1
    ensures Pop(ram).Ok?
    ensures var (value, m) := Pop(ram).value;
            && value == ram[SP(ram) + 1] && SP(m) == SP(ram) + 1
            && SameFrom(m, ram, 0x60) && SameBelowStack(m, ram)
  {
    hide SP, WithSP;
    SPBack(ram, SP(ram) + 1);
  }

  /** push_word then, with nothing above the stack pointer touched, pop_word. */
  lemma PushWordWrites(ram: Ram, value: word)
    requires 0x61 <= SP(ram) < RAM_SIZE
    ensures PushWord(ram, value).Ok?
    ensures var m := PushWord(ram, value).value;
            && SP(m) == SP(ram) - 2
            && m[SP(ram)] == LowByte(value) && m[SP(ram) - 1] == HighByte(value)
            && SameFrom(m, ram, SP(ram) + 1) && SameBelowStack(m, ram)
  {
    hide SP, Push;
    PushWrites(ram, LowByte(value));
    PushWrites(Push(ram, LowByte(value)).value, HighByte(value));
  }

  lemma PopWordReads(ram: Ram)
    requires 0x5f <= SP(ram) < RAM_SIZE - 2
    ensures PopWord(ram).Ok?
    ensures var (value, m) := PopWord(ram).value;
            && value == Word(ram[SP(ram) + 1], ram[SP(ram) + 2]) && SP(m) == SP(ram) + 2
            && SameFrom(m, ram, 0x60) && SameBelowStack(m, ram)
  {
    hide SP, Pop;
    PopReads(ram);
    PopReads(Pop(ram).value.1);
  }

  /** The I bit and nothing else. */
  lemma SetIFrame(ram: Ram, value: bool)
    ensures BitSet(SetI(ram, value)[SREG], 7) == value
    ensures SetI(ram, value) == ram[SREG := SetI(ram, value)[SREG]]
    ensures SP(SetI(ram, value)) == SP(ram)
  {
    hide BitSet, WithBit;
    WithBitSet(ram[SREG], 7, value, 7);
  }

  lemma ClaimFrame(ram: Ram)
    ensures SP(ClaimIrq(ram).1) == SP(ram) && SameFrom(ClaimIrq(ram).1, ram, 0x60)
    ensures ClaimIrq(ram).1[SREG] == ram[SREG]
  {
    hide BitSet, TimerVector, And, WithBit;
  }

  /** An interrupt is taken exactly when I is set and some enabled source is pending; I is then clear, and the
      stack holds the address interrupted. */
  lemma IrqEntry(c: Core)
    requires 0x61 <= SP(c.ram) < RAM_SIZE && 0 <= c.pc <= FLASH_SIZE
    ensures HandleIrqs(c).Ok?
    ensures var d := HandleIrqs(c).value;
            if BitSet(c.ram[SREG], 7) && ClaimIrq(c.ram).0 != 0 then
              && d.pc == 2 * (ClaimIrq(c.ram).0 - 1)
              && SP(d.ram) == SP(c.ram) - 2 && Word(d.ram[SP(c.ram) - 1], d.ram[SP(c.ram)]) == c.pc
              && SameFrom(d.ram, c.ram, SP(c.ram) + 1) && !BitSet(d.ram[SREG], 7)
            else d == c
  {
    hide SP, BitSet, ClaimIrq, SetI, PushWord, LowByte, HighByte, Word;
    if BitSet(c.ram[SREG], 7) && ClaimIrq(c.ram).0 != 0 {
      var m := SetI(ClaimIrq(c.ram).1, false);
      ClaimFrame(c.ram);
      SetIFrame(ClaimIrq(c.ram).1, false);
      PushWordWrites(m, c.pc);
      PartsOfWord(c.pc);
    }
  }

  /** Taking it changes nothing but the claimed flag, I, the stack pointer and the two bytes pushed. */
  lemma IrqFrame(c: Core, k: nat)
    requires 0x61 <= SP(c.ram) < RAM_SIZE && HandleIrqs(c).Ok? && k < 0x60
    requires k != SREG && k != SPL && k != SPH
    ensures HandleIrqs(c).value.ram[k] ==
            if BitSet(c.ram[SREG], 7) then ClaimIrq(c.ram).1[k] else c.ram[k]
  {
    hide SP, BitSet, ClaimIrq, SetI, PushWord;
    ClaimFrame(c.ram);
    if ClaimIrq(c.ram).0 == 0 {
      ClaimConsumesOne(c.ram, 0);
    } else {
      var m := SetI(ClaimIrq(c.ram).1, false);
      SetIFrame(ClaimIrq(c.ram).1, false);
      PushWordWrites(m, c.pc % 0x1_0000);
    }
  }
}
