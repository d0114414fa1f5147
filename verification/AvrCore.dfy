/** The AVR core as the object it is in src/devices/atmega32: RAM and program counter updated in place. */
module AvrCore {
  import opened Steps
  import opened Bytes
  import opened BitMasks
  import opened AvrAlu
  import opened AvrChains
  import opened AvrStack
  import opened AvrTimer
  import opened AvrDecode
  import opened AvrMultiply

  class Atmega32 {
    const ram: array<byte>
    const flash: Flash
    var pc: int
    var prescaler01: nat
    var timer1_temp_high_byte: byte
    ghost var fetched: nat
    ghost var compares: nat
    ghost var overflows: nat

    ghost predicate Valid() {
      ram.Length == RAM_SIZE
    }

    ghost function Memory(): Ram
      requires Valid()
      reads ram
    {
      ram[..]
    }

    ghost function CoreState(): Core
      requires Valid()
      reads this, ram
    {
      Core(ram[..], pc, fetched)
    }

    ghost function TimerState(): Timer
      requires Valid()
      reads this, ram
    {
      Timer(ram[..], prescaler01, compares, overflows)
    }

    method SetFlag(bit: nat, value: bool)
      requires Valid() && bit < 8
      modifies ram
      ensures Memory() == old(Memory())[SREG := WithBit(old(ram[SREG]), bit, value)]
    {
      hide WithBit;
      ram[SREG] := WithBit(ram[SREG], bit, value);
    }

    /** The six flags an addition or subtraction sets, one after the other. */
    method SetArithmeticFlags(h: bool, c: bool, v: bool, n: bool, z: bool)
      requires Valid()
      modifies ram
      ensures var f := FlagsOf(old(ram[SREG]));
              Memory() == old(Memory())[SREG := SregOf(f.(h := h, c := c, v := v, n := n, z := z, s := n != v))]
    {
      hide WithBit, SregOf, BitSet;
      ghost var before := ram[SREG];
      SetFlag(5, h);
      SetFlag(0, c);
      SetFlag(3, v);
      SetFlag(2, n);
      SetFlag(1, z);
      FiveFlags(before, h, c, v, n, z);
      var s := BitSet(ram[SREG], 2) != BitSet(ram[SREG], 3);
      SetFlag(4, s);
    }

    method DoAdd(dest_reg: nat, value: byte, carry: bool)
      requires Valid() && dest_reg < 32
      modifies ram
      ensures Memory() == AvrChains.DoAdd(old(Memory()), dest_reg, value, carry)
    {
      hide BitSet, AddCarries, AddOverflow, SregOf, FlagsOf;
      var d := ram[dest_reg];
      var c := carry && BitSet(ram[SREG], 0);
      var result := LowByte(d + value + if c then 1 else 0);
      CarryFlag(ram[SREG]);
      var half := AddCarries(d, value, result);
      var over := AddOverflow(d, value, result);
      SetArithmeticFlags(BitSet(half, 3), BitSet(half, 7), BitSet(over, 7), BitSet(result, 7), result == 0);
      ram[dest_reg] := result;
    }

    method DoCpOrSub(dest_reg: nat, value: byte, carry: bool, store: bool)
      requires Valid() && dest_reg < 32
      modifies ram
      ensures Memory() == AvrChains.DoCpOrSub(old(Memory()), dest_reg, value, carry, store)
    {
      hide BitSet, SubBorrows, SubOverflow, SregOf, FlagsOf;
      var d := ram[dest_reg];
      var c := carry && BitSet(ram[SREG], 0);
      var z := BitSet(ram[SREG], 1);
      var result: byte := (d - value - if c then 1 else 0) % 256;
      CarryFlag(ram[SREG]);
      var half := SubBorrows(d, value, result);
      var over := SubOverflow(d, value, result);
      SetArithmeticFlags(BitSet(half, 3), BitSet(half, 7), BitSet(over, 7), BitSet(result, 7), result == 0
          && (!carry || z));
      if store {
        ram[dest_reg] := result;
      }
    }

    method ExecMultiplications(op: word) returns (r: Step<()>)
      requires Valid()
      modifies ram
      ensures match AvrMultiply.ExecMultiplications(old(Memory()), op)
              case Ok(m) => r == Ok(()) && Memory() == m
              case Fail => r == Fail
              case Outside => false
    {
      hide WithBit, Product, Left, Right, FormOf;
      if Fractional(op) {
        return Fail;
      }
      var result := Product(FormOf(op), ram[Left(op)], ram[Right(op)]);
      ram[0] := LowByte(result);
      ram[1] := HighByte(result);
      SetFlag(0, result >= 0x8000);
      SetFlag(1, result == 0);
      return Ok(());
    }

    method FetchNextOpcode() returns (opcode: Step<word>)
      requires Valid() && 0 <= pc
      modifies this`pc, this`fetched
      ensures match Fetch(old(CoreState()), flash)
              case Ok((op, c)) => opcode == Ok(op) && CoreState() == c
              case Fail => opcode == Fail
              case Outside => false
    {
      if pc >= FLASH_SIZE {
        return Fail;
      }
      opcode := Ok(flash[pc]);
      pc := pc + 1;
      fetched := fetched + 1;
    }

    method SkipInstruction() returns (r: Step<()>)
      requires Valid() && 0 <= pc
      modifies this`pc, this`fetched
      ensures match AvrDecode.SkipInstruction(old(CoreState()), flash)
              case Ok(c) => r == Ok(()) && CoreState() == c
              case Fail => r == Fail
              case Outside => false
    {
      hide DoubleWidth;
      var opcode := FetchNextOpcode();
      if !opcode.Ok? {
        return Fail;
      }
      if DoubleWidth(opcode.value) {
        opcode := FetchNextOpcode();
      }
      return if opcode.Ok? then Ok(()) else Fail;
    }

    method WriteMemory(addr: word, value: byte) returns (r: Step<()>)
      requires Valid()
      modifies ram
      ensures match WriteMem(old(Memory()), addr, value)
              case Ok(m) => r == Ok(()) && Memory() == m
              case Fail => r == Fail
              case Outside => r == Outside
    {
      if addr >= RAM_SIZE {
        return Fail;
      }
      if 0x20 <= addr < 0x60 {
        return Outside;
      }
      ram[addr] := value;
      return Ok(());
    }

    method WriteSP(sp: word)
      requires Valid()
      modifies ram
      ensures Memory() == WithSP(old(Memory()), sp)
    {
      ram[SPL] := LowByte(sp);
      ram[SPH] := HighByte(sp);
    }

    method Push(value: byte) returns (r: Step<()>)
      requires Valid()
      modifies ram
      ensures match AvrStack.Push(old(Memory()), value)
              case Ok(m) => r == Ok(()) && Memory() == m
              case Fail => r == Fail
              case Outside => r == Outside
    {
      hide WithSP, WriteMem, Word;
      var sp: int := Word(ram[SPH], ram[SPL]);
      r := WriteMemory(sp, value);
      if r.Ok? {
        WriteSP((sp - 1) % 0x1_0000);
      }
    }

    method Pop() returns (r: Step<byte>)
      requires Valid()
      modifies ram
      ensures match AvrStack.Pop(old(Memory()))
              case Ok((value, m)) => r == Ok(value) && Memory() == m
              case Fail => r == Fail
              case Outside => r == Outside
    {
      hide WithSP, Word;
      var sp := (Word(ram[SPH], ram[SPL]) + 1) % 0x1_0000;
      if sp >= RAM_SIZE {
        return Fail;
      }
      if 0x20 <= sp < 0x60 {
        return Outside;
      }
      var value := ram[sp];
      WriteSP(sp);
      return Ok(value);
    }

    method PushWord(value: word) returns (r: Step<()>)
      requires Valid()
      modifies ram
      ensures match AvrStack.PushWord(old(Memory()), value)
              case Ok(m) => r == Ok(()) && Memory() == m
              case Fail => r == Fail
              case Outside => r == Outside
    {
      hide AvrStack.Push, LowByte, HighByte;
      r := Push(LowByte(value));
      if r.Ok? {
        r := Push(HighByte(value));
      }
    }

    method PopWord() returns (r: Step<word>)
      requires Valid()
      modifies ram
      ensures match AvrStack.PopWord(old(Memory()))
              case Ok((value, m)) => r == Ok(value) && Memory() == m
              case Fail => r == Fail
              case Outside => r == Outside
    {
      hide AvrStack.Pop, Word;
      var high := Pop();
      if !high.Ok? {
        return high.PropagateFailure();
      }
      var low := Pop();
      if !low.Ok? {
        return low.PropagateFailure();
      }
      return Ok(Word(high.value, low.value));
    }

    method ExecReturn(from_irq: bool) returns (r: Step<()>)
      requires Valid()
      modifies this`pc, ram
      ensures match Return(old(CoreState()), from_irq)
              case Ok(d) => r == Ok(()) && CoreState() == d
              case Fail => r == Fail
              case Outside => r == Outside
    {
      hide AvrStack.PopWord, WithBit;
      var addr := PopWord();
      if !addr.Ok? {
        return addr.PropagateFailure();
      }
      if addr.value >= FLASH_SIZE {
        return Fail;
      }
      pc := addr.value;
      if from_irq {
        SetFlag(7, true);
      }
      return Ok(());
    }

    /** _handleTimerIrqs: from the highest bit down. */
    method HandleTimerIrqs() returns (irq: nat)
      requires Valid()
      modifies ram
      ensures irq == TimerVector(And(old(ram[TIFR]), old(ram[TIMSK])))
      ensures Memory() == if irq == 0 then old(Memory())
                          else old(Memory())[TIFR := WithBit(old(ram[TIFR]), 12 - irq, false)]
    {
      hide And, WithBit, BitSet, TimerVector;
      var irqs := And(ram[TIFR], ram[TIMSK]);
      var bit := 7;
      while bit >= 0
        invariant -1 <= bit <= 7 && Memory() == old(Memory())
        invariant forall k :: bit < k < 8 ==> !BitSet(irqs, k)
      {
        if BitSet(irqs, bit) {
          FirstBit(irqs, bit);
          ram[TIFR] := WithBit(ram[TIFR], bit, false);
          return 12 - bit;
        }
        bit := bit - 1;
      }
      NoBit(irqs);
      return 0;
    }

    method HandleAdcIrqs() returns (irq: nat)
      requires Valid()
      modifies ram
      ensures irq == if BitSet(old(ram[ADCSRA]), 4) && BitSet(old(ram[ADCSRA]), 3) then 17 else 0
      ensures Memory() == if irq == 0 then old(Memory())
                          else old(Memory())[ADCSRA := WithBit(old(ram[ADCSRA]), 4, false)]
    {
      hide WithBit, BitSet;
      if BitSet(ram[ADCSRA], 4) && BitSet(ram[ADCSRA], 3) {
        ram[ADCSRA] := WithBit(ram[ADCSRA], 4, false);
        return 17;
      }
      return 0;
    }

    method HandleIrqs() returns (r: Step<()>)
      requires Valid() && 0 <= pc <= FLASH_SIZE
      modifies this`pc, ram
      ensures match AvrStack.HandleIrqs(old(CoreState()))
              case Ok(d) => r == Ok(()) && CoreState() == d
              case Fail => r == Fail
              case Outside => r == Outside
    {
      hide WithBit, BitSet, TimerVector, And, AvrStack.PushWord;
      if !BitSet(ram[SREG], 7) {
        return Ok(());
      }
      var irq := HandleTimerIrqs();
      if irq == 0 {
        irq := HandleAdcIrqs();
      }
      if irq == 0 {
        return Ok(());
      }
      SetFlag(7, false);
      r := PushWord(pc);
      if r.Ok? {
        pc := 2 * (irq - 1);
      }
    }

    method TriggerTimerIrq(bit: nat)
      requires Valid() && bit < 8
      modifies ram
      ensures Memory() == Trigger(old(Memory()), bit)
    {
      hide WithBit;
      ram[TIFR] := WithBit(ram[TIFR], bit, true);
    }

    method PutTcnt1(value: word)
      requires Valid()
      modifies ram
      ensures Memory() == Put16(old(Memory()), TCNT1L, value)
    {
      ram[TCNT1L] := LowByte(value);
      ram[TCNT1L + 1] := HighByte(value);
    }

    method Timer1Tick() returns (r: Step<()>)
      requires Valid()
      modifies ram, this`compares, this`overflows
      ensures match Tick(old(TimerState()))
              case Ok(t) => r == Ok(()) && TimerState() == t
              case Fail => r == Fail
              case Outside => false
    {
      hide Wgm, Word, Trigger, Put16;
      var wgm := Wgm(ram[..]);
      if wgm !in {0, 4, 12} {
        return Fail;
      }
      var tcnt := Word(ram[TCNT1L + 1], ram[TCNT1L]);
      var top := if wgm == 4 then Word(ram[OCR1AL + 1], ram[OCR1AL]) else Word(ram[ICR1L + 1], ram[ICR1L]);
      if (wgm == 4 || wgm == 12) && tcnt == top {
        TriggerTimerIrq(OCF1A);
        compares := compares + 1;
        tcnt := 0;
      } else if tcnt == 0xffff {
        TriggerTimerIrq(TOV1);
        overflows := overflows + 1;
        tcnt := 0;
      } else {
        tcnt := tcnt + 1;
      }
      PutTcnt1(tcnt);
      return Ok(());
    }

    ghost function PortState(): Ports
      requires Valid()
      reads this, ram
    {
      Ports(ram[..], timer1_temp_high_byte)
    }

    /** read_port of a timer 1 register. */
    method ReadTimer1(port: nat) returns (value: byte)
      requires Valid() && ICR1L <= port <= TCCR1A
      modifies this`timer1_temp_high_byte
      ensures (value, PortState()) == ReadPort(old(PortState()), port)
    {
      value := ram[port];
      if port in {ICR1L + 1, TCNT1L + 1} {
        value := timer1_temp_high_byte;
      } else if port in {ICR1L, TCNT1L} {
        timer1_temp_high_byte := ram[port + 1];
      }
    }

    /** write_port of one half of a double register: a high byte is put back and kept aside. */
    method WriteTimer1(port: nat, value: byte)
      requires Valid() && ICR1L <= port <= TCNT1L + 1
      modifies ram, this`timer1_temp_high_byte
      ensures PortState() == WritePort(old(PortState()), port, value)
    {
      var prev_val := ram[port];
      ram[port] := value;
      if port in {ICR1L + 1, ICR1L + 3, OCR1AL + 1, TCNT1L + 1} {
        timer1_temp_high_byte := value;
        ram[port] := prev_val;
      } else {
        ram[port + 1] := timer1_temp_high_byte;
      }
    }

    /** The timer 1 part of _runTimers. */
    method RunTimers() returns (r: Step<()>)
      requires Valid()
      modifies ram, this`prescaler01, this`compares, this`overflows
      ensures match if TicksAt(old(ram[0x4e]) % 8, old(prescaler01) + 1)
                    then Tick(old(TimerState()).(prescaler := old(prescaler01) + 1))
                    else Ok(old(TimerState()).(prescaler := old(prescaler01) + 1))
              case Ok(t) => r == Ok(()) && TimerState() == t
              case Fail => r == Fail
              case Outside => false
    {
      hide Tick, BitAnd, BitXor, PrescalerBit;
      CycleTicks(TimerState());
      var old_value := prescaler01;
      prescaler01 := prescaler01 + 1;
      r := Ok(());
      if BitAnd(BitXor(prescaler01, old_value), PrescalerBit(ram[TCCR1B] % 8)) != 0 {
        r := Timer1Tick();
      }
    }
  }

  lemma CarryFlag(sreg: byte)
    ensures FlagsOf(sreg).c == BitSet(sreg, 0) && FlagsOf(sreg).z == BitSet(sreg, 1)
  {
  }

  /** chg_bit on the status register, as a change of flags. */
  lemma FiveFlags(sreg: byte, h: bool, c: bool, v: bool, n: bool, z: bool)
    ensures var five := WithBit(WithBit(WithBit(WithBit(WithBit(sreg, 5, h), 0, c), 3, v), 2, n), 1, z);
            && BitSet(five, 2) == n && BitSet(five, 3) == v
            && WithBit(five, 4, n != v) == SregOf(FlagsOf(sreg).(h := h, c := c, v := v, n := n, z := z, s := n != v))
  {
    hide Byte, Bits8;
    var s1 := WithBit(sreg, 5, h);
    var s2 := WithBit(s1, 0, c);
    var s3 := WithBit(s2, 3, v);
    var s4 := WithBit(s3, 2, n);
    var s5 := WithBit(s4, 1, z);
    WithBitBits(sreg, 5, h);
    WithBitBits(s1, 0, c);
    WithBitBits(s2, 3, v);
    WithBitBits(s3, 2, n);
    WithBitBits(s4, 1, z);
    var f := FlagsOf(sreg).(h := h, c := c, v := v, n := n, z := z, s := n != v);
    assert Bits8(s5)[3 := n != v] == [f.i, f.t, f.h, f.s, f.v, f.n, f.z, f.c];
  }

  lemma FirstBit(irqs: byte, bit: nat)
    requires bit < 8 && BitSet(irqs, bit) && forall k :: bit < k < 8 ==> !BitSet(irqs, k)
    ensures TimerVector(irqs) == 12 - bit
  {
    hide BitSet;
  }

  lemma NoBit(irqs: byte)
    requires forall k :: 0 <= k < 8 ==> !BitSet(irqs, k)
    ensures TimerVector(irqs) == 0
  {
    hide BitSet;
  }
}
