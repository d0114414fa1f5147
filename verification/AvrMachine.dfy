/** Programs run from flash: as long as they use their stack as one, the core behaves as one whose pushed
    bytes and return addresses are kept on a stack of their own, out of reach of the program. */
module AvrMachine {
  import opened Steps
  import opened Bytes
  import opened AvrAlu
  import opened AvrChains
  import opened AvrStack
  import opened AvrRuns
  import opened AvrDecode

  datatype Entry = Pushed(value: byte) | ReturnTo(address: word)

  /** The core with a separate stack, its top first. */
  datatype Machine = Machine(core: Core, stack: seq<Entry>)

  predicate IsStackOp(op: word, push: bool) {
    Decode(op) == RegMem && op % 16 == 15 && (op / 0x200 % 2 == 1) == push
  }

  predicate HasRoom(c: Core) {
    0x61 <= SP(c.ram) < RAM_SIZE && 0 <= c.pc <= FLASH_SIZE
  }

  /** A change of the RAM leaves the stack alone, or there is nothing on it. */
  ghost predicate Respects(m: Machine, ram: Ram) {
    m.stack == [] || (SP(ram) == SP(m.core.ram) && SameFrom(ram, m.core.ram, SP(m.core.ram) + 1))
  }

  // ----- the machine with a separate stack -----

  function Moved(c: Core, bytes: nat): Core {
    c.(ram := WithSP(c.ram, (SP(c.ram) + bytes) % 0x1_0000))
  }

  /** POP: the byte is the one on the separate stack. */
  function Popped(m: Machine, d: nat): Step<Machine>
    requires d < 32
  {
    if m.stack == [] || m.stack[0].ReturnTo? then Outside
    else
      var c := Moved(m.core, 1);
      Ok(Machine(c.(ram := c.ram[d := m.stack[0].value]), m.stack[1..]))
  }

  /** RET and RETI: the address is the one on the separate stack. */
  function Returned(m: Machine, from_irq: bool): Step<Machine> {
    if m.stack == [] || m.stack[0].Pushed? then Outside
    else
      var c :- DoJump(Moved(m.core, 2), m.stack[0].address);
      Ok(Machine(if from_irq then c.(ram := SetI(c.ram, true)) else c, m.stack[1..]))
  }

  /** An instruction, already fetched; Outside when the program misuses its stack: it leaves the SRAM, is
      written past, or holds the wrong kind of thing. */
  ghost function Follow(m: Machine, flash: Flash, op: word, w: World): Step<Machine>
    requires 0 <= m.core.pc
  {
    var c := m.core;
    if IsStackOp(op, false) then Popped(m, op / 16 % 32)
    else if Decode(op) == Ret then Returned(m, op / 16 % 2 == 1)
    else if (IsStackOp(op, true) || IsCall(op)) && !HasRoom(c) then Outside
    else
      var d :- Execute(c, flash, op, w);
      if IsStackOp(op, true) then Ok(Machine(d, [Pushed(c.ram[op / 16 % 32])] + m.stack))
      else if IsCall(op) then Ok(Machine(d, [ReturnTo((c.pc + OperandWords(op)) % 0x1_0000)] + m.stack))
      else if Respects(m, d.ram) then Ok(Machine(d, m.stack))
      else Outside
  }

  ghost function FollowInterrupt(m: Machine): Step<Machine> {
    if !Taken(m.core) then Ok(m)
    else if !HasRoom(m.core) then Outside
    else
      var d :- HandleIrqs(m.core);
      Ok(Machine(d, [ReturnTo(m.core.pc)] + m.stack))
  }

  lemma InterruptInRange(m: Machine)
    requires 0 <= m.core.pc <= FLASH_SIZE
    ensures FollowInterrupt(m).Ok? ==> 0 <= FollowInterrupt(m).value.core.pc <= FLASH_SIZE
  {
    hide SP, BitSet, PushWord, ClaimIrq, SetI;
    ClaimConsumesOne(m.core.ram, 0);
  }

  ghost function FollowAct(m: Machine, flash: Flash, w: World): Step<Machine>
    requires 0 <= m.core.pc <= FLASH_SIZE
  {
    InterruptInRange(m);
    var n :- FollowInterrupt(m);
    if !Respects(n, w.timed) then Outside
    else
      var (op, c) :- Fetch(n.core.(ram := w.timed), flash);
      Follow(Machine(c, n.stack), flash, op, w)
  }

  lemma FollowInRange(m: Machine, flash: Flash, op: word, w: World)
    requires 0 <= m.core.pc <= FLASH_SIZE && Follow(m, flash, op, w).Ok?
    ensures 0 <= Follow(m, flash, op, w).value.core.pc <= FLASH_SIZE
  {
    hide Execute, Decode, Respects, HasRoom, SP, SetI, WithSP, IsCall;
    ExecuteInRange(m.core, flash, op, w);
  }

  lemma ActInRange(m: Machine, flash: Flash, w: World)
    requires 0 <= m.core.pc <= FLASH_SIZE && FollowAct(m, flash, w).Ok?
    ensures 0 <= FollowAct(m, flash, w).value.core.pc <= FLASH_SIZE
  {
    hide Follow, Respects, FollowInterrupt;
    InterruptInRange(m);
    var n := FollowInterrupt(m).value;
    var (op, c) := Fetch(n.core.(ram := w.timed), flash).value;
    FollowInRange(Machine(c, n.stack), flash, op, w);
  }

  ghost function FollowAll(m: Machine, flash: Flash, ws: seq<World>): Step<Machine>
    requires 0 <= m.core.pc <= FLASH_SIZE
    decreases |ws|
  {
    if ws == [] then Ok(m)
    else
      var n :- FollowAct(m, flash, ws[0]);
      ActInRange(m, flash, ws[0]);
      FollowAll(n, flash, ws[1..])
  }

  // ----- the core as it is -----

  function ActAll(c: Core, flash: Flash, ws: seq<World>): Step<Core>
    requires 0 <= c.pc <= FLASH_SIZE
    decreases |ws|
  {
    if ws == [] then Ok(c)
    else
      ActKeepsPc(c, flash, ws[0]);
      var d :- Act(c, flash, ws[0]);
      ActAll(d, flash, ws[1..])
  }

  /** The entries stand in the RAM from just above sp. */
  ghost predicate Standing(ram: Ram, sp: int, stack: seq<Entry>)
    decreases |stack|
  {
    if stack == [] then true
    else match stack[0]
      case Pushed(value) =>
        0x5f <= sp < RAM_SIZE - 1 && ram[sp + 1] == value && Standing(ram, sp + 1, stack[1..])
      case ReturnTo(address) =>
        0x5f <= sp < RAM_SIZE - 2 && Word(ram[sp + 1], ram[sp + 2]) == address && Standing(ram, sp + 2, stack[1..])
  }

  ghost predicate Sound(m: Machine) {
    0 <= m.core.pc <= FLASH_SIZE && Standing(m.core.ram, SP(m.core.ram), m.stack)
  }

  /** The core does what the machine does, which stays sound. */
  ghost predicate Refines(r: Step<Core>, s: Step<Machine>) {
    match s
    case Ok(m) => r == Ok(m.core) && Sound(m)
    case Fail => r == Fail
    case Outside => true
  }

  lemma {:induction false} StandingStays(ram: Ram, ram': Ram, sp: int, stack: seq<Entry>)
    requires Standing(ram, sp, stack) && SameFrom(ram', ram, sp + 1)
    ensures Standing(ram', sp, stack)
    decreases |stack|
  {
    if stack != [] {
      match stack[0]
      case Pushed(_) => StandingStays(ram, ram', sp + 1, stack[1..]);
      case ReturnTo(_) => StandingStays(ram, ram', sp + 2, stack[1..]);
    }
  }

  // ----- one step -----

  lemma PopRefines(m: Machine, d: nat)
    requires Sound(m) && d < 32 && m.stack != [] && m.stack[0].Pushed?
    ensures Refines(PushOrPop(m.core, false, d), Popped(m, d))
  {
    hide SP, WithSP;
    var ram := m.core.ram;
    PopReads(ram);
    RegisterIsNotStack(Pop(ram).value.1, d, m.stack[0].value);
    StandingStays(ram, Popped(m, d).value.core.ram, SP(ram) + 1, m.stack[1..]);
  }

  lemma ReturnRefines(m: Machine, from_irq: bool)
    requires Sound(m) && m.stack != [] && m.stack[0].ReturnTo?
    ensures Refines(Return(m.core, from_irq), Returned(m, from_irq))
  {
    hide SP, WithSP, Word, SetI;
    var ram := m.core.ram;
    PopWordReads(ram);
    PopWordMoves(ram);
    var ram' := WithSP(ram, SP(ram) + 2);
    SetIFrame(ram', true);
    StandingStays(ram, ram', SP(ram) + 2, m.stack[1..]);
    StandingStays(ram, SetI(ram', true), SP(ram) + 2, m.stack[1..]);
  }

  lemma PopWordMoves(ram: Ram)
    requires 0x5f <= SP(ram) < RAM_SIZE - 2
    ensures PopWord(ram).Ok? && PopWord(ram).value.1 == WithSP(ram, SP(ram) + 2)
  {
    hide SP, WithSP;
    SPBack(ram, SP(ram) + 1);
    var m := WithSP(ram, SP(ram) + 1);
    assert Pop(ram).Ok? && Pop(ram).value.1 == m;
    SPBack(m, SP(ram) + 2);
    assert Pop(m).Ok? && Pop(m).value.1 == WithSP(m, SP(ram) + 2);
    hide Pop;
    SPTwice(ram, SP(ram) + 1, SP(ram) + 2);
  }

  lemma SPTwice(ram: Ram, sp: word, sp': word)
    ensures WithSP(WithSP(ram, sp), sp') == WithSP(ram, sp')
  {
    hide LowByte, HighByte;
  }

  lemma PushRefines(m: Machine, d: nat)
    requires Sound(m) && d < 32 && HasRoom(m.core)
    ensures PushOrPop(m.core, true, d).Ok?
    ensures Sound(Machine(PushOrPop(m.core, true, d).value, [Pushed(m.core.ram[d])] + m.stack))
  {
    hide SP, Push;
    var ram := m.core.ram;
    PushWrites(ram, ram[d]);
    StandingStays(ram, Push(ram, ram[d]).value, SP(ram), m.stack);
  }

  /** A frame opened by a call or an interrupt. */
  lemma FrameStands(m: Machine, c: Core)
    requires Sound(m) && HasRoom(m.core) && 0 <= c.pc <= FLASH_SIZE && SP(c.ram) == SP(m.core.ram) - 2
    requires SameFrom(c.ram, m.core.ram, SP(m.core.ram) + 1)
    ensures Sound(Machine(c, [ReturnTo(Word(c.ram[SP(m.core.ram) - 1], c.ram[SP(m.core.ram)]))] + m.stack))
  {
    hide SP, Word;
    StandingStays(m.core.ram, c.ram, SP(m.core.ram), m.stack);
  }

  lemma InterruptRefines(m: Machine)
    requires Sound(m)
    ensures Refines(HandleIrqs(m.core), FollowInterrupt(m))
  {
    hide SP, Word, BitSet, ClaimIrq, HandleIrqs;
    if Taken(m.core) && HasRoom(m.core) {
      IrqEntry(m.core);
      InterruptInRange(m);
      FrameStands(m, HandleIrqs(m.core).value);
    } else if !Taken(m.core) {
      NotTaken(m.core);
    }
  }

  lemma NotTaken(c: Core)
    requires !Taken(c)
    ensures HandleIrqs(c) == Ok(c)
  {
  }

  lemma CallFrame(m: Machine, c: Core, target: int)
    requires Sound(m) && HasRoom(m.core) && c.ram == m.core.ram && 0 <= c.pc <= FLASH_SIZE
    requires Call(c, target).Ok?
    ensures Sound(Machine(Call(c, target).value, [ReturnTo(c.pc)] + m.stack))
  {
    hide SP, Word, PushWord;
    CallPushes(c, target);
    CallStaysInside(c, target);
    FrameStands(m, Call(c, target).value);
  }

  lemma CallRefines(m: Machine, flash: Flash, op: word, w: World)
    requires Sound(m) && HasRoom(m.core) && IsCall(op) && Execute(m.core, flash, op, w).Ok?
    ensures Sound(Machine(Execute(m.core, flash, op, w).value,
                          [ReturnTo((m.core.pc + OperandWords(op)) % 0x1_0000)] + m.stack))
  {
    hide Decode, Call, Sound, HasRoom, Register, SignExtend, SP;
    var c := m.core;
    assert 0 <= c.pc <= FLASH_SIZE by { InRangeIfSound(m); }
    match Decode(op)
    case RelativeJump => CallFrame(m, c, c.pc + SignExtend(op % 0x1000, 0x800));
    case LongJump =>
      var (low, d) := Fetch(c, flash).value;
      CallFrame(m, d, low + 0x1_0000 * (op % 2) + 0x2_0000 * (op / 16 % 32));
    case IndirectJump => CallFrame(m, c, Word(Register(c.ram, 31), Register(c.ram, 30)));
    case _ =>
  }

  lemma InRangeIfSound(m: Machine)
    requires Sound(m)
    ensures 0 <= m.core.pc <= FLASH_SIZE
  {
  }

  lemma RespectedIsSound(m: Machine, d: Core)
    requires Sound(m) && Respects(m, d.ram) && 0 <= d.pc <= FLASH_SIZE
    ensures Sound(Machine(d, m.stack))
  {
    hide SP;
    if m.stack != [] {
      StandingStays(m.core.ram, d.ram, SP(m.core.ram), m.stack);
    }
  }

  lemma FollowRefines(m: Machine, flash: Flash, op: word, w: World)
    requires Sound(m)
    ensures Refines(Execute(m.core, flash, op, w), Follow(m, flash, op, w))
  {
    hide Decode, Popped, Returned, Return, PushOrPop, HasRoom, Respects, Sound, IsCall;
    InRangeIfSound(m);
    var d := op / 16 % 32;
    if IsStackOp(op, false) {
      if Popped(m, d) != Outside { PopNeedsPushed(m, d); PopRefines(m, d); }
    } else if Decode(op) == Ret {
      if Returned(m, op / 16 % 2 == 1) != Outside {
        ReturnNeedsAddress(m, op / 16 % 2 == 1);
        ReturnRefines(m, op / 16 % 2 == 1);
      }
    } else if IsStackOp(op, true) {
      if HasRoom(m.core) { PushRefines(m, d); }
    } else {
      PlainRefines(m, flash, op, w);
    }
  }

  lemma PopNeedsPushed(m: Machine, d: nat)
    requires d < 32 && Popped(m, d) != Outside
    ensures m.stack != [] && m.stack[0].Pushed?
  {
  }

  lemma ReturnNeedsAddress(m: Machine, from_irq: bool)
    requires Returned(m, from_irq) != Outside
    ensures m.stack != [] && m.stack[0].ReturnTo?
  {
  }

  lemma PlainRefines(m: Machine, flash: Flash, op: word, w: World)
    requires Sound(m) && !IsStackOp(op, false) && !IsStackOp(op, true) && Decode(op) != Ret
    ensures Refines(Execute(m.core, flash, op, w), Follow(m, flash, op, w))
  {
    hide Decode, Execute, HasRoom, Respects, Sound, IsCall, IsStackOp;
    InRangeIfSound(m);
    if Execute(m.core, flash, op, w).Ok? {
      var d := Execute(m.core, flash, op, w).value;
      ExecuteInRange(m.core, flash, op, w);
      if IsCall(op) {
        if HasRoom(m.core) { CallRefines(m, flash, op, w); }
      } else if Respects(m, d.ram) {
        RespectedIsSound(m, d);
      }
    }
  }

  lemma ActRefines(m: Machine, flash: Flash, w: World)
    requires Sound(m)
    ensures Refines(Act(m.core, flash, w), FollowAct(m, flash, w))
  {
    hide Execute, Follow, HandleIrqs, FollowInterrupt, Respects, Sound;
    InRangeIfSound(m);
    InterruptInRange(m);
    InterruptRefines(m);
    if FollowInterrupt(m).Ok? {
      var n := FollowInterrupt(m).value;
      if Respects(n, w.timed) {
        var c := n.core.(ram := w.timed);
        RespectedIsSound(n, c);
        if Fetch(c, flash).Ok? {
          var (op, d) := Fetch(c, flash).value;
          FetchKeepsSound(Machine(c, n.stack), d);
          FollowRefines(Machine(d, n.stack), flash, op, w);
        }
      }
    }
  }

  lemma FetchKeepsSound(m: Machine, d: Core)
    requires Sound(m) && d.ram == m.core.ram && 0 <= d.pc <= FLASH_SIZE
    ensures Sound(Machine(d, m.stack))
  {
  }

  /** Whatever program is in the flash, and whatever interrupts it: while it does not misuse its stack, every
      POP yields the byte last pushed and every RET and RETI goes to the address its call or interrupt left,
      so that the core goes exactly the way of the machine that keeps them apart. */
  lemma {:induction false} CoreIsStackMachine(m: Machine, flash: Flash, ws: seq<World>)
    requires Sound(m)
    ensures 0 <= m.core.pc <= FLASH_SIZE
    ensures Refines(ActAll(m.core, flash, ws), FollowAll(m, flash, ws))
    decreases |ws|
  {
    hide Act, FollowAct, Sound;
    InRangeIfSound(m);
    if ws != [] {
      ActRefines(m, flash, ws[0]);
      if FollowAct(m, flash, ws[0]).Ok? {
        CoreIsStackMachine(FollowAct(m, flash, ws[0]).value, flash, ws[1..]);
      }
    }
  }

  /** So it does from reset, when nothing is on the stack. */
  lemma FromResetIsStackMachine(c: Core, flash: Flash, ws: seq<World>)
    requires c.pc == 0
    ensures Refines(ActAll(c, flash, ws), FollowAll(Machine(c, []), flash, ws))
  {
    hide ActAll, FollowAll, Refines;
    assert Sound(Machine(c, []));
    CoreIsStackMachine(Machine(c, []), flash, ws);
  }
}
