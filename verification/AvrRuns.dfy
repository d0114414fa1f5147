/** Runs of well-nested pushes and pops, calls and returns, and interrupts: the stack in RAM behaves as the
    call stack it stands for. */
module AvrRuns {
  import opened Steps
  import opened Bytes
  import opened AvrAlu
  import opened AvrChains
  import opened AvrStack

  /** What a program does, as far as the stack is concerned. */
  datatype Code =
    | Finished
    | Saved(src: nat, dest: nat, inner: Code, rest: Code)     // PUSH, the code inside, POP
    | Subroutine(target: int, inner: Code, rest: Code)        // a call, the callee, RET
    | Polled(inner: Code, rest: Code)                         // _handleIrqs; if it takes one, the handler and RETI
    | Raised(flags: byte, rest: Code)                         // a timer requests interrupts
    | Stored(addr: nat, value: byte, rest: Code)              // a write to a register or to memory
    | PortSet(port: nat, value: byte, rest: Code)             // an I/O register other than SP changes, as SREG does
    | Jumped(address: int, rest: Code)                        // any other move of the program counter

  function Taken(c: Core): bool {
    BitSet(c.ram[SREG], 7) && ClaimIrq(c.ram).0 != 0
  }

  /** An I/O register, the status register among them; SP is moved by the stack operations only. */
  predicate IsPort(port: nat) {
    0x20 <= port < 0x60 && port != SPL && port != SPH
  }

  predicate WellFormed(code: Code) {
    match code
    case Finished => true
    case Saved(src, dest, inner, rest) => src < 32 && dest < 32 && WellFormed(inner) && WellFormed(rest)
    case Subroutine(_, inner, rest) => WellFormed(inner) && WellFormed(rest)
    case Polled(inner, rest) => WellFormed(inner) && WellFormed(rest)
    case Raised(_, rest) => WellFormed(rest)
    case Stored(addr, _, rest) => (addr < 0x20 || 0x60 <= addr < RAM_SIZE) && WellFormed(rest)
    case PortSet(port, _, rest) => IsPort(port) && WellFormed(rest)
    case Jumped(address, rest) => 0 <= address <= FLASH_SIZE && WellFormed(rest)
  }

  function Max(a: nat, b: nat): nat {
    if a < b then b else a
  }

  /** The most bytes of stack in use at once. */
  function Depth(code: Code): nat {
    match code
    case Finished => 0
    case Saved(_, _, inner, rest) => Max(1 + Depth(inner), Depth(rest))
    case Subroutine(_, inner, rest) => Max(2 + Depth(inner), Depth(rest))
    case Polled(inner, rest) => Max(2 + Depth(inner), Depth(rest))
    case Raised(_, rest) => Depth(rest)
    case Stored(_, _, rest) => Depth(rest)
    case PortSet(_, _, rest) => Depth(rest)
    case Jumped(_, rest) => Depth(rest)
  }

  /** Every write goes below this address. */
  predicate WritesBelow(code: Code, low: nat) {
    match code
    case Finished => true
    case Saved(_, _, inner, rest) => WritesBelow(inner, low) && WritesBelow(rest, low)
    case Subroutine(_, inner, rest) => WritesBelow(inner, low) && WritesBelow(rest, low)
    case Polled(inner, rest) => WritesBelow(inner, low) && WritesBelow(rest, low)
    case Raised(_, rest) => WritesBelow(rest, low)
    case Stored(addr, _, rest) => addr < low && WritesBelow(rest, low)
    case PortSet(_, _, rest) => WritesBelow(rest, low)
    case Jumped(_, rest) => WritesBelow(rest, low)
  }

  /** The end of a PUSH ... POP, whose inside ended in d: the popped byte, and the state after it. */
  function Restore(d: Core, dest: nat): Step<(byte, Core)>
    requires dest < 32
  {
    var (value, m) :- Pop(d.ram);
    Ok((value, d.(ram := m[dest := value])))
  }

  /** The run, on the real RAM; and whether every POP gave back the byte its PUSH stored and every return
      went to the instruction after its call, or the one interrupted. */
  function Run(c: Core, code: Code): Step<(Core, bool)>
    requires WellFormed(code)
    decreases code
  {
    match code
    case Finished => Ok((c, true))
    case Saved(src, dest, inner, rest) =>
      var m :- Push(c.ram, c.ram[src]);
      var (d, good) :- Run(c.(ram := m), inner);
      var (value, e) :- Restore(d, dest);
      AndThen(good && value == c.ram[src], Run(e, rest))
    case Subroutine(target, inner, rest) =>
      var m :- Call(c, target);
      var (d, good) :- Run(m, inner);
      var e :- Return(d, false);
      AndThen(good && e.pc == c.pc, Run(e, rest))
    case Polled(inner, rest) =>
      var m :- HandleIrqs(c);
      if !Taken(c) then Run(m, rest)
      else
        var (d, good) :- Run(m, inner);
        var e :- Return(d, true);
        AndThen(good && e.pc == c.pc, Run(e, rest))
    case Raised(flags, rest) => Run(c.(ram := c.ram[TIFR := Or(c.ram[TIFR], flags)]), rest)
    case Stored(addr, value, rest) =>
      var m :- WriteMem(c.ram, addr, value);
      Run(c.(ram := m), rest)
    case PortSet(port, value, rest) => Run(c.(ram := c.ram[port := value]), rest)
    case Jumped(address, rest) => Run(c.(pc := address), rest)
  }

  function AndThen(good: bool, r: Step<(Core, bool)>): Step<(Core, bool)> {
    var (d, also) :- r;
    Ok((d, good && also))
  }

  // ----- one frame -----

  /** d has the stack c has. */
  ghost predicate SameStack(d: Core, c: Core) {
    SP(d.ram) == SP(c.ram) && SameFrom(d.ram, c.ram, SP(c.ram) + 1)
  }

  predicate OnChip(c: Core) {
    0x5f <= SP(c.ram) < RAM_SIZE && 0 <= c.pc <= FLASH_SIZE
  }

  lemma RestoreGivesBack(c: Core, src: nat, dest: nat, d: Core)
    requires OnChip(c) && 0x60 <= SP(c.ram) && src < 32 && dest < 32
    requires Push(c.ram, c.ram[src]).Ok? && SameStack(d, c.(ram := Push(c.ram, c.ram[src]).value))
    ensures Restore(d, dest).Ok?
    ensures var (value, e) := Restore(d, dest).value; value == c.ram[src] && SameStack(e, c) && e.pc == d.pc
  {
    hide SP, Push, Pop;
    PushWrites(c.ram, c.ram[src]);
    PopReads(d.ram);
    RegisterIsNotStack(Pop(d.ram).value.1, dest, Pop(d.ram).value.0);
  }

  lemma RegisterIsNotStack(ram: Ram, dest: nat, value: byte)
    requires dest < 32
    ensures SP(ram[dest := value]) == SP(ram) && SameFrom(ram[dest := value], ram, 0x60)
  {
  }

  lemma CallPushes(c: Core, target: int)
    requires OnChip(c) && 0x61 <= SP(c.ram) && Call(c, target).Ok?
    ensures var m := Call(c, target).value;
            && OnChip(m) && SP(m.ram) == SP(c.ram) - 2
            && Word(m.ram[SP(c.ram) - 1], m.ram[SP(c.ram)]) == c.pc && SameFrom(m.ram, c.ram, SP(c.ram) + 1)
  {
    hide SP, PushWord, LowByte, HighByte, Word;
    PushWordWrites(c.ram, c.pc);
    PartsOfWord(c.pc);
  }

  lemma CallStaysInside(c: Core, target: int)
    requires OnChip(c) && 0x61 <= SP(c.ram)
    ensures !Call(c, target).Outside? && (0 <= target < FLASH_SIZE ==> Call(c, target).Ok?)
    ensures Call(c, target).Ok? ==> Call(c, target).value.pc == target < FLASH_SIZE
  {
    hide SP, PushWord;
    PushWordWrites(c.ram, c.pc);
  }

  /** A return into the frame of m, which a call or an interrupt from c opened. */
  lemma ReturnLands(c: Core, m: Core, d: Core, from_irq: bool)
    requires OnChip(c) && 0x61 <= SP(c.ram)
    requires SP(m.ram) == SP(c.ram) - 2 && Word(m.ram[SP(c.ram) - 1], m.ram[SP(c.ram)]) == c.pc
    requires SameFrom(m.ram, c.ram, SP(c.ram) + 1) && SameStack(d, m)
    ensures !Return(d, from_irq).Outside? && (c.pc < FLASH_SIZE ==> Return(d, from_irq).Ok?)
    ensures Return(d, from_irq).Ok? ==> Return(d, from_irq).value.pc == c.pc && SameStack(Return(d, from_irq).value, c)
  {
    hide SP, PopWord, SetI, Word;
    PopWordReads(d.ram);
    var m' := PopWord(d.ram).value.1;
    SetIFrame(m', true);
  }

  lemma StoreBelow(c: Core, addr: nat, value: byte)
    requires OnChip(c) && addr <= SP(c.ram) && (addr < 0x20 || 0x60 <= addr < RAM_SIZE)
    ensures WriteMem(c.ram, addr, value).Ok? && SameStack(c.(ram := WriteMem(c.ram, addr, value).value), c)
  {
  }

  lemma PortIsNotStack(c: Core, port: nat, value: byte)
    requires OnChip(c) && IsPort(port)
    ensures SameStack(c.(ram := c.ram[port := value]), c)
  {
  }

  lemma SameStackChains(e: Core, d: Core, c: Core)
    requires SameStack(e, d) && SameStack(d, c)
    ensures SameStack(e, c)
  {
    hide SP;
  }

  /** The room a run needs: its own writes and its stack do not meet. */
  predicate Room(c: Core, code: Code, low: nat) {
    OnChip(c) && 0x60 <= low && WritesBelow(code, low) && low + Depth(code) <= SP(c.ram) + 1
  }

  /** Every jump and call of the code goes to program memory. */
  predicate InFlash(code: Code) {
    match code
    case Finished => true
    case Saved(_, _, inner, rest) => InFlash(inner) && InFlash(rest)
    case Subroutine(target, inner, rest) => 0 <= target < FLASH_SIZE && InFlash(inner) && InFlash(rest)
    case Polled(inner, rest) => InFlash(inner) && InFlash(rest)
    case Raised(_, rest) => InFlash(rest)
    case Stored(_, _, rest) => InFlash(rest)
    case PortSet(_, _, rest) => InFlash(rest)
    case Jumped(address, rest) => address < FLASH_SIZE && InFlash(rest)
  }

  /** What a run from c establishes: only a jump out of the program memory can stop it. */
  ghost predicate Restores(c: Core, code: Code, r: Step<(Core, bool)>) {
    && !r.Outside?
    && (r.Ok? ==> r.value.1 && SameStack(r.value.0, c) && OnChip(r.value.0))
    && (InFlash(code) && c.pc < FLASH_SIZE ==> r.Ok? && r.value.0.pc < FLASH_SIZE)
  }

  lemma SavedRestores(c: Core, code: Code, low: nat)
    requires WellFormed(code) && code.Saved? && Room(c, code, low)
    requires forall d :: Room(d, code.inner, low) ==> Restores(d, code.inner, Run(d, code.inner))
    requires forall d :: Room(d, code.rest, low) ==> Restores(d, code.rest, Run(d, code.rest))
    ensures Restores(c, code, Run(c, code))
  {
    hide SP, Push, Restore, SameFrom, Depth, WritesBelow, SameStack;
    PushWrites(c.ram, c.ram[code.src]) by { RoomInside(c, code, low); }
    RoomInside(c, code, low);
    var m := c.(ram := Push(c.ram, c.ram[code.src]).value);
    assert Restores(m, code.inner, Run(m, code.inner));
    if Run(m, code.inner).Ok? {
      var d := Run(m, code.inner).value.0;
      RestoreGivesBack(c, code.src, code.dest, d);
      var e := Restore(d, code.dest).value.1;
      SameSP(e, c);
      assert Restores(e, code.rest, Run(e, code.rest));
      if Run(e, code.rest).Ok? {
        SameStackChains(Run(e, code.rest).value.0, e, c);
      }
    }
  }

  lemma SameSP(e: Core, c: Core)
    requires SameStack(e, c)
    ensures SP(e.ram) == SP(c.ram)
  {
  }

  lemma RoomInside(c: Core, code: Code, low: nat)
    requires Room(c, code, low)
    ensures code.Saved? ==> 0x60 <= SP(c.ram) && low + Depth(code.inner) <= SP(c.ram)
    ensures code.Subroutine? || code.Polled? ==> 0x61 <= SP(c.ram) && low + Depth(code.inner) <= SP(c.ram) - 1
    ensures code.Saved? || code.Subroutine? || code.Polled? ==> WritesBelow(code.inner, low)
    ensures !code.Finished? ==> WritesBelow(code.rest, low) && low + Depth(code.rest) <= SP(c.ram) + 1
  {
    hide SP;
  }

  lemma SubroutineRestores(c: Core, code: Code, low: nat)
    requires WellFormed(code) && code.Subroutine? && Room(c, code, low)
    requires forall d :: Room(d, code.inner, low) ==> Restores(d, code.inner, Run(d, code.inner))
    requires forall d :: Room(d, code.rest, low) ==> Restores(d, code.rest, Run(d, code.rest))
    ensures Restores(c, code, Run(c, code))
  {
    hide SP, Call, Return, SameFrom, Depth, WritesBelow, SameStack;
    RoomInside(c, code, low);
    CallStaysInside(c, code.target);
    if Call(c, code.target).Ok? {
      CallPushes(c, code.target);
      var m := Call(c, code.target).value;
      assert Restores(m, code.inner, Run(m, code.inner));
      if Run(m, code.inner).Ok? {
        var d := Run(m, code.inner).value.0;
        ReturnLands(c, m, d, false);
        AfterReturn(c, Return(d, false), code.rest, low);
      }
    }
  }

  lemma AfterReturn(c: Core, r: Step<Core>, rest: Code, low: nat)
    requires OnChip(c) && 0x60 <= low && WellFormed(rest) && WritesBelow(rest, low)
             && low + Depth(rest) <= SP(c.ram) + 1
    requires forall d :: Room(d, rest, low) ==> Restores(d, rest, Run(d, rest))
    requires r.Ok? ==> r.value.pc == c.pc && SameStack(r.value, c)
    ensures r.Ok? ==> Restores(c, rest, AndThen(true, Run(r.value, rest)))
  {
    hide SP, SameFrom, Depth, WritesBelow, SameStack, Run;
    if r.Ok? {
      SameSP(r.value, c);
      assert Restores(r.value, rest, Run(r.value, rest));
      if Run(r.value, rest).Ok? {
        SameStackChains(Run(r.value, rest).value.0, r.value, c);
      }
    }
  }

  lemma PolledRestores(c: Core, code: Code, low: nat)
    requires WellFormed(code) && code.Polled? && Room(c, code, low)
    requires forall d :: Room(d, code.inner, low) ==> Restores(d, code.inner, Run(d, code.inner))
    requires forall d :: Room(d, code.rest, low) ==> Restores(d, code.rest, Run(d, code.rest))
    ensures Restores(c, code, Run(c, code))
  {
    hide SP, HandleIrqs, Return, SameFrom, Depth, WritesBelow, SameStack, ClaimIrq, BitSet, Word;
    RoomInside(c, code, low);
    IrqEntry(c);
    var m := HandleIrqs(c).value;
    if !Taken(c) {
      assert Restores(m, code.rest, Run(m, code.rest));
    } else {
      VectorOnChip(c);
      assert Restores(m, code.inner, Run(m, code.inner));
      if Run(m, code.inner).Ok? {
        var d := Run(m, code.inner).value.0;
        ReturnLands(c, m, d, true);
        AfterReturn(c, Return(d, true), code.rest, low);
      }
    }
  }

  lemma VectorOnChip(c: Core)
    ensures 0 <= ClaimIrq(c.ram).0 <= 17
  {
    ClaimConsumesOne(c.ram, 0);
  }

  lemma PlainRestores(c: Core, code: Code, low: nat)
    requires WellFormed(code) && (code.Raised? || code.Stored? || code.PortSet? || code.Jumped?) && Room(c, code, low)
    requires forall d :: Room(d, code.rest, low) ==> Restores(d, code.rest, Run(d, code.rest))
    ensures Restores(c, code, Run(c, code))
  {
    hide SP, SameFrom, Depth, SameStack, Or, WriteMem;
    RoomInside(c, code, low);
    var d := match code
             case Raised(flags, _) => c.(ram := c.ram[TIFR := Or(c.ram[TIFR], flags)])
             case Stored(addr, value, _) => (StoreBelow(c, addr, value); c.(ram := WriteMem(c.ram, addr, value).value))
             case PortSet(port, value, _) => c.(ram := c.ram[port := value])
             case Jumped(address, _) => c.(pc := address);
    if code.Raised? {
      PortIsNotStack(c, TIFR, Or(c.ram[TIFR], code.flags));
    } else if code.PortSet? {
      PortIsNotStack(c, code.port, code.value);
    } else if code.Jumped? {
      RaiseNothing(c, d);
    }
    SameSP(d, c);
    assert Restores(d, code.rest, Run(d, code.rest));
    if Run(d, code.rest).Ok? {
      SameStackChains(Run(d, code.rest).value.0, d, c);
    }
  }

  lemma RaiseNothing(c: Core, d: Core)
    requires d.ram == c.ram
    ensures SameStack(d, c)
  {
  }

  /** For every well-nested run whose own writes stay below its stack: no stack access leaves the SRAM, each
      POP gives back what its PUSH stored, each RET and RETI lands on its matching return address, and the
      stack is left as it was; only a jump out of the program memory can stop it. */
  lemma {:induction false} NestedRunsRestore(c: Core, code: Code, low: nat)
    requires WellFormed(code) && Room(c, code, low)
    ensures Restores(c, code, Run(c, code))
    decreases code
  {
    hide Run, Room, Restores;
    if code == Finished {
      FinishedRestores(c, low);
    } else {
      forall d | Room(d, code.rest, low)
        ensures Restores(d, code.rest, Run(d, code.rest))
      {
        NestedRunsRestore(d, code.rest, low);
      }
      if code.Saved? || code.Subroutine? || code.Polled? {
        forall d | Room(d, code.inner, low)
          ensures Restores(d, code.inner, Run(d, code.inner))
        {
          NestedRunsRestore(d, code.inner, low);
        }
        if code.Saved? {
          SavedRestores(c, code, low);
        } else if code.Subroutine? {
          SubroutineRestores(c, code, low);
        } else {
          PolledRestores(c, code, low);
        }
      } else {
        PlainRestores(c, code, low);
      }
    }
  }

  lemma FinishedRestores(c: Core, low: nat)
    requires Room(c, Finished, low)
    ensures Restores(c, Finished, Run(c, Finished))
  {
  }

  // ----- the I flag -----

  /** Nothing in the code sets the I flag, its interrupt handlers aside. */
  predicate KeepsMasked(code: Code) {
    match code
    case Finished => true
    case Saved(_, _, inner, rest) => KeepsMasked(inner) && KeepsMasked(rest)
    case Subroutine(_, inner, rest) => KeepsMasked(inner) && KeepsMasked(rest)
    case Polled(_, rest) => KeepsMasked(rest)
    case Raised(_, rest) => KeepsMasked(rest)
    case Stored(_, _, rest) => KeepsMasked(rest)
    case PortSet(port, value, rest) => (port == SREG ==> !BitSet(value, 7)) && KeepsMasked(rest)
    case Jumped(_, rest) => KeepsMasked(rest)
  }

  /** The same code on a chip without interrupts. */
  function Unpolled(code: Code): Code {
    match code
    case Finished => Finished
    case Saved(src, dest, inner, rest) => Saved(src, dest, Unpolled(inner), Unpolled(rest))
    case Subroutine(target, inner, rest) => Subroutine(target, Unpolled(inner), Unpolled(rest))
    case Polled(_, rest) => Unpolled(rest)
    case Raised(flags, rest) => Raised(flags, Unpolled(rest))
    case Stored(addr, value, rest) => Stored(addr, value, Unpolled(rest))
    case PortSet(port, value, rest) => PortSet(port, value, Unpolled(rest))
    case Jumped(address, rest) => Jumped(address, Unpolled(rest))
  }

  lemma PushKeepsFlags(ram: Ram, value: byte)
    ensures Push(ram, value).Ok? ==> Push(ram, value).value[SREG] == ram[SREG]
  {
    hide SP;
  }

  lemma PopKeepsFlags(ram: Ram)
    ensures Pop(ram).Ok? ==> Pop(ram).value.1[SREG] == ram[SREG]
  {
    hide SP;
  }

  lemma CallKeepsFlags(c: Core, target: int)
    ensures Call(c, target).Ok? ==> Call(c, target).value.ram[SREG] == c.ram[SREG]
  {
    hide Push;
    var low := c.pc % 0x1_0000;
    PushKeepsFlags(c.ram, LowByte(low));
    if Push(c.ram, LowByte(low)).Ok? {
      PushKeepsFlags(Push(c.ram, LowByte(low)).value, HighByte(low));
    }
  }

  lemma ReturnKeepsFlags(c: Core)
    ensures Return(c, false).Ok? ==> Return(c, false).value.ram[SREG] == c.ram[SREG]
  {
    hide Pop;
    PopKeepsFlags(c.ram);
    if Pop(c.ram).Ok? {
      PopKeepsFlags(Pop(c.ram).value.1);
    }
  }

  /** Until code sets the I flag again, a run with interrupts is the run without them, whatever is pending. */
  lemma {:induction false} MaskedRunsTakeNone(c: Core, code: Code)
    requires WellFormed(code) && KeepsMasked(code) && !BitSet(c.ram[SREG], 7)
    ensures WellFormed(Unpolled(code)) && Run(c, code) == Run(c, Unpolled(code))
    ensures Run(c, code).Ok? ==> !BitSet(Run(c, code).value.0.ram[SREG], 7)
    decreases code
  {
    hide BitSet, Push, Pop, Call, Return, HandleIrqs, Or;
    match code
    case Finished =>
    case Saved(src, dest, inner, rest) =>
      UnpolledIsWellFormed(code);
      PushKeepsFlags(c.ram, c.ram[src]);
      if Push(c.ram, c.ram[src]).Ok? {
        var m := c.(ram := Push(c.ram, c.ram[src]).value);
        MaskedRunsTakeNone(m, inner);
        if Run(m, inner).Ok? {
          var d := Run(m, inner).value.0;
          PopKeepsFlags(d.ram);
          if Restore(d, dest).Ok? {
            MaskedRunsTakeNone(Restore(d, dest).value.1, rest);
          }
        }
      }
    case Subroutine(target, inner, rest) =>
      UnpolledIsWellFormed(code);
      CallKeepsFlags(c, target);
      if Call(c, target).Ok? {
        var m := Call(c, target).value;
        MaskedRunsTakeNone(m, inner);
        if Run(m, inner).Ok? {
          var d := Run(m, inner).value.0;
          ReturnKeepsFlags(d);
          if Return(d, false).Ok? {
            MaskedRunsTakeNone(Return(d, false).value, rest);
          }
        }
      }
    case Polled(_, rest) =>
      NoPollMasked(c);
      MaskedRunsTakeNone(c, rest);
    case Raised(flags, rest) => MaskedRunsTakeNone(c.(ram := c.ram[TIFR := Or(c.ram[TIFR], flags)]), rest);
    case Stored(addr, value, rest) => MaskedRunsTakeNone(c.(ram := c.ram[addr := value]), rest);
    case PortSet(port, value, rest) => MaskedRunsTakeNone(c.(ram := c.ram[port := value]), rest);
    case Jumped(address, rest) => MaskedRunsTakeNone(c.(pc := address), rest);
  }

  /** So a handler that leaves the I flag alone runs to its end without another interrupt. */
  lemma NoneWhileMasked(c: Core, handler: Code)
    requires 0x61 <= SP(c.ram) < RAM_SIZE && 0 <= c.pc <= FLASH_SIZE && Taken(c)
    requires WellFormed(handler) && KeepsMasked(handler)
    ensures HandleIrqs(c).Ok? && WellFormed(Unpolled(handler))
    ensures Run(HandleIrqs(c).value, handler) == Run(HandleIrqs(c).value, Unpolled(handler))
  {
    hide BitSet, Run, HandleIrqs;
    IrqEntry(c);
    MaskedRunsTakeNone(HandleIrqs(c).value, handler);
  }

  lemma NoPollMasked(c: Core)
    requires !BitSet(c.ram[SREG], 7)
    ensures HandleIrqs(c) == Ok(c) && !Taken(c)
  {
  }

  lemma UnpolledIsWellFormed(code: Code)
    requires WellFormed(code)
    ensures WellFormed(Unpolled(code))
  {
  }

  /** What is pending when a handler is entered is what the claim left. */
  lemma HandlerRegisters(c: Core, sreg: byte, v: nat)
    requires 0x61 <= SP(c.ram) < RAM_SIZE && 0 <= c.pc <= FLASH_SIZE && Taken(c) && HandleIrqs(c).Ok?
    ensures Pending(HandleIrqs(c).value.ram[SREG := sreg], v) == Pending(ClaimIrq(c.ram).1, v)
  {
    hide BitSet, ClaimIrq, SP, HandleIrqs;
    IrqFrame(c, TIFR);
    IrqFrame(c, TIMSK);
    IrqFrame(c, ADCSRA);
  }

  /** A handler that sets the I flag can itself be interrupted: by the lowest of what is still pending. */
  lemma HandlerIsInterrupted(c: Core, sreg: byte, v: nat)
    requires 0x61 <= SP(c.ram) < RAM_SIZE && 0 <= c.pc <= FLASH_SIZE && Taken(c)
    requires Pending(c.ram, v) && v != ClaimIrq(c.ram).0 && BitSet(sreg, 7)
    ensures HandleIrqs(c).Ok?
    ensures var d := HandleIrqs(c).value; var e := d.(ram := d.ram[SREG := sreg]);
            Taken(e) && ClaimIrq(c.ram).0 < ClaimIrq(e.ram).0 <= v && Pending(c.ram, ClaimIrq(e.ram).0)
  {
    hide BitSet, ClaimIrq, SP, HandleIrqs, Pending;
    IrqEntry(c);
    var d := HandleIrqs(c).value;
    var e := d.(ram := d.ram[SREG := sreg]);
    HandlerRegisters(c, sreg, v);
    PendingAfterClaim(c.ram, v);
    ClaimsLowest(e.ram, v);
    HandlerRegisters(c, sreg, ClaimIrq(e.ram).0);
    PendingAfterClaim(c.ram, ClaimIrq(e.ram).0);
    ClaimsLowest(c.ram, ClaimIrq(e.ram).0);
  }
}
