/** Multi-byte arithmetic as it stands in flash: sequences of ADD and ADC, SUB and SBC, CP and CPC. */
module AvrPrograms {
  import opened Steps
  import opened Bytes
  import opened AvrAlu
  import opened AvrChains
  import opened AvrStack
  import opened AvrDecode

  /** Instructions executed one after the other. */
  function CoreSteps(c: Core, flash: Flash, ws: seq<World>): (r: Step<Core>)
    requires 0 <= c.pc <= FLASH_SIZE
    ensures r.Ok? ==> 0 <= r.value.pc <= FLASH_SIZE
  {
    if ws == [] then Ok(c)
    else
      var n := |ws| - 1;
      var d :- CoreSteps(c, flash, ws[..n]);
      StepInRange(d, flash, ws[n]);
      CoreStep(d, flash, ws[n])
  }

  lemma StepInRange(c: Core, flash: Flash, w: World)
    requires 0 <= c.pc <= FLASH_SIZE
    ensures InRange(CoreStep(c, flash, w))
  {
    hide Execute;
    if c.pc < FLASH_SIZE {
      var (op, d) := Fetch(c, flash).value;
      ExecuteInRange(d, flash, op, w);
    }
  }

  /** The two-register instruction with operation number k: 1 CPC, 2 SBC, 3 ADD, 5 CP, 6 SUB, 7 ADC. */
  function RegRegOpcode(k: nat, d: nat, s: nat): word
    requires k in {1, 2, 3, 5, 6, 7} && d < 32 && s < 32
  {
    0x400 * k + 0x200 * (s / 16) + 0x10 * d + s % 16
  }

  lemma OpcodeFields(k: nat, d: nat, s: nat)
    requires k in {1, 2, 3, 5, 6, 7} && d < 32 && s < 32
    ensures var op := RegRegOpcode(k, d, s);
            Decode(op) == RegReg && op / 0x400 == k && op / 16 % 32 == d && SourceRegister(op) == s
  {
    hide Decode;
    PackedFields(2 * k + s / 16, d, s % 16);
    RegRegRange(RegRegOpcode(k, d, s));
  }

  lemma PackedFields(e: nat, d: nat, r: nat)
    requires d < 32 && r < 16
    ensures var op := 0x200 * e + 0x10 * d + r;
            op / 0x200 == e && op / 0x400 == e / 2 && op / 16 % 32 == d && op % 16 == r
  {
    var op := 0x200 * e + 0x10 * d + r;
    assert op / 16 == 32 * e + d && op % 16 == r;
    assert op / 0x200 == e;
  }

  lemma RegRegRange(op: word)
    requires 0x400 <= op <= 0x2fff
    ensures Decode(op) == RegReg
  {
  }

  /** One of them executed from flash. */
  lemma ArithmeticStep(c: Core, flash: Flash, w: World, k: nat, d: nat, s: nat)
    requires 0 <= c.pc < FLASH_SIZE && k in {1, 2, 3, 5, 6, 7} && d < 32 && s < 32
    requires flash[c.pc] == RegRegOpcode(k, d, s)
    ensures CoreStep(c, flash, w) ==
            Ok(c.(ram := if k in {3, 7} then DoAdd(c.ram, d, c.ram[s], k == 7)
                         else DoCpOrSub(c.ram, d, c.ram[s], k <= 2, k % 2 == 0),
                  pc := c.pc + 1, fetched := c.fetched + 1))
  {
    hide Decode, DoAdd, DoCpOrSub, SourceRegister, RegRegOpcode;
    OpcodeFields(k, d, s);
  }

  /** ADD d0,s0; ADC d1,s1; ... stand in the flash from pc on. */
  predicate AddsAt(flash: Flash, pc: nat, ds: seq<nat>, ss: seq<nat>)
    requires Operands(ds, ss)
  {
    pc + |ds| <= FLASH_SIZE
    && forall i :: 0 <= i < |ds| ==> flash[pc + i] == RegRegOpcode(if i > 0 then 7 else 3, ds[i], ss[i])
  }

  /** SUB and SBCs, or CP and CPCs. */
  predicate SubsAt(flash: Flash, pc: nat, ds: seq<nat>, ss: seq<nat>, store: bool)
    requires Operands(ds, ss)
  {
    pc + |ds| <= FLASH_SIZE
    && forall i :: 0 <= i < |ds| ==>
         flash[pc + i] == RegRegOpcode((if i > 0 then 1 else 5) + (if store then 1 else 0), ds[i], ss[i])
  }

  lemma {:induction false} AddsRun(c: Core, flash: Flash, ws: seq<World>, ds: seq<nat>, ss: seq<nat>)
    requires 0 <= c.pc <= FLASH_SIZE && Operands(ds, ss) && AddsAt(flash, c.pc, ds, ss) && |ws| == |ds|
    ensures CoreSteps(c, flash, ws) ==
            Ok(c.(ram := AddChain(c.ram, ds, ss), pc := c.pc + |ds|, fetched := c.fetched + |ds|))
  {
    hide DoAdd, CoreStep, RegRegOpcode;
    if ds != [] {
      var n := |ds| - 1;
      AddsRun(c, flash, ws[..n], ds[..n], ss[..n]);
      ArithmeticStep(CoreSteps(c, flash, ws[..n]).value, flash, ws[n], if n > 0 then 7 else 3, ds[n], ss[n]);
    }
  }

  lemma {:induction false} SubsRun(c: Core, flash: Flash, ws: seq<World>, ds: seq<nat>, ss: seq<nat>, store: bool)
    requires 0 <= c.pc <= FLASH_SIZE && Operands(ds, ss) && SubsAt(flash, c.pc, ds, ss, store) && |ws| == |ds|
    ensures CoreSteps(c, flash, ws) ==
            Ok(c.(ram := SubChain(c.ram, ds, ss, store), pc := c.pc + |ds|, fetched := c.fetched + |ds|))
  {
    hide DoCpOrSub, CoreStep, RegRegOpcode;
    if ds != [] {
      var n := |ds| - 1;
      SubsRun(c, flash, ws[..n], ds[..n], ss[..n], store);
      ArithmeticStep(CoreSteps(c, flash, ws[..n]).value, flash, ws[n],
                     (if n > 0 then 1 else 5) + (if store then 1 else 0), ds[n], ss[n]);
    }
  }

  /** Executed from flash, ADD and ADCs add two numbers of any width in place: the carry out is in C, signed
      overflow in V, the sign of the true sum in S, and no other byte has changed. */
  lemma ProgramAdds(c: Core, flash: Flash, ws: seq<World>, ds: seq<nat>, ss: seq<nat>)
    requires 0 <= c.pc <= FLASH_SIZE && Operands(ds, ss) && ds != [] && AddsAt(flash, c.pc, ds, ss) && |ws| == |ds|
    ensures CoreSteps(c, flash, ws).Ok?
    ensures var d := CoreSteps(c, flash, ws).value;
            var (g, a, b) := (FlagsOf(d.ram[SREG]), At(c.ram, ds), At(c.ram, ss));
            && d.pc == c.pc + |ds|
            && Value(At(d.ram, ds)) + Pow256(|ds|) * Bit(g.c) == Value(a) + Value(b)
            && (g.v <==> !FitsSigned(SignedValue(a) + SignedValue(b), |ds|))
            && (g.s <==> SignedValue(a) + SignedValue(b) < 0)
            && OnlyChanged(d.ram, c.ram, ds)
  {
    hide *;
    AddsRun(c, flash, ws, ds, ss);
    AddChainAdds(c.ram, ds, ss);
  }

  /** SUB and SBCs subtract, and CP and CPCs compare without changing a register: C is unsigned less, Z equal, S
      signed less and V signed overflow. */
  lemma ProgramCompares(c: Core, flash: Flash, ws: seq<World>, ds: seq<nat>, ss: seq<nat>, store: bool)
    requires 0 <= c.pc <= FLASH_SIZE && Operands(ds, ss) && ds != [] && |ws| == |ds|
    requires SubsAt(flash, c.pc, ds, ss, store)
    ensures CoreSteps(c, flash, ws).Ok?
    ensures var d := CoreSteps(c, flash, ws).value;
            var (g, a, b) := (FlagsOf(d.ram[SREG]), At(c.ram, ds), At(c.ram, ss));
            && d.pc == c.pc + |ds|
            && (g.c <==> Value(a) < Value(b)) && (g.z <==> a == b)
            && (g.s <==> SignedValue(a) < SignedValue(b))
            && (g.v <==> !FitsSigned(SignedValue(a) - SignedValue(b), |ds|))
            && (store ==> Value(At(d.ram, ds)) == Value(a) - Value(b) + Pow256(|ds|) * Bit(g.c))
            && OnlyChanged(d.ram, c.ram, if store then ds else [])
  {
    hide *;
    SubsRun(c, flash, ws, ds, ss, store);
    SubChainCompares(c.ram, ds, ss, store);
  }
}
