/** Timer 1 and its prescaler, after src/devices/atmega32/aspects/timers.cpp. */
module AvrTimer {
  import opened Steps
  import opened Bytes
  import opened BitMasks
  import opened Division
  import opened AvrChains
  import opened AvrStack

  const ICR1L := 0x46
  const OCR1AL := 0x4a
  const TCNT1L := 0x4c
  const TCCR1B := 0x4e
  const TCCR1A := 0x4f
  const OCF1A := 4
  const TOV1 := 2

  function PrescalerBit(clksel: nat): nat {
    match clksel
    case 1 => 1
    case 2 => 8
    case 3 => 64
    case 4 => 256
    case 5 => 1024
    case _ => 0
  }

  /** The prescaler steps from x, and the bit of weight p changes with it. */
  predicate Toggles(x: nat, p: nat) {
    BitAnd(BitXor(x + 1, x), p) != 0
  }

  function Get16(ram: Ram, port: nat): word
    requires port < 0x85f
  {
    Word(ram[port + 1], ram[port])
  }

  function Put16(ram: Ram, port: nat, value: word): Ram
    requires port < 0x85f
  {
    ram[port := LowByte(value)][port + 1 := HighByte(value)]
  }

  function Wgm(ram: Ram): nat {
    ram[TCCR1B] / 8 % 4 * 4 + ram[TCCR1A] % 4
  }

  function Top(ram: Ram): word {
    Get16(ram, if Wgm(ram) == 4 then OCR1AL else ICR1L)
  }

  /** The RAM, the prescaler, and how often each interrupt was triggered. */
  datatype Timer = Timer(ram: Ram, prescaler: nat, compares: nat, overflows: nat)

  function Trigger(ram: Ram, bit: nat): Ram
    requires bit < 8
  {
    ram[TIFR := WithBit(ram[TIFR], bit, true)]
  }

  /** _timer1Tick. */
  function Tick(t: Timer): Step<Timer> {
    if Wgm(t.ram) !in {0, 4, 12} then Fail
    else
      var tcnt := Get16(t.ram, TCNT1L);
      if Wgm(t.ram) != 0 && tcnt == Top(t.ram) then
        Ok(t.(ram := Put16(Trigger(t.ram, OCF1A), TCNT1L, 0), compares := t.compares + 1))
      else if tcnt == 0xffff then
        Ok(t.(ram := Put16(Trigger(t.ram, TOV1), TCNT1L, 0), overflows := t.overflows + 1))
      else Ok(t.(ram := Put16(t.ram, TCNT1L, tcnt + 1)))
  }

  /** The part of _runTimers that concerns timer 1. */
  function Cycle(t: Timer): Step<Timer> {
    var u := t.(prescaler := t.prescaler + 1);
    if Toggles(t.prescaler, PrescalerBit(t.ram[TCCR1B] % 8)) then Tick(u) else Ok(u)
  }

  /** With the prescaler at x the timer ticks. */
  predicate TicksAt(clksel: nat, x: nat) {
    || clksel == 1
    || (clksel == 2 && x % 8 == 0)
    || (clksel == 3 && x % 64 == 0)
    || (clksel == 4 && x % 256 == 0)
    || (clksel == 5 && x % 1024 == 0)
  }

  function Cycles(t: Timer, n: nat): Step<Timer> {
    if n == 0 then Ok(t)
    else
      var u :- Cycles(t, n - 1);
      Cycle(u)
  }

  // ----- closed form -----

  /** Ticks in n cycles: the XOR test is division by the prescale. */
  function TicksIn(x: nat, p: nat, n: nat): int
    requires p > 0
  {
    (x + n) / p - x / p
  }

  lemma TogglesIsDivision(x: nat, p: nat)
    requires p in {1, 8, 64, 256, 1024}
    ensures Toggles(x, p) <==> (x + 1) % p == 0
    ensures (x + 1) / p == x / p + if Toggles(x, p) then 1 else 0
  {
    hide BitAnd, BitXor, PowerOfTwo;
    PrescalesArePowers(p);
    BitTurnsIff(x, p);
  }

  lemma PrescalesArePowers(p: nat)
    requires p in {1, 8, 64, 256, 1024}
    ensures PowerOfTwo(p)
  {
    assert PowerOfTwo(8) && PowerOfTwo(16) && PowerOfTwo(64) && PowerOfTwo(128) && PowerOfTwo(512);
  }

  /** In normal mode, and in a compare mode from a count not past the top: a counter modulo its top plus one. */
  predicate Counting(ram: Ram) {
    Wgm(ram) == 0 || (Wgm(ram) in {4, 12} && Get16(ram, TCNT1L) <= Top(ram))
  }

  function Modulus(ram: Ram): nat {
    if Wgm(ram) == 0 then 0x1_0000 else 1 + Top(ram) as nat
  }

  /** A tick writes the counter and the flag register only. */
  ghost predicate Configured(m: Ram, ram: Ram) {
    forall k :: 0 <= k < RAM_SIZE && k != TCNT1L && k != TCNT1L + 1 && k != TIFR ==> m[k] == ram[k]
  }

  lemma SameSettings(m: Ram, ram: Ram)
    requires Configured(m, ram)
    ensures Wgm(m) == Wgm(ram) && Top(m) == Top(ram) && m[TCCR1B] == ram[TCCR1B] && Modulus(m) == Modulus(ram)
  {
    assert m[TCCR1B] == ram[TCCR1B] && m[TCCR1A] == ram[TCCR1A];
    assert m[OCR1AL] == ram[OCR1AL] && m[OCR1AL + 1] == ram[OCR1AL + 1];
    assert m[ICR1L] == ram[ICR1L] && m[ICR1L + 1] == ram[ICR1L + 1];
  }

  lemma PutGet(ram: Ram, value: word)
    ensures Get16(Put16(ram, TCNT1L, value), TCNT1L) == value
    ensures Configured(Put16(ram, TCNT1L, value), ram) && Put16(ram, TCNT1L, value)[TIFR] == ram[TIFR]
  {
    PartsOfWord(value);
  }

  lemma ConfiguredChains(a: Ram, b: Ram, c: Ram)
    requires Configured(a, b) && Configured(b, c)
    ensures Configured(a, c)
  {
  }

  /** One tick of a counter: it steps, or returns to zero and triggers. */
  lemma TickCounts(t: Timer)
    requires Wgm(t.ram) in {0, 4, 12}
    ensures Tick(t).Ok?
    ensures var (u, c) := (Tick(t).value, Get16(t.ram, TCNT1L));
            var match_top := Wgm(t.ram) != 0 && c == Top(t.ram);
            && Configured(u.ram, t.ram) && u.prescaler == t.prescaler
            && Get16(u.ram, TCNT1L) as nat == (if match_top || c == 0xffff then 0 else c as nat + 1)
            && u.compares == t.compares + (if match_top then 1 else 0)
            && u.overflows == t.overflows + (if !match_top && c == 0xffff then 1 else 0)
            && u.ram[TIFR] == if match_top then WithBit(t.ram[TIFR], OCF1A, true)
                              else if c == 0xffff then WithBit(t.ram[TIFR], TOV1, true) else t.ram[TIFR]
  {
    hide Wgm, Top, Get16, Put16, Configured, WithBit;
    var c := Get16(t.ram, TCNT1L);
    PutGet(Trigger(t.ram, OCF1A), 0);
    PutGet(Trigger(t.ram, TOV1), 0);
    PutGet(t.ram, if c < 0xffff then c + 1 else c);
    ConfiguredChains(Put16(Trigger(t.ram, OCF1A), TCNT1L, 0), Trigger(t.ram, OCF1A), t.ram);
    ConfiguredChains(Put16(Trigger(t.ram, TOV1), TCNT1L, 0), Trigger(t.ram, TOV1), t.ram);
  }

  /** How far a run of n cycles from t takes the count. */
  function Reached(t: Timer, n: nat): int
    requires PrescalerBit(t.ram[TCCR1B] % 8) > 0
  {
    Get16(t.ram, TCNT1L) as int + TicksIn(t.prescaler, PrescalerBit(t.ram[TCCR1B] % 8), n)
  }

  /** The state after n cycles. */
  ghost predicate After(u: Timer, t: Timer, n: nat)
    requires PrescalerBit(t.ram[TCCR1B] % 8) > 0
  {
    var (m, r) := (Modulus(t.ram), Reached(t, n));
    && Configured(u.ram, t.ram) && u.prescaler == t.prescaler + n && r >= 0
    && Get16(u.ram, TCNT1L) as int == r % m
    && u.compares == t.compares + (if Wgm(t.ram) == 0 then 0 else r / m)
    && u.overflows == t.overflows + (if Wgm(t.ram) == 0 then r / m else 0)
    && u.ram[TIFR] == if r < m then t.ram[TIFR] else WithBit(t.ram[TIFR], if Wgm(t.ram) == 0 then TOV1 else OCF1A, true)
  }

  lemma CountOn(r: nat, m: nat, c: nat)
    requires m > 0 && c == r % m
    ensures c == m - 1 ==> (r + 1) % m == 0 && (r + 1) / m == r / m + 1
    ensures c < m - 1 ==> (r + 1) % m == c + 1 && (r + 1) / m == r / m
    ensures r < m <==> r / m == 0
  {
    var q := r / m;
    assert r == q * m + c;
    if c == m - 1 {
      assert r + 1 == (q + 1) * m;
      DivisionUnique(r + 1, m, q + 1, 0);
    } else {
      DivisionUnique(r + 1, m, q, c + 1);
    }
    if r < m {
      DivisionUnique(r, m, 0, r);
    } else if q == 0 {
      assert false;
    }
  }

  lemma SetTwice(x: byte, k: nat)
    requires k < 8
    ensures WithBit(WithBit(x, k, true), k, true) == WithBit(x, k, true)
  {
    hide WithBit;
    WithBitBits(x, k, true);
    WithBitBits(WithBit(x, k, true), k, true);
    SameBits(WithBit(WithBit(x, k, true), k, true), WithBit(x, k, true));
  }

  lemma TickAdvances(u: Timer, t: Timer, n: nat)
    requires PrescalerBit(t.ram[TCCR1B] % 8) > 0 && Counting(t.ram) && After(u, t, n)
    requires Reached(t, n + 1) == Reached(t, n) + 1
    ensures Tick(u.(prescaler := u.prescaler + 1)).Ok?
    ensures After(Tick(u.(prescaler := u.prescaler + 1)).value, t, n + 1)
  {
    hide Wgm, Top, Get16, Configured, WithBit, TicksIn, Tick, Reached, Counting;
    CountingMode(t.ram);
    var v := u.(prescaler := u.prescaler + 1);
    SameSettings(u.ram, t.ram);
    TickCounts(v);
    var w := Tick(v).value;
    ConfiguredChains(w.ram, u.ram, t.ram);
    CountOn(Reached(t, n), Modulus(t.ram), Get16(u.ram, TCNT1L));
    CountOn(Reached(t, n) + 1, Modulus(t.ram), (Reached(t, n) + 1) % Modulus(t.ram));
    SetTwice(t.ram[TIFR], OCF1A);
    SetTwice(t.ram[TIFR], TOV1);
  }

  lemma CountingMode(ram: Ram)
    requires Counting(ram)
    ensures Wgm(ram) in {0, 4, 12}
  {
  }

  lemma {:induction false} TimerIsDivision(t: Timer, n: nat)
    requires PrescalerBit(t.ram[TCCR1B] % 8) > 0 && Counting(t.ram)
    ensures Cycles(t, n).Ok? && After(Cycles(t, n).value, t, n)
  {
    hide Wgm, Top, Get16, Counting, After, PrescalerBit, Cycle;
    if n == 0 {
      StartsThere(t);
    } else {
      TimerIsDivision(t, n - 1);
      CycleAdvances(Cycles(t, n - 1).value, t, n - 1);
    }
  }

  lemma CycleAdvances(u: Timer, t: Timer, n: nat)
    requires PrescalerBit(t.ram[TCCR1B] % 8) > 0 && Counting(t.ram) && After(u, t, n)
    ensures Cycle(u).Ok? && After(Cycle(u).value, t, n + 1)
  {
    hide Wgm, Top, Get16, Tick, Counting, After, Toggles, PrescalerBit, Reached;
    ReachedSteps(t, n);
    AfterSettings(u, t, n);
    if Toggles(u.prescaler, PrescalerBit(t.ram[TCCR1B] % 8)) {
      TickAdvances(u, t, n);
    } else {
      Coasts(u, t, n);
    }
  }

  lemma Prescales(clksel: nat)
    ensures PrescalerBit(clksel) in {0, 1, 8, 64, 256, 1024}
  {
  }

  lemma StartsThere(t: Timer)
    requires PrescalerBit(t.ram[TCCR1B] % 8) > 0 && Counting(t.ram)
    ensures After(t, t, 0)
  {
    hide Get16, Wgm, Top;
    var (c, m) := (Get16(t.ram, TCNT1L), Modulus(t.ram));
    assert Reached(t, 0) == c as int;
    DivisionUnique(c, m, 0, c);
  }

  lemma AfterSettings(u: Timer, t: Timer, n: nat)
    requires PrescalerBit(t.ram[TCCR1B] % 8) > 0 && After(u, t, n)
    ensures u.ram[TCCR1B] == t.ram[TCCR1B] && u.prescaler == t.prescaler + n
  {
    hide Get16, Wgm, Top, WithBit;
  }

  lemma Coasts(u: Timer, t: Timer, n: nat)
    requires PrescalerBit(t.ram[TCCR1B] % 8) > 0 && After(u, t, n)
    requires Reached(t, n + 1) == Reached(t, n)
    ensures After(u.(prescaler := u.prescaler + 1), t, n + 1)
  {
    hide Get16, Wgm, Top, WithBit, Configured, Reached;
  }

  lemma DivideTwice(n: nat, p: nat, m: nat)
    requires p > 0 && m > 0
    ensures p * m > 0 && n / p / m == n / (p * m)
  {
    var (a, b) := (n / p, n % p);
    QuotientOfQuotient(n, p, m, a, b, a / m, a % m);
  }

  lemma QuotientOfQuotient(n: nat, p: nat, m: nat, a: nat, b: nat, q: nat, r: nat)
    requires n == a * p + b && b < p && a == q * m + r && r < m
    ensures p * m > 0 && n / (p * m) == q
  {
    Regroup(q, m, r, p, b);
    DivisionUnique(n, p * m, q, r * p + b);
  }

  lemma Regroup(q: nat, m: nat, r: nat, p: nat, b: nat)
    requires r < m && b < p
    ensures (q * m + r) * p + b == q * (p * m) + (r * p + b)
    ensures p * m > 0 && r * p + b < p * m
  {
    assert (q * m + r) * p == q * m * p + r * p;
    assert q * m * p == q * (p * m);
    assert (m - 1) * p >= r * p;
    assert p * m == (m - 1) * p + p;
  }

  // ----- in numbers -----

  lemma CycleTicks(t: Timer)
    ensures Cycle(t) == var u := t.(prescaler := t.prescaler + 1);
                        if TicksAt(t.ram[0x4e] % 8, t.prescaler + 1) then Tick(u) else Ok(u)
  {
    hide BitAnd, BitXor, Tick;
    var (x, clksel) := (t.prescaler, t.ram[0x4e] % 8);
    if 1 <= clksel <= 5 {
      TogglesIsDivision(x, PrescalerBit(clksel));
    } else {
      NoBits(BitXor(x + 1, x));
    }
  }

  lemma {:induction false} NoBits(x: nat)
    ensures BitAnd(x, 0) == 0
  {
    if x > 0 {
      NoBits(x / 2);
    }
  }

  /** Clock selects 1 to 5 divide by 1, 8, 64, 256 and 1024. */
  predicate Prescale(clksel: nat, p: nat) {
    || (clksel == 1 && p == 1)
    || (clksel == 2 && p == 8)
    || (clksel == 3 && p == 64)
    || (clksel == 4 && p == 256)
    || (clksel == 5 && p == 1024)
  }

  predicate Normal(ram: Ram) {
    ram[0x4e] / 8 % 4 == 0
  }

  /** The counter goes through m values: all of them in normal mode, those up to OCR1A in mode 4, those up to ICR1 in
      mode 12. TCCR1A, at 0x4f, holds the low two bits of the mode and TCCR1B, at 0x4e, the high two. */
  predicate Through(ram: Ram, m: nat) {
    && ram[0x4f] % 4 == 0
    && match ram[0x4e] / 8 % 4
       case 0 => m == 0x1_0000
       case 1 => m == 1 + Word(ram[0x4b], ram[0x4a]) as nat
       case 3 => m == 1 + Word(ram[0x47], ram[0x46]) as nat
       case _ => false
  }

  function CountIn(ram: Ram): nat {
    Word(ram[0x4d], ram[0x4c])
  }

  lemma ThroughIs(ram: Ram, m: nat)
    requires Through(ram, m)
    ensures Wgm(ram) in {0, 4, 12} && m == Modulus(ram) > 0 && (Wgm(ram) == 0 <==> Normal(ram))
    ensures CountIn(ram) < m ==> Counting(ram)
  {
    hide Word;
  }

  lemma PrescaleIs(clksel: nat, p: nat)
    requires Prescale(clksel, p)
    ensures p == PrescalerBit(clksel) > 0
  {
  }

  /** A tick fails in every other mode. */
  lemma TickFailsIff(t: Timer)
    ensures Tick(t).Fail? <==> !(t.ram[0x4f] % 4 == 0 && t.ram[0x4e] / 8 % 4 in {0, 1, 3})
  {
    hide Get16, Put16, Trigger, Top;
  }

  /** From any count below the top plus one and any prescaler: the count, the flags, the triggers and the prescaler
      after n cycles. */
  lemma CountAfter(t: Timer, n: nat, p: nat, m: nat)
    requires Prescale(t.ram[0x4e] % 8, p) && Through(t.ram, m) && CountIn(t.ram) < m
    ensures Cycles(t, n).Ok? && p > 0 && m > 0
    ensures var (u, r) := (Cycles(t, n).value, CountIn(t.ram) + ((t.prescaler + n) / p - t.prescaler / p));
            && r >= 0 && CountIn(u.ram) == r % m && u.prescaler == t.prescaler + n
            && u.overflows == t.overflows + (if Normal(t.ram) then r / m else 0)
            && u.compares == t.compares + (if Normal(t.ram) then 0 else r / m)
            && u.ram[0x58] == (if r < m then t.ram[0x58]
                               else WithBit(t.ram[0x58], if Normal(t.ram) then 2 else 4, true))
            && forall k :: 0 <= k < RAM_SIZE && k !in {0x4c, 0x4d, 0x58} ==> u.ram[k] == t.ram[k]
  {
    hide Wgm, WithBit, PrescalerBit, Modulus, Counting, Word, Prescale, Through, Normal;
    ThroughIs(t.ram, m);
    PrescaleIs(t.ram[0x4e] % 8, p);
    TimerIsDivision(t, n);
    hide Cycles;
  }

  /** Clock selects 0, 6 and 7 stop the timer: only the prescaler runs. */
  lemma {:induction false} StandsStill(t: Timer, n: nat)
    requires t.ram[0x4e] % 8 in {0, 6, 7}
    ensures Cycles(t, n) == Ok(t.(prescaler := t.prescaler + n))
  {
    if n > 0 {
      StandsStill(t, n - 1);
      CycleTicks(t.(prescaler := t.prescaler + (n - 1)));
      hide Cycle, Tick;
    }
  }

  /** From reset: the count is n / p modulo the top plus one, and the number of triggers is n / (p * (top + 1)). */
  lemma FromReset(t: Timer, n: nat, p: nat, m: nat)
    requires Prescale(t.ram[0x4e] % 8, p) && Through(t.ram, m)
    requires t.prescaler == 0 && CountIn(t.ram) == 0 && t.compares == 0 && t.overflows == 0
    ensures Cycles(t, n).Ok? && p * m > 0
    ensures var u := Cycles(t, n).value;
            && CountIn(u.ram) == n / p % m
            && u.overflows == (if Normal(t.ram) then n / (p * m) else 0)
            && u.compares == (if Normal(t.ram) then 0 else n / (p * m))
  {
    ThroughIs(t.ram, m);
    PrescaleIs(t.ram[0x4e] % 8, p);
    hide *;
    CountAfter(t, n, p, m);
    DivisionUnique(0, p, 0, 0);
    DivideTwice(n, p, m);
  }

  /** Counting on past the top. */
  ghost predicate Late(u: Timer, t: Timer, n: nat)
    requires PrescalerBit(t.ram[TCCR1B] % 8) > 0
  {
    && Configured(u.ram, t.ram) && u.prescaler == t.prescaler + n && u.ram[TIFR] == t.ram[TIFR]
    && Get16(u.ram, TCNT1L) as int == Reached(t, n) && u.compares == t.compares && u.overflows == t.overflows
  }

  /** From a count past the top the timer first runs to 0xffff without a trigger ... */
  lemma {:induction false} PastTop(t: Timer, n: nat)
    requires PrescalerBit(t.ram[TCCR1B] % 8) > 0 && Wgm(t.ram) in {4, 12} && Get16(t.ram, TCNT1L) > Top(t.ram)
    requires Reached(t, n) <= 0xffff
    ensures Cycles(t, n).Ok? && Late(Cycles(t, n).value, t, n)
  {
    hide Get16, Wgm, Top, Configured, Late, Toggles, PrescalerBit, Cycle, Reached;
    if n == 0 {
      LateAtFirst(t);
    } else {
      ReachedSteps(t, n - 1);
      PastTop(t, n - 1);
      LateStays(Cycles(t, n - 1).value, t, n - 1);
    }
  }

  lemma LateAtFirst(t: Timer)
    requires PrescalerBit(t.ram[TCCR1B] % 8) > 0
    ensures Late(t, t, 0)
  {
    hide Get16, PrescalerBit;
  }

  lemma ReachedSteps(t: Timer, n: nat)
    requires PrescalerBit(t.ram[TCCR1B] % 8) > 0
    ensures Reached(t, n + 1) == Reached(t, n) +
            if Toggles(t.prescaler + n, PrescalerBit(t.ram[TCCR1B] % 8)) then 1 else 0
    ensures Reached(t, n) >= Get16(t.ram, TCNT1L)
  {
    hide Get16, Toggles, PrescalerBit;
    var p := PrescalerBit(t.ram[TCCR1B] % 8);
    Prescales(t.ram[TCCR1B] % 8);
    TogglesIsDivision(t.prescaler + n, p);
    assert t.prescaler + n + 1 == t.prescaler + (n + 1);
  }

  lemma LateStays(u: Timer, t: Timer, n: nat)
    requires PrescalerBit(t.ram[TCCR1B] % 8) > 0 && Wgm(t.ram) in {4, 12} && Get16(t.ram, TCNT1L) > Top(t.ram)
    requires Late(u, t, n) && Reached(t, n + 1) <= 0xffff
    ensures Cycle(u).Ok? && Late(Cycle(u).value, t, n + 1)
  {
    hide Get16, Wgm, Top, Configured, Tick, Toggles, PrescalerBit, Reached, WithBit;
    ReachedSteps(t, n);
    SameSettings(u.ram, t.ram);
    var v := u.(prescaler := u.prescaler + 1);
    TickCounts(v);
    ConfiguredChains(Tick(v).value.ram, u.ram, t.ram);
  }

  /** ... and the tick at 0xffff overflows to zero, from where it counts to its top. */
  lemma PastTopOverflows(t: Timer)
    requires Wgm(t.ram) in {4, 12} && Get16(t.ram, TCNT1L) == 0xffff > Top(t.ram)
    ensures Tick(t).Ok?
    ensures var u := Tick(t).value;
            && Get16(u.ram, TCNT1L) == 0 && u.overflows == t.overflows + 1 && u.compares == t.compares
            && u.ram[TIFR] == WithBit(t.ram[TIFR], TOV1, true) && Counting(u.ram)
  {
    hide Get16, Wgm, Top, WithBit, Configured, Tick;
    TickCounts(t);
    SameSettings(Tick(t).value.ram, t.ram);
  }

  // ----- sixteen-bit access through the temporary byte -----

  datatype Ports = Ports(ram: Ram, temp: byte)

  /** read_port with _timer1HandleRead, for the registers of timer 1. */
  function ReadPort(s: Ports, port: nat): (byte, Ports)
    requires ICR1L <= port <= TCCR1A
  {
    if port in {ICR1L + 1, TCNT1L + 1} then (s.temp, s)
    else if port in {ICR1L, TCNT1L} then (s.ram[port], s.(temp := s.ram[port + 1]))
    else (s.ram[port], s)
  }

  /** write_port with _timer1HandleWrite, for a double register. */
  function WritePort(s: Ports, port: nat, value: byte): Ports
    requires ICR1L <= port <= TCNT1L + 1
  {
    if port % 2 == 1 then s.(temp := value)
    else s.(ram := s.ram[port := value][port + 1 := s.temp])
  }

  /** However many cycles pass between the two reads, the low byte first and then the high byte read the count
      or the capture register as it was at the first. */
  lemma ReadIsAtomic(s: Ports, low: nat, later: Ram)
    requires low in {ICR1L, TCNT1L}
    ensures var (l, s') := ReadPort(s, low);
            var (h, _) := ReadPort(s'.(ram := later), low + 1);
            Word(h, l) == Get16(s.ram, low)
  {
  }

  /** And the high byte written first waits for the low byte, when the whole register changes at once. */
  lemma WriteIsAtomic(s: Ports, low: nat, value: word, later: Ram)
    requires low in {ICR1L, ICR1L + 2, OCR1AL, TCNT1L}
    ensures var s' := WritePort(s, low + 1, HighByte(value));
            && s'.ram == s.ram
            && Get16(WritePort(s'.(ram := later), low, LowByte(value)).ram, low) == value
            && WritePort(s'.(ram := later), low, LowByte(value)).ram == Put16(later, low, value)
  {
    PartsOfWord(value);
  }

  /** The RAM with the count written through its two ports, high byte first. */
  function CountWritten(s: Ports, value: word): Ports {
    WritePort(WritePort(s, TCNT1L + 1, HighByte(value)), TCNT1L, LowByte(value))
  }

  lemma CountWrittenIsPut(s: Ports, value: word)
    ensures CountWritten(s, value).ram == Put16(s.ram, TCNT1L, value)
  {
    WriteIsAtomic(s, TCNT1L, value, s.ram);
  }

  /** A count written, run for n cycles and read, with the timer running on between the two reads, is the count
      written plus the ticks of those n cycles, modulo the top plus one. */
  lemma WriteRunRead(s: Ports, t: Timer, value: word, n: nat, later: Ram, p: nat, m: nat)
    requires Prescale(s.ram[0x4e] % 8, p) && Through(s.ram, m) && value < m && t.ram == CountWritten(s, value).ram
    ensures Cycles(t, n).Ok? && p > 0 && m > 0
    ensures var (l, s') := ReadPort(Ports(Cycles(t, n).value.ram, s.temp), TCNT1L);
            var (h, _) := ReadPort(s'.(ram := later), TCNT1L + 1);
            Word(h, l) as int == (value as int + ((t.prescaler + n) / p - t.prescaler / p)) % m
  {
    hide Cycles, Prescale, CountWritten, ReadPort, Word, Put16;
    CountWrittenIsPut(s, value);
    PutGet(s.ram, value);
    SameThrough(t.ram, s.ram, m);
    CountAfter(t, n, p, m);
    ReadIsAtomic(Ports(Cycles(t, n).value.ram, s.temp), TCNT1L, later);
  }

  lemma SameThrough(m: Ram, ram: Ram, n: nat)
    requires Configured(m, ram)
    ensures Through(m, n) == Through(ram, n) && m[0x4e] == ram[0x4e]
  {
    assert m[0x4e] == ram[0x4e] && m[0x4f] == ram[0x4f] && m[0x46] == ram[0x46] && m[0x47] == ram[0x47];
    assert m[0x4a] == ram[0x4a] && m[0x4b] == ram[0x4b];
  }
}
