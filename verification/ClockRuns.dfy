/** The DS1307 keeps time: what setTime writes getTime reads, and ticking counts seconds. */
module ClockRuns {
  import opened Wrappers
  import opened Bytes
  import opened Calendar
  import opened ClockRegisters

  /** The seconds of the hundred years 1970 to 2069. */
  const PERIOD := CENTURY * DAY_SECONDS

  predicate SameElsewhere(m: Nvram, nv: Nvram) {
    && Halted(m) == Halted(nv)
    && BitSet(m[2], 6) == BitSet(nv[2], 6)
    && m[7..] == nv[7..]
  }

  lemma ClockReadsBack(nv: Nvram, s: nat)
    requires s < DAY_SECONDS
    ensures GetSeconds(WriteClock(nv, s)) == Some(s)
    ensures Halted(WriteClock(nv, s)) == Halted(nv)
    ensures BitSet(WriteClock(nv, s)[2], 6) == BitSet(nv[2], 6)
  {
    hide And, BcdWrite, BcdRead, WriteHours, ReadHours, BitSet;
    SecondsRegister(nv[0], s % 60);
    WholeRegister(nv[1], s / 60 % 60, 0, 59);
    HoursRegister(nv[2], s / 3600 % 24);
  }

  /** The two digits the year is kept in. */
  lemma YearReadsBack(year: int)
    requires 1970 <= year <= 2070
    ensures 0 <= (year - 1900) % 100 <= 99
    ensures FullYear((year - 1900) % 100) == if year == 2070 then 1970 else year
  {
  }

  lemma DateReadsBack(nv: Nvram, d: Date)
    requires IsDate(d) && d.year <= 2070 && BcdRead(nv[3], 1, 7).Some?
    ensures GetDays(WriteDate(nv, d)) == Some(DayNumber(d.(year := if d.year == 2070 then 1970 else d.year)))
  {
    hide BcdWrite, BcdRead, DayNumber, FullYear, DaysInMonth;
    WholeRegister(nv[4], d.day, 1, 31);
    WholeRegister(nv[5], d.month, 1, 12);
    YearReadsBack(d.year);
    WholeRegister(nv[6], (d.year - 1900) % 100, 0, 99);
  }

  lemma WriteDateFrame(nv: Nvram, d: Date)
    requires IsDate(d)
    ensures var m := WriteDate(nv, d); m[0..4] == nv[0..4] && m[7..] == nv[7..]
  {
    hide BcdWrite;
  }

  lemma WriteClockFrame(nv: Nvram, s: nat)
    ensures WriteClock(nv, s)[3..] == nv[3..]
  {
    hide BcdWrite, WriteHours;
  }

  /** The parts are read from separate registers. */
  lemma SecondsLocal(nv: Nvram, m: Nvram)
    requires m[0..3] == nv[0..3]
    ensures GetSeconds(m) == GetSeconds(nv) && Halted(m) == Halted(nv) && m[2] == nv[2]
  {
    hide BcdRead, And, BitSet;
    assert m[0] == m[0..3][0] && m[1] == m[0..3][1] && m[2] == m[0..3][2];
    assert nv[0] == nv[0..3][0] && nv[1] == nv[0..3][1] && nv[2] == nv[0..3][2];
  }

  lemma DayInRange(nv: Nvram, t: nat)
    ensures 1 <= NewDay(nv, t) <= 7
  {
  }

  /** setTime keeps the halt bit, the hour mode and every register beyond the clock, and writes a weekday. */
  lemma SetTimeFrame(nv: Nvram, t: nat)
    ensures SameElsewhere(SetTime(nv, t), nv)
    ensures SetTime(nv, t)[3] == NewDay(nv, t)
    ensures GetTime(nv).None? ==> NewDay(nv, t) == 1 + Weekday(t / 86400)
    ensures GetSeconds(SetTime(nv, t)) == Some(t % DAY_SECONDS)
  {
    hide GetSeconds, Halted, BitSet, WriteClock, WriteDate, DateOf, GetTime, Weekday;
    assert GetTime(nv).None? ==> NewDay(nv, t) == 1 + Weekday(t / 86400);
    hide NewDay;
    var s, d, day := t % DAY_SECONDS, DateOf(t / DAY_SECONDS), NewDay(nv, t);
    var c := WriteClock(nv, s);
    var w := WriteDate(c, d);
    var m := w[3 := day];
    ClockReadsBack(nv, s);
    WriteClockFrame(nv, s);
    WriteDateFrame(c, d);
    Frames(nv, c, w, day);
    SecondsLocal(c, m);
    assert SetTime(nv, t) == m;
  }

  lemma Frames(nv: Nvram, c: Nvram, w: Nvram, day: byte)
    requires c[3..] == nv[3..] && w[0..4] == c[0..4] && w[7..] == c[7..]
    ensures w[3 := day][0..3] == c[0..3] && w[3 := day][7..] == nv[7..]
  {
    assert c[7..] == c[3..][4..] && nv[7..] == nv[3..][4..];
    assert w[3 := day][7..] == w[7..];
    assert w[3 := day][0..3] == w[0..4][..3] && c[0..3] == c[0..4][..3];
  }

  lemma DayRegisterOnly(w: Nvram, v: Nvram)
    requires v[4..7] == w[4..7]
    requires BcdRead(w[3], 1, 7).Some? && BcdRead(v[3], 1, 7).Some?
    ensures GetDays(v) == GetDays(w)
  {
    assert v[4] == v[4..7][0] && v[5] == v[4..7][1] && v[6] == v[4..7][2];
    assert w[4] == w[4..7][0] && w[5] == w[4..7][1] && w[6] == w[4..7][2];
  }

  lemma WrittenDateHasDate(c: Nvram, d: Date, day: byte)
    requires IsDate(d)
    ensures WriteDate(c, d)[3 := day][4..7] == WriteDate(c[3 := day], d)[4..7]
    ensures WriteDate(c[3 := day], d)[3] == day
  {
    hide BcdWrite;
  }

  lemma DaysReadBack(nv: Nvram, t: nat)
    requires t <= PERIOD
    ensures GetDays(SetTime(nv, t)) == Some(t / DAY_SECONDS % CENTURY)
  {
    hide GetSeconds, WriteClock, WriteDate, NewDay, DateOf, GetDays, DayNumber, BcdRead;
    var n, day := t / DAY_SECONDS, NewDay(nv, t);
    var d, c := DateOf(n), WriteClock(nv, t % DAY_SECONDS);
    var m := WriteDate(c, d)[3 := day];
    DayInRange(nv, t);
    SmallBcd(day);
    WrittenDateHasDate(c, d, day);
    YearOfDay(n);
    CountUndoesWalk(n);
    EpochAgain();
    DateReadsBack(c[3 := day], d);
    DayRegisterOnly(WriteDate(c[3 := day], d), m);
    assert SetTime(nv, t) == m;
  }

  lemma SmallBcd(day: byte)
    requires 1 <= day <= 7
    ensures BcdRead(day, 1, 7) == Some(day)
  {
  }

  lemma EpochAgain()
    ensures DayNumber(Date(1970, 1, 1)) == 0
  {
  }

  /** getTime never reports a time past 2069. */
  lemma TimeBound(nv: Nvram)
    ensures GetTime(nv).Some? ==> GetTime(nv).value < PERIOD
  {
    hide DayNumber, BcdRead, BcdWrite, BitSet, And;
    if GetTime(nv).Some? {
      var date, month, year := BcdRead(nv[4], 1, 31).value, BcdRead(nv[5], 1, 12).value, BcdRead(nv[6], 0, 99).value;
      ReadBounds(nv[4], 1, 31);
      ReadBounds(nv[5], 1, 12);
      ReadBounds(nv[6], 0, 99);
      DayBound(FullYear(year), month, date);
      SecondsBound(nv);
    }
  }

  lemma ReadBounds(bcd: byte, min: byte, max: byte)
    ensures BcdRead(bcd, min, max).Some? ==> min <= BcdRead(bcd, min, max).value <= max
  {
  }

  lemma DayBound(y: int, m: int, day: int)
    requires 1970 <= y <= 2069 && 1 <= m <= 12 && 1 <= day <= 31
    ensures DayNumber(Date(y, m, day)) < CENTURY
  {
    hide DayNumber, DaysBeforeYear, DaysBeforeMonth;
    StaysInYear(y, m, day);
    YearsAscend(y + 1, 2070);
    YearStart(2070);
  }

  lemma SecondsBound(nv: Nvram)
    ensures GetSeconds(nv).Some? ==> GetSeconds(nv).value < DAY_SECONDS
  {
    hide And, BitSet, BcdRead;
    ReadBounds(And(nv[0], 0x7f), 0, 59);
    ReadBounds(nv[1], 0, 59);
    ReadBounds(And(nv[2], 0x9f), 1, 12);
    ReadBounds(And(nv[2], 0xbf), 0, 23);
  }

  /** What tick can hand to setTime reads back, the last of it wrapping to 1970. */
  lemma SetTimeReadsBack(nv: Nvram, t: nat)
    requires t <= PERIOD
    ensures GetTime(SetTime(nv, t)) == Some(t % PERIOD)
  {
    hide SetTime, GetDays, GetSeconds, Halted, BitSet;
    SetTimeFrame(nv, t);
    DaysReadBack(nv, t);
  }

  /** getTime inverts setTime, in either hour mode, exactly up to the end of 2069. */
  lemma GetTimeInvertsSetTimeIff(nv: Nvram, t: nat)
    ensures GetTime(SetTime(nv, t)) == Some(t) <==> t < PERIOD
  {
    hide SetTime, GetTime;
    if t < PERIOD {
      SetTimeReadsBack(nv, t);
    }
    TimeBound(SetTime(nv, t));
  }

  /** The first second of 2070 reads as the first of 1970. */
  lemma YearIsTwoDigits(nv: Nvram)
    ensures PERIOD == 100 * 365 * DAY_SECONDS + 25 * DAY_SECONDS && GetTime(SetTime(nv, PERIOD)) == Some(0)
  {
    hide GetTime, SetTime;
    SetTimeReadsBack(nv, PERIOD);
  }

  // ----- ticking -----

  /** Midnights passed in the n seconds from t. */
  function Midnights(t: nat, n: nat): nat {
    (t + n) / DAY_SECONDS - t / DAY_SECONDS
  }

  /** The state n ticks after nv, which reads t. */
  predicate Elapsed(m: Nvram, nv: Nvram, t: nat, n: nat) {
    && GetTime(m) == Some((t + n) % PERIOD)
    && m[3] == (nv[3] - 1 + Midnights(t, n)) % 7 + 1
    && SameElsewhere(m, nv)
  }

  lemma ValidDay(nv: Nvram)
    requires GetTime(nv).Some?
    ensures 1 <= nv[3] <= 7
  {
    hide And, GetSeconds, DayNumber;
  }

  lemma NewDayIsNext(nv: Nvram, u: nat)
    requires GetTime(nv) == Some(u)
    ensures NewDay(nv, u + 1) == (nv[3] - 1 + Midnights(u, 1)) % 7 + 1
  {
    hide GetTime;
    ValidDay(nv);
    NextMidnight(u);
    NextWeekday(u / DAY_SECONDS);
  }

  lemma NextWeekday(n: nat)
    ensures Weekday(n + 1) == (Weekday(n) + 1) % 7 && 0 <= Weekday(n) < 7
  {
  }

  lemma NextMidnight(u: nat)
    ensures (u + 1) / DAY_SECONDS == u / DAY_SECONDS || (u + 1) / DAY_SECONDS == u / DAY_SECONDS + 1
  {
  }

  /** The wrap to 1970 does not disturb the count of midnights. */
  lemma MidnightsAddUp(t: nat, n: nat)
    ensures Midnights(t, n + 1) == Midnights(t, n) + Midnights((t + n) % PERIOD, 1)
  {
    var x := t + n;
    var q, u := x / PERIOD, x % PERIOD;
    assert x == q * CENTURY * DAY_SECONDS + u;
  }

  lemma SameElsewhereChains(a: Nvram, b: Nvram, c: Nvram)
    requires SameElsewhere(a, b) && SameElsewhere(b, c)
    ensures SameElsewhere(a, c)
  {
  }

  lemma NextDay(day: int, m: int, t: nat, n: nat)
    requires 1 <= day <= 7 && m == (day - 1 + Midnights(t, n)) % 7 + 1
    ensures (m - 1 + Midnights((t + n) % PERIOD, 1)) % 7 + 1 == (day - 1 + Midnights(t, n + 1)) % 7 + 1
  {
    MidnightsAddUp(t, n);
    hide Midnights;
  }

  lemma ElapsedStep(m: Nvram, nv: Nvram, t: nat, n: nat)
    requires GetTime(nv) == Some(t) && Elapsed(m, nv, t, n) && !Halted(nv)
    ensures Tick(m).Done? && Elapsed(Tick(m).value, nv, t, n + 1)
  {
    hide SetTime, GetTime, Halted, BitSet, Midnights, NewDay, SameElsewhere;
    KeepsRunning(m, nv);
    ElapsedInto(m, nv, t, n);
  }

  lemma ElapsedInto(m: Nvram, nv: Nvram, t: nat, n: nat)
    requires GetTime(nv) == Some(t) && Elapsed(m, nv, t, n)
    ensures Elapsed(SetTime(m, (t + n) % PERIOD + 1), nv, t, n + 1)
  {
    ElapsedTime(m, t, n);
    ElapsedDay(m, nv, t, n);
    ElapsedElsewhere(m, nv, (t + n) % PERIOD + 1);
    hide SetTime, GetTime, Midnights, SameElsewhere;
  }

  lemma ElapsedElsewhere(m: Nvram, nv: Nvram, u: nat)
    requires SameElsewhere(m, nv)
    ensures SameElsewhere(SetTime(m, u), nv)
  {
    hide SetTime, SameElsewhere;
    SetTimeFrame(m, u);
    SameElsewhereChains(SetTime(m, u), m, nv);
  }

  lemma ElapsedTime(m: Nvram, t: nat, n: nat)
    ensures GetTime(SetTime(m, (t + n) % PERIOD + 1)) == Some((t + n + 1) % PERIOD)
  {
    hide SetTime, GetTime;
    SetTimeReadsBack(m, (t + n) % PERIOD + 1);
  }

  lemma ElapsedDay(m: Nvram, nv: Nvram, t: nat, n: nat)
    requires GetTime(nv) == Some(t) && Elapsed(m, nv, t, n)
    ensures SetTime(m, (t + n) % PERIOD + 1)[3] == (nv[3] - 1 + Midnights(t, n + 1)) % 7 + 1
  {
    hide SetTime, GetTime, Midnights, NewDay, SameElsewhere;
    var u := (t + n) % PERIOD;
    SetTimeFrame(m, u + 1);
    NewDayIsNext(m, u);
    ValidDay(nv);
    NextDay(nv[3], m[3], t, n);
  }

  lemma KeepsRunning(m: Nvram, nv: Nvram)
    requires SameElsewhere(m, nv)
    ensures Halted(m) == Halted(nv)
  {
  }

  /** From any registers getTime accepts, the thirtieth of February included, n ticks of a running clock add
      n seconds, move the day of the week once a midnight, and change nothing else. */
  lemma {:induction false} TicksCountSeconds(nv: Nvram, t: nat, n: nat)
    requires GetTime(nv) == Some(t) && !Halted(nv)
    ensures Ticks(nv, n).Done? && Elapsed(Ticks(nv, n).value, nv, t, n)
  {
    hide SetTime, GetTime, Halted, BitSet, Tick;
    if n == 0 {
      TimeBound(nv);
      ValidDay(nv);
    } else {
      TicksCountSeconds(nv, t, n - 1);
      ElapsedStep(Ticks(nv, n - 1).value, nv, t, n - 1);
    }
  }

  /** The day register keeps a constant distance, modulo seven, from the true weekday. */
  lemma DayFollowsWeekday(nv: Nvram, t: nat, n: nat)
    requires GetTime(nv) == Some(t) && !Halted(nv)
    ensures Ticks(nv, n).Done? && 1 <= Ticks(nv, n).value[3] <= 7
    ensures (Ticks(nv, n).value[3] - Weekday((t + n) / DAY_SECONDS)) % 7 == (nv[3] - Weekday(t / DAY_SECONDS)) % 7
  {
    hide Ticks, GetTime, Halted, SameElsewhere;
    TicksCountSeconds(nv, t, n);
    ValidDay(nv);
    OffsetKept(nv[3], t / DAY_SECONDS, Midnights(t, n));
  }

  lemma OffsetKept(a: int, d: nat, k: nat)
    requires 1 <= a <= 7
    ensures ((a - 1 + k) % 7 + 1 - Weekday(d + k)) % 7 == (a - Weekday(d)) % 7
  {
    SevensApart((a - 1 + k) % 7 + 1 - Weekday(d + k), a - Weekday(d),
                (d + k + 4) / 7 - (a - 1 + k) / 7 - (d + 4) / 7);
  }

  lemma SevensApart(x: int, y: int, j: int)
    requires x == y + 7 * j
    ensures x % 7 == y % 7
  {
  }

  /** A run of ticks fails exactly when a running clock holds no time. */
  lemma {:induction false} TicksFailIff(nv: Nvram, n: nat)
    ensures Ticks(nv, n).Failed? <==> n > 0 && !Halted(nv) && GetTime(nv).None?
    ensures Halted(nv) ==> Ticks(nv, n) == Done(nv)
  {
    hide SetTime, GetTime, Halted;
    if n > 0 {
      TicksFailIff(nv, n - 1);
      if !Halted(nv) && GetTime(nv).Some? {
        TicksCountSeconds(nv, GetTime(nv).value, n);
      } else if n > 1 {
        assert Ticks(nv, n) == (match Ticks(nv, n - 1) case Done(m) => Tick(m) case Failed => Failed);
      } else {
        assert Ticks(nv, 0) == Done(nv);
      }
    }
  }
}
