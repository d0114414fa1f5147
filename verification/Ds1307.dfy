/** The DS1307 as the object it is in src/devices/ds1307.cpp, memory and pointer updated in place. */
module Ds1307 {
  import opened Wrappers
  import opened Bytes
  import opened Calendar
  import opened ClockRegisters
  import opened ClockRuns
  import opened ClockBus

  class Ds1307 {
    const i2c_addr: byte
    var i2c_listening: bool
    var receiving_address: bool
    var reg_pointer: byte
    var time_modified: bool
    const nvram: array<byte>
    const cached_time: array<byte>

    ghost predicate Valid() {
      nvram.Length == 64 && cached_time.Length == 7 && nvram != cached_time
    }

    ghost function Registers(): Nvram
      requires Valid()
      reads nvram
    {
      nvram[..]
    }

    ghost function Snapshot(): Rtc
      requires Valid()
      reads this, nvram, cached_time
    {
      Rtc(i2c_addr, i2c_listening, receiving_address, reg_pointer, time_modified, nvram[..], cached_time[..])
    }

    /** init and reset: the given memory, a stopped clock at the start of 2000 when there is none; started at
        the present time when `now` gives one. */
    constructor (i2c_address: byte, stored: Option<Nvram>, now: Option<nat>)
      ensures Valid() && fresh(nvram) && fresh(cached_time)
      ensures i2c_addr == i2c_address && !i2c_listening && !time_modified && reg_pointer == 0
      ensures Registers() == PowerOn(stored, now)
    {
      hide PowerOn;
      i2c_addr := i2c_address;
      i2c_listening := false;
      time_modified := false;
      reg_pointer := 0;
      nvram := new byte[64];
      cached_time := new byte[7];
      new;
      Init(stored, now);
    }

    method Init(stored: Option<Nvram>, now: Option<nat>)
      requires Valid()
      modifies nvram
      ensures Registers() == PowerOn(stored, now)
    {
      hide Started, ResetNvram;
      ResetNVRAM();
      if stored.Some? {
        LoadNVRAM(stored.value);
      }
      if now.Some? {
        StartAt(now.value);
      }
    }

    method StartAt(now: nat)
      requires Valid()
      modifies nvram
      ensures Registers() == Started(old(Registers()), now)
    {
      hide ClockRegisters.SetTime, And, Not;
      SetTime(now);
      nvram[0] := And(nvram[0], Not(0x80));
    }

    method ResetNVRAM()
      requires Valid()
      modifies nvram
      ensures Registers() == ResetNvram()
    {
      hide Or;
      for i := 0 to 64
        invariant forall j :: 0 <= j < i ==> nvram[j] == 0
      {
        nvram[i] := 0;
      }
      nvram[0] := Or(nvram[0], 0x80);
      nvram[3] := 1;
      nvram[4] := 1;
      nvram[5] := 1;
      nvram[7] := 3;
    }

    method LoadNVRAM(stored: Nvram)
      requires Valid()
      modifies nvram
      ensures Registers() == stored
    {
      for i := 0 to 64
        invariant forall j :: 0 <= j < i ==> nvram[j] == stored[j]
      {
        nvram[i] := stored[i];
      }
    }

    method WriteClockRegisters(s: nat)
      requires Valid()
      modifies nvram
      ensures Registers() == WriteClock(old(Registers()), s)
    {
      hide And, Or, Not, Masked, Bcd, BitSet;
      nvram[0] := BcdWrite(nvram[0], 0x7f, s % 60);
      nvram[1] := BcdWrite(nvram[1], 0xff, s / 60 % 60);
      var hour := s / 3600 % 24;
      if BitSet(nvram[2], 6) {
        nvram[2] := BcdWrite(nvram[2], 0x9f, if hour % 12 != 0 then hour % 12 else 12);
        nvram[2] := if hour >= 12 then Or(nvram[2], 0x20) else And(nvram[2], Not(0x20));
      } else {
        nvram[2] := BcdWrite(nvram[2], 0xbf, hour);
      }
    }

    method WriteDateRegisters(d: Date)
      requires Valid() && IsDate(d)
      modifies nvram
      ensures Registers() == WriteDate(old(Registers()), d)
    {
      hide BcdWrite;
      nvram[4] := BcdWrite(nvram[4], 0xff, d.day);
      nvram[5] := BcdWrite(nvram[5], 0xff, d.month);
      nvram[6] := BcdWrite(nvram[6], 0xff, (d.year - 1900) % 100);
    }

    method SetTime(unix_time: nat)
      requires Valid()
      modifies nvram
      ensures Registers() == ClockRegisters.SetTime(old(Registers()), unix_time)
    {
      hide WriteClock, WriteDate, GetDays, GetSeconds, DateOf;
      var old_time := GetTimeValue();
      WriteClockRegisters(unix_time % DAY_SECONDS);
      WriteDateRegisters(DateOf(unix_time / DAY_SECONDS));
      DayUntouched(old(Registers()), unix_time % DAY_SECONDS, DateOf(unix_time / DAY_SECONDS));
      nvram[3] := match old_time
                  case Some(t) => (nvram[3] - 1 + Weekday(unix_time / DAY_SECONDS) - Weekday(t / DAY_SECONDS) + 7) % 7
                      + 1
                  case None => 1 + Weekday(unix_time / DAY_SECONDS);
    }

    method GetTimeValue() returns (t: Option<nat>)
      requires Valid()
      ensures t == GetTime(Registers())
    {
      t := GetTime(nvram[..]);
    }

    method TickOnce() returns (o: Outcome<()>)
      requires Valid()
      modifies nvram
      ensures match Tick(old(Registers()))
              case Done(nv) => o == Done(()) && Registers() == nv
              case Failed => o == Failed && Registers() == old(Registers())
    {
      hide ClockRegisters.SetTime, GetTime;
      if BitSet(nvram[0], 7) {
        return Done(());
      }
      var t := GetTimeValue();
      if t.None? {
        return Failed;
      }
      SetTime(t.value + 1);
      return Done(());
    }

    method I2cReceiveStart()
      requires Valid()
      modifies this
      ensures Snapshot() == ReceiveStart(old(Snapshot()))
    {
      i2c_listening := false;
      time_modified := false;
    }

    method I2cReceiveStop() returns (o: Outcome<()>)
      requires Valid()
      modifies this
      ensures match ReceiveStop(old(Snapshot()))
              case Done(r) => o == Done(()) && Snapshot() == r
              case Failed => o == Failed
    {
      hide GetTime;
      i2c_listening := false;
      if time_modified {
        var t := GetTimeValue();
        if t.None? {
          return Failed;
        }
        time_modified := false;
      }
      return Done(());
    }

    method I2cReceiveAddress(address: byte, write: bool) returns (taken: bool)
      requires Valid()
      modifies this, cached_time
      ensures taken == (address == i2c_addr)
      ensures Snapshot() == ReceiveAddress(old(Snapshot()), address, write)
    {
      if address != i2c_addr {
        return false;
      }
      i2c_listening := true;
      receiving_address := write;
      if !write {
        CacheTime();
      }
      return true;
    }

    method CacheTime()
      requires Valid()
      modifies cached_time
      ensures cached_time[..] == nvram[..7]
    {
      for i := 0 to 7
        invariant forall j :: 0 <= j < i ==> cached_time[j] == nvram[j]
      {
        cached_time[i] := nvram[i];
      }
    }

    method I2cReceiveData(data: byte) returns (o: Outcome<bool>)
      requires Valid() && reg_pointer < 64
      modifies this, nvram
      ensures match ReceiveData(old(Snapshot()), data)
              case Done(r) => o == Done(old(i2c_listening)) && Snapshot() == r && reg_pointer < 64
              case Failed => o == Failed
    {
      if !i2c_listening {
        return Done(false);
      }
      if receiving_address {
        if data >= 64 {
          return Failed;
        }
        reg_pointer := data;
        receiving_address := false;
      } else {
        if reg_pointer < 7 {
          time_modified := true;
        }
        nvram[reg_pointer] := data;
        AdvancePointer();
      }
      return Done(true);
    }

    method AdvancePointer()
      requires reg_pointer < 64
      modifies this`reg_pointer
      ensures reg_pointer < 64 && reg_pointer as nat == NextPointer(old(reg_pointer))
    {
      reg_pointer := reg_pointer + 1;
      if reg_pointer >= 64 {
        reg_pointer := 0;
      }
    }

    method I2cQueryData() returns (data: Option<byte>)
      requires Valid() && reg_pointer < 64
      modifies this`reg_pointer
      ensures reg_pointer < 64
      ensures var (r, out) := QueryData(old(Snapshot()));
              Snapshot() == r && out == if data.None? then [] else [data.value]
    {
      if !i2c_listening {
        return None;
      }
      data := Some(if reg_pointer < 7 then cached_time[reg_pointer] else nvram[reg_pointer]);
      AdvancePointer();
    }
  }

  lemma DayUntouched(nv: Nvram, s: nat, d: Date)
    requires IsDate(d)
    ensures WriteDate(WriteClock(nv, s), d)[3] == nv[3]
  {
    hide BcdWrite, WriteHours;
  }

  // ----- power-on -----

  /** resetNVRAM: halted at midnight on the first of January 2000, day one of the week. */
  function ResetNvram(): Nvram {
    seq(64, _ => 0)[0 := Or(0, 0x80)][3 := 1][4 := 1][5 := 1][7 := 3]
  }

  function PowerOn(stored: Option<Nvram>, now: Option<nat>): Nvram {
    var nv := if stored.Some? then stored.value else ResetNvram();
    if now.None? then nv else Started(nv, now.value)
  }

  function Started(nv: Nvram, now: nat): Nvram {
    hide *;
    var m := SetTime(nv, now);
    m[0 := And(m[0], Not(0x80))]
  }

  lemma HaltBit(x: byte)
    ensures !BitSet(And(x, Not(0x80)), 7)
    ensures And(And(x, Not(0x80)), 0x7f) == And(x, 0x7f)
  {
    hide And, Not;
    assert Bits8(0x80) == [true, false, false, false, false, false, false, false];
    assert Bits8(0x7f) == [false, true, true, true, true, true, true, true];
    forall i | 0 <= i < 8
      ensures Bits8(And(And(x, Not(0x80)), 0x7f))[i] == Bits8(And(x, 0x7f))[i]
      ensures Bits8(And(x, Not(0x80)))[i] == (Bits8(x)[i] && i != 0)
    {
      AndBit(And(x, Not(0x80)), 0x7f, i);
      AndBit(x, Not(0x80), i);
      NotBit(0x80, i);
      AndBit(x, 0x7f, i);
    }
    SameBits(And(And(x, Not(0x80)), 0x7f), And(x, 0x7f));
  }

  /** Clearing the halt bit changes no reading. */
  lemma UnhaltedTime(m: Nvram)
    ensures var u := m[0 := And(m[0], Not(0x80))];
            GetTime(u) == GetTime(m) && !Halted(u)
  {
    hide And, Not, BcdRead, BitSet, ReadHours, DayNumber;
    HaltBit(m[0]);
  }

  lemma ResetTime()
    ensures GetTime(ResetNvram()) == Some(10957 * DAY_SECONDS) && ResetNvram()[3] == 1
  {
    hide DayNumber, And, Or, BitSet;
    var nv := ResetNvram();
    ResetSeconds();
    ZeroHours();
    MillenniumDay();
    assert GetSeconds(nv) == Some(0);
    assert GetDays(nv) == Some(DayNumber(Date(2000, 1, 1)));
  }

  lemma ResetSeconds()
    ensures And(Or(0, 0x80), 0x7f) == 0
  {
    hide And, Or;
    assert Bits8(0x80) == [true, false, false, false, false, false, false, false];
    assert Bits8(0x7f) == [false, true, true, true, true, true, true, true];
    assert Bits8(0) == [false, false, false, false, false, false, false, false];
    forall i | 0 <= i < 8
      ensures Bits8(And(Or(0, 0x80), 0x7f))[i] == Bits8(0)[i]
    {
      AndBit(Or(0, 0x80), 0x7f, i);
      OrBit(0, 0x80, i);
    }
    SameBits(And(Or(0, 0x80), 0x7f), 0);
  }

  lemma ZeroHours()
    ensures !BitSet(0, 6) && And(0, 0xbf) == 0
  {
    hide And;
    assert Bits8(0) == [false, false, false, false, false, false, false, false];
    forall i | 0 <= i < 8
      ensures Bits8(And(0, 0xbf))[i] == Bits8(0)[i]
    {
      AndBit(0, 0xbf, i);
    }
    SameBits(And(0, 0xbf), 0);
  }

  lemma MillenniumDay()
    ensures DayNumber(Date(2000, 1, 1)) == 10957
  {
    hide DaysBeforeYear;
    YearStart(2000);
    assert DaysBeforeMonth(2000, 1) == 0;
  }

  /** A clock started from scratch runs and shows the present time, exactly when that is before 2070; its
      weeks begin on Saturday, since the date it starts from was one. */
  lemma FreshClock(now: nat)
    ensures var nv := Started(ResetNvram(), now);
            && !Halted(nv)
            && (GetTime(nv) == Some(now) <==> now < PERIOD)
            && nv[3] == (Weekday(now / DAY_SECONDS) + 1) % 7 + 1
  {
    hide SetTime, GetTime, Halted, ResetNvram, SameElsewhere;
    var nv := ResetNvram();
    UnhaltedTime(SetTime(nv, now));
    GetTimeInvertsSetTimeIff(nv, now);
    SetTimeFrame(nv, now);
    ResetTime();
    assert 10957 * DAY_SECONDS / DAY_SECONDS == 10957;
  }
}
