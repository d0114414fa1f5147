/** The DS1307's time registers as functions of its memory, after src/devices/ds1307.cpp. */
module ClockRegisters {
  import opened Wrappers
  import opened Bytes
  import opened Calendar

  const DAY_SECONDS := 86400

  type Nvram = s: seq<byte> | |s| == 64 witness seq(64, _ => 0)

  function Masked(old_value: byte, mask: byte, value: byte): byte {
    Or(And(old_value, Not(mask)), And(value, mask))
  }

  function Bcd(dec: byte): byte {
    (dec / 10 * 16 + dec % 10) % 256
  }

  /** bcd_write: what the register holds afterwards. */
  function BcdWrite(bcd: byte, mask: byte, dec: byte): byte {
    Masked(bcd, mask, Bcd(dec))
  }

  /** bcd_read. */
  function BcdRead(bcd: byte, min: byte, max: byte): Option<byte> {
    if bcd % 16 > 9 || bcd / 16 > 9 then None
    else
      var value := bcd / 16 * 10 + bcd % 16;
      if value < min || value > max then None else Some(value)
  }

  function ReadHours(reg: byte): Option<byte> {
    if BitSet(reg, 6) then
      match BcdRead(And(reg, 0x9f), 1, 12)
      case None => None
      case Some(h) => Some((if h == 12 then 0 else h) + if BitSet(reg, 5) then 12 else 0)
    else BcdRead(And(reg, 0xbf), 0, 23)
  }

  function WriteHours(reg: byte, hour: byte): byte {
    if BitSet(reg, 6) then
      var w := BcdWrite(reg, 0x9f, if hour % 12 != 0 then hour % 12 else 12);
      if hour >= 12 then Or(w, 0x20) else And(w, Not(0x20))
    else BcdWrite(reg, 0xbf, hour)
  }

  /** getTime's two-digit year. */
  function FullYear(y: byte): int {
    (if y < 70 then 2000 else 1900) + y
  }

  function GetDays(nv: Nvram): Option<nat> {
    var date, month, year := BcdRead(nv[4], 1, 31), BcdRead(nv[5], 1, 12), BcdRead(nv[6], 0, 99);
    if date.None? || month.None? || year.None? || BcdRead(nv[3], 1, 7).None? then None
    else Some(DayNumber(Date(FullYear(year.value), month.value, date.value)))
  }

  function GetSeconds(nv: Nvram): Option<nat> {
    var seconds, minutes, hours := BcdRead(And(nv[0], 0x7f), 0, 59), BcdRead(nv[1], 0, 59), ReadHours(nv[2]);
    if seconds.None? || minutes.None? || hours.None? then None
    else Some((hours.value as int) * 3600 + (minutes.value as int) * 60 + seconds.value)
  }

  /** getTime, in seconds since the epoch; None where it reports an invalid time. */
  function GetTime(nv: Nvram): Option<nat> {
    var days, seconds := GetDays(nv), GetSeconds(nv);
    if days.None? || seconds.None? then None
    else Some(days.value * DAY_SECONDS + seconds.value)
  }

  function NewDay(nv: Nvram, t: nat): byte {
    match GetTime(nv)
    case Some(old_time) => (nv[3] - 1 + Weekday(t / DAY_SECONDS) - Weekday(old_time / DAY_SECONDS) + 7) % 7 + 1
    case None => 1 + Weekday(t / DAY_SECONDS)
  }

  function WriteClock(nv: Nvram, s: nat): Nvram {
    hide BcdWrite, WriteHours;
    nv[0 := BcdWrite(nv[0], 0x7f, s % 60)][1 := BcdWrite(nv[1], 0xff, s / 60 % 60)]
      [2 := WriteHours(nv[2], s / 3600 % 24)]
  }

  function WriteDate(nv: Nvram, d: Date): Nvram
    requires IsDate(d)
  {
    hide BcdWrite;
    nv[4 := BcdWrite(nv[4], 0xff, d.day)][5 := BcdWrite(nv[5], 0xff, d.month)]
      [6 := BcdWrite(nv[6], 0xff, (d.year - 1900) % 100)]
  }

  function SetTime(nv: Nvram, t: nat): Nvram {
    WriteDate(WriteClock(nv, t % DAY_SECONDS), DateOf(t / DAY_SECONDS))[3 := NewDay(nv, t)]
  }

  predicate Halted(nv: Nvram) {
    BitSet(nv[0], 7)
  }

  /** A tick fails when the registers hold no time. */
  function Tick(nv: Nvram): Outcome<Nvram> {
    if Halted(nv) then Done(nv)
    else
      match GetTime(nv)
      case Some(t) => Done(SetTime(nv, t + 1))
      case None => Failed
  }

  function Ticks(nv: Nvram, n: nat): Outcome<Nvram> {
    if n == 0 then Done(nv)
    else
      match Ticks(nv, n - 1)
      case Done(m) => Tick(m)
      case Failed => Failed
  }

  // ----- one register -----

  lemma MaskedBit(old_value: byte, mask: byte, value: byte, i: nat)
    requires i < 8
    ensures Bits8(Masked(old_value, mask, value))[i] == if Bits8(mask)[i] then Bits8(value)[i] else Bits8(old_value)[i]
  {
    OrBit(And(old_value, Not(mask)), And(value, mask), i);
    AndBit(old_value, Not(mask), i);
    NotBit(mask, i);
    AndBit(value, mask, i);
  }

  /** Every set bit of the value is a bit of the mask. */
  predicate Within(value: byte, mask: byte) {
    forall i :: 0 <= i < 8 ==> Bits8(value)[i] ==> Bits8(mask)[i]
  }

  lemma ReadsUnderMask(old_value: byte, mask: byte, value: byte)
    requires Within(value, mask)
    ensures And(Masked(old_value, mask, value), mask) == value
  {
    forall i | 0 <= i < 8
      ensures Bits8(And(Masked(old_value, mask, value), mask))[i] == Bits8(value)[i]
    {
      AndBit(Masked(old_value, mask, value), mask, i);
      MaskedBit(old_value, mask, value, i);
    }
    SameBits(And(Masked(old_value, mask, value), mask), value);
  }

  lemma AllBits(x: byte)
    ensures And(x, 0xff) == x
  {
    forall i | 0 <= i < 8
      ensures Bits8(And(x, 0xff))[i] == Bits8(x)[i]
    {
      AndBit(x, 0xff, i);
      assert Bits8(0xff)[i];
    }
    SameBits(And(x, 0xff), x);
  }

  lemma BcdReadsBack(dec: byte, min: byte, max: byte)
    requires min <= dec <= max <= 99
    ensures BcdRead(Bcd(dec), min, max) == Some(dec)
  {
    assert Bcd(dec) / 16 == dec / 10 && Bcd(dec) % 16 == dec % 10;
  }

  lemma WholeRegister(old_value: byte, dec: byte, min: byte, max: byte)
    requires min <= dec <= max <= 99
    ensures BcdRead(BcdWrite(old_value, 0xff, dec), min, max) == Some(dec)
  {
    ReadsUnderMask(old_value, 0xff, Bcd(dec));
    AllBits(BcdWrite(old_value, 0xff, dec));
    BcdReadsBack(dec, min, max);
  }

  lemma SixtyFits(dec: byte)
    requires dec < 60
    ensures Within(Bcd(dec), 0x7f)
  {
    assert Bits8(0x7f) == [false, true, true, true, true, true, true, true];
    assert Bcd(dec) / 16 <= 5;
  }

  /** The seconds read back, and the clock-halt bit is left as it was. */
  lemma SecondsRegister(old_value: byte, dec: byte)
    requires dec < 60
    ensures BcdRead(And(BcdWrite(old_value, 0x7f, dec), 0x7f), 0, 59) == Some(dec)
    ensures BitSet(BcdWrite(old_value, 0x7f, dec), 7) == BitSet(old_value, 7)
  {
    hide And, Or, Not, Masked, Within, Bcd;
    SixtyFits(dec);
    assert Bits8(0x7f)[0] == false;
    ReadsUnderMask(old_value, 0x7f, Bcd(dec));
    BcdReadsBack(dec, 0, 59);
    MaskedBit(old_value, 0x7f, Bcd(dec), 0);
  }

  lemma TwentyFourFits(hour: byte)
    requires hour < 24
    ensures Within(Bcd(hour), 0xbf)
  {
    assert Bits8(0xbf) == [true, false, true, true, true, true, true, true];
    assert Bcd(hour) / 16 <= 2;
  }

  lemma Hours24(old_value: byte, hour: byte)
    requires hour < 24 && !BitSet(old_value, 6)
    ensures ReadHours(WriteHours(old_value, hour)) == Some(hour)
    ensures !BitSet(WriteHours(old_value, hour), 6)
  {
    hide And, Or, Not, Masked, Within;
    TwentyFourFits(hour);
    assert Bits8(0xbf)[1] == false;
    ReadsUnderMask(old_value, 0xbf, Bcd(hour));
    BcdReadsBack(hour, 0, 23);
    MaskedBit(old_value, 0xbf, Bcd(hour), 1);
  }

  lemma MeridianBit(w: byte, i: nat)
    requires i < 8
    ensures Bits8(Or(w, 0x20))[i] == (i == 2 || Bits8(w)[i])
    ensures Bits8(And(w, Not(0x20)))[i] == (i != 2 && Bits8(w)[i])
  {
    assert Bits8(0x20) == [false, false, true, false, false, false, false, false];
    OrBit(w, 0x20, i);
    AndBit(w, Not(0x20), i);
    NotBit(0x20, i);
  }

  lemma MeridianUnseen(w: byte)
    ensures And(Or(w, 0x20), 0x9f) == And(w, 0x9f) == And(And(w, Not(0x20)), 0x9f)
  {
    hide And, Or, Not;
    assert Bits8(0x9f) == [true, false, false, true, true, true, true, true];
    forall i | 0 <= i < 8
      ensures Bits8(And(Or(w, 0x20), 0x9f))[i] == Bits8(And(w, 0x9f))[i] == Bits8(And(And(w, Not(0x20)), 0x9f))[i]
    {
      AndBit(Or(w, 0x20), 0x9f, i);
      AndBit(w, 0x9f, i);
      AndBit(And(w, Not(0x20)), 0x9f, i);
      MeridianBit(w, i);
    }
    SameBits(And(Or(w, 0x20), 0x9f), And(w, 0x9f));
    SameBits(And(And(w, Not(0x20)), 0x9f), And(w, 0x9f));
  }

  lemma Hours12(old_value: byte, hour: byte)
    requires hour < 24 && BitSet(old_value, 6)
    ensures ReadHours(WriteHours(old_value, hour)) == Some(hour)
    ensures BitSet(WriteHours(old_value, hour), 6)
  {
    hide And, Or, Not, Masked, Bcd, BcdRead, Bits8;
    var shown := if hour % 12 != 0 then hour % 12 else 12;
    var w := BcdWrite(old_value, 0x9f, shown);
    TwelveHourDigits(old_value, shown);
    MeridianUnseen(w);
    MeridianBit(w, 1);
    MeridianBit(w, 2);
    assert WriteHours(old_value, hour) == if hour >= 12 then Or(w, 0x20) else And(w, Not(0x20));
  }

  lemma TwelveFits(shown: byte)
    requires 1 <= shown <= 12
    ensures Within(Bcd(shown), 0x9f)
  {
    assert Bits8(0x9f) == [true, false, false, true, true, true, true, true];
    assert Bcd(shown) / 16 <= 1;
  }

  lemma TwelveHourDigits(old_value: byte, shown: byte)
    requires 1 <= shown <= 12 && BitSet(old_value, 6)
    ensures BcdRead(And(BcdWrite(old_value, 0x9f, shown), 0x9f), 1, 12) == Some(shown)
    ensures BitSet(BcdWrite(old_value, 0x9f, shown), 6)
  {
    hide And, Or, Not, Masked, Within;
    TwelveFits(shown);
    assert Bits8(0x9f)[1] == false;
    ReadsUnderMask(old_value, 0x9f, Bcd(shown));
    BcdReadsBack(shown, 1, 12);
    MaskedBit(old_value, 0x9f, Bcd(shown), 1);
  }

  lemma HoursRegister(old_value: byte, hour: byte)
    requires hour < 24
    ensures ReadHours(WriteHours(old_value, hour)) == Some(hour)
    ensures BitSet(WriteHours(old_value, hour), 6) == BitSet(old_value, 6)
  {
    if BitSet(old_value, 6) {
      Hours12(old_value, hour);
    } else {
      Hours24(old_value, hour);
    }
  }
}
