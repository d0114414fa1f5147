/** Which registers hold a time, and which, digit by digit. */
module ClockDigits {
  import opened Wrappers
  import opened Bytes
  import opened Calendar
  import opened ClockRegisters
  import opened ClockRuns

  /** The register holds v, from lo to hi, as two decimal digits. */
  predicate Shows(reg: int, v: int, lo: int, hi: int) {
    0 <= lo <= v <= hi <= 99 && reg == v / 10 * 16 + v % 10
  }

  /** The hour as it is or, with bit 6 set, from 1 to 12 and with bit 5 for the afternoon. */
  predicate ShowsHour(reg: int, h: int) {
    if reg / 64 % 2 == 0 then Shows(reg, h, 0, 23)
    else
      && 0 <= h < 24
      && (reg / 32 % 2 == 1 <==> h >= 12)
      && Shows(reg - 64 - reg / 32 % 2 * 32, if h % 12 == 0 then 12 else h % 12, 1, 12)
  }

  /** Seconds, minutes, hours, any day of the week, date, month and year of the century. */
  predicate ShowsTime(nv: Nvram, s: nat, mi: nat, h: nat, d: nat, mo: nat, y: nat) {
    && Shows(nv[0] % 128, s, 0, 59) && Shows(nv[1], mi, 0, 59) && ShowsHour(nv[2], h) && 1 <= nv[3] <= 7
    && Shows(nv[4], d, 1, 31) && Shows(nv[5], mo, 1, 12) && Shows(nv[6], y, 0, 99)
  }

  lemma Tens(a: nat, b: nat)
    requires b < 10
    ensures (a * 10 + b) / 10 == a && (a * 10 + b) % 10 == b
  {
  }

  lemma Sixteens(a: nat, b: nat)
    requires b < 16
    ensures (a * 16 + b) / 16 == a && (a * 16 + b) % 16 == b
  {
  }

  lemma ReadIff(reg: byte, lo: byte, hi: byte, v: byte)
    requires hi <= 99
    ensures BcdRead(reg, lo, hi) == Some(v) <==> Shows(reg, v, lo, hi)
  {
    var (a, b) := (reg / 16, reg % 16);
    Sixteens(v / 10, v % 10);
    if b < 10 {
      Tens(a, b);
    }
    DigitsIff(reg, v, a, b);
    hide Shows;
  }

  lemma DigitsIff(reg: byte, v: byte, a: nat, b: nat)
    requires a == reg / 16 && b == reg % 16 && (v / 10 * 16 + v % 10) / 16 == v / 10
    requires (v / 10 * 16 + v % 10) % 16 == v % 10
    requires b < 10 ==> (a * 10 + b) / 10 == a && (a * 10 + b) % 10 == b
    ensures reg as int == v / 10 * 16 + v % 10 <==> b < 10 && v as int == a * 10 + b
  {
  }

  lemma TopBitOff(x: byte)
    ensures And(x, 0x7f) == x % 128
  {
    SevenBits(x);
    assert Bits8(0x7f) == [false, true, true, true, true, true, true, true];
    hide And;
    forall i | 0 <= i < 8
      ensures Bits8(And(x, 0x7f))[i] == Bits8(x % 128)[i]
    {
      AndBit(x, 0x7f, i);
    }
    SameBits(And(x, 0x7f), x % 128);
  }

  lemma SevenBits(x: byte)
    ensures Bits8(x % 128) == Bits8(x)[0 := false]
  {
    var (n, m) := (x / 16, x % 16);
    Sixteens(n % 8, m);
    assert x % 128 == n % 8 * 16 + m;
    FourthBitOff(n);
    hide Bits4;
    assert (Bits4(n) + Bits4(m))[0 := false] == Bits4(n)[0 := false] + Bits4(m);
  }

  lemma FourthBitOff(n: nat)
    requires n < 16
    ensures Bits4(n % 8) == Bits4(n)[0 := false]
  {
  }

  lemma ModeBitOff(x: byte)
    requires !BitSet(x, 6)
    ensures And(x, 0xbf) == x
  {
    assert Bits8(0xbf) == [true, false, true, true, true, true, true, true];
    hide And;
    forall i | 0 <= i < 8
      ensures Bits8(And(x, 0xbf))[i] == Bits8(x)[i]
    {
      AndBit(x, 0xbf, i);
    }
    SameBits(And(x, 0xbf), x);
  }

  /** With bit 6 set, what is left without it and bit 5. */
  function Unmarked(x: byte): byte
    requires x / 64 % 2 == 1
  {
    x - 64 - x / 32 % 2 * 32
  }

  lemma HighDigit(n: nat)
    requires n < 16 && n / 4 % 2 == 1
    ensures n >= 4 + n / 2 % 2 * 2
    ensures Bits4(n - 4 - n / 2 % 2 * 2) == Bits4(n)[1 := false][2 := false]
  {
  }

  lemma UnmarkedBits(x: byte)
    requires x / 64 % 2 == 1
    ensures Bits8(Unmarked(x)) == Bits8(x)[1 := false][2 := false]
  {
    var n := x / 16;
    UnmarkedDigits(x);
    HighDigit(n);
    hide Unmarked, Bits4;
    assert (Bits4(n) + Bits4(x % 16))[1 := false][2 := false] == Bits4(n)[1 := false][2 := false] + Bits4(x % 16);
  }

  lemma UnmarkedDigits(x: byte)
    requires x / 64 % 2 == 1
    ensures var n := x / 16;
            n / 4 % 2 == 1 && Unmarked(x) / 16 == n - 4 - n / 2 % 2 * 2 && Unmarked(x) % 16 == x % 16
  {
    var n := x / 16;
    assert x / 64 == n / 4 && x / 32 == n / 2;
    assert Unmarked(x) == 16 * (n - 4 - n / 2 % 2 * 2) + x % 16;
  }

  lemma MarksOff(x: byte)
    requires x / 64 % 2 == 1
    ensures And(x, 0x9f) == Unmarked(x)
  {
    UnmarkedBits(x);
    assert Bits8(0x9f) == [true, false, false, true, true, true, true, true];
    hide And, Unmarked;
    forall i | 0 <= i < 8
      ensures Bits8(And(x, 0x9f))[i] == Bits8(Unmarked(x))[i]
    {
      AndBit(x, 0x9f, i);
    }
    SameBits(And(x, 0x9f), Unmarked(x));
  }

  lemma ModeBits(x: byte)
    ensures BitSet(x, 6) == (x / 64 % 2 == 1) && BitSet(x, 5) == (x / 32 % 2 == 1) && BitSet(x, 7) == (x >= 128)
  {
    HighBits(x / 16);
    assert x / 64 == x / 16 / 4 && x / 32 == x / 16 / 2;
    hide Bits4;
  }

  lemma HighBits(n: nat)
    requires n < 16
    ensures Bits4(n)[0] == (n >= 8) && Bits4(n)[1] == (n / 4 % 2 == 1) && Bits4(n)[2] == (n / 2 % 2 == 1)
  {
  }

  lemma HoursIff(reg: byte, h: byte)
    ensures ReadHours(reg) == Some(h) <==> ShowsHour(reg, h)
  {
    hide And, BitSet;
    ModeBits(reg);
    if reg / 64 % 2 == 1 {
      MarksOff(reg);
      TwelveIff(reg, h);
    } else {
      ModeBitOff(reg);
      TwentyFourIff(reg, h);
    }
  }

  lemma TwentyFourIff(reg: byte, h: byte)
    requires reg / 64 % 2 == 0
    ensures BcdRead(reg, 0, 23) == Some(h) <==> ShowsHour(reg, h)
  {
    ReadIff(reg, 0, 23, h);
    hide BcdRead;
  }

  lemma TwelveIff(reg: byte, h: byte)
    requires reg / 64 % 2 == 1
    ensures ShowsHour(reg, h) <==>
            match BcdRead(Unmarked(reg), 1, 12)
            case None => false
            case Some(k) => h == (if k == 12 then 0 else k) + if reg / 32 % 2 == 1 then 12 else 0
  {
    var (x, k) := (Unmarked(reg), if h % 12 == 0 then 12 else h % 12);
    ShowsTwelve(reg, h, k);
    hide *;
    ReadIff(x, 1, 12, k);
    if BcdRead(x, 1, 12).Some? {
      ShownInside(x, BcdRead(x, 1, 12).value);
    }
    OnTheDial(h, k);
    ShownHour(BcdRead(x, 1, 12), h, k, reg / 32 % 2 == 1);
  }

  lemma OnTheDial(h: byte, k: byte)
    requires k == if h % 12 == 0 then 12 else h % 12
    ensures h < 12 ==> k == if h == 0 then 12 else h
    ensures 12 <= h < 24 ==> k == if h == 12 then 12 else h - 12
  {
  }

  lemma ShownHour(read: Option<byte>, h: byte, k: byte, afternoon: bool)
    requires h < 12 ==> k == if h == 0 then 12 else h
    requires 12 <= h < 24 ==> k == if h == 12 then 12 else h - 12
    requires read.Some? ==> 1 <= read.value <= 12
    ensures h < 24 && (afternoon <==> h >= 12) && read == Some(k) <==>
            match read
            case None => false
            case Some(v) => h == (if v == 12 then 0 else v) + if afternoon then 12 else 0
  {
  }

  lemma ShowsTwelve(reg: byte, h: byte, k: byte)
    requires reg / 64 % 2 == 1 && k == if h % 12 == 0 then 12 else h % 12
    ensures ShowsHour(reg, h) <==> h < 24 && (reg / 32 % 2 == 1 <==> h >= 12) && Shows(Unmarked(reg), k, 1, 12)
  {
    hide Shows;
  }

  lemma ShownInside(x: byte, k: byte)
    requires BcdRead(x, 1, 12) == Some(k)
    ensures 1 <= k <= 12
  {
  }

  /** The registers hold a time exactly when they show one, and it is the time shown; dates past the end of a short
      month count on into the next. */
  lemma TimeIsShown(nv: Nvram, s: nat, mi: nat, h: nat, d: nat, mo: nat, y: nat)
    requires ShowsTime(nv, s, mi, h, d, mo, y)
    ensures GetTime(nv) == Some(DayNumber(Date(if y < 70 then 2000 + y else 1900 + y, mo, d)) * 86400
                                + h * 3600 + mi * 60 + s)
  {
    hide And, ReadHours, BcdRead, DayNumber;
    TopBitOff(nv[0]);
    ReadIff(nv[0] % 128, 0, 59, s);
    ReadIff(nv[1], 0, 59, mi);
    HoursIff(nv[2], h);
    DayShown(nv[3]);
    ReadIff(nv[4], 1, 31, d);
    ReadIff(nv[5], 1, 12, mo);
    ReadIff(nv[6], 0, 99, y);
  }

  lemma SecondsShown(nv: Nvram) returns (s: nat, mi: nat, h: nat)
    requires GetSeconds(nv).Some?
    ensures Shows(nv[0] % 128, s, 0, 59) && Shows(nv[1], mi, 0, 59) && ShowsHour(nv[2], h)
  {
    hide And, ReadHours, BcdRead, Shows, ShowsHour;
    s, mi, h := BcdRead(And(nv[0], 0x7f), 0, 59).value, BcdRead(nv[1], 0, 59).value, ReadHours(nv[2]).value;
    TopBitOff(nv[0]);
    ReadIff(nv[0] % 128, 0, 59, s);
    ReadIff(nv[1], 0, 59, mi);
    HoursIff(nv[2], h);
  }

  lemma DayShown(reg: byte)
    ensures BcdRead(reg, 1, 7).Some? <==> 1 <= reg <= 7
  {
  }

  lemma DateShown(nv: Nvram) returns (d: nat, mo: nat, y: nat)
    requires GetDays(nv).Some?
    ensures Shows(nv[4], d, 1, 31) && Shows(nv[5], mo, 1, 12) && Shows(nv[6], y, 0, 99) && 1 <= nv[3] <= 7
  {
    DayShown(nv[3]);
    hide BcdRead, DayNumber, Shows;
    d, mo, y := BcdRead(nv[4], 1, 31).value, BcdRead(nv[5], 1, 12).value, BcdRead(nv[6], 0, 99).value;
    ReadIff(nv[4], 1, 31, d);
    ReadIff(nv[5], 1, 12, mo);
    ReadIff(nv[6], 0, 99, y);
  }

  lemma OnlyShownTimes(nv: Nvram) returns (s: nat, mi: nat, h: nat, d: nat, mo: nat, y: nat)
    requires GetTime(nv).Some?
    ensures ShowsTime(nv, s, mi, h, d, mo, y)
  {
    assert GetSeconds(nv).Some? && GetDays(nv).Some?;
    s, mi, h := SecondsShown(nv);
    d, mo, y := DateShown(nv);
    hide GetTime, GetSeconds, GetDays, Shows, ShowsHour;
  }

  /** Bit 7 of the seconds stops the clock: nothing changes, and no time is asked for. */
  lemma HaltedIff(nv: Nvram, n: nat)
    ensures nv[0] >= 128 ==> Ticks(nv, n) == Done(nv)
    ensures Ticks(nv, n).Failed? <==> n > 0 && nv[0] < 128 && GetTime(nv).None?
  {
    ModeBits(nv[0]);
    hide Ticks, GetTime, BitSet;
    TicksFailIff(nv, n);
  }
}
