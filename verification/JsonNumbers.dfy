/** Integers in lib/jsoncpp/jsoncpp.cpp: how the reader gathers digits in 64 bits and how the writer prints. */
module JsonNumbers {
  import opened JsonText

  const MAX_INT := 0x7fff_ffff
  const TWO63 := 0x8000_0000_0000_0000
  const TWO64 := 0x1_0000_0000_0000_0000

  predicate IsDigit(c: char) {
    '0' <= c <= '9'
  }

  function DigitOf(c: char): nat
    requires IsDigit(c)
  {
    c as int - '0' as int
  }

  function Negative(n: nat): int {
    0 - n as int
  }

  /** What the digit loop of decodeNumber comes to. */
  datatype Gathered = Whole(value: nat) | TooLong | NotDigit

  /** The loop from digit k on, its value in 64 unsigned bits, for a largest value of `max`. */
  function Gather(s: text, k: nat, value: nat, max: nat): (g: Gathered)
    requires k <= |s| && value < TWO64
    ensures g.Whole? ==> g.value < TWO64
    decreases |s| - k
  {
    if k == |s| then Whole(value)
    else if !IsDigit(s[k]) then NotDigit
    else
      var digit := DigitOf(s[k]);
      if value >= max / 10 && (k + 1 != |s| || digit > max % 10) then TooLong
      else Gather(s, k + 1, (value * 10 + digit) % TWO64, max)
  }

  /** A signed 64-bit result. */
  function Wrap64(x: int): int {
    (x + TWO63) % TWO64 - TWO63
  }

  datatype Number = Signed(i: int) | Unsigned(u: nat) | Real | Bad

  /** decodeNumber, on the text of a token: Real when it hands the text to the floating-point scanner. */
  function DecodeNumber(s: text): Number
    requires s != []
  {
    if exists k :: 0 <= k < |s| && (s[k] in {'.', 'e', 'E', '+'} || (s[k] == '-' && k > 0)) then Real
    else if s[0] == '-' then
      match Gather(s[1..], 0, 0, TWO63)
      case Whole(value) => Signed(Wrap64(Negative(value)))
      case TooLong => Real
      case NotDigit => Bad
    else
      match Gather(s, 0, 0, TWO64 - 1)
      case Whole(value) => if value <= MAX_INT then Signed(value) else Unsigned(value)
      case TooLong => Real
      case NotDigit => Bad
  }

  /** A point, an exponent or a sign past the start makes a real of a number. */
  lemma MarkedIsReal(s: text, k: nat)
    requires k < |s| && (s[k] in {'.', 'e', 'E', '+'} || (s[k] == '-' && k > 0))
    ensures DecodeNumber(s) == Real
  {
    hide Gather;
  }

  /** The number a text of digits stands for. */
  function DigitsValue(s: text): nat
    requires forall i :: 0 <= i < |s| ==> IsDigit(s[i])
  {
    if s == [] then 0 else 10 * DigitsValue(s[..|s| - 1]) + DigitOf(s[|s| - 1])
  }

  ghost predicate Digits(s: text) {
    forall i :: 0 <= i < |s| ==> IsDigit(s[i])
  }

  lemma PrefixStep(s: text, k: nat)
    requires Digits(s) && k < |s|
    ensures DigitsValue(s[..k + 1]) == 10 * DigitsValue(s[..k]) + DigitOf(s[k])
  {
    assert s[..k + 1][..k] == s[..k];
  }

  lemma {:induction false} PrefixBelow(s: text, k: nat, n: nat)
    requires Digits(s) && k <= n <= |s|
    ensures DigitsValue(s[..k]) <= DigitsValue(s[..n])
    decreases n
  {
    if k < n {
      PrefixBelow(s, k, n - 1);
      PrefixStep(s, n - 1);
    }
  }

  lemma PrefixWithin(s: text, k: nat)
    requires Digits(s) && k < |s|
    ensures 10 * DigitsValue(s[..k]) + DigitOf(s[k]) <= DigitsValue(s)
  {
    assert s[..|s|] == s;
    PrefixStep(s, k);
    PrefixBelow(s, k + 1, |s|);
  }

  /** A digit before the last finds less than a tenth of any bound the whole number meets. */
  lemma PrefixSmall(s: text, k: nat, max: nat)
    requires Digits(s) && k < |s| && DigitsValue(s) <= max && max >= 10
    ensures 10 * DigitsValue(s[..k]) + DigitOf(s[k]) <= max
    ensures k + 1 < |s| ==> DigitsValue(s[..k]) < max / 10
  {
    PrefixWithin(s, k);
    if k + 1 < |s| {
      PrefixWithin(s, k + 1);
      PrefixStep(s, k);
    }
  }

  lemma {:induction false} GatherPrefix(s: text, k: nat, max: nat)
    requires Digits(s) && k <= |s| && DigitsValue(s) <= max && 10 <= max < TWO64
    ensures DigitsValue(s[..k]) < TWO64
    ensures Gather(s, 0, 0, max) == Gather(s, k, DigitsValue(s[..k]), max)
  {
    if k > 0 {
      GatherPrefix(s, k - 1, max);
      PrefixStep(s, k - 1);
      PrefixSmall(s, k - 1, max);
      GatherStep(s, k - 1, DigitsValue(s[..k - 1]), max);
    }
  }

  lemma GatherStep(s: text, k: nat, value: nat, max: nat)
    requires Digits(s) && k < |s| && value < TWO64 && 10 <= max < TWO64
    requires 10 * value + DigitOf(s[k]) <= max && (k + 1 < |s| ==> value < max / 10)
    ensures Gather(s, k, value, max) == Gather(s, k + 1, 10 * value + DigitOf(s[k]), max)
  {
  }

  /** On numbers in range the loop never overflows and gathers the number itself. */
  lemma GatherExact(s: text, max: nat)
    requires Digits(s) && DigitsValue(s) <= max && 10 <= max < TWO64
    ensures Gather(s, 0, 0, max) == Whole(DigitsValue(s))
  {
    GatherPrefix(s, |s|, max);
    assert s[..|s|] == s;
  }

  /** The text of an integer: digits, perhaps after a minus. */
  ghost predicate IntegerText(s: text) {
    s != [] && (if s[0] == '-' then Digits(s[1..]) else Digits(s))
  }

  function IntegerValue(s: text): int
    requires IntegerText(s)
  {
    if s[0] == '-' then Negative(DigitsValue(s[1..])) else DigitsValue(s)
  }

  /** The integer a decoded number is, if it is one. */
  predicate DecodesTo(n: Number, x: int) {
    match n
    case Signed(i) => i == x
    case Unsigned(u) => u == x
    case _ => false
  }

  lemma WrapInside(x: int)
    ensures -TWO63 <= Wrap64(x) < TWO63
    ensures -TWO63 <= x < TWO63 ==> Wrap64(x) == x
  {
  }

  /** The reader decodes an integer to itself exactly when it lies between the least signed and the greatest
      unsigned 64-bit integer: outside, the overflow test lets some numbers through, but never unchanged. */
  lemma IntegerDecodesIff(s: text)
    requires IntegerText(s)
    ensures DecodesTo(DecodeNumber(s), IntegerValue(s)) <==> -TWO63 <= IntegerValue(s) < TWO64
  {
    hide Gather, Wrap64;
    if s[0] == '-' {
      if DigitsValue(s[1..]) <= TWO63 {
        GatherExact(s[1..], TWO63);
        WrapInside(Negative(DigitsValue(s[1..])));
      } else if Gather(s[1..], 0, 0, TWO63).Whole? {
        WrapInside(Negative(Gather(s[1..], 0, 0, TWO63).value));
      }
    } else if DigitsValue(s) < TWO64 {
      GatherExact(s, TWO64 - 1);
    }
  }

  // ----- past the top -----

  /** Digits before the last that stay below a tenth of the bound. */
  lemma {:induction false} GatherBelow(s: text, k: nat, max: nat)
    requires Digits(s) && k < |s| && 10 <= max < TWO64
    requires k > 0 ==> DigitsValue(s[..k - 1]) < max / 10
    ensures DigitsValue(s[..k]) <= max
    ensures Gather(s, 0, 0, max) == Gather(s, k, DigitsValue(s[..k]), max)
  {
    if k > 0 {
      PrefixStep(s, k - 1);
      if k > 1 {
        PrefixBelow(s, k - 2, k - 1);
      }
      GatherBelow(s, k - 1, max);
      GatherStep(s, k - 1, DigitsValue(s[..k - 1]), max);
    }
  }

  /** One that does not, before the last digit, makes the number too long. */
  lemma {:induction false} GatherBreaks(s: text, k: nat, max: nat)
    requires Digits(s) && k + 1 < |s| && 10 <= max < TWO64 && DigitsValue(s[..k]) >= max / 10
    ensures Gather(s, 0, 0, max) == TooLong
  {
    if k > 0 && DigitsValue(s[..k - 1]) >= max / 10 {
      GatherBreaks(s, k - 1, max);
    } else {
      GatherBelow(s, k, max);
      assert IsDigit(s[k]);
    }
  }

  lemma LastDigits(s: text)
    requires Digits(s) && |s| >= 2
    ensures var v := DigitsValue(s);
            && DigitsValue(s[..|s| - 1]) == v / 10 && DigitOf(s[|s| - 1]) == v % 10
            && DigitsValue(s[..|s| - 2]) == v / 100
  {
    PrefixStep(s, |s| - 1);
    PrefixStep(s, |s| - 2);
    assert s[..|s|] == s;
  }

  /** Past the bound, the test looks at the last digit only. */
  predicate SlipsThrough(v: nat, max: nat) {
    v / 100 < max / 10 && v % 10 <= max % 10
  }

  lemma GatherPastTop(s: text, max: nat)
    requires Digits(s) && DigitsValue(s) > max && 10 <= max < TWO64
    ensures Gather(s, 0, 0, max) ==
            if SlipsThrough(DigitsValue(s), max) then Whole(DigitsValue(s) % TWO64) else TooLong
  {
    hide Gather;
    LastDigits(s);
    var v, n := DigitsValue(s), |s| - 1;
    if v / 100 >= max / 10 {
      GatherBreaks(s, n - 1, max);
    } else {
      GatherBelow(s, n, max);
      LastStep(s, DigitsValue(s[..n]), max);
    }
  }

  lemma LastStep(s: text, value: nat, max: nat)
    requires Digits(s) && s != [] && value < TWO64 && value >= max / 10 && 10 <= max < TWO64
    ensures Gather(s, |s| - 1, value, max) ==
            if DigitOf(s[|s| - 1]) <= max % 10 then Whole((value * 10 + DigitOf(s[|s| - 1])) % TWO64) else TooLong
  {
    assert IsDigit(s[|s| - 1]);
  }

  function Magnitude(x: int): nat {
    if x < 0 then -x else x
  }

  /** An integer outside the 64-bit range is handed to the floating-point scanner, except when all but its last
      two digits are below a tenth of the bound of its sign and its last digit is not above the bound's: then
      it comes out as the wrong integer it is modulo 2^64. */
  lemma WrongIntegerIff(s: text)
    requires IntegerText(s) && !(-TWO63 <= IntegerValue(s) < TWO64)
    ensures var x := IntegerValue(s);
            var wraps := SlipsThrough(Magnitude(x), if x < 0 then TWO63 else TWO64 - 1);
            && (DecodeNumber(s) == Real <==> !wraps)
            && (wraps ==> DecodesTo(DecodeNumber(s), if x < 0 then Wrap64(x) else x % TWO64))
  {
    hide Gather, Wrap64, SlipsThrough;
    if s[0] == '-' {
      GatherPastTop(s[1..], TWO63);
      WrapAgain(DigitsValue(s[1..]));
    } else {
      GatherPastTop(s, TWO64 - 1);
    }
  }

  lemma WrapAgain(v: nat)
    ensures Wrap64(Negative(v % TWO64)) == Wrap64(Negative(v))
  {
    var q := v / TWO64;
    assert Negative(v % TWO64) + TWO63 == Negative(v) + TWO63 + TWO64 * q;
  }

  /** 2^64 + 4 is such a number: it is taken for four. */
  lemma OverflowSlipsThrough()
    ensures DecodeNumber(Show(TWO64 + 4)) == Signed(4)
  {
    hide Show, Gather;
    var s := Show(TWO64 + 4);
    ShowIsDigits(TWO64 + 4);
    assert IsDigit(s[0]);
    GatherPastTop(s, TWO64 - 1);
  }

  // ----- writing -----

  /** uintToString. */
  function Show(n: nat): (s: text)
    ensures s != []
  {
    var digit := ('0' as int + n % 10) as char;
    if n < 10 then [digit] else Show(n / 10) + [digit]
  }

  /** valueToString of a signed integer. */
  function ShowInt(i: int): text {
    if i < 0 then ['-'] + Show(-i) else Show(i)
  }

  lemma {:induction false} ShowIsDigits(n: nat)
    ensures Digits(Show(n)) && DigitsValue(Show(n)) == n
  {
    if n >= 10 {
      ShowIsDigits(n / 10);
      var digit := ('0' as int + n % 10) as char;
      assert (Show(n / 10) + [digit])[..|Show(n / 10)|] == Show(n / 10);
    } else {
      assert Show(n)[..0] == [];
    }
  }

  lemma ShowIntIsInteger(i: int)
    ensures IntegerText(ShowInt(i)) && IntegerValue(ShowInt(i)) == i
  {
    if i < 0 {
      ShowIsDigits(-i);
      assert ShowInt(i)[1..] == Show(-i);
    } else {
      ShowIsDigits(i);
      assert IsDigit(Show(i)[0]);
    }
  }

  /** A printed 64-bit integer reads back as itself, signed up to the greatest 32-bit integer and unsigned
      above. */
  lemma NumberReadsBack(i: int)
    requires -TWO63 <= i < TWO64
    ensures DecodeNumber(ShowInt(i)) == if i <= MAX_INT then Signed(i) else Unsigned(i)
  {
    hide Gather, Wrap64, ShowInt;
    var s := ShowInt(i);
    ShowIntIsInteger(i);
    if s[0] == '-' {
      GatherExact(s[1..], TWO63);
      WrapInside(i);
    } else {
      GatherExact(s, TWO64 - 1);
    }
  }
}
