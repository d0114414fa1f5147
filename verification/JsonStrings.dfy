/** Strings in lib/jsoncpp/jsoncpp.cpp: what the reader decodes, what the writer escapes, and that the one
    undoes the other. */
module JsonStrings {
  import opened JsonText

  datatype Problem =
    | EmptyEscape | BadEscape | FourDigits | HexDigit | SixCharacters | SecondHalf
    | NotANumber | ValueExpected | MissingColon | MissingCommaOrBrace | MissingBrace | MissingCommaOrBracket

  datatype Result<+T> = Ok(value: T) | Err(problem: Problem) {

    predicate IsFailure() {
      Err?
    }

    function PropagateFailure<U>(): Result<U>
      requires Err?
    {
      Err(problem)
    }

    function Extract(): T
      requires Ok?
    {
      value
    }
  }

  const BACKSPACE := '\U{0008}'
  const FORM_FEED := '\U{000C}'

  // ----- reading -----

  /** codePointToUTF8. */
  function Utf8(cp: nat): text {
    if cp <= 0x7f then [cp as char]
    else if cp <= 0x7ff then [(0xc0 + cp / 0x40) as char, (0x80 + cp % 0x40) as char]
    else if cp <= 0xffff then
      [(0xe0 + cp / 0x1000) as char, (0x80 + cp / 0x40 % 0x40) as char, (0x80 + cp % 0x40) as char]
    else if cp <= 0x10ffff then
      [(0xf0 + cp / 0x4_0000) as char, (0x80 + cp / 0x1000 % 0x40) as char,
       (0x80 + cp / 0x40 % 0x40) as char, (0x80 + cp % 0x40) as char]
    else []
  }

  function HexValue(c: char): (r: Result<nat>)
    ensures r.Ok? ==> r.value < 16
  {
    if '0' <= c <= '9' then Ok(c as int - '0' as int)
    else if 'a' <= c <= 'f' then Ok(c as int - 'a' as int + 10)
    else if 'A' <= c <= 'F' then Ok(c as int - 'A' as int + 10)
    else Err(HexDigit)
  }

  /** decodeUnicodeEscapeSequence: four hexadecimal digits at i. */
  function HexQuad(s: text, i: nat): (r: Result<nat>)
    requires i <= |s|
    ensures r.Ok? ==> r.value <= 0xffff && i + 4 <= |s|
  {
    hide HexValue;
    if |s| - i < 4 then Err(FourDigits)
    else
      var a :- HexValue(s[i]);
      var b :- HexValue(s[i + 1]);
      var c :- HexValue(s[i + 2]);
      var d :- HexValue(s[i + 3]);
      Ok(a * 0x1000 + b * 0x100 + c * 0x10 + d)
  }

  /** decodeUnicodeCodePoint: the code point, and where the escape ends. */
  function CodePoint(s: text, i: nat): (r: Result<(nat, nat)>)
    requires i <= |s|
    ensures r.Ok? ==> i < r.value.1 <= |s| && r.value.0 <= 0x10ffff
  {
    var unicode :- HexQuad(s, i);
    var j := i + 4;
    if 0xd800 <= unicode <= 0xdbff then
      if |s| - j < 6 then Err(SixCharacters)
      else if s[j] == '\\' && s[j + 1] == 'u' then
        var second :- HexQuad(s, j + 2);
        Ok((0x1_0000 + unicode % 0x400 * 0x400 + second % 0x400, j + 6))
      else Err(SecondHalf)
    else Ok((unicode, j))
  }

  /** One character or escape at i: what it stands for, and where it ends. */
  function Piece(s: text, i: nat): (r: Result<(text, nat)>)
    requires i < |s|
    ensures r.Ok? ==> i < r.value.1 <= |s|
  {
    if s[i] != '\\' then Ok(([s[i]], i + 1))
    else if i + 1 == |s| then Err(EmptyEscape)
    else
      var e := s[i + 1];
      if e == '"' || e == '/' || e == '\\' then Ok(([e], i + 2))
      else if e == 'b' then Ok(([BACKSPACE], i + 2))
      else if e == 'f' then Ok(([FORM_FEED], i + 2))
      else if e == 'n' then Ok((['\n'], i + 2))
      else if e == 'r' then Ok((['\r'], i + 2))
      else if e == 't' then Ok((['\t'], i + 2))
      else if e == 'u' then
        var (cp, j) :- CodePoint(s, i + 2);
        Ok((Utf8(cp), j))
      else Err(BadEscape)
  }

  /** decodeString, from i on; a quote ends the string early. */
  function DecodeFrom(s: text, i: nat): Result<text>
    requires i <= |s|
    decreases |s| - i
  {
    if i == |s| || s[i] == '"' then Ok([])
    else
      var (piece, j) :- Piece(s, i);
      var rest :- DecodeFrom(s, j);
      Ok(piece + rest)
  }

  // ----- writing -----

  predicate ControlCharacter(c: char) {
    '\U{0001}' <= c <= '\U{001F}'
  }

  function HexDigitOf(n: nat): char
    requires n < 16
  {
    if n < 10 then ('0' as int + n) as char else ('A' as int + n - 10) as char
  }

  function Hex4(n: nat): (h: text)
    requires n <= 0xffff
    ensures |h| == 4
  {
    [HexDigitOf(n / 0x1000), HexDigitOf(n / 0x100 % 16), HexDigitOf(n / 16 % 16), HexDigitOf(n % 16)]
  }

  /** One character as the switch in valueToQuotedString writes it. */
  function Escape(c: char): (e: text)
    ensures 1 <= |e|
  {
    if c == '"' then ['\\', '"']
    else if c == '\\' then ['\\', '\\']
    else if c == BACKSPACE then ['\\', 'b']
    else if c == FORM_FEED then ['\\', 'f']
    else if c == '\n' then ['\\', 'n']
    else if c == '\r' then ['\\', 'r']
    else if c == '\t' then ['\\', 't']
    else if ControlCharacter(c) then ['\\', 'u'] + Hex4(c as int)
    else [c]
  }

  function Escaped(s: text): text {
    if s == [] then [] else Escape(s[0]) + Escaped(s[1..])
  }

  /** valueToQuotedString, whose fast path agrees with its loop. */
  function Quoted(s: text): text {
    ['"'] + Escaped(s) + ['"']
  }

  predicate Plain(c: char) {
    c != '"' && c != '\\' && c != BACKSPACE && c != FORM_FEED && c != '\n' && c != '\r' && c != '\t'
        && !ControlCharacter(c)
  }

  lemma {:induction false} PlainIsItself(s: text)
    requires forall i :: 0 <= i < |s| ==> Plain(s[i])
    ensures Escaped(s) == s
  {
    if s != [] {
      PlainIsItself(s[1..]);
      assert Escape(s[0]) == [s[0]];
    }
  }

  /** Every control character is escaped, and nothing else but quotes and backslashes. */
  lemma {:induction false} NoRawControls(s: text, k: nat)
    requires k < |Escaped(s)|
    ensures Escaped(s)[k] as int >= 0x20 || Escaped(s)[k] == '\0'
    decreases |s|
  {
    hide Escape;
    NoRawControl(s[0]);
    if k >= |Escape(s[0])| {
      NoRawControls(s[1..], k - |Escape(s[0])|);
    }
  }

  lemma NoRawControl(c: char)
    ensures forall k :: 0 <= k < |Escape(c)| ==> Escape(c)[k] as int >= 0x20 || Escape(c)[k] == '\0'
    ensures c == '\0' || (c as int >= 0x20 && c != '"' && c != '\\') <==> Escape(c) == [c]
  {
  }

  // ----- one undoes the other -----

  /** The text t stands in s at i. */
  predicate Holds(s: text, i: nat, t: text) {
    i + |t| <= |s| && s[i..i + |t|] == t
  }

  lemma HoldsParts(s: text, i: nat, a: text, b: text)
    ensures Holds(s, i, a + b) <==> Holds(s, i, a) && Holds(s, i + |a|, b)
  {
    if Holds(s, i, a + b) {
      assert s[i..i + |a|] == s[i..i + |a + b|][..|a|];
      assert s[i + |a|..i + |a| + |b|] == s[i..i + |a + b|][|a|..];
    }
    if Holds(s, i, a) && Holds(s, i + |a|, b) {
      HoldsJoin(s, i, a, b);
    }
  }

  lemma HoldsJoin(s: text, i: nat, a: text, b: text)
    requires Holds(s, i, a) && Holds(s, i + |a|, b)
    ensures Holds(s, i, a + b)
  {
    assert s[i..i + |a + b|] == s[i..i + |a|] + s[i + |a|..i + |a| + |b|];
  }

  lemma HoldsAt(s: text, i: nat, t: text, k: nat)
    requires Holds(s, i, t) && k < |t|
    ensures i + k < |s| && s[i + k] == t[k]
  {
    assert s[i..i + |t|][k] == s[i + k];
  }

  lemma HexBack(n: nat)
    requires n < 16
    ensures HexValue(HexDigitOf(n)) == Ok(n)
  {
  }

  lemma HexQuadBack(s: text, i: nat, n: nat)
    requires n <= 0xffff && Holds(s, i, Hex4(n))
    ensures HexQuad(s, i) == Ok(n)
  {
    hide HexValue, HexDigitOf, Holds;
    HoldsAt(s, i, Hex4(n), 0);
    HoldsAt(s, i, Hex4(n), 1);
    HoldsAt(s, i, Hex4(n), 2);
    HoldsAt(s, i, Hex4(n), 3);
    HexBack(n / 0x1000);
    HexBack(n / 0x100 % 16);
    HexBack(n / 16 % 16);
    HexBack(n % 16);
    FourNibbles(n);
  }

  lemma FourNibbles(n: nat)
    requires n <= 0xffff
    ensures n / 0x1000 * 0x1000 + n / 0x100 % 16 * 0x100 + n / 16 % 16 * 0x10 + n % 16 == n
  {
    assert n / 0x100 == n / 16 / 16 && n / 0x1000 == n / 0x100 / 16;
  }

  lemma ControlPiece(s: text, i: nat, c: char)
    requires ControlCharacter(c) && Holds(s, i, ['\\', 'u'] + Hex4(c as int))
    ensures Piece(s, i) == Ok(([c], i + 6))
  {
    hide HexQuad, Hex4, Holds;
    var t := ['\\', 'u'];
    HoldsParts(s, i, t, Hex4(c as int));
    HoldsAt(s, i, t, 0);
    HoldsAt(s, i, t, 1);
    HexQuadBack(s, i + 2, c as int);
  }

  /** The reader takes each escape back to its character. */
  lemma EscapeBack(s: text, i: nat, c: char)
    requires c != '\0' && Holds(s, i, Escape(c))
    ensures i < |s| && Piece(s, i) == Ok(([c], i + |Escape(c)|))
    ensures s[i] != '"'
  {
    hide Hex4, Holds, CodePoint;
    HoldsAt(s, i, Escape(c), 0);
    if |Escape(c)| == 2 {
      HoldsAt(s, i, Escape(c), 1);
    } else if |Escape(c)| != 1 {
      ControlPiece(s, i, c);
    }
  }

  lemma {:induction false} DecodeUndoesEscape(s: text, i: nat, v: text)
    requires '\0' !in v && Holds(s, i, Escaped(v)) && i + |Escaped(v)| == |s|
    ensures DecodeFrom(s, i) == Ok(v)
    decreases |v|
  {
    hide Holds, Piece, Escape;
    if v == [] {
    } else {
      HoldsParts(s, i, Escape(v[0]), Escaped(v[1..]));
      EscapeBack(s, i, v[0]);
      DecodeUndoesEscape(s, i + |Escape(v[0])|, v[1..]);
      assert v == [v[0]] + v[1..];
    }
  }

  /** The scanner passes over each escape. */
  lemma ScanEscape(doc: text, p: nat, c: char)
    requires Holds(doc, p, Escape(c))
    ensures ReadString(doc, p) == ReadString(doc, p + |Escape(c)|)
  {
    hide Hex4, Holds;
    HoldsAt(doc, p, Escape(c), 0);
    if |Escape(c)| == 2 {
      HoldsAt(doc, p, Escape(c), 1);
    } else if |Escape(c)| != 1 {
      ScanControl(doc, p, c as int);
    }
  }

  lemma ScanPlain(doc: text, p: nat)
    requires p < |doc| && doc[p] != '\\' && doc[p] != '"'
    ensures ReadString(doc, p) == ReadString(doc, p + 1)
  {
  }

  lemma ScanControl(doc: text, p: nat, n: nat)
    requires n <= 0xffff && Holds(doc, p, ['\\', 'u'] + Hex4(n))
    ensures ReadString(doc, p) == ReadString(doc, p + 6)
  {
    hide Holds, ReadString, Hex4;
    var t := ['\\', 'u'];
    HoldsParts(doc, p, t, Hex4(n));
    HoldsAt(doc, p, t, 0);
    HoldsAt(doc, p, t, 1);
    ScanEscapeStart(doc, p);
    ScanDigit(doc, p + 2, n, 0);
    ScanDigit(doc, p + 2, n, 1);
    ScanDigit(doc, p + 2, n, 2);
    ScanDigit(doc, p + 2, n, 3);
  }

  lemma ScanEscapeStart(doc: text, p: nat)
    requires p + 1 < |doc| && doc[p] == '\\'
    ensures ReadString(doc, p) == ReadString(doc, p + 2)
  {
  }

  lemma ScanDigit(doc: text, p: nat, n: nat, k: nat)
    requires n <= 0xffff && Holds(doc, p, Hex4(n)) && k < 4
    ensures ReadString(doc, p + k) == ReadString(doc, p + k + 1)
  {
    hide Holds, ReadString;
    HoldsAt(doc, p, Hex4(n), k);
    ScanPlain(doc, p + k);
  }

  lemma {:induction false} ScanQuoted(doc: text, p: nat, v: text)
    requires Holds(doc, p, Escaped(v)) && Holds(doc, p + |Escaped(v)|, ['"'])
    ensures ReadString(doc, p) == (true, p + |Escaped(v)| + 1)
    decreases |v|
  {
    hide Holds, Escape, ReadString;
    if v == [] {
      HoldsAt(doc, p, ['"'], 0);
      ScanClose(doc, p);
    } else {
      HoldsParts(doc, p, Escape(v[0]), Escaped(v[1..]));
      ScanEscape(doc, p, v[0]);
      ScanQuoted(doc, p + |Escape(v[0])|, v[1..]);
    }
  }

  lemma ScanClose(doc: text, p: nat)
    requires p < |doc| && doc[p] == '"'
    ensures ReadString(doc, p) == (true, p + 1)
  {
  }

  /** Between quotes the writer puts text that the reader scans to exactly its end and decodes to the string. */
  lemma QuotedReadsBack(doc: text, p: nat, v: text)
    requires '\0' !in v && Holds(doc, p, Quoted(v))
    ensures ReadToken(doc, p) == Token(StringToken, p, p + |Quoted(v)|)
    ensures DecodeFrom(doc[p + 1..p + |Quoted(v)| - 1], 0) == Ok(v)
  {
    hide Holds, Escaped, ReadString, DecodeFrom;
    var e := Escaped(v);
    HoldsParts(doc, p, ['"'] + e, ['"']);
    HoldsParts(doc, p, ['"'], e);
    HoldsAt(doc, p, ['"'], 0);
    ScanQuoted(doc, p + 1, v);
    NoSpace(doc, p);
    var s := doc[p + 1..p + 1 + |e|];
    HoldsAll(doc, p + 1, e);
    DecodeUndoesEscape(s, 0, v);
  }

  lemma NoSpace(doc: text, p: nat)
    requires p < |doc| && !Space(doc[p])
    ensures SkipSpaces(doc, p) == p
  {
  }

  lemma HoldsAll(doc: text, p: nat, e: text)
    requires Holds(doc, p, e)
    ensures p + |e| <= |doc| && Holds(doc[p..p + |e|], 0, e) && |doc[p..p + |e|]| == |e|
  {
    assert doc[p..p + |e|][0..|e|] == doc[p..p + |e|];
  }

  // ----- unicode escapes -----

  /** The decoding of section 3 of RFC 3629: the code point at i and its length in bytes, shortest forms only. */
  function FromUtf8(s: text, i: nat): Result<(nat, nat)>
    requires i < |s|
  {
    var a := s[i] as int;
    if a < 0x80 then Ok((a, 1))
    else if 0xc2 <= a < 0xe0 && Continues(s, i, 2) then Ok(((a - 0xc0) * 0x40 + Tail(s, i + 1), 2))
    else if 0xe0 <= a < 0xf0 && Continues(s, i, 3)
            && (a - 0xe0) * 0x1000 + Tail(s, i + 1) * 0x40 + Tail(s, i + 2) > 0x7ff then
      Ok(((a - 0xe0) * 0x1000 + Tail(s, i + 1) * 0x40 + Tail(s, i + 2), 3))
    else if 0xf0 <= a < 0xf5 && Continues(s, i, 4)
            && 0xffff < (a - 0xf0) * 0x4_0000 + Tail(s, i + 1) * 0x1000 + Tail(s, i + 2) * 0x40
                + Tail(s, i + 3) <= 0x10ffff then
      Ok(((a - 0xf0) * 0x4_0000 + Tail(s, i + 1) * 0x1000 + Tail(s, i + 2) * 0x40 + Tail(s, i + 3), 4))
    else Err(BadEscape)
  }

  predicate Continues(s: text, i: nat, n: nat) {
    i + n <= |s| && forall k :: i < k < i + n ==> 0x80 <= s[k] as int < 0xc0
  }

  function Tail(s: text, k: nat): int
    requires k < |s|
  {
    s[k] as int - 0x80
  }

  lemma SplitTwelve(cp: nat)
    ensures cp / 0x1000 * 0x1000 + cp / 0x40 % 0x40 * 0x40 + cp % 0x40 == cp
    ensures cp / 0x40 / 0x40 == cp / 0x1000
  {
    assert cp / 0x1000 == cp / 0x40 / 0x40;
  }

  lemma SplitEighteen(cp: nat)
    ensures cp / 0x4_0000 * 0x4_0000 + cp / 0x1000 % 0x40 * 0x1000 + cp / 0x40 % 0x40 * 0x40 + cp % 0x40 == cp
  {
    SplitTwelve(cp);
    assert cp / 0x4_0000 == cp / 0x1000 / 0x40;
  }

  lemma FourByteForm(cp: nat)
    requires 0xffff < cp <= 0x10ffff
    ensures FromUtf8(Utf8(cp), 0) == Ok((cp, 4)) && |Utf8(cp)| == 4
  {
    SplitEighteen(cp);
  }

  lemma ShorterForm(cp: nat)
    requires cp <= 0xffff
    ensures |Utf8(cp)| > 0 && FromUtf8(Utf8(cp), 0) == Ok((cp, |Utf8(cp)|))
  {
    SplitTwelve(cp);
  }

  /** Every code point is written as its UTF-8 form. */
  lemma Utf8IsUtf8(cp: nat)
    requires cp <= 0x10ffff
    ensures |Utf8(cp)| > 0 && FromUtf8(Utf8(cp), 0) == Ok((cp, |Utf8(cp)|))
  {
    hide Utf8, FromUtf8;
    if cp <= 0xffff {
      ShorterForm(cp);
    } else {
      FourByteForm(cp);
    }
  }
}
