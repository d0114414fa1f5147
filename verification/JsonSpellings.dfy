/** The many ways section 7 of RFC 8259 has to spell a string, and that the reader takes each to the same one. */
module JsonSpellings {
  import opened JsonText
  import opened JsonStrings

  /** c is a hexadecimal digit of either case and stands for n. */
  predicate Digit(c: char, n: nat) {
    n < 16 && (c == "0123456789abcdef"[n] || c == "0123456789ABCDEF"[n])
  }

  predicate FourDigitsOf(s: text, n: nat) {
    && |s| == 4
    && Digit(s[0], n / 0x1000) && Digit(s[1], n / 0x100 % 16) && Digit(s[2], n / 16 % 16) && Digit(s[3], n % 16)
  }

  /** A byte as it is, a two-character escape, a code unit in hexadecimal, a surrogate pair. */
  datatype Spelling =
    | Raw(c: char) | Short(c: char) | Unit(n: nat, digits: text) | Pair(cp: nat, high: text, low: text)
  {

    predicate Proper() {
      match this
      case Raw(c) => c != '"' && c != '\\'
      case Short(c) => c in {'"', '\\', '/', 'b', 'f', 'n', 'r', 't'}
      case Unit(n, digits) => n < 0x1_0000 && FourDigitsOf(digits, n) && !(0xd800 <= n < 0xdc00)
      case Pair(cp, high, low) =>
        0x1_0000 <= cp < 0x11_0000
        && FourDigitsOf(high, 0xd800 + (cp - 0x1_0000) / 0x400) && FourDigitsOf(low, 0xdc00 + (cp - 0x1_0000) % 0x400)
    }

    function Text(): text {
      match this
      case Raw(c) => [c]
      case Short(c) => ['\\', c]
      case Unit(_, digits) => ['\\', 'u'] + digits
      case Pair(_, high, low) => ['\\', 'u'] + (high + (['\\', 'u'] + low))
    }

    /** What it stands for, in UTF-8. */
    function Meaning(): text {
      match this
      case Raw(c) => [c]
      case Short(c) =>
        (match c
         case 'b' => ['\U{0008}']
         case 'f' => ['\U{000C}']
         case 'n' => ['\U{000A}']
         case 'r' => ['\U{000D}']
         case 't' => ['\U{0009}']
         case _ => [c])
      case Unit(n, _) => Utf8(n)
      case Pair(cp, _, _) => Utf8(cp)
    }
  }

  function TextOf(ps: seq<Spelling>): text {
    if ps == [] then [] else ps[0].Text() + TextOf(ps[1..])
  }

  function MeaningOf(ps: seq<Spelling>): text {
    if ps == [] then [] else ps[0].Meaning() + MeaningOf(ps[1..])
  }

  predicate AllProper(ps: seq<Spelling>) {
    forall i :: 0 <= i < |ps| ==> ps[i].Proper()
  }

  // ----- one spelling -----

  lemma DigitIs(c: char, n: nat)
    requires Digit(c, n)
    ensures HexValue(c) == Ok(n) && c != '"' && c != '\\'
  {
  }

  /** A character is taken for a hexadecimal digit exactly when it is one. */
  lemma HexValueIff(c: char, n: nat)
    ensures HexValue(c) == Ok(n) <==> Digit(c, n)
  {
  }

  lemma QuadIs(s: text, i: nat, digits: text, n: nat)
    requires Holds(s, i, digits) && FourDigitsOf(digits, n) && n < 0x1_0000
    ensures i <= |s| && HexQuad(s, i) == Ok(n)
  {
    HoldsAt(s, i, digits, 0);
    HoldsAt(s, i, digits, 1);
    HoldsAt(s, i, digits, 2);
    HoldsAt(s, i, digits, 3);
    DigitsAre(digits, n);
    hide *;
    QuadOf(s, i, n / 0x1000, n / 0x100 % 16, n / 16 % 16, n % 16);
    FourNibbles(n);
  }

  lemma DigitsAre(digits: text, n: nat)
    requires FourDigitsOf(digits, n)
    ensures |digits| == 4
    ensures HexValue(digits[0]) == Ok(n / 0x1000) && HexValue(digits[1]) == Ok(n / 0x100 % 16)
    ensures HexValue(digits[2]) == Ok(n / 16 % 16) && HexValue(digits[3]) == Ok(n % 16)
  {
    hide Digit, HexValue;
    DigitIs(digits[0], n / 0x1000);
    DigitIs(digits[1], n / 0x100 % 16);
    DigitIs(digits[2], n / 16 % 16);
    DigitIs(digits[3], n % 16);
  }

  lemma QuadOf(s: text, i: nat, a: nat, b: nat, c: nat, d: nat)
    requires i + 4 <= |s| && HexValue(s[i]) == Ok(a) && HexValue(s[i + 1]) == Ok(b)
    requires HexValue(s[i + 2]) == Ok(c) && HexValue(s[i + 3]) == Ok(d)
    ensures HexQuad(s, i) == Ok(a * 0x1000 + b * 0x100 + c * 0x10 + d)
  {
    hide HexValue;
  }

  /** The reader takes the spelling at i, up to its end, to what it stands for. */
  predicate Decodes(s: text, i: nat, p: Spelling) {
    i < |s| && s[i] != '"' && Piece(s, i) == Ok((p.Meaning(), i + |p.Text()|))
  }

  lemma UnitDecodes(s: text, i: nat, p: Spelling)
    requires p.Unit? && p.Proper() && Holds(s, i, p.Text())
    ensures Decodes(s, i, p)
  {
    var u := ['\\', 'u'];
    assert |p.digits| == 4;
    hide HexQuad, Holds, FourDigitsOf, Utf8;
    HoldsParts(s, i, u, p.digits);
    HoldsAt(s, i, u, 0);
    HoldsAt(s, i, u, 1);
    QuadIs(s, i + 2, p.digits, p.n);
  }

  lemma PairValue(cp: nat)
    requires 0x1_0000 <= cp < 0x11_0000
    ensures var (h, l) := (0xd800 + (cp - 0x1_0000) / 0x400, 0xdc00 + (cp - 0x1_0000) % 0x400);
            0xd800 <= h <= 0xdbff && l < 0x1_0000 && 0x1_0000 + h % 0x400 * 0x400 + l % 0x400 == cp
  {
    var (a, b) := ((cp - 0x1_0000) / 0x400, (cp - 0x1_0000) % 0x400);
    assert a < 0x400 && a * 0x400 + b == cp - 0x1_0000;
    assert (0xd800 + a) % 0x400 == a && (0xdc00 + b) % 0x400 == b;
  }

  lemma PairPoint(s: text, i: nat, h: nat, l: nat)
    requires i + 10 <= |s| && HexQuad(s, i) == Ok(h) && HexQuad(s, i + 6) == Ok(l) && 0xd800 <= h <= 0xdbff
    requires s[i + 4] == '\\' && s[i + 5] == 'u'
    ensures CodePoint(s, i) == Ok((0x1_0000 + h % 0x400 * 0x400 + l % 0x400, i + 10))
  {
    hide HexQuad;
  }

  lemma PairHolds(s: text, i: nat, high: text, low: text)
    requires |high| == |low| == 4 && Holds(s, i, ['\\', 'u'] + (high + (['\\', 'u'] + low)))
    ensures i + 12 <= |s| && Holds(s, i + 2, high) && Holds(s, i + 8, low)
    ensures s[i] == s[i + 6] == '\\' && s[i + 1] == s[i + 7] == 'u'
  {
    var u := ['\\', 'u'];
    hide Holds;
    HoldsParts(s, i, u, high + (u + low));
    HoldsParts(s, i + 2, high, u + low);
    HoldsParts(s, i + 6, u, low);
    HoldsAt(s, i, u, 0);
    HoldsAt(s, i, u, 1);
    HoldsAt(s, i + 6, u, 0);
    HoldsAt(s, i + 6, u, 1);
    HoldsAt(s, i + 8, low, 3);
  }

  lemma UnicodePiece(s: text, i: nat, cp: nat, j: nat)
    requires i + 1 < |s| && s[i] == '\\' && s[i + 1] == 'u' && CodePoint(s, i + 2) == Ok((cp, j))
    ensures Piece(s, i) == Ok((Utf8(cp), j))
  {
    hide CodePoint, Utf8;
  }

  lemma PairDecodes(s: text, i: nat, p: Spelling)
    requires p.Pair? && p.Proper() && Holds(s, i, p.Text())
    ensures Decodes(s, i, p)
  {
    hide Holds, FourDigitsOf, Decodes, Spelling.Text;
    PairValue(p.cp);
    HalvesDecode(s, i, p, 0xd800 + (p.cp - 0x1_0000) / 0x400, 0xdc00 + (p.cp - 0x1_0000) % 0x400);
  }

  lemma HalvesDecode(s: text, i: nat, p: Spelling, h: nat, l: nat)
    requires p.Pair? && Holds(s, i, p.Text()) && FourDigitsOf(p.high, h) && FourDigitsOf(p.low, l)
    requires 0xd800 <= h <= 0xdbff && l < 0x1_0000 && p.cp == 0x1_0000 + h % 0x400 * 0x400 + l % 0x400
    ensures Decodes(s, i, p)
  {
    hide *;
    FourAre(p.high, h);
    FourAre(p.low, l);
    PairText(p);
    PairHolds(s, i, p.high, p.low);
    PairQuads(s, i + 2, p.high, p.low, h, l);
    UnicodePiece(s, i, p.cp, i + 12);
    AsDecodes(s, i, p);
  }

  lemma PairText(p: Spelling)
    requires p.Pair? && |p.high| == |p.low| == 4
    ensures p.Text() == ['\\', 'u'] + (p.high + (['\\', 'u'] + p.low)) && |p.Text()| == 12
    ensures p.Meaning() == Utf8(p.cp)
  {
    hide Utf8;
  }

  lemma AsDecodes(s: text, i: nat, p: Spelling)
    requires i < |s| && s[i] != '"' && Piece(s, i) == Ok((p.Meaning(), i + |p.Text()|))
    ensures Decodes(s, i, p)
  {
  }

  lemma PairQuads(s: text, i: nat, high: text, low: text, h: nat, l: nat)
    requires i + 10 <= |s| && Holds(s, i, high) && Holds(s, i + 6, low) && s[i + 4] == '\\' && s[i + 5] == 'u'
    requires FourDigitsOf(high, h) && FourDigitsOf(low, l) && 0xd800 <= h <= 0xdbff && l < 0x1_0000
    ensures CodePoint(s, i) == Ok((0x1_0000 + h % 0x400 * 0x400 + l % 0x400, i + 10))
  {
    hide HexQuad, Holds, FourDigitsOf, CodePoint;
    QuadIs(s, i, high, h);
    QuadIs(s, i + 6, low, l);
    PairPoint(s, i, h, l);
  }

  lemma ShortDecodes(s: text, i: nat, p: Spelling)
    requires p.Short? && p.Proper() && Holds(s, i, p.Text())
    ensures Decodes(s, i, p)
  {
    HoldsAt(s, i, p.Text(), 0);
    HoldsAt(s, i, p.Text(), 1);
    hide Holds, CodePoint;
  }

  lemma RawDecodes(s: text, i: nat, p: Spelling)
    requires p.Raw? && p.Proper() && Holds(s, i, p.Text())
    ensures Decodes(s, i, p)
  {
    HoldsAt(s, i, p.Text(), 0);
    hide Holds, CodePoint;
  }

  lemma SpellingDecodes(s: text, i: nat, p: Spelling)
    requires p.Proper() && Holds(s, i, p.Text())
    ensures Decodes(s, i, p)
  {
    hide *;
    match p
    case Raw(_) => RawDecodes(s, i, p);
    case Short(_) => ShortDecodes(s, i, p);
    case Unit(_, _) => UnitDecodes(s, i, p);
    case Pair(_, _, _) => PairDecodes(s, i, p);
  }

  lemma FourAre(digits: text, n: nat)
    requires FourDigitsOf(digits, n)
    ensures |digits| == 4 && forall k :: 0 <= k < 4 ==> digits[k] != '"' && digits[k] != '\\'
  {
    hide Digit;
    DigitIs(digits[0], n / 0x1000);
    DigitIs(digits[1], n / 0x100 % 16);
    DigitIs(digits[2], n / 16 % 16);
    DigitIs(digits[3], n % 16);
  }

  /** Four characters are taken for a number exactly when they are the four digits of it. */
  lemma HexQuadIff(s: text, i: nat, n: nat)
    requires i <= |s| && n < 0x1_0000
    ensures HexQuad(s, i) == Ok(n) <==> i + 4 <= |s| && FourDigitsOf(s[i..i + 4], n)
  {
    if i + 4 <= |s| {
      hide *;
      if FourDigitsOf(s[i..i + 4], n) {
        SliceHolds(s, i);
        QuadIs(s, i, s[i..i + 4], n);
      }
      if HexQuad(s, i) == Ok(n) {
        QuadDigits(s, i, n);
      }
    }
  }

  lemma SliceHolds(s: text, i: nat)
    requires i + 4 <= |s|
    ensures Holds(s, i, s[i..i + 4])
  {
  }

  lemma QuadSum(s: text, i: nat, n: nat) returns (a: nat, b: nat, c: nat, d: nat)
    requires i + 4 <= |s| && HexQuad(s, i) == Ok(n)
    ensures HexValue(s[i]) == Ok(a) && HexValue(s[i + 1]) == Ok(b)
    ensures HexValue(s[i + 2]) == Ok(c) && HexValue(s[i + 3]) == Ok(d)
    ensures n == a * 0x1000 + b * 0x100 + c * 0x10 + d
  {
    hide HexValue;
    a, b, c, d := HexValue(s[i]).value, HexValue(s[i + 1]).value, HexValue(s[i + 2]).value, HexValue(s[i + 3]).value;
  }

  lemma QuadDigits(s: text, i: nat, n: nat)
    requires i + 4 <= |s| && HexQuad(s, i) == Ok(n)
    ensures FourDigitsOf(s[i..i + 4], n)
  {
    hide Digit, HexValue, HexQuad;
    var a, b, c, d := QuadSum(s, i, n);
    HexValueIff(s[i], a);
    HexValueIff(s[i + 1], b);
    HexValueIff(s[i + 2], c);
    HexValueIff(s[i + 3], d);
    Nibbles(a, b, c, d);
  }

  lemma Nibbles(a: nat, b: nat, c: nat, d: nat)
    requires a < 16 && b < 16 && c < 16 && d < 16
    ensures var n := a * 0x1000 + b * 0x100 + c * 0x10 + d;
            n / 0x1000 == a && n / 0x100 % 16 == b && n / 16 % 16 == c && n % 16 == d
  {
    var n := a * 0x1000 + b * 0x100 + c * 0x10 + d;
    assert n / 16 == a * 0x100 + b * 0x10 + c && n / 0x100 == a * 0x10 + b;
  }

  /** The first half of a surrogate pair without an escape for the second is an error. */
  lemma LoneHalfFails(s: text, i: nat, n: nat)
    requires i <= |s| && HexQuad(s, i) == Ok(n) && 0xd800 <= n < 0xdc00
    requires !(i + 10 <= |s| && s[i + 4] == '\\' && s[i + 5] == 'u')
    ensures CodePoint(s, i).Err?
  {
    hide HexQuad;
  }

  /** A backslash before any other character is an error. */
  lemma OtherEscapesFail(s: text, i: nat)
    requires i + 1 < |s| && s[i] == '\\' && s[i + 1] != 'u' && !Short(s[i + 1]).Proper()
    ensures Piece(s, i) == Err(BadEscape)
  {
  }

  // ----- whole strings -----

  lemma {:induction false} SpellingsDecode(s: text, i: nat, ps: seq<Spelling>)
    requires AllProper(ps) && Holds(s, i, TextOf(ps)) && i + |TextOf(ps)| == |s|
    ensures DecodeFrom(s, i) == Ok(MeaningOf(ps))
    decreases |ps|
  {
    hide Holds, Piece, Spelling.Text, Spelling.Meaning, Spelling.Proper;
    if ps != [] {
      HoldsParts(s, i, ps[0].Text(), TextOf(ps[1..]));
      SpellingDecodes(s, i, ps[0]);
      SpellingsDecode(s, i + |ps[0].Text()|, ps[1..]);
    }
  }

  lemma {:induction false} PlainScans(doc: text, p: nat, s: text, k: nat)
    requires Holds(doc, p, s) && k <= |s| && forall i :: k <= i < |s| ==> s[i] != '"' && s[i] != '\\'
    ensures ReadString(doc, p + k) == ReadString(doc, p + |s|)
    decreases |s| - k
  {
    hide Holds, ReadString;
    if k < |s| {
      HoldsAt(doc, p, s, k);
      ScanPlain(doc, p + k);
      PlainScans(doc, p, s, k + 1);
    }
  }

  lemma EscapeScans(doc: text, p: nat, rest: text)
    requires Holds(doc, p, ['\\', 'u'] + rest) && forall i :: 0 <= i < |rest| ==> rest[i] != '"' && rest[i] != '\\'
    ensures ReadString(doc, p) == ReadString(doc, p + 2 + |rest|)
  {
    hide Holds, ReadString;
    HoldsParts(doc, p, ['\\', 'u'], rest);
    HoldsAt(doc, p, ['\\', 'u'], 0);
    HoldsAt(doc, p, ['\\', 'u'], 1);
    ScanEscapeStart(doc, p);
    PlainScans(doc, p + 2, rest, 0);
  }

  /** The scanner passes over each spelling. */
  lemma SpellingScans(doc: text, p: nat, q: Spelling)
    requires q.Proper() && Holds(doc, p, q.Text())
    ensures ReadString(doc, p) == ReadString(doc, p + |q.Text()|)
  {
    hide Holds, ReadString, FourDigitsOf;
    HoldsAt(doc, p, q.Text(), 0);
    match q
    case Raw(_) => ScanPlain(doc, p);
    case Short(_) =>
      HoldsAt(doc, p, q.Text(), 1);
      ScanEscapeStart(doc, p);
    case Unit(n, digits) =>
      FourAre(digits, n);
      EscapeScans(doc, p, digits);
    case Pair(cp, high, low) =>
      FourAre(high, 0xd800 + (cp - 0x1_0000) / 0x400);
      FourAre(low, 0xdc00 + (cp - 0x1_0000) % 0x400);
      PairScans(doc, p, high, low);
  }

  lemma PairScans(doc: text, p: nat, high: text, low: text)
    requires Holds(doc, p, ['\\', 'u'] + (high + (['\\', 'u'] + low)))
    requires forall k :: 0 <= k < |high| ==> high[k] != '"' && high[k] != '\\'
    requires forall k :: 0 <= k < |low| ==> low[k] != '"' && low[k] != '\\'
    ensures ReadString(doc, p) == ReadString(doc, p + 4 + |high| + |low|)
  {
    hide Holds, ReadString;
    var u := ['\\', 'u'];
    assert u + (high + (u + low)) == (u + high) + (u + low);
    HoldsParts(doc, p, u + high, u + low);
    EscapeScans(doc, p, high);
    EscapeScans(doc, p + 2 + |high|, low);
  }

  lemma {:induction false} SpellingsScan(doc: text, p: nat, ps: seq<Spelling>)
    requires AllProper(ps) && Holds(doc, p, TextOf(ps))
    ensures ReadString(doc, p) == ReadString(doc, p + |TextOf(ps)|)
    decreases |ps|
  {
    hide Holds, ReadString, Spelling.Text, Spelling.Proper;
    if ps != [] {
      HoldsParts(doc, p, ps[0].Text(), TextOf(ps[1..]));
      SpellingScans(doc, p, ps[0]);
      SpellingsScan(doc, p + |ps[0].Text()|, ps[1..]);
    }
  }

  /** However a string is spelled, the reader scans it to its closing quote and decodes it to the bytes meant. */
  lemma StringReads(doc: text, p: nat, ps: seq<Spelling>)
    requires AllProper(ps) && Holds(doc, p, ['"'] + (TextOf(ps) + ['"']))
    ensures var n := |TextOf(ps)|;
            && ReadToken(doc, p) == Token(StringToken, p, p + n + 2) && p + n + 2 <= |doc|
            && DecodeFrom(doc[p + 1..p + n + 1], 0) == Ok(MeaningOf(ps))
  {
    hide Holds, ReadString, DecodeFrom, TextOf, AllProper;
    var t := TextOf(ps);
    HoldsParts(doc, p, ['"'], t + ['"']);
    HoldsParts(doc, p + 1, t, ['"']);
    HoldsAt(doc, p, ['"'], 0);
    HoldsAt(doc, p + 1 + |t|, ['"'], 0);
    SpellingsScan(doc, p + 1, ps);
    ScanClose(doc, p + 1 + |t|);
    NoSpace(doc, p);
    HoldsAll(doc, p + 1, t);
    SpellingsDecode(doc[p + 1..p + 1 + |t|], 0, ps);
  }

  /** A document that ends inside a string ends in an error. */
  lemma UnclosedStringFails(doc: text, p: nat, ps: seq<Spelling>)
    requires AllProper(ps) && Holds(doc, p, ['"'] + TextOf(ps)) && p + 1 + |TextOf(ps)| == |doc|
    ensures ReadToken(doc, p) == Token(ErrorToken, p, |doc|)
  {
    hide Holds, TextOf, AllProper;
    HoldsParts(doc, p, ['"'], TextOf(ps));
    HoldsAt(doc, p, ['"'], 0);
    SpellingsScan(doc, p + 1, ps);
    NoSpace(doc, p);
  }
}
