/** The tokens of Json::Reader (lib/jsoncpp/jsoncpp.cpp), as functions of the document and the cursor. A char
    stands for a byte of the document. */
module JsonText {

  type text = string

  datatype Kind =
    | EndOfStream | ObjectBegin | ObjectEnd | ArrayBegin | ArrayEnd | StringToken | NumberToken
    | TrueToken | FalseToken | NullToken | ArraySeparator | MemberSeparator | Comment | ErrorToken

  datatype Token = Token(kind: Kind, start: nat, end: nat)

  /** *current_: the document is followed by a NUL. */
  function At(doc: text, p: nat): char {
    if p < |doc| then doc[p] else '\0'
  }

  /** Where getNextChar leaves the cursor; what it returns is At. */
  function Next(doc: text, p: nat): nat {
    if p < |doc| then p + 1 else p
  }

  predicate Space(c: char) {
    c == ' ' || c == '\t' || c == '\r' || c == '\n'
  }

  function SkipSpaces(doc: text, p: nat): (q: nat)
    ensures p <= q && (p <= |doc| ==> q <= |doc|)
    decreases |doc| - p
  {
    if p < |doc| && Space(doc[p]) then SkipSpaces(doc, p + 1) else p
  }

  predicate Match(doc: text, p: nat, pattern: text) {
    p + |pattern| <= |doc| && doc[p..p + |pattern|] == pattern
  }

  predicate NumberChar(c: char) {
    '0' <= c <= '9' || c == '.' || c == 'e' || c == 'E' || c == '+' || c == '-'
  }

  function ReadNumber(doc: text, p: nat): (q: nat)
    ensures p <= q && (p <= |doc| ==> q <= |doc|)
    decreases |doc| - p
  {
    if p < |doc| && NumberChar(doc[p]) then ReadNumber(doc, p + 1) else p
  }

  /** From inside a string: whether its closing quote was found, and the cursor after it. */
  function ReadString(doc: text, p: nat): (r: (bool, nat))
    ensures p <= r.1 && (p <= |doc| ==> r.1 <= |doc|)
    decreases |doc| - p
  {
    if p >= |doc| then (false, p)
    else if doc[p] == '\\' then ReadString(doc, Next(doc, p + 1))
    else if doc[p] == '"' then (true, p + 1)
    else ReadString(doc, p + 1)
  }

  /** The loop of readCStyleComment. */
  function ToCommentEnd(doc: text, p: nat): (q: nat)
    ensures p <= q && (p <= |doc| ==> q <= |doc|)
    decreases |doc| - p
  {
    if p >= |doc| then p
    else if doc[p] == '*' && At(doc, p + 1) == '/' then p + 1
    else ToCommentEnd(doc, p + 1)
  }

  function ToLineEnd(doc: text, p: nat): (q: nat)
    ensures p <= q && (p <= |doc| ==> q <= |doc|)
    decreases |doc| - p
  {
    if p >= |doc| then p
    else if doc[p] == '\r' || doc[p] == '\n' then p + 1
    else ToLineEnd(doc, p + 1)
  }

  /** readComment, after its first slash. */
  function ReadComment(doc: text, p: nat): (r: (bool, nat))
    ensures p <= r.1 && (p <= |doc| ==> r.1 <= |doc|)
  {
    var c, q := At(doc, p), Next(doc, p);
    if c == '*' then
      var e := ToCommentEnd(doc, q);
      (At(doc, e) == '/', Next(doc, e))
    else if c == '/' then (true, ToLineEnd(doc, q))
    else (false, q)
  }

  function Checked(kind: Kind, ok: bool, start: nat, end: nat): Token {
    Token(if ok then kind else ErrorToken, start, end)
  }

  function Word(doc: text, kind: Kind, start: nat, rest: text): Token {
    var p := start + 1;
    Checked(kind, Match(doc, p, rest), start, if Match(doc, p, rest) then p + |rest| else p)
  }

  function ReadToken(doc: text, p: nat): (t: Token)
    ensures p <= t.start <= t.end && (p <= |doc| ==> t.end <= |doc|)
    ensures p <= |doc| && t.kind != EndOfStream ==> t.start < t.end
  {
    var s := SkipSpaces(doc, p);
    var c, q := At(doc, s), Next(doc, s);
    if c == '{' then Token(ObjectBegin, s, q)
    else if c == '}' then Token(ObjectEnd, s, q)
    else if c == '[' then Token(ArrayBegin, s, q)
    else if c == ']' then Token(ArrayEnd, s, q)
    else if c == '"' then Checked(StringToken, ReadString(doc, q).0, s, ReadString(doc, q).1)
    else if c == '/' then Checked(Comment, ReadComment(doc, q).0, s, ReadComment(doc, q).1)
    else if '0' <= c <= '9' || c == '-' then Token(NumberToken, s, ReadNumber(doc, q))
    else if c == 't' then Word(doc, TrueToken, s, "rue")
    else if c == 'f' then Word(doc, FalseToken, s, "alse")
    else if c == 'n' then Word(doc, NullToken, s, "ull")
    else if c == ',' then Token(ArraySeparator, s, q)
    else if c == ':' then Token(MemberSeparator, s, q)
    else if c == '\0' then Token(EndOfStream, s, q)
    else Token(ErrorToken, s, q)
  }

  /** The first token that is not a comment. */
  function SkipComments(doc: text, p: nat): (t: Token)
    requires p <= |doc|
    ensures p <= t.start <= t.end <= |doc| && t.kind != Comment
    ensures t.kind != EndOfStream ==> t.start < t.end
    decreases |doc| - p
  {
    var t := ReadToken(doc, p);
    if t.kind == Comment then SkipComments(doc, t.end) else t
  }

  /** The cursor after error recovery: past the next token of the kind looked for, or at the end. */
  function Recover(doc: text, p: nat, kind: Kind): (q: nat)
    requires p <= |doc|
    ensures p <= q <= |doc|
    decreases |doc| - p
  {
    var t := ReadToken(doc, p);
    if t.kind == kind || t.kind == EndOfStream then t.end else Recover(doc, t.end, kind)
  }

  /** The cursor after n tokens. */
  function AfterTokens(doc: text, p: nat, n: nat): nat
    decreases n
  {
    if n == 0 then p else AfterTokens(doc, ReadToken(doc, p).end, n - 1)
  }

  /** Recovery passes over tokens up to the first of the kind looked for, and that one, or up to the end. */
  lemma {:induction false} RecoverFindsFirst(doc: text, p: nat, kind: Kind) returns (n: nat)
    requires p <= |doc|
    ensures var t := ReadToken(doc, AfterTokens(doc, p, n));
            Recover(doc, p, kind) == t.end && (t.kind == kind || t.kind == EndOfStream)
    ensures forall k :: 0 <= k < n ==> ReadToken(doc, AfterTokens(doc, p, k)).kind !in {kind, EndOfStream}
    decreases |doc| - p
  {
    hide ReadToken;
    var t := ReadToken(doc, p);
    if t.kind == kind || t.kind == EndOfStream {
      n := 0;
    } else {
      var m := RecoverFindsFirst(doc, t.end, kind);
      n := m + 1;
      forall k | 0 <= k < n
        ensures ReadToken(doc, AfterTokens(doc, p, k)).kind !in {kind, EndOfStream}
      {
        assert k > 0 ==> AfterTokens(doc, p, k) == AfterTokens(doc, t.end, k - 1);
      }
    }
  }
}
