/** Json::Reader as the object it is in lib/jsoncpp/jsoncpp.cpp: a cursor that moves, a stack of nodes and a
    list of errors that grow and shrink, each method tied to the functions of JsonText and JsonParser. */
module JsonReader {
  import opened Wrappers
  import opened JsonText
  import opened JsonStrings
  import opened JsonParser
  import JsonNumbers

  class Reader {
    const document: text
    const scan: Scanner
    var current: nat
    var nodes: seq<Value>
    var errors: seq<Error>

    predicate Valid()
      reads this
    {
      current <= |document|
    }

    constructor (document: text, scan: Scanner)
      ensures Valid() && this.document == document && this.scan == scan
    {
      this.document := document;
      this.scan := scan;
      current := 0;
      nodes := [];
      errors := [];
    }

    // ----- characters and tokens -----

    method GetNextChar() returns (c: char)
      requires Valid()
      modifies this`current
      ensures Valid() && c == At(document, old(current)) && current == Next(document, old(current))
    {
      if current == |document| {
        return '\0';
      }
      c := document[current];
      current := current + 1;
    }

    method SkipSpaces()
      requires Valid()
      modifies this`current
      ensures Valid() && current == JsonText.SkipSpaces(document, old(current))
    {
      while current != |document|
        invariant Valid() && JsonText.SkipSpaces(document, current) == JsonText.SkipSpaces(document, old(current))
      {
        if !Space(document[current]) {
          break;
        }
        current := current + 1;
      }
    }

    /** Compared from the end back; the cursor moves only on a match. */
    method MatchWord(pattern: text) returns (ok: bool)
      requires Valid()
      modifies this`current
      ensures Valid() && ok == Match(document, old(current), pattern)
      ensures current == if ok then old(current) + |pattern| else old(current)
    {
      if |document| - current < |pattern| {
        return false;
      }
      var index := |pattern|;
      while index > 0
        invariant 0 <= index <= |pattern| && current == old(current)
        invariant document[current + index..current + |pattern|] == pattern[index..]
      {
        index := index - 1;
        if document[current + index] != pattern[index] {
          assert document[current..current + |pattern|][index] != pattern[index];
          return false;
        }
        assert document[current + index..current + |pattern|] ==
               [document[current + index]] + document[current + index + 1..current + |pattern|];
      }
      assert pattern[0..] == pattern;
      current := current + |pattern|;
      return true;
    }

    method ReadNumberToken()
      requires Valid()
      modifies this`current
      ensures Valid() && current == ReadNumber(document, old(current))
    {
      while current != |document|
        invariant Valid() && ReadNumber(document, current) == ReadNumber(document, old(current))
      {
        if !NumberChar(document[current]) {
          break;
        }
        current := current + 1;
      }
    }

    method ReadStringToken() returns (ok: bool)
      requires Valid()
      modifies this`current
      ensures Valid() && (ok, current) == ReadString(document, old(current))
    {
      var c := '\0';
      while current != |document|
        invariant Valid() && ReadString(document, current) == ReadString(document, old(current)) && c != '"'
        decreases |document| - current
      {
        c := GetNextChar();
        if c == '\\' {
          var _ := GetNextChar();
        } else if c == '"' {
          break;
        }
      }
      return c == '"';
    }

    method ReadCStyleComment() returns (ok: bool)
      requires Valid()
      modifies this`current
      ensures Valid()
      ensures var e := ToCommentEnd(document, old(current));
              ok == (At(document, e) == '/') && current == Next(document, e)
    {
      while current != |document|
        invariant Valid() && ToCommentEnd(document, current) == ToCommentEnd(document, old(current))
        decreases |document| - current
      {
        var c := GetNextChar();
        if c == '*' && At(document, current) == '/' {
          c := GetNextChar();
          return c == '/';
        }
      }
      var c := GetNextChar();
      return c == '/';
    }

    method ReadCppStyleComment()
      requires Valid()
      modifies this`current
      ensures Valid() && current == ToLineEnd(document, old(current))
    {
      while current != |document|
        invariant Valid() && ToLineEnd(document, current) == ToLineEnd(document, old(current))
        decreases |document| - current
      {
        var c := GetNextChar();
        if c == '\r' || c == '\n' {
          return;
        }
      }
    }

    method ReadCommentToken() returns (ok: bool)
      requires Valid()
      modifies this`current
      ensures Valid() && (ok, current) == ReadComment(document, old(current))
    {
      hide ToCommentEnd, ToLineEnd;
      var c := GetNextChar();
      ok := false;
      if c == '*' {
        ok := ReadCStyleComment();
      } else if c == '/' {
        ReadCppStyleComment();
        ok := true;
      }
    }

    method NextToken() returns (token: Token)
      requires Valid()
      modifies this`current
      ensures Valid() && token == ReadToken(document, old(current)) && current == token.end
    {
      hide JsonText.SkipSpaces, ReadString, ReadComment, ReadNumber, Match;
      SkipSpaces();
      var start := current;
      var c := GetNextChar();
      var ok := true;
      var kind := ErrorToken;
      if c == '{' {
        kind := ObjectBegin;
      } else if c == '}' {
        kind := ObjectEnd;
      } else if c == '[' {
        kind := ArrayBegin;
      } else if c == ']' {
        kind := ArrayEnd;
      } else if c == ',' {
        kind := ArraySeparator;
      } else if c == ':' {
        kind := MemberSeparator;
      } else if c == '\0' {
        kind := EndOfStream;
      } else {
        kind, ok := LongToken(c);
      }
      return Token(if ok then kind else ErrorToken, start, current);
    }

    /** The tokens of more than one character, after their first. */
    method LongToken(c: char) returns (kind: Kind, ok: bool)
      requires Valid() && 0 < current && At(document, current - 1) == c
      requires c !in {'{', '}', '[', ']', ',', ':', '\0'}
      modifies this`current
      ensures Valid()
      ensures c == '"' ==> kind == StringToken && (ok, current) == ReadString(document, old(current))
      ensures c == '/' ==> kind == Comment && (ok, current) == ReadComment(document, old(current))
      ensures '0' <= c <= '9' || c == '-' ==> kind == NumberToken && ok && current == ReadNumber(document, old(current))
      ensures c == 't' ==> kind == TrueToken && Matched("rue", ok, old(current))
      ensures c == 'f' ==> kind == FalseToken && Matched("alse", ok, old(current))
      ensures c == 'n' ==> kind == NullToken && Matched("ull", ok, old(current))
      ensures !(c in {'"', '/', '-', 't', 'f', 'n'} || '0' <= c <= '9') ==> !ok && current == old(current)
    {
      hide ReadString, ReadComment, ReadNumber, Match;
      kind, ok := ErrorToken, false;
      if c == '"' {
        kind := StringToken;
        ok := ReadStringToken();
      } else if c == '/' {
        kind := Comment;
        ok := ReadCommentToken();
      } else if '0' <= c <= '9' || c == '-' {
        kind, ok := NumberToken, true;
        ReadNumberToken();
      } else if c == 't' {
        kind := TrueToken;
        ok := MatchWord("rue");
      } else if c == 'f' {
        kind := FalseToken;
        ok := MatchWord("alse");
      } else if c == 'n' {
        kind := NullToken;
        ok := MatchWord("ull");
      }
    }

    predicate Matched(pattern: text, ok: bool, start: nat)
      reads this
    {
      ok == Match(document, start, pattern) && current == if ok then start + |pattern| else start
    }

    method SkipCommentTokens() returns (token: Token)
      requires Valid()
      modifies this`current
      ensures Valid() && token == SkipComments(document, old(current)) && current == token.end
    {
      hide ReadToken;
      token := NextToken();
      while token.kind == Comment
        invariant Valid() && current == token.end
        invariant SkipComments(document, old(current)) ==
                  if token.kind == Comment then SkipComments(document, current) else token
        decreases |document| - current, if token.kind == Comment then 1 else 0
      {
        token := NextToken();
      }
    }

    // ----- errors -----

    method AddError(problem: Problem, token: Token)
      modifies this`errors
      ensures errors == old(errors) + [Error(problem, token)]
    {
      errors := errors + [Error(problem, token)];
    }

    method RecoverFromError(skipUntil: Kind)
      requires Valid()
      modifies this`current, this`errors
      ensures Valid() && current == Recover(document, old(current), skipUntil) && errors == old(errors)
    {
      hide ReadToken;
      var errorCount := |errors|;
      var skip := NextToken();
      while skip.kind != skipUntil && skip.kind != EndOfStream
        invariant Valid() && current == skip.end && errors == old(errors)
        invariant Recover(document, old(current), skipUntil) ==
                  if skip.kind == skipUntil || skip.kind == EndOfStream then current
                  else Recover(document, current, skipUntil)
        decreases |document| - current, if skip.kind == EndOfStream then 0 else 1
      {
        skip := NextToken();
      }
      errors := errors[..errorCount];
    }

    method AddErrorAndRecover(problem: Problem, token: Token, skipUntil: Kind)
      requires Valid()
      modifies this`current, this`errors
      ensures Valid() && current == Recover(document, old(current), skipUntil)
      ensures errors == old(errors) + [Error(problem, token)]
    {
      hide Recover;
      AddError(problem, token);
      RecoverFromError(skipUntil);
    }

    // ----- the node stack -----

    ghost predicate Top(v: Value)
      reads this
    {
      nodes != [] && nodes[|nodes| - 1] == v
    }

    /** Assignment to currentValue(). */
    method SetValue(v: Value)
      requires nodes != []
      modifies this`nodes
      ensures nodes == Under(old(nodes)) + [v]
    {
      nodes := Under(nodes) + [v];
    }

    // ----- scalars -----

    method DecodeHexQuad(s: text, i: nat) returns (r: Result<nat>)
      requires i <= |s|
      ensures r == HexQuad(s, i)
    {
      hide HexValue;
      if |s| - i < 4 {
        return Err(FourDigits);
      }
      var unicode: nat := 0;
      var index := 0;
      while index < 4
        invariant 0 <= index <= 4
        invariant HexQuad(s, i) == HexRest(s, i, index, unicode)
      {
        var h := HexValue(s[i + index]);
        if h.Err? {
          return h;
        }
        unicode := unicode * 16 + h.value;
        index := index + 1;
      }
      return Ok(unicode);
    }

    method DecodeCodePoint(s: text, i: nat) returns (r: Result<(nat, nat)>)
      requires i <= |s|
      ensures r == CodePoint(s, i)
    {
      hide HexQuad;
      var first := DecodeHexQuad(s, i);
      if first.Err? {
        return Err(first.problem);
      }
      var unicode, j := first.value, i + 4;
      if 0xd800 <= unicode <= 0xdbff {
        if |s| - j < 6 {
          return Err(SixCharacters);
        }
        if s[j] != '\\' || s[j + 1] != 'u' {
          return Err(SecondHalf);
        }
        var second := DecodeHexQuad(s, j + 2);
        if second.Err? {
          return Err(second.problem);
        }
        unicode := 0x1_0000 + unicode % 0x400 * 0x400 + second.value % 0x400;
        j := j + 6;
      }
      return Ok((unicode, j));
    }

    method DecodePiece(s: text, i: nat) returns (r: Result<(text, nat)>)
      requires i < |s|
      ensures r == Piece(s, i)
    {
      hide CodePoint, Utf8;
      if s[i] != '\\' {
        return Ok(([s[i]], i + 1));
      }
      if i + 1 == |s| {
        return Err(EmptyEscape);
      }
      match s[i + 1]
      case '"' => return Ok((['"'], i + 2));
      case '/' => return Ok((['/'], i + 2));
      case '\\' => return Ok((['\\'], i + 2));
      case 'b' => return Ok(([BACKSPACE], i + 2));
      case 'f' => return Ok(([FORM_FEED], i + 2));
      case 'n' => return Ok((['\n'], i + 2));
      case 'r' => return Ok((['\r'], i + 2));
      case 't' => return Ok((['\t'], i + 2));
      case 'u' =>
        var cp := DecodeCodePoint(s, i + 2);
        if cp.Err? {
          return Err(cp.problem);
        }
        return Ok((Utf8(cp.value.0), cp.value.1));
      case _ => return Err(BadEscape);
    }

    method DecodeString(token: Token) returns (r: Result<text>)
      requires token.start <= token.end <= |document|
      modifies this`errors
      ensures r == DecodeFrom(Inside(document, token), 0)
      ensures errors == if r.Ok? then old(errors) else old(errors) + [Error(r.problem, token)]
    {
      hide Piece, Inside;
      var s := Inside(document, token);
      var decoded, i: nat := [], 0;
      PrefixedNothing(DecodeFrom(s, 0));
      while i != |s| && s[i] != '"'
        invariant i <= |s| && errors == old(errors)
        invariant DecodeFrom(s, 0) == Prefixed(decoded, DecodeFrom(s, i))
        decreases |s| - i
      {
        DecodeStep(s, i, decoded);
        var piece := DecodePiece(s, i);
        if piece.Err? {
          AddError(piece.problem, token);
          return Err(piece.problem);
        }
        decoded := decoded + piece.value.0;
        i := piece.value.1;
      }
      assert decoded + [] == decoded;
      return Ok(decoded);
    }

    /** The digit loop of decodeNumber. */
    method GatherDigits(s: text, max: nat) returns (g: JsonNumbers.Gathered)
      ensures g == JsonNumbers.Gather(s, 0, 0, max)
    {
      var threshold, lastDigit := max / 10, max % 10;
      var value: nat := 0;
      var i := 0;
      while i < |s|
        invariant 0 <= i <= |s| && value < JsonNumbers.TWO64
        invariant JsonNumbers.Gather(s, i, value, max) == JsonNumbers.Gather(s, 0, 0, max)
      {
        if !JsonNumbers.IsDigit(s[i]) {
          return JsonNumbers.NotDigit;
        }
        var digit := JsonNumbers.DigitOf(s[i]);
        if value >= threshold && (i + 1 != |s| || digit > lastDigit) {
          return JsonNumbers.TooLong;
        }
        value := (value * 10 + digit) % JsonNumbers.TWO64;
        i := i + 1;
      }
      return JsonNumbers.Whole(value);
    }

    method IsDouble(s: text) returns (isDouble: bool)
      ensures isDouble <==> exists k :: 0 <= k < |s| && (s[k] in {'.', 'e', 'E', '+'} || (s[k] == '-' && k > 0))
    {
      isDouble := false;
      for inspect := 0 to |s|
        invariant isDouble <==> exists k :: 0 <= k < inspect && (s[k] in {'.', 'e', 'E', '+'} || (s[k] == '-' && k > 0))
      {
        isDouble := isDouble || s[inspect] in {'.', 'e', 'E', '+'} || (s[inspect] == '-' && inspect > 0);
      }
    }

    method DecodeNumber(s: text) returns (n: JsonNumbers.Number)
      requires s != []
      ensures n == JsonNumbers.DecodeNumber(s)
    {
      hide JsonNumbers.Gather;
      var isDouble := IsDouble(s);
      if isDouble {
        return JsonNumbers.Real;
      }
      var isNegative := s[0] == '-';
      var g: JsonNumbers.Gathered;
      if isNegative {
        g := GatherDigits(s[1..], JsonNumbers.TWO63);
      } else {
        g := GatherDigits(s, JsonNumbers.TWO64 - 1);
      }
      match g
      case TooLong => n := JsonNumbers.Real;
      case NotDigit => n := JsonNumbers.Bad;
      case Whole(value) =>
        if isNegative {
          n := JsonNumbers.Signed(JsonNumbers.Wrap64(JsonNumbers.Negative(value)));
        } else if value <= JsonNumbers.MAX_INT {
          n := JsonNumbers.Signed(value);
        } else {
          n := JsonNumbers.Unsigned(value);
        }
    }

    method ReadScalarToken(token: Token) returns (ok: bool)
      requires Valid() && nodes != [] && token.start < token.end == current
      modifies this`nodes, this`errors
      ensures Came(ok, ReadScalar(document, token, old(errors), old(nodes)[|old(nodes)| - 1], scan), old(nodes))
    {
      hide DecodeFrom, JsonNumbers.DecodeNumber;
      ok := true;
      match token.kind
      case NumberToken =>
        var n := DecodeNumber(document[token.start..token.end]);
        ok := StoreNumber(n, token);
      case StringToken =>
        var r := DecodeString(token);
        if r.Ok? {
          SetValue(Str(r.value));
        } else {
          ok := false;
        }
      case TrueToken => SetValue(Bool(true));
      case FalseToken => SetValue(Bool(false));
      case NullToken => SetValue(Null);
      case _ =>
        AddError(ValueExpected, token);
        ok := false;
    }

    method StoreNumber(n: JsonNumbers.Number, token: Token) returns (ok: bool)
      requires nodes != [] && token.start < token.end <= |document|
      requires n == JsonNumbers.DecodeNumber(TokenText(document, token))
      modifies this`nodes, this`errors
      ensures match NumberValue(TokenText(document, token), scan)
              case Some(v) => ok && nodes == Under(old(nodes)) + [v] && errors == old(errors)
              case None => !ok && nodes == old(nodes) && errors == old(errors) + [Error(NotANumber, token)]
    {
      hide JsonNumbers.DecodeNumber;
      ok := true;
      match n
      case Signed(i) => SetValue(Int(i));
      case Unsigned(u) => SetValue(UInt(u));
      case Bad =>
        AddError(NotANumber, token);
        ok := false;
      case Real =>
        var r := scan(TokenText(document, token));
        if r.Some? {
          SetValue(Float(r.value));
        } else {
          AddError(NotANumber, token);
          ok := false;
        }
    }

    // ----- values -----

    /** The reader is where a function of JsonParser says, with its value on top of the nodes below. */
    ghost predicate Came(ok: bool, r: Read, before: seq<Value>)
      requires before != []
      reads this
    {
      Valid() && ok == r.ok && current == r.pos && errors == r.errors && nodes == Under(before) + [r.value]
    }

    /** readValue: whatever it meets, the node stack is as deep afterwards as before. */
    method ReadValueHere() returns (ok: bool)
      requires Valid() && nodes != []
      modifies this`current, this`nodes, this`errors
      ensures Came(ok, ReadValue(document, old(current), old(errors), old(nodes)[|old(nodes)| - 1], scan), old(nodes))
      ensures |nodes| == |old(nodes)|
      decreases |document| - current, 0
    {
      hide ReadScalar, SkipComments, JsonText.SkipSpaces, ReadElements, ReadMembers, ReadToken;
      var token := SkipCommentTokens();
      if token.kind == ObjectBegin {
        ok := ReadObject();
      } else if token.kind == ArrayBegin {
        ok := ReadArray();
      } else if token.kind == EndOfStream {
        AddError(ValueExpected, token);
        ok := false;
      } else {
        ok := ReadScalarToken(token);
      }
    }

    method ReadArray() returns (ok: bool)
      requires Valid() && nodes != []
      modifies this`current, this`nodes, this`errors
      ensures var q := JsonText.SkipSpaces(document, old(current));
              Came(ok, if At(document, q) == ']' then Read(true, ReadToken(document, q).end, old(errors), Array([]))
                       else ReadElements(document, q, old(errors), [], scan), old(nodes))
      decreases |document| - current, 3
    {
      hide JsonText.SkipSpaces, ReadToken, ReadElements;
      SetValue(Array([]));
      SkipSpaces();
      if At(document, current) == ']' {
        var _ := NextToken();
        return true;
      }
      ghost var all := ReadElements(document, current, errors, [], scan);
      var items: seq<Value> := [];
      var more := true;
      ok := true;
      while more
        invariant Valid() && nodes == Under(old(nodes)) + [Array(items)]
        invariant more ==> ReadElements(document, current, errors, items, scan) == all
        invariant !more ==> Came(ok, all, old(nodes))
        invariant old(current) <= current
        decreases |document| - current, if more then 1 else 0
      {
        ok, more, items := ReadElement(items);
      }
    }

    /** One round of the loop of readArray. */
    method ReadElement(items: seq<Value>) returns (ok: bool, more: bool, items': seq<Value>)
      requires Valid() && nodes != [] && nodes[|nodes| - 1] == Array(items)
      modifies this`current, this`nodes, this`errors
      ensures Valid() && nodes == Under(old(nodes)) + [Array(items')]
      ensures more ==> old(current) < current
      ensures old(current) <= current
      ensures var all := ReadElements(document, old(current), old(errors), items, scan);
              if more then ReadElements(document, current, errors, items', scan) == all else Came(ok, all, old(nodes))
      decreases |document| - current, 2
    {
      hide ReadValue, SkipComments, Recover;
      nodes := nodes + [Null];
      ok := ReadValueHere();
      items' := items + [nodes[|nodes| - 1]];
      more := false;
      PopNode(Array(items'));
      if !ok {
        RecoverFromError(ArrayEnd);
        return;
      }
      var token := SkipCommentTokens();
      if token.kind == ArraySeparator {
        more := true;
      } else if token.kind != ArrayEnd {
        ok := false;
        AddErrorAndRecover(MissingCommaOrBracket, token, ArrayEnd);
      }
    }

    /** nodes_.pop(), the container below having been written through the pointer popped. */
    method PopNode(container: Value)
      requires |nodes| >= 2
      modifies this`nodes
      ensures nodes == Under(Under(old(nodes))) + [container]
    {
      nodes := Under(nodes);
      SetValue(container);
    }

    method ReadObject() returns (ok: bool)
      requires Valid() && nodes != []
      modifies this`current, this`nodes, this`errors
      ensures Came(ok, ReadMembers(document, old(current), old(errors), [], [], scan), old(nodes))
      decreases |document| - current, 5
    {
      hide ReadMembers;
      SetValue(Object([]));
      ghost var all := ReadMembers(document, current, errors, [], [], scan);
      var members: seq<Member> := [];
      var name: text := [];
      var more := true;
      ok := true;
      while more
        invariant Valid() && nodes == Under(old(nodes)) + [Object(members)]
        invariant more ==> ReadMembers(document, current, errors, members, name, scan) == all
        invariant !more ==> Came(ok, all, old(nodes))
        invariant old(current) <= current
        decreases |document| - current, if more then 1 else 0
      {
        ok, more, members, name := ReadRound(members, name);
      }
    }

    /** One round of the loop of readObject. */
    method ReadRound(members: seq<Member>, name: text) returns (ok: bool, more: bool, members': seq<Member>,
        name': text)
      requires Valid() && nodes != [] && nodes[|nodes| - 1] == Object(members)
      modifies this`current, this`nodes, this`errors
      ensures Valid() && nodes == Under(old(nodes)) + [Object(members')]
      ensures more ==> old(current) < current
      ensures old(current) <= current
      ensures var all := ReadMembers(document, old(current), old(errors), members, name, scan);
              if more then ReadMembers(document, current, errors, members', name', scan) == all
              else Came(ok, all, old(nodes))
      decreases |document| - current, 4
    {
      hide SkipComments, Recover, DecodeFrom, ReadMember, Inside;
      ok, more, members', name' := false, false, members, name;
      var token := SkipCommentTokens();
      if token.kind == ObjectEnd && name == [] {
        ok := true;
        return;
      }
      if token.kind != StringToken {
        AddErrorAndRecover(MissingBrace, token, ObjectEnd);
        return;
      }
      var r := DecodeString(token);
      if r.Err? {
        RecoverFromError(ObjectEnd);
        return;
      }
      name' := r.value;
      ok, more, members' := ReadMemberHere(members, name');
    }

    /** The colon, the value and what follows it. */
    method ReadMemberHere(members: seq<Member>, name: text) returns (ok: bool, more: bool, members': seq<Member>)
      requires Valid() && nodes != [] && nodes[|nodes| - 1] == Object(members)
      modifies this`current, this`nodes, this`errors
      ensures Valid() && nodes == Under(old(nodes)) + [Object(members')]
      ensures old(current) <= current
      ensures var all := ReadMember(document, old(current), old(errors), members, name, scan);
              if more then ReadMembers(document, current, errors, members', name, scan) == all
              else Came(ok, all, old(nodes))
      decreases |document| - current, 3
    {
      hide SkipComments, ReadToken, Recover, ReadValue, ReadMembers, Get, Put, CString;
      ok, more, members' := false, false, members;
      var colon := NextToken();
      if colon.kind != MemberSeparator {
        AddErrorAndRecover(MissingColon, colon, ObjectEnd);
        return;
      }
      var key := CString(name);
      nodes := nodes + [Get(members, key)];
      ok := ReadValueHere();
      members' := Put(members, key, nodes[|nodes| - 1]);
      PopNode(Object(members'));
      if !ok {
        RecoverFromError(ObjectEnd);
        return;
      }
      ok, more := ReadComma();
    }

    method ReadComma() returns (ok: bool, more: bool)
      requires Valid()
      modifies this`current, this`errors
      ensures Valid() && old(current) <= current
      ensures var comma := ReadToken(document, old(current));
              if comma.kind !in {ObjectEnd, ArraySeparator, Comment} then
                !ok && !more && current == Recover(document, comma.end, ObjectEnd)
                && errors == old(errors) + [Error(MissingCommaOrBrace, comma)]
              else
                var last := if comma.kind == Comment then SkipComments(document, comma.end) else comma;
                ok && more == (last.kind != ObjectEnd) && current == last.end && errors == old(errors)
    {
      hide SkipComments, ReadToken, Recover;
      ok, more := true, false;
      var comma := NextToken();
      if comma.kind !in {ObjectEnd, ArraySeparator, Comment} {
        AddErrorAndRecover(MissingCommaOrBrace, comma, ObjectEnd);
        return false, false;
      }
      if comma.kind == Comment {
        comma := SkipCommentTokens();
      }
      more := comma.kind != ObjectEnd;
    }

    /** parse. */
    method ParseDocument() returns (ok: bool, root: Value)
      modifies this
      ensures var r := Parse(document, scan); ok == r.ok && root == r.value && errors == r.errors && current == r.pos
      ensures |nodes| == 1
    {
      hide ReadValue, SkipComments;
      current, errors, nodes := 0, [], [Null];
      ok := ReadValueHere();
      root := nodes[0];
      var _ := SkipCommentTokens();
    }
  }

  /** All but the top of the stack. */
  function Under(nodes: seq<Value>): seq<Value>
    requires nodes != []
  {
    nodes[..|nodes| - 1]
  }

  /** What the hexadecimal loop has still to add. */
  function HexRest(s: text, i: nat, index: nat, unicode: nat): Result<nat>
    requires i + 4 <= |s| && index <= 4
    decreases 4 - index
  {
    if index == 4 then Ok(unicode)
    else
      var h :- HexValue(s[i + index]);
      HexRest(s, i, index + 1, unicode * 16 + h)
  }

  /** A decoded text put before what the rest decodes to. */
  function Prefixed(decoded: text, r: Result<text>): Result<text> {
    match r
    case Ok(rest) => Ok(decoded + rest)
    case Err(problem) => Err(problem)
  }

  lemma PrefixedNothing(r: Result<text>)
    ensures Prefixed([], r) == r
  {
    if r.Ok? {
      assert [] + r.value == r.value;
    }
  }

  lemma DecodeStep(s: text, i: nat, decoded: text)
    requires i < |s| && s[i] != '"'
    ensures match Piece(s, i)
            case Ok((piece, j)) => Prefixed(decoded, DecodeFrom(s, i)) == Prefixed(decoded + piece, DecodeFrom(s, j))
            case Err(problem) => Prefixed(decoded, DecodeFrom(s, i)) == Err(problem)
  {
    hide Piece;
    if Piece(s, i).Ok? {
      var (piece, j) := Piece(s, i).value;
      if DecodeFrom(s, j).Ok? {
        var rest := DecodeFrom(s, j).value;
        assert (decoded + piece) + rest == decoded + (piece + rest);
      }
    }
  }
}
