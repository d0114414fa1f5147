/** The recursive descent of Json::Reader (lib/jsoncpp/jsoncpp.cpp), as functions: the cursor, the errors and
    the value at the top of the node stack go in, and come out changed. */
module JsonParser {
  import opened Wrappers
  import opened JsonText
  import opened JsonStrings
  import JsonNumbers

  datatype Value =
    | Null | Int(i: int) | UInt(u: nat) | Float(r: real) | Str(s: text) | Bool(b: bool)
    | Array(items: seq<Value>) | Object(members: seq<Member>)

  datatype Member = Member(name: text, value: Value)

  datatype Error = Error(problem: Problem, token: Token)

  datatype Read = Read(ok: bool, pos: nat, errors: seq<Error>, value: Value)

  /** What sscanf makes of a floating-point number: outside this model, so any function. */
  type Scanner = text -> Option<real>

  // ----- the members of an object: in strcmp order, one to a name -----

  predicate NameBefore(a: text, b: text) {
    b != [] && (a == [] || a[0] < b[0] || (a[0] == b[0] && NameBefore(a[1..], b[1..])))
  }

  function Get(members: seq<Member>, name: text): Value {
    if members == [] then Null
    else if members[0].name == name then members[0].value
    else Get(members[1..], name)
  }

  function Put(members: seq<Member>, name: text, value: Value): seq<Member> {
    if members == [] || NameBefore(name, members[0].name) then [Member(name, value)] + members
    else if members[0].name == name then [Member(name, value)] + members[1..]
    else [members[0]] + Put(members[1..], name, value)
  }

  /** A name goes to the object as a C string. */
  function CString(s: text): text {
    if s == [] || s[0] == '\0' then [] else [s[0]] + CString(s[1..])
  }

  // ----- scalars -----

  function TokenText(doc: text, t: Token): text
    requires t.start <= t.end <= |doc|
  {
    doc[t.start..t.end]
  }

  /** decodeNumber and decodeDouble; None leaves the node alone and is an error. */
  function NumberValue(s: text, scan: Scanner): Option<Value>
    requires s != []
  {
    match JsonNumbers.DecodeNumber(s)
    case Signed(i) => Some(Int(i))
    case Unsigned(u) => Some(UInt(u))
    case Bad => None
    case Real =>
      match scan(s)
      case Some(r) => Some(Float(r))
      case None => None
  }

  /** The characters between the quotes of a string token. */
  function Inside(doc: text, t: Token): text
    requires t.start <= t.end <= |doc|
  {
    if t.start + 2 <= t.end then doc[t.start + 1..t.end - 1] else []
  }

  function ReadScalar(doc: text, t: Token, errors: seq<Error>, old_value: Value, scan: Scanner): Read
    requires t.start < t.end <= |doc|
  {
    match t.kind
    case NumberToken =>
      (match NumberValue(TokenText(doc, t), scan)
       case Some(v) => Read(true, t.end, errors, v)
       case None => Read(false, t.end, errors + [Error(NotANumber, t)], old_value))
    case StringToken =>
      (match DecodeFrom(Inside(doc, t), 0)
       case Ok(s) => Read(true, t.end, errors, Str(s))
       case Err(problem) => Read(false, t.end, errors + [Error(problem, t)], old_value))
    case TrueToken => Read(true, t.end, errors, Bool(true))
    case FalseToken => Read(true, t.end, errors, Bool(false))
    case NullToken => Read(true, t.end, errors, Null)
    case _ => Read(false, t.end, errors + [Error(ValueExpected, t)], old_value)
  }

  /** An error, and the cursor moved past the next token of the given kind. */
  function Fail(doc: text, p: nat, errors: seq<Error>, kind: Kind, value: Value): Read
    requires p <= |doc|
  {
    Read(false, Recover(doc, p, kind), errors, value)
  }

  // ----- containers -----

  function ReadValue(doc: text, p: nat, errors: seq<Error>, old_value: Value, scan: Scanner): (r: Read)
    requires p <= |doc|
    ensures p <= r.pos <= |doc|
    decreases |doc| - p, 0
  {
    var t := SkipComments(doc, p);
    if t.kind == ObjectBegin then ReadMembers(doc, t.end, errors, [], [], scan)
    else if t.kind == ArrayBegin then
      var q := SkipSpaces(doc, t.end);
      if At(doc, q) == ']' then Read(true, ReadToken(doc, q).end, errors, Array([]))
      else ReadElements(doc, q, errors, [], scan)
    else if t.kind == EndOfStream then Read(false, t.end, errors + [Error(ValueExpected, t)], old_value)
    else ReadScalar(doc, t, errors, old_value, scan)
  }

  /** The loop of readArray. */
  function ReadElements(doc: text, p: nat, errors: seq<Error>, items: seq<Value>, scan: Scanner): (r: Read)
    requires p <= |doc|
    ensures p <= r.pos <= |doc|
    decreases |doc| - p, 1
  {
    var v := ReadValue(doc, p, errors, Null, scan);
    var items' := items + [v.value];
    if !v.ok then Fail(doc, v.pos, v.errors, ArrayEnd, Array(items'))
    else
      var t := SkipComments(doc, v.pos);
      if t.kind == ArrayEnd then Read(true, t.end, v.errors, Array(items'))
      else if t.kind != ArraySeparator then
        Fail(doc, t.end, v.errors + [Error(MissingCommaOrBracket, t)], ArrayEnd, Array(items'))
      else ReadElements(doc, t.end, v.errors, items', scan)
  }

  /** The loop of readObject; `name` is the name read last, empty before the first. */
  function ReadMembers(doc: text, p: nat, errors: seq<Error>, members: seq<Member>, name: text,
      scan: Scanner): (r: Read)
    requires p <= |doc|
    ensures p <= r.pos <= |doc|
    decreases |doc| - p, 1
  {
    var t := SkipComments(doc, p);
    if t.kind == ObjectEnd && name == [] then Read(true, t.end, errors, Object(members))
    else if t.kind != StringToken then
      Fail(doc, t.end, errors + [Error(MissingBrace, t)], ObjectEnd, Object(members))
    else
      match DecodeFrom(Inside(doc, t), 0)
      case Err(problem) => Fail(doc, t.end, errors + [Error(problem, t)], ObjectEnd, Object(members))
      case Ok(name') => ReadMember(doc, t.end, errors, members, name', scan)
  }

  /** The rest of a round of readObject, from its colon. */
  function ReadMember(doc: text, p: nat, errors: seq<Error>, members: seq<Member>, name: text, scan: Scanner): (r: Read)
    requires p <= |doc|
    ensures p <= r.pos <= |doc|
    decreases |doc| - p, 2
  {
    var colon := ReadToken(doc, p);
    if colon.kind != MemberSeparator then
      Fail(doc, colon.end, errors + [Error(MissingColon, colon)], ObjectEnd, Object(members))
    else
      var key := CString(name);
      var v := ReadValue(doc, colon.end, errors, Get(members, key), scan);
      var members' := Put(members, key, v.value);
      if !v.ok then Fail(doc, v.pos, v.errors, ObjectEnd, Object(members'))
      else
        var comma := ReadToken(doc, v.pos);
        if comma.kind !in {ObjectEnd, ArraySeparator, Comment} then
          Fail(doc, comma.end, v.errors + [Error(MissingCommaOrBrace, comma)], ObjectEnd, Object(members'))
        else
          var last := if comma.kind == Comment then SkipComments(doc, comma.end) else comma;
          if last.kind == ObjectEnd then Read(true, last.end, v.errors, Object(members'))
          else ReadMembers(doc, last.end, v.errors, members', name, scan)
  }

  /** parse, with the default features: comments are allowed and any value may be the root. */
  function Parse(doc: text, scan: Scanner): Read {
    var v := ReadValue(doc, 0, [], Null, scan);
    Read(v.ok, SkipComments(doc, v.pos).end, v.errors, v.value)
  }
}
