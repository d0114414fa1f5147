/** Json::FastWriter (lib/jsoncpp/jsoncpp.cpp), as functions. */
module JsonPrinter {
  import opened JsonText
  import opened JsonStrings
  import opened JsonParser
  import JsonNumbers

  /** What sprintf makes of a real: outside this model, so any function. */
  type Formatter = real -> text

  function PrintValue(v: Value, show: Formatter): text {
    match v
    case Null => "null"
    case Int(i) => JsonNumbers.ShowInt(i)
    case UInt(u) => JsonNumbers.Show(u)
    case Float(r) => show(r)
    case Str(s) => Quoted(CString(s))
    case Bool(b) => if b then "true" else "false"
    case Array(items) => ['['] + PrintItems(items, show) + [']']
    case Object(members) => ['{'] + PrintMembers(members, show) + ['}']
  }

  function PrintItems(items: seq<Value>, show: Formatter): text {
    if items == [] then []
    else PrintValue(items[0], show) + PrintMoreItems(items[1..], show)
  }

  /** The items after the first, a comma before each. */
  function PrintMoreItems(items: seq<Value>, show: Formatter): text {
    if items == [] then []
    else [','] + (PrintValue(items[0], show) + PrintMoreItems(items[1..], show))
  }

  function PrintMember(m: Member, show: Formatter): text {
    Quoted(CString(m.name)) + ([':'] + PrintValue(m.value, show))
  }

  function PrintMembers(members: seq<Member>, show: Formatter): text {
    if members == [] then []
    else PrintMember(members[0], show) + PrintMoreMembers(members[1..], show)
  }

  function PrintMoreMembers(members: seq<Member>, show: Formatter): text {
    if members == [] then []
    else [','] + (PrintMember(members[0], show) + PrintMoreMembers(members[1..], show))
  }

  /** write. */
  function Print(v: Value, show: Formatter): text {
    PrintValue(v, show) + ['\n']
  }

  // ----- the values for which parsing undoes printing -----

  /** Null, booleans, 64-bit integers, strings, arrays, and objects whose names have no NUL. */
  predicate Printable(v: Value) {
    match v
    case Null => true
    case Int(i) => -JsonNumbers.TWO63 <= i < JsonNumbers.TWO63
    case UInt(u) => u < JsonNumbers.TWO64
    case Float(_) => false
    case Str(_) => true
    case Bool(_) => true
    case Array(items) => forall i :: 0 <= i < |items| ==> Printable(items[i])
    case Object(members) =>
      InOrder(members) && forall i :: 0 <= i < |members| ==> '\0' !in members[i].name && Printable(members[i].value)
  }

  /** An object keeps its members in the order of their names, one to a name. */
  predicate InOrder(members: seq<Member>) {
    forall i, j :: 0 <= i < j < |members| ==> NameBefore(members[i].name, members[j].name)
  }

  /** The same value, an integer signed up to the greatest 32-bit integer and unsigned above it, and a string
      only up to its first NUL, where the writer takes it to end. */
  function Retagged(v: Value): Value {
    match v
    case Int(i) => if i <= JsonNumbers.MAX_INT then Int(i) else UInt(i)
    case UInt(u) => if u <= JsonNumbers.MAX_INT then Int(u) else UInt(u)
    case Str(s) => Str(CString(s))
    case Array(items) => Array(RetaggedItems(items))
    case Object(members) => Object(RetaggedMembers(members))
    case _ => v
  }

  function RetaggedItems(items: seq<Value>): seq<Value> {
    if items == [] then [] else [Retagged(items[0])] + RetaggedItems(items[1..])
  }

  function RetaggedMembers(members: seq<Member>): seq<Member> {
    if members == [] then []
    else [Member(members[0].name, Retagged(members[0].value))] + RetaggedMembers(members[1..])
  }
}
