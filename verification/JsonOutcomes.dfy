/** What every parse of every document has in common, error recovery included. */
module JsonOutcomes {
  import opened JsonText
  import opened JsonStrings
  import opened JsonParser
  import opened JsonPrinter
  import opened JsonRoundTrip
  import JsonNumbers

  /** Success means no new error and some input consumed; failure leaves at least one new error. */
  predicate Reports(doc: text, p: nat, errors: seq<Error>, r: Read) {
    && errors <= r.errors
    && (r.ok ==> r.errors == errors && p < r.pos)
    && (!r.ok ==> |errors| < |r.errors|)
  }

  lemma {:induction false} ValueReports(doc: text, p: nat, errors: seq<Error>, old_value: Value, scan: Scanner)
    requires p <= |doc|
    ensures Reports(doc, p, errors, ReadValue(doc, p, errors, old_value, scan))
    decreases |doc| - p, 0
  {
    hide ReadMembers, ReadElements, ReadToken, DecodeFrom, NumberValue;
    var t := SkipComments(doc, p);
    if t.kind == ObjectBegin {
      MembersReport(doc, t.end, errors, [], [], scan);
    } else if t.kind == ArrayBegin {
      ElementsReport(doc, SkipSpaces(doc, t.end), errors, [], scan);
    }
  }

  lemma {:induction false} ElementsReport(doc: text, p: nat, errors: seq<Error>, items: seq<Value>, scan: Scanner)
    requires p <= |doc|
    ensures Reports(doc, p, errors, ReadElements(doc, p, errors, items, scan))
    decreases |doc| - p, 1
  {
    hide ReadValue, SkipComments, Recover;
    ValueReports(doc, p, errors, Null, scan);
    var v := ReadValue(doc, p, errors, Null, scan);
    if v.ok {
      var t := SkipComments(doc, v.pos);
      if t.kind == ArraySeparator {
        ElementsReport(doc, t.end, v.errors, items + [v.value], scan);
      }
    }
  }

  lemma {:induction false} MembersReport(doc: text, p: nat, errors: seq<Error>, members: seq<Member>, name: text,
      scan: Scanner)
    requires p <= |doc|
    ensures Reports(doc, p, errors, ReadMembers(doc, p, errors, members, name, scan))
    decreases |doc| - p, 1
  {
    hide ReadMember, SkipComments, Recover, DecodeFrom;
    var t := SkipComments(doc, p);
    if t.kind == StringToken && DecodeFrom(Inside(doc, t), 0).Ok? {
      MemberReports(doc, t.end, errors, members, DecodeFrom(Inside(doc, t), 0).value, scan);
    }
  }

  lemma {:induction false} MemberReports(doc: text, p: nat, errors: seq<Error>, members: seq<Member>, name: text,
      scan: Scanner)
    requires p <= |doc|
    ensures Reports(doc, p, errors, ReadMember(doc, p, errors, members, name, scan))
    decreases |doc| - p, 2
  {
    hide ReadValue, ReadMembers, ReadToken, SkipComments, Recover, CString, Get, Put;
    var colon := ReadToken(doc, p);
    if colon.kind == MemberSeparator {
      var v := ReadValue(doc, colon.end, errors, Get(members, CString(name)), scan);
      ValueReports(doc, colon.end, errors, Get(members, CString(name)), scan);
      if v.ok {
        var comma := ReadToken(doc, v.pos);
        if comma.kind in {ObjectEnd, ArraySeparator, Comment} {
          var last := if comma.kind == Comment then SkipComments(doc, comma.end) else comma;
          if last.kind != ObjectEnd {
            MembersReport(doc, last.end, v.errors, Put(members, CString(name), v.value), name, scan);
          }
        }
      }
    }
  }

  /** A parse succeeds exactly when it leaves no error, and ends inside the document. */
  lemma ParseReports(doc: text, scan: Scanner)
    ensures Parse(doc, scan).ok <==> Parse(doc, scan).errors == []
    ensures Parse(doc, scan).ok ==> 0 < Parse(doc, scan).pos
    ensures Parse(doc, scan).pos <= |doc|
  {
    hide ReadValue;
    ValueReports(doc, 0, [], Null, scan);
  }

  // ----- what a parsed value is like -----

  /** At every depth, integers are 64-bit ones, and an object's members are in the order of their names, one to
      a name and no name with a NUL. */
  predicate Kept(v: Value) {
    match v
    case Int(i) => -JsonNumbers.TWO63 <= i < JsonNumbers.TWO63
    case UInt(u) => u < JsonNumbers.TWO64
    case Array(items) => forall i :: 0 <= i < |items| ==> Kept(items[i])
    case Object(members) => KeptMembers(members)
    case _ => true
  }

  predicate KeptMembers(members: seq<Member>) {
    InOrder(members) && forall i :: 0 <= i < |members| ==> '\0' !in members[i].name && Kept(members[i].value)
  }

  lemma {:induction false} NamesCompare(a: text, b: text, c: text)
    ensures NameBefore(a, b) && NameBefore(b, c) ==> NameBefore(a, c)
    ensures NameBefore(a, b) || NameBefore(b, a) || a == b
    decreases |a|
  {
    if a != [] && b != [] {
      NamesCompare(a[1..], b[1..], if c == [] then [] else c[1..]);
      if a[0] == b[0] && a[1..] == b[1..] {
        assert a == [a[0]] + a[1..] && b == [b[0]] + b[1..];
      }
    }
  }

  lemma {:induction false} PutMember(members: seq<Member>, name: text, value: Value, m: Member)
    requires m in Put(members, name, value)
    ensures m in members || m == Member(name, value)
  {
    hide NameBefore;
    if members != [] && !NameBefore(name, members[0].name) && members[0].name != name {
      if m != members[0] {
        PutMember(members[1..], name, value, m);
      }
    }
  }

  lemma {:induction false} PutKeepsOrder(members: seq<Member>, name: text, value: Value)
    requires InOrder(members)
    ensures InOrder(Put(members, name, value))
  {
    hide NameBefore;
    if members == [] {
    } else if NameBefore(name, members[0].name) {
      forall r | r in members
        ensures NameBefore(name, r.name)
      {
        var i :| 0 <= i < |members| && members[i] == r;
        NamesCompare(name, members[0].name, r.name);
      }
    } else if members[0].name == name {
      TailInOrder(members);
    } else {
      TailInOrder(members);
      PutKeepsOrder(members[1..], name, value);
      NamesCompare(name, members[0].name, name);
      forall r | r in Put(members[1..], name, value)
        ensures NameBefore(members[0].name, r.name)
      {
        PutMember(members[1..], name, value, r);
      }
    }
  }

  lemma TailInOrder(members: seq<Member>)
    requires InOrder(members) && members != []
    ensures InOrder(members[1..]) && forall r :: r in members[1..] ==> NameBefore(members[0].name, r.name)
  {
    hide NameBefore;
  }

  lemma PutKeeps(members: seq<Member>, name: text, value: Value)
    requires KeptMembers(members) && Kept(value) && '\0' !in name
    ensures KeptMembers(Put(members, name, value))
  {
    hide NameBefore, InOrder, Kept, Put;
    PutKeepsOrder(members, name, value);
    var all := Put(members, name, value);
    forall i | 0 <= i < |all|
      ensures '\0' !in all[i].name && Kept(all[i].value)
    {
      PutMember(members, name, value, all[i]);
    }
  }

  /** What was put is what is found, and every other name finds what it found before. */
  lemma {:induction false} GetAfterPut(members: seq<Member>, name: text, value: Value, other: text)
    requires InOrder(members)
    ensures Get(Put(members, name, value), other) == if other == name then value else Get(members, other)
  {
    hide NameBefore;
    if members != [] {
      TailInOrder(members);
      if !NameBefore(name, members[0].name) && members[0].name != name {
        GetAfterPut(members[1..], name, value, other);
      }
    }
  }

  lemma {:induction false} GetKept(members: seq<Member>, name: text)
    requires KeptMembers(members)
    ensures Kept(Get(members, name))
  {
    hide NameBefore, Kept;
    if members != [] {
      if members[0].name == name {
      } else {
        TailInOrder(members);
        GetKept(members[1..], name);
      }
    } else {
      NullKept();
    }
  }

  lemma NullKept()
    ensures Kept(Null)
  {
  }

  lemma {:induction false} ValueKept(doc: text, p: nat, errors: seq<Error>, old_value: Value, scan: Scanner)
    requires p <= |doc| && Kept(old_value)
    ensures Kept(ReadValue(doc, p, errors, old_value, scan).value)
    decreases |doc| - p, 0
  {
    hide ReadMembers, ReadElements, ReadToken, ReadScalar;
    var t := SkipComments(doc, p);
    if t.kind == ObjectBegin {
      MembersKept(doc, t.end, errors, [], [], scan);
    } else if t.kind == ArrayBegin {
      ElementsKept(doc, SkipSpaces(doc, t.end), errors, [], scan);
    } else if t.kind != EndOfStream {
      ScalarKept(doc, t, errors, old_value, scan);
    }
  }

  lemma NumberKept(s: text)
    requires s != []
    ensures match JsonNumbers.DecodeNumber(s)
            case Signed(i) => -JsonNumbers.TWO63 <= i < JsonNumbers.TWO63
            case Unsigned(u) => u < JsonNumbers.TWO64
            case _ => true
  {
    hide JsonNumbers.Gather;
  }

  lemma ScalarKept(doc: text, t: Token, errors: seq<Error>, old_value: Value, scan: Scanner)
    requires t.start < t.end <= |doc| && Kept(old_value)
    ensures Kept(ReadScalar(doc, t, errors, old_value, scan).value)
  {
    hide JsonNumbers.DecodeNumber, DecodeFrom;
    if t.kind == NumberToken {
      NumberKept(TokenText(doc, t));
    }
  }

  lemma {:induction false} ElementsKept(doc: text, p: nat, errors: seq<Error>, items: seq<Value>, scan: Scanner)
    requires p <= |doc| && Kept(Array(items))
    ensures Kept(ReadElements(doc, p, errors, items, scan).value)
    decreases |doc| - p, 1
  {
    hide ReadValue, SkipComments, Recover;
    ValueKept(doc, p, errors, Null, scan);
    var v := ReadValue(doc, p, errors, Null, scan);
    if v.ok {
      var t := SkipComments(doc, v.pos);
      if t.kind == ArraySeparator {
        ElementsKept(doc, t.end, v.errors, items + [v.value], scan);
      }
    }
  }

  lemma {:induction false} MembersKept(doc: text, p: nat, errors: seq<Error>, members: seq<Member>, name: text,
      scan: Scanner)
    requires p <= |doc| && KeptMembers(members)
    ensures Kept(ReadMembers(doc, p, errors, members, name, scan).value)
    decreases |doc| - p, 1
  {
    hide ReadMember, SkipComments, Recover, DecodeFrom, KeptMembers;
    ObjectKept(members);
    var t := SkipComments(doc, p);
    if t.kind == StringToken && DecodeFrom(Inside(doc, t), 0).Ok? {
      MemberKept(doc, t.end, errors, members, DecodeFrom(Inside(doc, t), 0).value, scan);
    }
  }

  lemma ObjectKept(members: seq<Member>)
    ensures Kept(Object(members)) == KeptMembers(members)
  {
  }

  lemma {:induction false} MemberKept(doc: text, p: nat, errors: seq<Error>, members: seq<Member>, name: text,
      scan: Scanner)
    requires p <= |doc| && KeptMembers(members)
    ensures Kept(ReadMember(doc, p, errors, members, name, scan).value)
    decreases |doc| - p, 2
  {
    hide ReadValue, ReadMembers, ReadToken, SkipComments, Recover, CString, Get, Put, KeptMembers, Kept;
    ObjectKept(members);
    var colon := ReadToken(doc, p);
    if colon.kind == MemberSeparator {
      var key := CString(name);
      GetKept(members, key);
      var v := ReadValue(doc, colon.end, errors, Get(members, key), scan);
      ValueKept(doc, colon.end, errors, Get(members, key), scan);
      var members' := Put(members, key, v.value);
      CStringClean(name);
      PutKeeps(members, key, v.value);
      ObjectKept(members');
      if v.ok {
        var comma := ReadToken(doc, v.pos);
        if comma.kind in {ObjectEnd, ArraySeparator, Comment} {
          var last := if comma.kind == Comment then SkipComments(doc, comma.end) else comma;
          if last.kind != ObjectEnd {
            MembersKept(doc, last.end, v.errors, members', name, scan);
          }
        }
      }
    }
  }

  /** In every parse, with or without errors. */
  lemma ParsedIsKept(doc: text, scan: Scanner)
    ensures Kept(Parse(doc, scan).value)
  {
    hide ReadValue;
    ValueKept(doc, 0, [], Null, scan);
  }

  /** No reals. */
  predicate NoReals(v: Value) {
    match v
    case Float(_) => false
    case Array(items) => forall i :: 0 <= i < |items| ==> NoReals(items[i])
    case Object(members) => forall i :: 0 <= i < |members| ==> NoReals(members[i].value)
    case _ => true
  }

  lemma {:induction false} KeptIsPrintable(v: Value)
    requires Kept(v) && NoReals(v)
    ensures Printable(v)
  {
    hide InOrder;
    match v
    case Array(items) =>
      forall i | 0 <= i < |items|
        ensures Printable(items[i])
      {
        KeptIsPrintable(items[i]);
      }
    case Object(members) =>
      forall i | 0 <= i < |members|
        ensures Printable(members[i].value)
      {
        KeptIsPrintable(members[i].value);
      }
    case _ =>
  }

  /** Whatever document it came from, and even if that had errors, a parsed value without reals
      survives printing and parsing again. */
  lemma ReparseGivesTheSame(doc: text, show: Formatter, scan: Scanner)
    requires NoReals(Parse(doc, scan).value)
    ensures var again := Parse(Print(Parse(doc, scan).value, show), scan);
            again.ok && again.value == Retagged(Parse(doc, scan).value)
  {
    hide Parse, Print, Kept, NoReals, Printable, Retagged;
    ParsedIsKept(doc, scan);
    KeptIsPrintable(Parse(doc, scan).value);
    ParseUndoesPrint(Parse(doc, scan).value, show, scan);
  }

  lemma {:induction false} RetaggedHasNoReals(v: Value)
    requires Printable(v)
    ensures NoReals(Retagged(v))
  {
    match v
    case Array(items) => RetaggedItemsHaveNone(items);
    case Object(members) => RetaggedMembersHaveNone(members);
    case _ =>
  }

  lemma {:induction false} RetaggedItemsHaveNone(items: seq<Value>)
    requires forall i :: 0 <= i < |items| ==> Printable(items[i])
    ensures forall i :: 0 <= i < |RetaggedItems(items)| ==> NoReals(RetaggedItems(items)[i])
  {
    hide Printable, Retagged, NoReals;
    if items != [] {
      RetaggedHasNoReals(items[0]);
      RetaggedItemsHaveNone(items[1..]);
    }
  }

  lemma {:induction false} RetaggedMembersHaveNone(members: seq<Member>)
    requires forall i :: 0 <= i < |members| ==> Printable(members[i].value)
    ensures forall i :: 0 <= i < |RetaggedMembers(members)| ==> NoReals(RetaggedMembers(members)[i].value)
  {
    hide Printable, Retagged, NoReals;
    if members != [] {
      RetaggedHasNoReals(members[0].value);
      RetaggedMembersHaveNone(members[1..]);
    }
  }

  /** What the first round of printing and parsing may change it changes once: from then on every round gives
      exactly the value it started from. */
  lemma SecondRoundIsExact(v: Value, show: Formatter, scan: Scanner)
    requires Printable(v)
    ensures var w := Parse(Print(v, show), scan).value;
            var again := Parse(Print(w, show), scan);
            again.ok && again.errors == [] && again.value == w
  {
    hide Parse, Print, Kept, NoReals, Printable, Retagged;
    var w := Parse(Print(v, show), scan).value;
    ParseUndoesPrint(v, show, scan);
    ParsedIsKept(Print(v, show), scan);
    RetaggedHasNoReals(v);
    KeptIsPrintable(w);
    ParseUndoesPrint(w, show, scan);
    RetaggedIsStable(v);
  }
}
