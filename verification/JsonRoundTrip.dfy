/** Parsing gives back the value of any document that holds one, printed or laid out with blanks and comments. */
module JsonRoundTrip {
  import opened JsonText
  import opened JsonStrings
  import opened JsonParser
  import opened JsonPrinter
  import opened JsonLayout
  import JsonNumbers

  /** A value's text ends at q: the character there continues no number. */
  predicate Ends(doc: text, q: nat) {
    q < |doc| ==> !NumberChar(doc[q])
  }

  // ----- tokens -----

  lemma SpanInside(doc: text, p: nat, s: text)
    requires Holds(doc, p, s)
    ensures p + |s| <= |doc| && doc[p..p + |s|] == s
  {
  }

  lemma {:induction false} NumberSpan(doc: text, p: nat, s: text, k: nat)
    requires Holds(doc, p, s) && Ends(doc, p + |s|) && k <= |s|
    requires forall i :: 0 <= i < |s| ==> NumberChar(s[i])
    ensures ReadNumber(doc, p + k) == p + |s|
    decreases |s| - k
  {
    hide Holds;
    if k < |s| {
      HoldsAt(doc, p, s, k);
      NumberSpan(doc, p, s, k + 1);
      assert p + k + 1 == p + (k + 1);
    }
  }

  lemma IntegerChars(s: text)
    requires JsonNumbers.IntegerText(s)
    ensures s != [] && forall i :: 0 <= i < |s| ==> NumberChar(s[i])
    ensures JsonNumbers.IsDigit(s[0]) || s[0] == '-'
  {
    forall i | 0 <= i < |s|
      ensures NumberChar(s[i])
    {
      if s[0] == '-' {
        assert i > 0 ==> s[i] == s[1..][i - 1] && JsonNumbers.IsDigit(s[1..][i - 1]);
      } else {
        assert JsonNumbers.IsDigit(s[i]);
      }
    }
    assert s[0] != '-' ==> JsonNumbers.IsDigit(s[0]);
  }

  lemma NumberTokenAt(doc: text, p: nat, s: text)
    requires JsonNumbers.IntegerText(s) && Holds(doc, p, s) && Ends(doc, p + |s|)
    ensures ReadToken(doc, p) == Token(NumberToken, p, p + |s|)
  {
    hide Holds, ReadNumber, JsonNumbers.IntegerText;
    IntegerChars(s);
    HoldsAt(doc, p, s, 0);
    NumberSpan(doc, p, s, 1);
    NoSpace(doc, p);
  }

  /** One of the single-character tokens of containers. */
  lemma MarkAt(doc: text, p: nat)
    requires p < |doc| && doc[p] in {'{', '}', '[', ']', ',', ':'}
    ensures ReadToken(doc, p) == Token(match doc[p]
                                       case '{' => ObjectBegin
                                       case '}' => ObjectEnd
                                       case '[' => ArrayBegin
                                       case ']' => ArrayEnd
                                       case ',' => ArraySeparator
                                       case _ => MemberSeparator, p, p + 1)
    ensures SkipSpaces(doc, p) == p
  {
    NoSpace(doc, p);
  }

  lemma WordAt(doc: text, p: nat, first: char, rest: text)
    requires Holds(doc, p, [first] + rest)
    ensures p < |doc| && doc[p] == first && Match(doc, p + 1, rest)
  {
    HoldsParts(doc, p, [first], rest);
    HoldsAt(doc, p, [first], 0);
  }

  lemma NullAt(doc: text, p: nat)
    requires Holds(doc, p, "null")
    ensures ReadToken(doc, p) == Token(NullToken, p, p + 4)
  {
    hide Holds, Match;
    assert "null" == ['n'] + "ull";
    WordAt(doc, p, 'n', "ull");
    NoSpace(doc, p);
  }

  lemma TrueAt(doc: text, p: nat)
    requires Holds(doc, p, "true")
    ensures ReadToken(doc, p) == Token(TrueToken, p, p + 4)
  {
    hide Holds, Match;
    assert "true" == ['t'] + "rue";
    WordAt(doc, p, 't', "rue");
    NoSpace(doc, p);
  }

  lemma FalseAt(doc: text, p: nat)
    requires Holds(doc, p, "false")
    ensures ReadToken(doc, p) == Token(FalseToken, p, p + 5)
  {
    hide Holds, Match;
    assert "false" == ['f'] + "alse";
    WordAt(doc, p, 'f', "alse");
    NoSpace(doc, p);
  }

  // ----- scalars -----

  lemma ScalarFirst(doc: text, p: nat, errors: seq<Error>, old_value: Value, scan: Scanner)
    requires p <= |doc| && ReadToken(doc, p).kind in {NumberToken, StringToken, TrueToken, FalseToken, NullToken}
    ensures ReadValue(doc, p, errors, old_value, scan) == ReadScalar(doc, ReadToken(doc, p), errors, old_value, scan)
  {
    hide ReadToken, ReadScalar;
  }

  lemma IntegerBack(doc: text, p: nat, i: int, errors: seq<Error>, old_value: Value, scan: Scanner)
    requires -JsonNumbers.TWO63 <= i < JsonNumbers.TWO64
    requires Holds(doc, p, JsonNumbers.ShowInt(i)) && Ends(doc, p + |JsonNumbers.ShowInt(i)|)
    ensures ReadValue(doc, p, errors, old_value, scan) ==
            Read(true, p + |JsonNumbers.ShowInt(i)|, errors, if i <= JsonNumbers.MAX_INT then Int(i) else UInt(i))
  {
    hide ReadValue, JsonNumbers.DecodeNumber, JsonNumbers.ShowInt, JsonNumbers.IntegerText, ReadToken, Holds;
    var s := JsonNumbers.ShowInt(i);
    JsonNumbers.ShowIntIsInteger(i);
    NumberTokenAt(doc, p, s);
    SpanInside(doc, p, s);
    ScalarFirst(doc, p, errors, old_value, scan);
    JsonNumbers.NumberReadsBack(i);
  }

  lemma StringBack(doc: text, p: nat, s: text, errors: seq<Error>, old_value: Value, scan: Scanner)
    requires '\0' !in s && Holds(doc, p, Quoted(s))
    ensures ReadValue(doc, p, errors, old_value, scan) == Read(true, p + |Quoted(s)|, errors, Str(s))
  {
    hide ReadValue, ReadToken, Holds, DecodeFrom, Escaped;
    QuotedReadsBack(doc, p, s);
    SpanInside(doc, p, Quoted(s));
    ScalarFirst(doc, p, errors, old_value, scan);
  }

  lemma ScalarBack(doc: text, p: nat, v: Value, show: Formatter, errors: seq<Error>, old_value: Value, scan: Scanner)
    requires Printable(v) && !v.Array? && !v.Object?
    requires Holds(doc, p, PrintValue(v, show)) && Ends(doc, p + |PrintValue(v, show)|)
    ensures ReadValue(doc, p, errors, old_value, scan) == Read(true, p + |PrintValue(v, show)|, errors, Retagged(v))
  {
    hide ReadValue, ReadToken, Holds, Quoted, CString, JsonNumbers.Show;
    match v
    case Null =>
      NullAt(doc, p);
      SpanInside(doc, p, "null");
      ScalarFirst(doc, p, errors, old_value, scan);
    case Bool(b) =>
      SpanInside(doc, p, if b then "true" else "false");
      if b {
        TrueAt(doc, p);
      } else {
        FalseAt(doc, p);
      }
      ScalarFirst(doc, p, errors, old_value, scan);
    case Int(i) => IntegerBack(doc, p, i, errors, old_value, scan);
    case UInt(u) => IntegerBack(doc, p, u, errors, old_value, scan);
    case Str(s) =>
      CStringClean(s);
      StringBack(doc, p, CString(s), errors, old_value, scan);
  }

  // ----- members -----

  lemma {:induction false} NameBeforeIsStrict(a: text, b: text)
    ensures !(NameBefore(a, b) && NameBefore(b, a))
    ensures NameBefore(a, b) ==> a != b
    decreases |a|
  {
    if a != [] && b != [] {
      NameBeforeIsStrict(a[1..], b[1..]);
    }
  }

  /** A name after all those present goes to the end. */
  lemma {:induction false} PutLast(members: seq<Member>, name: text, value: Value)
    requires AllBefore(members, name)
    ensures Put(members, name, value) == members + [Member(name, value)]
  {
    hide NameBefore;
    if members != [] {
      NameBeforeIsStrict(members[0].name, name);
      PutLast(members[1..], name, value);
    }
  }

  lemma {:induction false} CStringWhole(s: text)
    requires '\0' !in s
    ensures CString(s) == s
  {
    if s != [] {
      CStringWhole(s[1..]);
    }
  }

  lemma {:induction false} CStringClean(s: text)
    ensures '\0' !in CString(s)
  {
    if s != [] && s[0] != '\0' {
      CStringClean(s[1..]);
    }
  }

  /** The writer keeps a string whole exactly when it has no NUL. */
  lemma CStringIff(s: text)
    ensures CString(s) == s <==> '\0' !in s
  {
    CStringClean(s);
    if '\0' !in s {
      CStringWhole(s);
    }
  }

  /** The members read so far, all before the next. */
  predicate Behind(members: seq<Member>, rest: seq<Member>) {
    forall i :: 0 <= i < |members| ==> forall j :: 0 <= j < |rest| ==> NameBefore(members[i].name, rest[j].name)
  }

  predicate GoodMembers(rest: seq<Member>) {
    InOrder(rest) && forall i :: 0 <= i < |rest| ==> '\0' !in rest[i].name && Printable(rest[i].value)
  }

  lemma BehindNext(members: seq<Member>, rest: seq<Member>, value: Value)
    requires rest != [] && Behind(members, rest) && GoodMembers(rest)
    ensures Behind(members + [Member(rest[0].name, value)], rest[1..]) && GoodMembers(rest[1..])
  {
    hide NameBefore, Printable;
    var more := members + [Member(rest[0].name, value)];
    forall i, j | 0 <= i < |more| && 0 <= j < |rest[1..]|
      ensures NameBefore(more[i].name, rest[1..][j].name)
    {
      assert rest[1..][j] == rest[j + 1];
      if i < |members| {
        assert more[i] == members[i];
      }
    }
  }

  // ----- containers -----

  lemma StartsToken(v: Value, show: Formatter, l: Layout, p: nat)
    requires Printable(v)
    ensures var t := Laid(v, show, l, p); t != [] && t[0] != ']' && t[0] != '/' && !Space(t[0])
  {
    hide JsonNumbers.Show, Escaped, CString, LaidItems, LaidMembers;
    match v
    case Int(i) =>
      JsonNumbers.ShowIntIsInteger(i);
      IntegerChars(JsonNumbers.ShowInt(i));
    case UInt(u) =>
      JsonNumbers.ShowIntIsInteger(u);
      IntegerChars(JsonNumbers.ShowInt(u));
    case _ =>
  }

  /** So the first token is no closing bracket. */
  lemma FirstToken(doc: text, p: nat, v: Value, show: Formatter, l: Layout, at: nat)
    requires Printable(v) && Holds(doc, p, Laid(v, show, l, at))
    ensures p < |doc| && SkipComments(doc, p).kind != ArrayEnd
  {
    StartsToken(v, show, l, at);
    HoldsAt(doc, p, Laid(v, show, l, at), 0);
    NoSpace(doc, p);
    hide Laid, Holds, ReadString, ReadComment, ReadNumber;
  }

  /** What two parts in a row mean for a lemma that sees one. */
  lemma Parts(doc: text, p: nat, a: text, b: text)
    requires p <= |doc| && Holds(doc, p, a + b)
    ensures Holds(doc, p, a) && Holds(doc, p + |a|, b) && p + |a| <= |doc|
  {
    HoldsParts(doc, p, a, b);
  }

  lemma MarkParts(doc: text, p: nat, mark: char, rest: text)
    requires p <= |doc| && Holds(doc, p, [mark] + rest)
    ensures p < |doc| && doc[p] == mark && Holds(doc, p + 1, rest)
  {
    Parts(doc, p, [mark], rest);
    HoldsAt(doc, p, [mark], 0);
  }

  /** A gap before the comma or the closing mark of a container. */
  lemma GapBefore(doc: text, p: nat, g: Gap)
    requires p <= |doc| && Holds(doc, p, GapText(g)) && p + |GapText(g)| < |doc|
    requires var mark := doc[p + |GapText(g)|]; mark == ',' || mark == ']' || mark == '}'
    ensures SkipComments(doc, p) == ReadToken(doc, p + |GapText(g)|) && Ends(doc, p)
  {
    var q := p + |GapText(g)|;
    GapEnds(doc, p, g);
    MarkIsNoComment(doc, q);
    hide *;
    GapIsSkipped(doc, p, g);
  }

  lemma GapEnds(doc: text, p: nat, g: Gap)
    requires Holds(doc, p, GapText(g)) && (p + |GapText(g)| < |doc| ==> !NumberChar(doc[p + |GapText(g)|]))
    ensures Ends(doc, p)
  {
    hide NumberChar;
    GapStarts(g, []);
    if GapText(g) != [] {
      assert GapText(g) + [] == GapText(g);
      HoldsAt(doc, p, GapText(g), 0);
    }
    hide GapText, Holds;
  }

  lemma MarkIsNoComment(doc: text, p: nat)
    requires p < |doc| && doc[p] in {'{', '}', '[', ']', ',', ':'}
    ensures SkipComments(doc, p) == ReadToken(doc, p)
  {
    MarkAt(doc, p);
    hide ReadToken;
  }

  lemma {:induction false} ValueBack(doc: text, p: nat, v: Value, show: Formatter, l: Layout, errors: seq<Error>,
      old_value: Value, scan: Scanner)
    requires p <= |doc| && Printable(v)
    requires Holds(doc, p, Laid(v, show, l, p)) && Ends(doc, p + |Laid(v, show, l, p)|)
    ensures ReadValue(doc, p, errors, old_value, scan) == Read(true, p + |Laid(v, show, l, p)|, errors, Retagged(v))
    decreases v, 0
  {
    hide Holds, ReadValue, LaidItems, LaidMembers;
    if v.Array? {
      ArrayBack(doc, p, v.items, show, l, errors, old_value, scan);
    } else if v.Object? {
      ObjectBack(doc, p, v.members, show, l, errors, old_value, scan);
    } else {
      ScalarBack(doc, p, v, show, errors, old_value, scan);
    }
  }

  lemma GappedParts(doc: text, p: nat, v: Value, show: Formatter, l: Layout)
    requires p <= |doc| && Holds(doc, p, Gapped(v, show, l, p))
    ensures var q := p + |GapText(l.gap(p))|;
            && q <= |doc| && SkipComments(doc, p) == SkipComments(doc, q) && Holds(doc, q, Laid(v, show, l, q))
            && p + |Gapped(v, show, l, p)| == q + |Laid(v, show, l, q)|
  {
    hide Holds, Laid, GapText, SkipComments;
    Parts(doc, p, GapText(l.gap(p)), Laid(v, show, l, p + |GapText(l.gap(p))|));
    GapIsSkipped(doc, p, l.gap(p));
  }

  /** A value behind a gap. */
  lemma {:induction false} GappedBack(doc: text, p: nat, v: Value, show: Formatter, l: Layout, errors: seq<Error>,
      old_value: Value, scan: Scanner)
    requires p <= |doc| && Printable(v)
    requires Holds(doc, p, Gapped(v, show, l, p)) && Ends(doc, p + |Gapped(v, show, l, p)|)
    ensures ReadValue(doc, p, errors, old_value, scan) == Read(true, p + |Gapped(v, show, l, p)|, errors, Retagged(v))
    decreases v, 1
  {
    hide *;
    GappedParts(doc, p, v, show, l);
    var q := p + |GapText(l.gap(p))|;
    ValueBack(doc, q, v, show, l, errors, old_value, scan);
    SameToken(doc, p, q, errors, scan);
  }

  // ----- arrays -----

  lemma EmptyArray(doc: text, p: nat, b: Blanks, errors: seq<Error>, old_value: Value, scan: Scanner)
    requires p < |doc| && doc[p] == '[' && Holds(doc, p + 1, b + [']'])
    ensures ReadValue(doc, p, errors, old_value, scan) == Read(true, p + |b| + 2, errors, Array([]))
  {
    hide ReadToken, ReadElements, Holds;
    Parts(doc, p + 1, b, [']']);
    HoldsAt(doc, p + 1 + |b|, [']'], 0);
    MarkAt(doc, p);
    BlanksAreSkipped(doc, p + 1, b);
    MarkAt(doc, p + 1 + |b|);
  }

  lemma ArrayOpens(doc: text, p: nat, errors: seq<Error>, old_value: Value, scan: Scanner)
    requires p < |doc| && doc[p] == '[' && SkipComments(doc, p + 1).kind != ArrayEnd
    ensures ReadValue(doc, p, errors, old_value, scan) == ReadElements(doc, p + 1, errors, [], scan)
  {
    MarkAt(doc, p);
    hide ReadToken, ReadElements, SkipSpaces;
    BehindBracket(doc, p + 1);
    SameToken(doc, p + 1, SkipSpaces(doc, p + 1), errors, scan);
  }

  lemma BehindBracket(doc: text, p: nat)
    requires p <= |doc|
    ensures var q := SkipSpaces(doc, p);
            && SkipComments(doc, q) == SkipComments(doc, p)
            && (At(doc, q) == ']' ==> SkipComments(doc, p).kind == ArrayEnd)
  {
    var q := SkipSpaces(doc, p);
    SpacesTwice(doc, p);
    assert ReadToken(doc, q) == ReadToken(doc, p);
    if At(doc, q) == ']' {
      MarkAt(doc, q);
    }
    hide ReadToken, SkipSpaces;
  }

  lemma {:induction false} SpacesTwice(doc: text, p: nat)
    ensures SkipSpaces(doc, SkipSpaces(doc, p)) == SkipSpaces(doc, p)
    decreases |doc| - p
  {
    if p < |doc| && Space(doc[p]) {
      SpacesTwice(doc, p + 1);
    }
  }

  /** The parts of a list of items. */
  lemma ItemParts(doc: text, p: nat, items: seq<Value>, show: Formatter, l: Layout)
    requires p <= |doc| && items != [] && Holds(doc, p, LaidItems(items, show, l, p))
    ensures var e := p + |Gapped(items[0], show, l, p)|;
            && e <= |doc| && Holds(doc, p, Gapped(items[0], show, l, p))
            && Holds(doc, e, LaidMoreItems(items[1..], show, l, e))
            && p + |LaidItems(items, show, l, p)| == e + |LaidMoreItems(items[1..], show, l, e)|
  {
    hide Holds, Gapped, LaidMoreItems;
    var a := Gapped(items[0], show, l, p);
    Parts(doc, p, a, LaidMoreItems(items[1..], show, l, p + |a|));
  }

  /** Behind an item: a comma and more items, or the closing bracket. */
  lemma MoreItems(doc: text, p: nat, items: seq<Value>, show: Formatter, l: Layout)
    requires p <= |doc| && Holds(doc, p, LaidMoreItems(items, show, l, p))
    ensures var comma := p + |GapText(l.gap(p))|;
            && comma < |doc| && Ends(doc, p) && SkipComments(doc, p) == ReadToken(doc, comma)
            && doc[comma] == (if items == [] then ']' else ',')
            && (items != [] ==> Holds(doc, comma + 1, LaidItems(items, show, l, comma + 1)))
            && p + |LaidMoreItems(items, show, l, p)|
               == comma + 1 + if items == [] then 0 else |LaidItems(items, show, l, comma + 1)|
  {
    hide Holds, GapText, NextItems, LaidItems, SkipComments, ReadToken, Ends;
    var comma := p + |GapText(l.gap(p))|;
    Parts(doc, p, GapText(l.gap(p)), NextItems(items, show, l, comma));
    NextItem(doc, comma, items, show, l);
    GapBefore(doc, p, l.gap(p));
  }

  lemma NextItem(doc: text, comma: nat, items: seq<Value>, show: Formatter, l: Layout)
    requires comma <= |doc| && Holds(doc, comma, NextItems(items, show, l, comma))
    ensures comma < |doc| && doc[comma] == if items == [] then ']' else ','
    ensures items != [] ==> Holds(doc, comma + 1, LaidItems(items, show, l, comma + 1))
    ensures |NextItems(items, show, l, comma)| == 1 + if items == [] then 0 else |LaidItems(items, show, l, comma + 1)|
  {
    hide Holds, LaidItems;
    if items == [] {
      HoldsAt(doc, comma, [']'], 0);
    } else {
      MarkParts(doc, comma, ',', LaidItems(items, show, l, comma + 1));
    }
  }

  lemma {:induction false} ArrayBack(doc: text, p: nat, items: seq<Value>, show: Formatter, l: Layout,
      errors: seq<Error>, old_value: Value, scan: Scanner)
    requires p <= |doc| && forall i :: 0 <= i < |items| ==> Printable(items[i])
    requires Holds(doc, p, ['['] + LaidItems(items, show, l, p + 1))
    ensures ReadValue(doc, p, errors, old_value, scan) ==
            Read(true, p + 1 + |LaidItems(items, show, l, p + 1)|, errors, Array(RetaggedItems(items)))
    decreases items, 2
  {
    hide Holds, ReadValue, ReadElements, Retagged, Gapped, LaidMoreItems, Printable;
    MarkParts(doc, p, '[', LaidItems(items, show, l, p + 1));
    if items == [] {
      EmptyArray(doc, p, l.blanks(p + 1), errors, old_value, scan);
    } else {
      hide LaidItems;
      ItemParts(doc, p + 1, items, show, l);
      FirstItem(doc, p + 1, items[0], show, l);
      ArrayOpens(doc, p, errors, old_value, scan);
      ElementsBack(doc, p + 1, items, [], show, l, errors, scan);
      assert [] + RetaggedItems(items) == RetaggedItems(items);
    }
  }

  lemma FirstItem(doc: text, p: nat, v: Value, show: Formatter, l: Layout)
    requires p <= |doc| && Printable(v) && Holds(doc, p, Gapped(v, show, l, p))
    ensures SkipComments(doc, p).kind != ArrayEnd
  {
    hide *;
    GappedParts(doc, p, v, show, l);
    FirstToken(doc, p + |GapText(l.gap(p))|, v, show, l, p + |GapText(l.gap(p))|);
  }

  /** With an item read, the bracket ends the array and a comma brings the next item. */
  function ItemRead(doc: text, comma: nat, errors: seq<Error>, done: seq<Value>, scan: Scanner): Read
    requires comma < |doc|
  {
    if doc[comma] == ']' then Read(true, comma + 1, errors, Array(done))
    else ReadElements(doc, comma + 1, errors, done, scan)
  }

  lemma ElementThen(doc: text, p: nat, errors: seq<Error>, done: seq<Value>, v: Value, q: nat, comma: nat,
      scan: Scanner)
    requires p <= |doc| && ReadValue(doc, p, errors, Null, scan) == Read(true, q, errors, v)
    requires q <= |doc| && comma < |doc| && SkipComments(doc, q) == ReadToken(doc, comma)
    requires doc[comma] == ',' || doc[comma] == ']'
    ensures ReadElements(doc, p, errors, done, scan) == ItemRead(doc, comma, errors, done + [v], scan)
  {
    hide ReadValue, ReadToken, SkipComments;
    MarkAt(doc, comma);
  }

  lemma {:induction false} ElementsBack(doc: text, p: nat, rest: seq<Value>, done: seq<Value>, show: Formatter,
      l: Layout, errors: seq<Error>, scan: Scanner)
    requires p <= |doc| && rest != [] && forall i :: 0 <= i < |rest| ==> Printable(rest[i])
    requires Holds(doc, p, LaidItems(rest, show, l, p))
    ensures ReadElements(doc, p, errors, done, scan) ==
            Read(true, p + |LaidItems(rest, show, l, p)|, errors, Array(done + RetaggedItems(rest)))
    decreases rest, 1
  {
    hide Holds, ReadElements, ReadValue, Retagged, RetaggedItems, Gapped, LaidItems, LaidMoreItems, SkipComments,
         ReadToken, GapText, Printable, Ends;
    ItemParts(doc, p, rest, show, l);
    var e := p + |Gapped(rest[0], show, l, p)|;
    var comma := e + |GapText(l.gap(e))|;
    MoreItems(doc, e, rest[1..], show, l);
    GappedBack(doc, p, rest[0], show, l, errors, Null, scan);
    ElementThen(doc, p, errors, done, Retagged(rest[0]), e, comma, scan);
    RetaggedItemsNext(done, rest);
    if rest[1..] != [] {
      ElementsBack(doc, comma + 1, rest[1..], done + [Retagged(rest[0])], show, l, errors, scan);
    }
  }

  lemma RetaggedItemsNext(done: seq<Value>, rest: seq<Value>)
    requires rest != []
    ensures done + RetaggedItems(rest) == (done + [Retagged(rest[0])]) + RetaggedItems(rest[1..])
    ensures rest[1..] == [] ==> done + RetaggedItems(rest) == done + [Retagged(rest[0])]
  {
    hide Retagged;
    assert rest[1..] == [] ==> RetaggedItems(rest[1..]) == [];
  }

  // ----- objects -----

  lemma ObjectOpens(doc: text, p: nat, errors: seq<Error>, old_value: Value, scan: Scanner)
    requires p < |doc| && doc[p] == '{'
    ensures ReadValue(doc, p, errors, old_value, scan) == ReadMembers(doc, p + 1, errors, [], [], scan)
  {
    hide ReadToken, ReadMembers;
    MarkAt(doc, p);
  }

  lemma EmptyObject(doc: text, p: nat, g: Gap, errors: seq<Error>, scan: Scanner)
    requires p <= |doc| && Holds(doc, p, GapText(g) + ['}'])
    ensures ReadMembers(doc, p, errors, [], [], scan) == Read(true, p + |GapText(g)| + 1, errors, Object([]))
  {
    hide ReadToken, ReadMember, SkipComments, GapText, Holds;
    var brace := p + |GapText(g)|;
    Parts(doc, p, GapText(g), ['}']);
    HoldsAt(doc, brace, ['}'], 0);
    GapBefore(doc, p, g);
    MarkAt(doc, brace);
  }

  /** The name, and where its colon is looked for. */
  lemma NameThen(doc: text, p: nat, errors: seq<Error>, done: seq<Member>, last: text, name: text, scan: Scanner)
    requires p <= |doc| && '\0' !in name && Holds(doc, p, Quoted(name))
    ensures p + |Quoted(name)| <= |doc|
    ensures ReadMembers(doc, p, errors, done, last, scan)
            == ReadMember(doc, p + |Quoted(name)|, errors, done, name, scan)
  {
    hide ReadToken, ReadMember, DecodeFrom, Holds, Escaped;
    QuotedReadsBack(doc, p, name);
    SpanInside(doc, p, Quoted(name));
  }

  /** With a member read, the brace ends the object and a comma brings the next member. */
  function MemberRead(doc: text, comma: nat, errors: seq<Error>, done: seq<Member>, last: text, scan: Scanner): Read
    requires comma < |doc|
  {
    if doc[comma] == '}' then Read(true, comma + 1, errors, Object(done))
    else ReadMembers(doc, comma + 1, errors, done, last, scan)
  }

  lemma ReadIs(doc: text, comma: nat, errors: seq<Error>, done: seq<Member>, last: text, scan: Scanner)
    requires comma < |doc|
    ensures doc[comma] == '}' ==> MemberRead(doc, comma, errors, done, last, scan)
                                  == Read(true, comma + 1, errors, Object(done))
    ensures doc[comma] != '}' ==> MemberRead(doc, comma, errors, done, last, scan)
                                  == ReadMembers(doc, comma + 1, errors, done, last, scan)
  {
    hide ReadMembers;
  }

  /** From the end of a name: its colon, its value, and the comma or brace behind it. */
  lemma MemberThen(doc: text, p: nat, colon: nat, errors: seq<Error>, done: seq<Member>, name: text, v: Value, q: nat,
      comma: nat, scan: Scanner)
    requires p <= |doc| && colon < |doc| && doc[colon] == ':' && ReadToken(doc, p) == ReadToken(doc, colon)
    requires ReadValue(doc, colon + 1, errors, Get(done, name), scan) == Read(true, q, errors, v)
    requires CString(name) == name && Put(done, name, v) == done + [Member(name, v)]
    requires q <= |doc| && comma < |doc| && SkipComments(doc, q) == ReadToken(doc, comma)
    requires doc[comma] == ',' || doc[comma] == '}'
    ensures ReadMember(doc, p, errors, done, name, scan)
            == MemberRead(doc, comma, errors, done + [Member(name, v)], name, scan)
  {
    hide ReadValue, ReadToken, ReadMembers, CString, Put, Get, SkipComments, Fail;
    ColonAt(doc, colon);
    CommaBehind(doc, q, comma);
  }

  lemma ColonAt(doc: text, p: nat)
    requires p < |doc| && doc[p] == ':'
    ensures ReadToken(doc, p) == Token(MemberSeparator, p, p + 1)
  {
    MarkAt(doc, p);
  }

  /** The comma or brace behind a member, found past the comments. */
  lemma CommaBehind(doc: text, q: nat, comma: nat)
    requires q <= |doc| && comma < |doc| && SkipComments(doc, q) == ReadToken(doc, comma)
    requires doc[comma] == ',' || doc[comma] == '}'
    ensures var t := ReadToken(doc, q);
            && t.end <= |doc| && (t.kind == ObjectEnd || t.kind == ArraySeparator || t.kind == Comment)
            && (if t.kind == Comment then SkipComments(doc, t.end) else t)
               == Token(if doc[comma] == '}' then ObjectEnd else ArraySeparator, comma, comma + 1)
  {
    MarkAt(doc, comma);
    hide ReadToken;
  }

  predicate AllBefore(done: seq<Member>, name: text) {
    forall i :: 0 <= i < |done| ==> NameBefore(done[i].name, name)
  }

  lemma NamesAreBefore(done: seq<Member>, rest: seq<Member>)
    requires rest != [] && GoodMembers(rest) && Behind(done, rest)
    ensures '\0' !in rest[0].name && Printable(rest[0].value) && AllBefore(done, rest[0].name)
  {
    hide Printable, NameBefore;
  }

  /** The parts of what follows a name. */
  lemma ColonParts(doc: text, p: nat, v: Value, show: Formatter, l: Layout)
    requires p <= |doc| && Holds(doc, p, LaidValue(v, show, l, p))
    ensures var colon := p + |l.blanks(p)|;
            && colon < |doc| && doc[colon] == ':' && ReadToken(doc, p) == ReadToken(doc, colon)
            && Holds(doc, colon + 1, Gapped(v, show, l, colon + 1))
            && p + |LaidValue(v, show, l, p)| == colon + 1 + |Gapped(v, show, l, colon + 1)|
  {
    hide Holds, Gapped, ReadToken;
    var colon := p + |l.blanks(p)|;
    Parts(doc, p, l.blanks(p), [':'] + Gapped(v, show, l, colon + 1));
    MarkParts(doc, colon, ':', Gapped(v, show, l, colon + 1));
    BlanksAreSkipped(doc, p, l.blanks(p));
  }

  lemma {:induction false} ColonBack(doc: text, p: nat, name: text, v: Value, done: seq<Member>, show: Formatter,
      l: Layout, comma: nat, errors: seq<Error>, scan: Scanner)
    requires p <= |doc| && '\0' !in name && Printable(v) && AllBefore(done, name)
    requires Holds(doc, p, LaidValue(v, show, l, p)) && p + |LaidValue(v, show, l, p)| <= |doc|
    requires Ends(doc, p + |LaidValue(v, show, l, p)|) && comma < |doc| && (doc[comma] == ',' || doc[comma] == '}')
    requires SkipComments(doc, p + |LaidValue(v, show, l, p)|) == ReadToken(doc, comma)
    ensures ReadMember(doc, p, errors, done, name, scan)
            == MemberRead(doc, comma, errors, done + [Member(name, Retagged(v))], name, scan)
    decreases v, 2
  {
    hide *;
    ColonParts(doc, p, v, show, l);
    var colon := p + |l.blanks(p)|;
    CStringWhole(name);
    PutLast(done, name, Retagged(v));
    GappedBack(doc, colon + 1, v, show, l, errors, Get(done, name), scan);
    MemberThen(doc, p, colon, errors, done, name, Retagged(v), p + |LaidValue(v, show, l, p)|, comma, scan);
  }

  /** The parts of a member behind its gap. */
  lemma MemberParts(doc: text, p: nat, m: Member, show: Formatter, l: Layout)
    requires p <= |doc| && '\0' !in m.name && Holds(doc, p, GappedMember(m, show, l, p))
    ensures var q := p + |GapText(l.gap(p))|;
            var e := q + |Quoted(m.name)|;
            && q <= |doc| && SkipComments(doc, p) == SkipComments(doc, q) && Holds(doc, q, Quoted(m.name))
            && e <= |doc| && Holds(doc, e, LaidValue(m.value, show, l, e))
            && p + |GappedMember(m, show, l, p)| == e + |LaidValue(m.value, show, l, e)|
  {
    hide Holds, Quoted, LaidValue, CString, SkipComments, GapText;
    CStringWhole(m.name);
    var q := p + |GapText(l.gap(p))|;
    Parts(doc, p, GapText(l.gap(p)), LaidMember(m, show, l, q));
    Parts(doc, q, Quoted(m.name), LaidValue(m.value, show, l, q + |Quoted(m.name)|));
    GapIsSkipped(doc, p, l.gap(p));
  }

  lemma {:induction false} MemberBack(doc: text, p: nat, m: Member, done: seq<Member>, last: text,
      show: Formatter, l: Layout, comma: nat, errors: seq<Error>, scan: Scanner)
    requires p <= |doc| && '\0' !in m.name && Printable(m.value) && AllBefore(done, m.name)
    requires Holds(doc, p, GappedMember(m, show, l, p)) && p + |GappedMember(m, show, l, p)| <= |doc|
    requires Ends(doc, p + |GappedMember(m, show, l, p)|) && comma < |doc| && (doc[comma] == ',' || doc[comma] == '}')
    requires SkipComments(doc, p + |GappedMember(m, show, l, p)|) == ReadToken(doc, comma)
    ensures ReadMembers(doc, p, errors, done, last, scan)
            == MemberRead(doc, comma, errors, done + [Member(m.name, Retagged(m.value))], m.name, scan)
    decreases m, 0
  {
    hide *;
    MemberParts(doc, p, m, show, l);
    var q := p + |GapText(l.gap(p))|;
    SameToken(doc, p, q, errors, scan);
    NameThen(doc, q, errors, done, last, m.name, scan);
    ColonBack(doc, q + |Quoted(m.name)|, m.name, m.value, done, show, l, comma, errors, scan);
  }

  lemma MembersParts(doc: text, p: nat, rest: seq<Member>, show: Formatter, l: Layout)
    requires p <= |doc| && rest != [] && Holds(doc, p, LaidMembers(rest, show, l, p))
    ensures var e := p + |GappedMember(rest[0], show, l, p)|;
            && e <= |doc| && Holds(doc, p, GappedMember(rest[0], show, l, p))
            && Holds(doc, e, LaidMoreMembers(rest[1..], show, l, e))
            && p + |LaidMembers(rest, show, l, p)| == e + |LaidMoreMembers(rest[1..], show, l, e)|
  {
    hide Holds, GappedMember, LaidMoreMembers;
    var a := GappedMember(rest[0], show, l, p);
    Parts(doc, p, a, LaidMoreMembers(rest[1..], show, l, p + |a|));
  }

  /** Behind a member: a comma and more members, or the closing brace. */
  lemma MoreMembers(doc: text, p: nat, members: seq<Member>, show: Formatter, l: Layout)
    requires p <= |doc| && Holds(doc, p, LaidMoreMembers(members, show, l, p))
    ensures var comma := p + |GapText(l.gap(p))|;
            && comma < |doc| && Ends(doc, p) && SkipComments(doc, p) == ReadToken(doc, comma)
            && doc[comma] == (if members == [] then '}' else ',')
            && (members != [] ==> Holds(doc, comma + 1, LaidMembers(members, show, l, comma + 1)))
            && p + |LaidMoreMembers(members, show, l, p)|
               == comma + 1 + if members == [] then 0 else |LaidMembers(members, show, l, comma + 1)|
  {
    hide Holds, GapText, NextMembers, LaidMembers, SkipComments, ReadToken, Ends;
    var comma := p + |GapText(l.gap(p))|;
    Parts(doc, p, GapText(l.gap(p)), NextMembers(members, show, l, comma));
    NextMember(doc, comma, members, show, l);
    GapBefore(doc, p, l.gap(p));
  }

  lemma NextMember(doc: text, comma: nat, members: seq<Member>, show: Formatter, l: Layout)
    requires comma <= |doc| && Holds(doc, comma, NextMembers(members, show, l, comma))
    ensures comma < |doc| && doc[comma] == if members == [] then '}' else ','
    ensures members != [] ==> Holds(doc, comma + 1, LaidMembers(members, show, l, comma + 1))
    ensures |NextMembers(members, show, l, comma)|
         == 1 + if members == [] then 0 else |LaidMembers(members, show, l, comma + 1)|
  {
    hide Holds, LaidMembers;
    if members == [] {
      HoldsAt(doc, comma, ['}'], 0);
    } else {
      MarkParts(doc, comma, ',', LaidMembers(members, show, l, comma + 1));
    }
  }

  lemma {:induction false} MembersBack(doc: text, p: nat, rest: seq<Member>, done: seq<Member>, last: text,
      show: Formatter, l: Layout, errors: seq<Error>, scan: Scanner)
    requires p <= |doc| && rest != [] && GoodMembers(rest) && Behind(done, rest)
    requires Holds(doc, p, LaidMembers(rest, show, l, p))
    ensures ReadMembers(doc, p, errors, done, last, scan) ==
            Read(true, p + |LaidMembers(rest, show, l, p)|, errors, Object(done + RetaggedMembers(rest)))
    decreases rest, 2
  {
    hide Holds, ReadMembers, MemberRead, Retagged, RetaggedMembers, GoodMembers, Behind, AllBefore, Printable,
         GappedMember, LaidMembers, LaidMoreMembers, SkipComments, ReadToken, GapText, Ends;
    MembersParts(doc, p, rest, show, l);
    var e := p + |GappedMember(rest[0], show, l, p)|;
    var comma := e + |GapText(l.gap(e))|;
    MoreMembers(doc, e, rest[1..], show, l);
    NamesAreBefore(done, rest);
    MemberBack(doc, p, rest[0], done, last, show, l, comma, errors, scan);
    var done' := done + [Member(rest[0].name, Retagged(rest[0].value))];
    ReadIs(doc, comma, errors, done', rest[0].name, scan);
    RetaggedNext(done, rest);
    if rest[1..] != [] {
      BehindNext(done, rest, Retagged(rest[0].value));
      MembersBack(doc, comma + 1, rest[1..], done', rest[0].name, show, l, errors, scan);
    }
  }

  lemma RetaggedNext(done: seq<Member>, rest: seq<Member>)
    requires rest != []
    ensures done + RetaggedMembers(rest)
            == (done + [Member(rest[0].name, Retagged(rest[0].value))]) + RetaggedMembers(rest[1..])
    ensures rest[1..] == [] ==>
              done + RetaggedMembers(rest) == done + [Member(rest[0].name, Retagged(rest[0].value))]
  {
    hide Retagged;
    assert rest[1..] == [] ==> RetaggedMembers(rest[1..]) == [];
  }

  lemma {:induction false} ObjectBack(doc: text, p: nat, members: seq<Member>, show: Formatter, l: Layout,
      errors: seq<Error>, old_value: Value, scan: Scanner)
    requires p <= |doc| && Printable(Object(members))
    requires Holds(doc, p, ['{'] + LaidMembers(members, show, l, p + 1))
    ensures ReadValue(doc, p, errors, old_value, scan) ==
            Read(true, p + 1 + |LaidMembers(members, show, l, p + 1)|, errors, Object(RetaggedMembers(members)))
    decreases members, 4
  {
    PrintableMembers(members);
    hide Holds, ReadValue, ReadMembers, LaidMoreMembers, GappedMember, Retagged, GapText, Printable, GoodMembers,
         Behind;
    MarkParts(doc, p, '{', LaidMembers(members, show, l, p + 1));
    ObjectOpens(doc, p, errors, old_value, scan);
    if members == [] {
      EmptyObject(doc, p + 1, l.gap(p + 1), errors, scan);
    } else {
      hide LaidMembers;
      MembersBack(doc, p + 1, members, [], [], show, l, errors, scan);
      assert [] + RetaggedMembers(members) == RetaggedMembers(members);
    }
  }

  lemma PrintableMembers(members: seq<Member>)
    requires Printable(Object(members))
    ensures GoodMembers(members) && Behind([], members)
  {
  }

  // ----- documents -----

  /** A document that holds a printable value, with any blanks and comments before, behind and between its tokens,
      is parsed without an error into that value, but for the tag of some integers and what follows a NUL in a
      string, whatever the floating-point routines do. */
  lemma ParseUndoesLayout(v: Value, show: Formatter, l: Layout, scan: Scanner)
    requires Printable(v)
    ensures var r := Parse(Document(v, show, l), scan);
            r.ok && r.errors == [] && r.value == Retagged(v) && r.pos == |Document(v, show, l)|
  {
    hide Gapped, ReadValue, Retagged, SkipComments, GapText, Holds, Ends;
    var doc := Document(v, show, l);
    var p := |Gapped(v, show, l, 0)|;
    WholeHolds(doc);
    Parts(doc, 0, Gapped(v, show, l, 0), GapText(l.gap(p)));
    GapIsSkipped(doc, p, l.gap(p));
    GapEnds(doc, p, l.gap(p));
    GappedBack(doc, 0, v, show, l, [], Null, scan);
    NothingLeft(doc);
  }

  lemma WholeHolds(doc: text)
    ensures Holds(doc, 0, doc)
  {
    assert doc[0..|doc|] == doc;
  }

  lemma NothingLeft(doc: text)
    ensures SkipComments(doc, |doc|) == Token(EndOfStream, |doc|, |doc|)
  {
  }

  /** The two places where a layout has blanks only are those where the parser takes no comment: an array with
      nothing but one in it is refused ... */
  lemma CommentInEmptyArray(f: Filler, scan: Scanner)
    requires f.Proper() && !f.Blank?
    ensures !Parse(['['] + (f.Text() + [']']), scan).ok
  {
    var doc := ['['] + (f.Text() + [']']);
    var q := 1 + |f.Text()|;
    assert q > 1;
    hide *;
    WholeHolds(doc);
    MarkParts(doc, 0, '[', f.Text() + [']']);
    Parts(doc, 1, f.Text(), [']']);
    HoldsAt(doc, q, [']'], 0);
    FillerIsSkipped(doc, 1, f);
    BracketFails(doc, q, scan);
    CommentFails(doc, q, f, scan);
  }

  lemma BracketFails(doc: text, q: nat, scan: Scanner)
    requires q < |doc| && doc[q] == ']'
    ensures SkipComments(doc, q).kind == ArrayEnd && !ReadElements(doc, q, [], [], scan).ok
  {
    MarkAt(doc, q);
    hide ReadToken;
  }

  lemma CommentFails(doc: text, q: nat, f: Filler, scan: Scanner)
    requires 1 < q < |doc| && doc[0] == '[' && f.Proper() && !f.Blank? && Holds(doc, 1, f.Text())
    requires SkipComments(doc, 1) == SkipComments(doc, q) && !ReadElements(doc, q, [], [], scan).ok
    ensures !Parse(doc, scan).ok
  {
    MarkAt(doc, 0);
    CommentAt(doc, 1, f);
    HoldsAt(doc, 1, f.Text(), 0);
    NoSpace(doc, 1);
    SameToken(doc, 1, q, [], scan);
    hide ReadToken, ReadElements, Holds;
  }

  /** ... and so is a member with one between its name and its colon. */
  lemma CommentBeforeColon(doc: text, p: nat, f: Filler, errors: seq<Error>, members: seq<Member>, name: text,
      scan: Scanner)
    requires p <= |doc| && f.Proper() && !f.Blank? && Holds(doc, p, f.Text())
    ensures !ReadMember(doc, p, errors, members, name, scan).ok
  {
    CommentAt(doc, p, f);
    hide ReadToken;
  }

  /** So parsing undoes what the writer prints, which leaves no gaps but a line end behind. */
  lemma ParseUndoesPrint(v: Value, show: Formatter, scan: Scanner)
    requires Printable(v)
    ensures var r := Parse(Print(v, show), scan);
            r.ok && r.errors == [] && r.value == Retagged(v) && r.pos == |Print(v, show)|
  {
    hide PrintValue, ReadValue, Retagged, Laid, SkipComments;
    var doc := Print(v, show);
    var n := |PrintValue(v, show)|;
    TightIsPrinted(v, show, 0);
    WholeHolds(doc);
    Parts(doc, 0, PrintValue(v, show), ['\n']);
    ValueBack(doc, 0, v, show, Tight(), [], Null, scan);
    FillerIsSkipped(doc, n, Blank('\n'));
    NothingLeft(doc);
  }

  /** Printed twice, a value reads back the same from either text. */
  lemma RetaggedIsStable(v: Value)
    ensures Retagged(Retagged(v)) == Retagged(v)
  {
    match v
    case Str(s) =>
      CStringClean(s);
      CStringWhole(CString(s));
    case Array(items) => RetaggedItemsStable(items);
    case Object(members) => RetaggedMembersStable(members);
    case _ =>
  }

  lemma {:induction false} RetaggedItemsStable(items: seq<Value>)
    ensures RetaggedItems(RetaggedItems(items)) == RetaggedItems(items)
  {
    if items != [] {
      RetaggedIsStable(items[0]);
      RetaggedItemsStable(items[1..]);
    }
  }

  lemma {:induction false} RetaggedMembersStable(members: seq<Member>)
    ensures RetaggedMembers(RetaggedMembers(members)) == RetaggedMembers(members)
  {
    if members != [] {
      RetaggedIsStable(members[0].value);
      RetaggedMembersStable(members[1..]);
    }
  }
}
