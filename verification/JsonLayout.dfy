/** Documents that hold a value with blanks and comments between its tokens. */
module JsonLayout {
  import opened JsonText
  import opened JsonStrings
  import opened JsonParser
  import opened JsonPrinter
  import JsonNumbers

  /** A blank of section 2 of RFC 8259, or a comment of either form. */
  datatype Filler = Blank(c: char) | Block(body: text) | Line(body: text, end: char) {

    predicate Proper() {
      match this
      case Blank(c) => c == ' ' || c == '\t' || c == '\r' || c == '\n'
      case Block(body) => forall i :: 0 <= i < |body| - 1 ==> !(body[i] == '*' && body[i + 1] == '/')
      case Line(body, end) => '\r' !in body && '\n' !in body && (end == '\r' || end == '\n')
    }

    function Text(): text {
      match this
      case Blank(c) => [c]
      case Block(body) => ['/', '*'] + (body + ['*', '/'])
      case Line(body, end) => ['/', '/'] + (body + [end])
    }
  }

  type Gap = g: seq<Filler> | forall f :: f in g ==> f.Proper()

  /** A run of the four blanks. */
  type Blanks = s: text | forall c :: c in s ==> c == ' ' || c == '\t' || c == '\r' || c == '\n'

  /** What stands between the tokens, by the place in the document where it begins: blanks and comments at will,
      but before a colon and in an empty array blanks only. */
  datatype Layout = Layout(gap: nat -> Gap, blanks: nat -> Blanks)

  function GapText(g: Gap): text {
    if g == [] then [] else g[0].Text() + GapText(g[1..])
  }

  /** v laid out from place p on. */
  function Laid(v: Value, show: Formatter, l: Layout, p: nat): text
    decreases v, 0
  {
    match v
    case Array(items) => ['['] + LaidItems(items, show, l, p + 1)
    case Object(members) => ['{'] + LaidMembers(members, show, l, p + 1)
    case _ => PrintValue(v, show)
  }

  /** A gap and v. */
  function Gapped(v: Value, show: Formatter, l: Layout, p: nat): text
    decreases v, 1
  {
    GapText(l.gap(p)) + Laid(v, show, l, p + |GapText(l.gap(p))|)
  }

  /** From behind an opening bracket, or a comma, to the closing bracket. */
  function LaidItems(items: seq<Value>, show: Formatter, l: Layout, p: nat): text
    decreases items, 2
  {
    if items == [] then l.blanks(p) + [']']
    else Gapped(items[0], show, l, p) + LaidMoreItems(items[1..], show, l, p + |Gapped(items[0], show, l, p)|)
  }

  /** From behind an item to the closing bracket. */
  function LaidMoreItems(items: seq<Value>, show: Formatter, l: Layout, p: nat): text
    decreases items, 4
  {
    GapText(l.gap(p)) + NextItems(items, show, l, p + |GapText(l.gap(p))|)
  }

  function NextItems(items: seq<Value>, show: Formatter, l: Layout, p: nat): text
    decreases items, 3
  {
    if items == [] then [']'] else [','] + LaidItems(items, show, l, p + 1)
  }

  /** From behind a name to the end of its value. */
  function LaidValue(v: Value, show: Formatter, l: Layout, p: nat): text
    decreases v, 2
  {
    l.blanks(p) + ([':'] + Gapped(v, show, l, p + |l.blanks(p)| + 1))
  }

  function LaidMember(m: Member, show: Formatter, l: Layout, p: nat): text
    decreases m, 1
  {
    Quoted(CString(m.name)) + LaidValue(m.value, show, l, p + |Quoted(CString(m.name))|)
  }

  function GappedMember(m: Member, show: Formatter, l: Layout, p: nat): text
    decreases m, 2
  {
    GapText(l.gap(p)) + LaidMember(m, show, l, p + |GapText(l.gap(p))|)
  }

  function LaidMembers(members: seq<Member>, show: Formatter, l: Layout, p: nat): text
    decreases members, 3
  {
    if members == [] then GapText(l.gap(p)) + ['}']
    else
      var m := GappedMember(members[0], show, l, p);
      m + LaidMoreMembers(members[1..], show, l, p + |m|)
  }

  function LaidMoreMembers(members: seq<Member>, show: Formatter, l: Layout, p: nat): text
    decreases members, 5
  {
    GapText(l.gap(p)) + NextMembers(members, show, l, p + |GapText(l.gap(p))|)
  }

  function NextMembers(members: seq<Member>, show: Formatter, l: Layout, p: nat): text
    decreases members, 4
  {
    if members == [] then ['}'] else [','] + LaidMembers(members, show, l, p + 1)
  }

  /** A document: the value with a gap before it and one behind. */
  function Document(v: Value, show: Formatter, l: Layout): text {
    Gapped(v, show, l, 0) + GapText(l.gap(|Gapped(v, show, l, 0)|))
  }

  // ----- gaps are skipped -----

  /** Where one of the four blanks stands, the next token is the one behind it. */
  lemma BlankIsSkipped(doc: text, p: nat)
    requires p < |doc| && (doc[p] == ' ' || doc[p] == '\t' || doc[p] == '\r' || doc[p] == '\n')
    ensures ReadToken(doc, p) == ReadToken(doc, p + 1)
  {
    assert SkipSpaces(doc, p) == SkipSpaces(doc, p + 1);
    hide SkipSpaces, ReadString, ReadComment, ReadNumber, Word;
  }

  lemma {:induction false} BlanksAreSkipped(doc: text, p: nat, b: Blanks)
    requires Holds(doc, p, b)
    ensures ReadToken(doc, p) == ReadToken(doc, p + |b|) && SkipSpaces(doc, p) == SkipSpaces(doc, p + |b|)
    decreases |b|
  {
    hide ReadToken;
    if b != [] {
      HoldsParts(doc, p, [b[0]], b[1..]);
      assert [b[0]] + b[1..] == b;
      HoldsAt(doc, p, b, 0);
      BlankIsSkipped(doc, p);
      var rest: Blanks := b[1..];
      BlanksAreSkipped(doc, p + 1, rest);
    }
  }

  lemma {:induction false} BlockEnds(doc: text, p: nat, body: text, k: nat)
    requires Holds(doc, p, body + ['*', '/']) && k <= |body| && Block(body).Proper()
    ensures ToCommentEnd(doc, p + k) == p + |body| + 1
    decreases |body| - k
  {
    var s := body + ['*', '/'];
    HoldsAt(doc, p, s, k);
    HoldsAt(doc, p, s, k + 1);
    hide Holds;
    if k < |body| {
      BlockEnds(doc, p, body, k + 1);
      assert !(s[k] == '*' && s[k + 1] == '/');
    }
  }

  lemma {:induction false} LineEnds(doc: text, p: nat, body: text, end: char, k: nat)
    requires Holds(doc, p, body + [end]) && k <= |body| && Line(body, end).Proper()
    ensures ToLineEnd(doc, p + k) == p + |body| + 1
    decreases |body| - k
  {
    HoldsAt(doc, p, body + [end], k);
    hide Holds;
    if k < |body| {
      LineEnds(doc, p, body, end, k + 1);
    }
  }

  lemma CommentAt(doc: text, p: nat, f: Filler)
    requires f.Proper() && !f.Blank? && Holds(doc, p, f.Text())
    ensures ReadToken(doc, p) == Token(Comment, p, p + |f.Text()|)
  {
    var rest := if f.Block? then f.body + ['*', '/'] else f.body + [f.end];
    var open := if f.Block? then ['/', '*'] else ['/', '/'];
    HoldsParts(doc, p, open, rest);
    HoldsAt(doc, p, open, 0);
    HoldsAt(doc, p, open, 1);
    HoldsAt(doc, p + 2, rest, |rest| - 1);
    hide Holds, ToCommentEnd, ToLineEnd;
    NoSpace(doc, p);
    if f.Block? {
      BlockEnds(doc, p + 2, f.body, 0);
    } else {
      LineEnds(doc, p + 2, f.body, f.end, 0);
    }
  }

  /** A slash that begins no comment is an error. */
  lemma LoneSlashFails(doc: text, p: nat)
    requires p < |doc| && doc[p] == '/' && (p + 1 < |doc| ==> doc[p + 1] != '*' && doc[p + 1] != '/')
    ensures ReadToken(doc, p).kind == ErrorToken
  {
    NoSpace(doc, p);
  }

  lemma FillerIsSkipped(doc: text, p: nat, f: Filler)
    requires p <= |doc| && f.Proper() && Holds(doc, p, f.Text())
    ensures p + |f.Text()| <= |doc| && SkipComments(doc, p) == SkipComments(doc, p + |f.Text()|)
  {
    hide ReadToken;
    if f.Blank? {
      HoldsAt(doc, p, f.Text(), 0);
      BlankIsSkipped(doc, p);
    } else {
      CommentAt(doc, p, f);
    }
  }

  /** A gap, wherever it stands. */
  lemma {:induction false} GapIsSkipped(doc: text, p: nat, g: Gap)
    requires p <= |doc| && Holds(doc, p, GapText(g))
    ensures p + |GapText(g)| <= |doc| && SkipComments(doc, p) == SkipComments(doc, p + |GapText(g)|)
    decreases |g|
  {
    hide Holds, SkipComments, Filler.Text;
    if g != [] {
      var rest: Gap := g[1..];
      HoldsParts(doc, p, g[0].Text(), GapText(rest));
      FillerIsSkipped(doc, p, g[0]);
      GapIsSkipped(doc, p + |g[0].Text()|, rest);
    }
  }

  /** What a gap begins with continues no number. */
  lemma GapStarts(g: Gap, rest: text)
    requires rest != [] ==> !NumberChar(rest[0])
    ensures GapText(g) + rest != [] ==> !NumberChar((GapText(g) + rest)[0])
  {
    if g != [] {
      FillerStarts(g[0]);
      hide Filler.Text, NumberChar;
      assert GapText(g)[0] == g[0].Text()[0];
    }
  }

  lemma FillerStarts(f: Filler)
    requires f.Proper()
    ensures f.Text() != [] && !NumberChar(f.Text()[0])
  {
  }

  // ----- the same token, the same value -----

  lemma SameToken(doc: text, p: nat, q: nat, errors: seq<Error>, scan: Scanner)
    requires p <= |doc| && q <= |doc| && SkipComments(doc, p) == SkipComments(doc, q)
    ensures forall old_value :: ReadValue(doc, p, errors, old_value, scan) == ReadValue(doc, q, errors, old_value, scan)
    ensures forall items :: ReadElements(doc, p, errors, items, scan) == ReadElements(doc, q, errors, items, scan)
    ensures forall members, name ::
              ReadMembers(doc, p, errors, members, name, scan) == ReadMembers(doc, q, errors, members, name, scan)
  {
    hide SkipComments, ReadScalar, ReadMember, Fail, SkipSpaces, ReadToken;
  }

  // ----- a layout without gaps -----

  /** No blanks and no comments. */
  function Tight(): Layout {
    Layout((_: nat) => [], (_: nat) => [])
  }

  /** The writer's text is the one without gaps. */
  lemma {:induction false} TightIsPrinted(v: Value, show: Formatter, p: nat)
    ensures Laid(v, show, Tight(), p) == PrintValue(v, show)
    decreases v, 0
  {
    match v
    case Array(items) =>
      TightItems(items, show, p + 1);
      hide LaidItems, PrintItems;
      assert ['['] + (PrintItems(items, show) + [']']) == ['['] + PrintItems(items, show) + [']'];
    case Object(members) =>
      TightMembers(members, show, p + 1);
      hide LaidMembers, PrintMembers;
      assert ['{'] + (PrintMembers(members, show) + ['}']) == ['{'] + PrintMembers(members, show) + ['}'];
    case _ =>
  }

  lemma TightGap(p: nat)
    ensures GapText(Tight().gap(p)) == []
  {
  }

  lemma {:induction false} TightItems(items: seq<Value>, show: Formatter, p: nat)
    ensures LaidItems(items, show, Tight(), p) == PrintItems(items, show) + [']']
    decreases items, 1
  {
    hide PrintValue, Laid, LaidMoreItems;
    if items != [] {
      var a := PrintValue(items[0], show);
      TightGap(p);
      TightIsPrinted(items[0], show, p);
      TightMoreItems(items[1..], show, p + |a|);
      assert a + (PrintMoreItems(items[1..], show) + [']']) == PrintItems(items, show) + [']'];
    }
  }

  lemma {:induction false} TightMoreItems(items: seq<Value>, show: Formatter, p: nat)
    ensures LaidMoreItems(items, show, Tight(), p) == PrintMoreItems(items, show) + [']']
    decreases items, 2
  {
    hide PrintValue, LaidItems;
    TightGap(p);
    if items != [] {
      TightItems(items, show, p + 1);
      assert [','] + (PrintItems(items, show) + [']']) == PrintMoreItems(items, show) + [']'];
    }
  }

  lemma {:induction false} TightMember(m: Member, show: Formatter, p: nat)
    ensures GappedMember(m, show, Tight(), p) == PrintMember(m, show)
    decreases m, 1
  {
    hide PrintValue, Quoted, CString, Laid;
    var q := p + |Quoted(CString(m.name))|;
    TightGap(p);
    TightGap(q + 1);
    TightIsPrinted(m.value, show, q + 1);
    assert Tight().blanks(q) == [];
    assert LaidValue(m.value, show, Tight(), q) == [':'] + PrintValue(m.value, show);
  }

  lemma {:induction false} TightMembers(members: seq<Member>, show: Formatter, p: nat)
    ensures LaidMembers(members, show, Tight(), p) == PrintMembers(members, show) + ['}']
    decreases members, 2
  {
    hide PrintMember, GappedMember, LaidMoreMembers;
    TightGap(p);
    if members != [] {
      var a := PrintMember(members[0], show);
      TightMember(members[0], show, p);
      TightMoreMembers(members[1..], show, p + |a|);
      assert a + (PrintMoreMembers(members[1..], show) + ['}']) == PrintMembers(members, show) + ['}'];
    }
  }

  lemma {:induction false} TightMoreMembers(members: seq<Member>, show: Formatter, p: nat)
    ensures LaidMoreMembers(members, show, Tight(), p) == PrintMoreMembers(members, show) + ['}']
    decreases members, 3
  {
    hide PrintMember, LaidMembers;
    TightGap(p);
    if members != [] {
      TightMembers(members, show, p + 1);
      assert [','] + (PrintMembers(members, show) + ['}']) == PrintMoreMembers(members, show) + ['}'];
    }
  }
}
