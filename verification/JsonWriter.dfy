/** Json::FastWriter and its helpers as loops, appending to the document in place. */
module JsonWriter {
  import opened JsonText
  import opened JsonStrings
  import opened JsonParser
  import opened JsonPrinter
  import JsonNumbers

  /** uintToString: from the last digit to the first. */
  method UIntToString(n: nat) returns (s: text)
    ensures s == JsonNumbers.Show(n)
  {
    var value := n;
    s := [('0' as int + value % 10) as char];
    value := value / 10;
    while value != 0
      invariant JsonNumbers.Show(n) == if value == 0 then s else JsonNumbers.Show(value) + s
    {
      s := [('0' as int + value % 10) as char] + s;
      value := value / 10;
    }
  }

  method IntToString(i: int) returns (s: text)
    ensures s == JsonNumbers.ShowInt(i)
  {
    s := UIntToString(if i < 0 then -i else i);
    if i < 0 {
      s := ['-'] + s;
    }
  }

  /** strpbrk and containsControlCharacter: whether anything needs an escape. */
  method NeedsEscape(value: text) returns (r: bool)
    ensures !r <==> forall i :: 0 <= i < |value| ==> Plain(value[i])
  {
    for i := 0 to |value|
      invariant forall k :: 0 <= k < i ==> Plain(value[k])
    {
      if !Plain(value[i]) {
        return true;
      }
    }
    return false;
  }

  method ValueToQuotedString(value: text) returns (r: text)
    ensures r == Quoted(value)
  {
    hide Plain, Escape;
    var escape := NeedsEscape(value);
    if !escape {
      PlainIsItself(value);
      return ['"'] + value + ['"'];
    }
    r := ['"'];
    assert value[0..] == value;
    for c := 0 to |value|
      invariant r + Escaped(value[c..]) == ['"'] + Escaped(value)
    {
      assert value[c..][0] == value[c] && value[c..][1..] == value[c + 1..];
      assert r + (Escape(value[c]) + Escaped(value[c + 1..])) == (r + Escape(value[c])) + Escaped(value[c + 1..]);
      r := r + Escape(value[c]);
    }
    assert value[|value|..] == [];
    assert r + [] == r;
    r := r + ['"'];
  }

  class FastWriter {
    var document: text
    const show: Formatter

    constructor (show: Formatter)
      ensures this.show == show
    {
      this.show := show;
      document := [];
    }

    method Write(root: Value) returns (r: text)
      modifies this
      ensures r == Print(root, show)
    {
      document := [];
      WriteValue(root);
      assert [] + PrintValue(root, show) == PrintValue(root, show);
      document := document + ['\n'];
      return document;
    }

    method Append(s: text)
      modifies this
      ensures document == old(document) + s
    {
      document := document + s;
    }

    method WriteValue(value: Value)
      modifies this
      ensures document == old(document) + PrintValue(value, show)
      decreases value, 0
    {
      hide JsonNumbers.Show, JsonNumbers.ShowInt, Quoted, PrintItems, PrintMembers;
      match value
      case Null => Append("null");
      case Int(i) =>
        var s := IntToString(i);
        Append(s);
      case UInt(u) =>
        var s := UIntToString(u);
        Append(s);
      case Float(r) => Append(show(r));
      case Str(s) =>
        var q := ValueToQuotedString(CString(s));
        Append(q);
      case Bool(b) => Append(if b then "true" else "false");
      case Array(items) =>
        ghost var before := document;
        Append(['[']);
        WriteItems(items);
        Append([']']);
        Joined(before, ['['], PrintItems(items, show), [']']);
      case Object(members) =>
        ghost var before := document;
        Append(['{']);
        WriteMembers(members);
        Append(['}']);
        Joined(before, ['{'], PrintMembers(members, show), ['}']);
    }

    method WriteItems(items: seq<Value>)
      modifies this
      ensures document == old(document) + PrintItems(items, show)
      decreases items
    {
      hide PrintValue;
      ghost var goal := document + PrintItems(items, show);
      for index := 0 to |items|
        invariant document + RestOfItems(items, index, show) == goal
      {
        ghost var before := document;
        if index > 0 {
          Append([',']);
        }
        WriteValue(items[index]);
        Joined(before, if index > 0 then [','] else [], PrintValue(items[index], show),
            RestOfItems(items, index + 1, show));
        assert before + [] == before;
      }
      assert document + [] == document;
    }

    method WriteMembers(members: seq<Member>)
      modifies this
      ensures document == old(document) + PrintMembers(members, show)
      decreases members
    {
      hide PrintMember;
      ghost var goal := document + PrintMembers(members, show);
      for index := 0 to |members|
        invariant document + RestOfMembers(members, index, show) == goal
      {
        ghost var before := document;
        if index > 0 {
          Append([',']);
        }
        WriteMember(members[index]);
        Joined(before, if index > 0 then [','] else [], PrintMember(members[index], show),
            RestOfMembers(members, index + 1, show));
        assert before + [] == before;
      }
      assert document + [] == document;
    }

    method WriteMember(m: Member)
      modifies this
      ensures document == old(document) + PrintMember(m, show)
      decreases m
    {
      hide PrintValue, Quoted;
      ghost var before := document;
      var name := ValueToQuotedString(CString(m.name));
      Append(name);
      Append([':']);
      WriteValue(m.value);
      assert (before + name + [':']) + PrintValue(m.value, show)
             == before + (name + ([':'] + PrintValue(m.value, show)));
    }
  }

  /** What remains to be written once the first `index` items are. */
  function RestOfItems(items: seq<Value>, index: nat, show: Formatter): text
    requires index <= |items|
  {
    if index == 0 then PrintItems(items, show) else PrintMoreItems(items[index..], show)
  }

  function RestOfMembers(members: seq<Member>, index: nat, show: Formatter): text
    requires index <= |members|
  {
    if index == 0 then PrintMembers(members, show) else PrintMoreMembers(members[index..], show)
  }

  lemma Joined(a: text, b: text, c: text, d: text)
    ensures ((a + b) + c) + d == a + (b + (c + d))
    ensures ((a + b) + c) + d == a + (b + c + d)
  {
  }
}
