/** The order of symbols (src/devices/mcu/symbol.cpp) and the per-address index over them
    (src/devices/mcu/progmem.cpp). */
module Symbols {
  import opened Wrappers
  import opened Bytes

  datatype Symbol = Symbol(name: seq<byte>, address: int, length: int, is_data: bool)

  /** std::string's order. */
  predicate NameLess(a: seq<byte>, b: seq<byte>) {
    b != [] && (a == [] || a[0] < b[0] || (a[0] == b[0] && NameLess(a[1..], b[1..])))
  }

  /** operator<: by address, then the longer first, then code before data, then by name. */
  predicate Less(a: Symbol, b: Symbol) {
    if a.address != b.address then a.address < b.address
    else if a.length != b.length then a.length > b.length
    else if a.is_data != b.is_data then b.is_data
    else NameLess(a.name, b.name)
  }

  lemma {:induction false} NamesOrdered(a: seq<byte>, b: seq<byte>, c: seq<byte>)
    ensures !(NameLess(a, b) && NameLess(b, a))
    ensures NameLess(a, b) && NameLess(b, c) ==> NameLess(a, c)
    ensures NameLess(a, b) || NameLess(b, a) || a == b
    decreases |a|
  {
    if a != [] && b != [] {
      NamesOrdered(a[1..], b[1..], if c == [] then [] else c[1..]);
      if a[0] == b[0] && a[1..] == b[1..] {
        assert a == [a[0]] + a[1..] && b == [b[0]] + b[1..];
      }
    }
  }

  /** A strict total order: two symbols neither of which is less are the same in every field. */
  lemma LessIsStrictAndTotal(a: Symbol, b: Symbol, c: Symbol)
    ensures !(Less(a, b) && Less(b, a))
    ensures Less(a, b) && Less(b, c) ==> Less(a, c)
    ensures Less(a, b) || Less(b, a) || a == b
  {
    NamesOrdered(a.name, b.name, c.name);
  }

  ghost predicate Sorted(syms: seq<Symbol>) {
    forall i, j :: 0 <= i < j < |syms| ==> !Less(syms[j], syms[i])
  }

  predicate Covers(s: Symbol, a: int) {
    s.address <= a < s.address + s.length
  }

  /** The last symbol of the list to cover the address. */
  function CoverAt(syms: seq<Symbol>, a: int): Option<Symbol> {
    if syms == [] then None
    else
      var n := |syms| - 1;
      if Covers(syms[n], a) then Some(syms[n]) else CoverAt(syms[..n], a)
  }

  /** In a sorted list that is the greatest symbol covering the address, and there is none exactly when no
      symbol covers it. */
  lemma {:induction false} CoverIsGreatest(syms: seq<Symbol>, a: int)
    requires Sorted(syms)
    ensures CoverAt(syms, a).None? <==>
            forall i :: 0 <= i < |syms| ==> !(syms[i].address <= a < syms[i].address + syms[i].length)
    ensures CoverAt(syms, a).Some? ==>
              var s := CoverAt(syms, a).value; s in syms && s.address <= a < s.address + s.length
    ensures CoverAt(syms, a).Some? ==>
              forall i :: 0 <= i < |syms| && Covers(syms[i], a) ==>
                syms[i] == CoverAt(syms, a).value || Less(syms[i], CoverAt(syms, a).value)
  {
    if syms != [] {
      var n := |syms| - 1;
      if Covers(syms[n], a) {
        forall i | 0 <= i < |syms| && Covers(syms[i], a)
          ensures syms[i] == syms[n] || Less(syms[i], syms[n])
        {
          assert i < n ==> !Less(syms[n], syms[i]);
          LessIsStrictAndTotal(syms[i], syms[n], syms[n]);
        }
      } else {
        CoverIsGreatest(syms[..n], a);
        forall i | 0 <= i < n
          ensures syms[i] == syms[..n][i]
        {
        }
      }
    }
  }

  /** So every sort gives the same index, however it treats equal symbols. */
  lemma IndexIgnoresTheSort(p: seq<Symbol>, q: seq<Symbol>, a: int)
    requires Sorted(p) && Sorted(q) && multiset(p) == multiset(q)
    ensures CoverAt(p, a) == CoverAt(q, a)
  {
    hide Less, CoverAt, Sorted;
    CoverIsGreatest(p, a);
    CoverIsGreatest(q, a);
    SameMembers(p, q);
    SameMembers(q, p);
    if CoverAt(p, a).Some? {
      var s := CoverAt(p, a).value;
      assert s in q;
      var t := CoverAt(q, a).value;
      assert t in p;
      LessIsStrictAndTotal(s, t, s);
    }
  }

  lemma SameMembers(p: seq<Symbol>, q: seq<Symbol>)
    requires multiset(p) == multiset(q)
    ensures forall s :: s in p ==> s in q
  {
    forall s | s in p
      ensures s in q
    {
      assert s in multiset(p);
    }
  }

  /** a and b agree up to k, where a ends or has the smaller byte. */
  predicate SmallerAt(a: seq<byte>, b: seq<byte>, k: nat) {
    k < |b| && k <= |a| && a[..k] == b[..k] && (k == |a| || a[k] < b[k])
  }

  lemma SmallerBehind(a: seq<byte>, b: seq<byte>, k: nat)
    requires a != [] && b != [] && a[0] == b[0]
    ensures !SmallerAt(a, b, 0) && (SmallerAt(a, b, k + 1) <==> SmallerAt(a[1..], b[1..], k))
  {
    if k < |b[1..]| && k <= |a[1..]| {
      assert a[..k + 1] == [a[0]] + a[1..][..k] && b[..k + 1] == [b[0]] + b[1..][..k];
      assert a[1..][..k] == a[..k + 1][1..] && b[1..][..k] == b[..k + 1][1..];
    }
  }

  lemma NoneBehind(a: seq<byte>, b: seq<byte>, k: nat)
    requires k > 0 && (a == [] || b == [] || a[0] != b[0])
    ensures !SmallerAt(a, b, k)
  {
    if a != [] && b != [] && k <= |a| && k <= |b| {
      assert a[..k][0] == a[0] && b[..k][0] == b[0];
    }
  }

  /** Names are ordered by their first difference, and a beginning of a name comes before the name. */
  lemma {:induction false} NameLessIff(a: seq<byte>, b: seq<byte>)
    ensures NameLess(a, b) <==> exists k: nat :: SmallerAt(a, b, k)
    decreases |a|
  {
    if a == [] || b == [] || a[0] != b[0] {
      assert SmallerAt(a, b, 0) <==> NameLess(a, b);
      forall k: nat | k > 0
        ensures !SmallerAt(a, b, k)
      {
        NoneBehind(a, b, k);
      }
    } else {
      NameLessIff(a[1..], b[1..]);
      forall k: nat
        ensures !SmallerAt(a, b, 0) && (SmallerAt(a, b, k + 1) <==> SmallerAt(a[1..], b[1..], k))
      {
        SmallerBehind(a, b, k);
      }
      hide SmallerAt;
      if k: nat :| SmallerAt(a, b, k) {
        assert k > 0 && SmallerAt(a[1..], b[1..], k - 1);
      }
    }
  }

  /** The greatest of the symbols that cover an address is the innermost: it starts last, among those that start
      there it is one of the shortest, of these data rather than code, and of these last by name. */
  lemma GreatestIsInnermost(syms: seq<Symbol>, a: int, i: nat)
    requires Sorted(syms) && i < |syms| && syms[i].address <= a < syms[i].address + syms[i].length
    ensures CoverAt(syms, a).Some?
    ensures var (s, x) := (CoverAt(syms, a).value, syms[i]);
            && x.address <= s.address
            && (x.address == s.address ==> x.length >= s.length)
            && (x.address == s.address && x.length == s.length ==> x.is_data ==> s.is_data)
            && (x.address == s.address && x.length == s.length && x.is_data == s.is_data ==>
                  x.name == s.name || NameLess(x.name, s.name))
  {
    CoverIsGreatest(syms, a);
  }

  const FLASH_BYTES := 131072
  const RAM_BYTES := 4096

  /** The arrays have no other bound check, so a symbol must lie within them. */
  predicate Within(s: Symbol, size: int) {
    s.length <= 0 || (0 <= s.address && s.address + s.length <= size)
  }

  class SymbolIndex {
    const sym_at: array<Option<Symbol>>
    const ram_sym_at: array<Option<Symbol>>

    constructor ()
      ensures sym_at.Length == FLASH_BYTES && ram_sym_at.Length == RAM_BYTES && fresh(sym_at) && fresh(ram_sym_at)
    {
      sym_at := new Option<Symbol>[FLASH_BYTES];
      ram_sym_at := new Option<Symbol>[RAM_BYTES];
    }

    /** _computeSymbolCover, over the two lists sorted by operator<. */
    method ComputeSymbolCover(flash_syms: seq<Symbol>, ram_syms: seq<Symbol>)
      requires sym_at.Length == FLASH_BYTES && ram_sym_at.Length == RAM_BYTES && sym_at != ram_sym_at
      requires forall s :: s in flash_syms ==> Within(s, FLASH_BYTES)
      requires forall s :: s in ram_syms ==> Within(s, RAM_BYTES)
      modifies sym_at, ram_sym_at
      ensures forall a :: 0 <= a < FLASH_BYTES ==> sym_at[a] == CoverAt(flash_syms, a)
      ensures forall a :: 0 <= a < RAM_BYTES ==> ram_sym_at[a] == CoverAt(ram_syms, a)
    {
      hide CoverAt;
      CoverAll(sym_at, flash_syms);
      CoverAll(ram_sym_at, ram_syms);
    }
  }

  /** Clearing an index and painting each symbol's range in turn, later symbols over earlier ones. */
  method CoverAll(index: array<Option<Symbol>>, syms: seq<Symbol>)
    requires forall s :: s in syms ==> Within(s, index.Length)
    modifies index
    ensures forall a :: 0 <= a < index.Length ==> index[a] == CoverAt(syms, a)
  {
    for i := 0 to index.Length
      invariant forall a :: 0 <= a < i ==> index[a] == None
    {
      index[i] := None;
    }
    for it := 0 to |syms|
      invariant forall a :: 0 <= a < index.Length ==> index[a] == CoverAt(syms[..it], a)
    {
      assert syms[..it + 1][..it] == syms[..it];
      Paint(index, syms[it]);
    }
    assert syms[..|syms|] == syms;
  }

  method Paint(index: array<Option<Symbol>>, s: Symbol)
    requires Within(s, index.Length)
    modifies index
    ensures forall a :: 0 <= a < index.Length ==> index[a] == if Covers(s, a) then Some(s) else old(index[a])
  {
    var i := s.address;
    while i < s.address + s.length
      invariant s.length > 0 ==> s.address <= i <= s.address + s.length
      invariant s.length <= 0 ==> i == s.address
      invariant forall a :: 0 <= a < index.Length ==> index[a] == if s.address <= a < i then Some(s) else old(index[a])
    {
      index[i] := Some(s);
      i := i + 1;
    }
  }
}
