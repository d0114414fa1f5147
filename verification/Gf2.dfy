/** Polynomials over GF(2), written as bit strings with the highest power first. */
module Gf2 {

  type Bits = seq<bool>

  function Zeros(n: nat): (z: Bits)
    ensures |z| == n && forall i :: 0 <= i < n ==> !z[i]
  {
    seq(n, _ => false)
  }

  function Xor(a: Bits, b: Bits): (r: Bits)
    requires |a| == |b|
    ensures |r| == |a| && forall i :: 0 <= i < |r| ==> r[i] == (a[i] != b[i])
  {
    seq(|a|, i requires 0 <= i < |a| => a[i] != b[i])
  }

  /** The product of `q` and the monic polynomial x^w + tail, where w is the length of `tail`. */
  function Times(q: Bits, tail: Bits): (p: Bits)
    ensures |p| == |q| + |tail|
  {
    if q == [] then Zeros(|tail|)
    else
      var n := |q| - 1;
      var shifted := Times(q[..n], tail) + [false];
      if q[n] then Xor(shifted, Zeros(n) + [true] + tail) else shifted
  }

  /** `rem` is the remainder of `m` on division by x^w + tail. */
  ghost predicate IsRemainder(m: Bits, tail: Bits, rem: Bits) {
    && |rem| == |tail| <= |m|
    && exists q: Bits :: DividesWith(m, tail, q, rem)
  }

  ghost predicate DividesWith(m: Bits, tail: Bits, q: Bits, rem: Bits) {
    && |rem| == |tail|
    && |m| == |q| + |tail|
    && m == Xor(Times(q, tail), Zeros(|q|) + rem)
  }

  /** One step of a shift register holding `r`, fed the message bit `b`. */
  function Shift(tail: Bits, r: Bits, b: bool): (r': Bits)
    requires |r| == |tail| > 0
    ensures |r'| == |r|
  {
    var s := r[1..] + [false];
    if r[0] != b then Xor(s, tail) else s
  }

  function ShiftAll(tail: Bits, r: Bits, m: Bits): (r': Bits)
    requires |r| == |tail| > 0
    ensures |r'| == |r|
  {
    if m == [] then r else Shift(tail, ShiftAll(tail, r, m[..|m| - 1]), m[|m| - 1])
  }

  function Quotient(tail: Bits, r: Bits, m: Bits): (q: Bits)
    requires |r| == |tail| > 0
    ensures |q| == |m|
  {
    if m == [] then []
    else
      var n := |m| - 1;
      Quotient(tail, r, m[..n]) + [ShiftAll(tail, r, m[..n])[0] != m[n]]
  }

  /** What the register divides: its first content added to the leading bits, the message moved up by w. */
  function Dividend(r: Bits, m: Bits): (d: Bits)
    ensures |d| == |m| + |r|
  {
    Xor(r + Zeros(|m|), m + Zeros(|r|))
  }

  lemma ShiftAllConcat(tail: Bits, r: Bits, m: Bits, m': Bits)
    requires |r| == |tail| > 0
    ensures ShiftAll(tail, r, m + m') == ShiftAll(tail, ShiftAll(tail, r, m), m')
  {
    if m' == [] {
      assert m + m' == m;
    } else {
      var n := |m'| - 1;
      assert (m + m')[..|m + m'| - 1] == m + m'[..n];
      ShiftAllConcat(tail, r, m, m'[..n]);
    }
  }

  /** The last bit of the factor adds a copy of the divisor, at the low end. */
  lemma TimesAt(q: Bits, tail: Bits, i: nat)
    requires q != [] && i < |q| + |tail|
    ensures Times(q, tail)[i] ==
            (TimesInit(q, tail, i) != (q[|q| - 1] && (i == |q| - 1 || (i >= |q| && tail[i - |q|]))))
  {
    var n := |q| - 1;
    var (init, last) := (Times(q[..n], tail), Zeros(n) + [true] + tail);
    assert Times(q, tail) == if q[n] then Xor(init + [false], last) else init + [false];
    assert TimesInit(q, tail, i) == (i < |init| && init[i]);
    hide *;
  }

  predicate TimesInit(q: Bits, tail: Bits, i: nat)
    requires q != []
  {
    i < |q| - 1 + |tail| && Times(q[..|q| - 1], tail)[i]
  }

  lemma DividendAt(r: Bits, m: Bits, i: nat)
    requires i < |m| + |r|
    ensures Dividend(r, m)[i] == ((i < |r| && r[i]) != (i < |m| && m[i]))
  {
  }

  lemma ShiftAt(tail: Bits, r: Bits, b: bool, j: nat)
    requires |r| == |tail| && j < |r|
    ensures Shift(tail, r, b)[j] == ((j + 1 < |r| && r[j + 1]) != (r[0] != b && tail[j]))
  {
  }

  /** The coefficient at place i, zero outside. */
  predicate Coef(s: Bits, i: int) {
    0 <= i < |s| && s[i]
  }

  lemma DividendStep(r: Bits, m: Bits, b: bool, i: nat)
    requires r != []
    ensures Coef(Dividend(r, m + [b]), i) == (Coef(Dividend(r, m), i) != (i == |m| && b))
  {
    hide Dividend;
    if i < |m| + 1 + |r| {
      DividendAt(r, m + [b], i);
    }
    if i < |m| + |r| {
      DividendAt(r, m, i);
    }
  }

  lemma TimesStep(q: Bits, last: bool, tail: Bits, i: nat)
    ensures Coef(Times(q + [last], tail), i) ==
            (Coef(Times(q, tail), i) != (last && (i == |q| || Coef(tail, i - |q| - 1))))
  {
    hide Times;
    assert (q + [last])[..|q|] == q;
    if i < |q| + 1 + |tail| {
      TimesAt(q + [last], tail, i);
    }
  }

  lemma ShiftStep(tail: Bits, r: Bits, b: bool, j: nat)
    requires |r| == |tail| > 0
    ensures Coef(Shift(tail, r, b), j) == (Coef(r, j + 1) != (r[0] != b && Coef(tail, j)))
  {
    hide Shift;
    if j < |r| {
      ShiftAt(tail, r, b, j);
    }
  }

  lemma LastFed(tail: Bits, r: Bits, m: Bits, b: bool)
    requires |r| == |tail| > 0
    ensures ShiftAll(tail, r, m + [b]) == Shift(tail, ShiftAll(tail, r, m), b)
    ensures Quotient(tail, r, m + [b]) == Quotient(tail, r, m) + [ShiftAll(tail, r, m)[0] != b]
  {
    hide Shift;
    assert (m + [b])[..|m|] == m;
  }

  /** One coefficient of the division identity. */
  predicate DividesHere(tail: Bits, r: Bits, m: Bits, i: nat)
    requires |r| == |tail| > 0
  {
    Coef(Dividend(r, m), i)
    == (Coef(Times(Quotient(tail, r, m), tail), i) != (i >= |m| && Coef(ShiftAll(tail, r, m), i - |m|)))
  }

  lemma OneMoreFed(tail: Bits, r: Bits, m: Bits, b: bool, i: nat)
    requires |r| == |tail| > 0 && DividesHere(tail, r, m, i)
    ensures DividesHere(tail, r, m + [b], i)
  {
    hide Times, Dividend, Shift, ShiftAll, Quotient;
    var s := ShiftAll(tail, r, m);
    LastFed(tail, r, m, b);
    DividendStep(r, m, b, i);
    TimesStep(Quotient(tail, r, m), s[0] != b, tail, i);
    assert Coef(s, 0) == s[0];
    hide Coef;
    if i > |m| {
      ShiftStep(tail, s, b, i - |m| - 1);
    }
  }

  lemma {:induction false} DividesEverywhere(tail: Bits, r: Bits, m: Bits, i: nat)
    requires |r| == |tail| > 0
    ensures DividesHere(tail, r, m, i)
  {
    if m == [] {
      NothingFed(tail, r, i);
    } else {
      hide *;
      var n := |m| - 1;
      assert m == m[..n] + [m[n]];
      DividesEverywhere(tail, r, m[..n], i);
      OneMoreFed(tail, r, m[..n], m[n], i);
    }
  }

  lemma NothingFed(tail: Bits, r: Bits, i: nat)
    requires |r| == |tail| > 0
    ensures DividesHere(tail, r, [], i)
  {
    if i < |tail| {
      DividendAt(r, [], i);
    }
    assert Times([], tail) == Zeros(|tail|);
  }

  /** Coefficient `i` of the division identity, by induction on the message. */
  lemma RegisterDividesAt(tail: Bits, r: Bits, m: Bits, i: nat)
    requires |r| == |tail| > 0
    requires i < |m| + |tail|
    ensures Dividend(r, m)[i] ==
            (Times(Quotient(tail, r, m), tail)[i] != (i >= |m| && ShiftAll(tail, r, m)[i - |m|]))
  {
    hide Times, Dividend, Shift, ShiftAll, Quotient;
    DividesEverywhere(tail, r, m, i);
  }

  /** The register after the whole message is the remainder of the dividend. */
  lemma RegisterDivides(tail: Bits, r: Bits, m: Bits)
    requires |r| == |tail| > 0
    ensures DividesWith(Dividend(r, m), tail, Quotient(tail, r, m), ShiftAll(tail, r, m))
  {
    hide Times, Dividend, Quotient, ShiftAll, Xor, Zeros;
    var left := Dividend(r, m);
    var right := Xor(Times(Quotient(tail, r, m), tail), Zeros(|m|) + ShiftAll(tail, r, m));
    forall i | 0 <= i < |left|
      ensures left[i] == right[i]
    {
      RegisterDividesAt(tail, r, m, i);
    }
  }

  lemma RegisterIsRemainder(tail: Bits, r: Bits, m: Bits)
    requires |r| == |tail| > 0
    ensures IsRemainder(Dividend(r, m), tail, ShiftAll(tail, r, m))
  {
    RegisterDivides(tail, r, m);
  }

  lemma {:induction false} TimesXor(q: Bits, q': Bits, tail: Bits)
    requires |q| == |q'|
    ensures Times(Xor(q, q'), tail) == Xor(Times(q, tail), Times(q', tail))
  {
    if q != [] {
      hide Times;
      var n := |q| - 1;
      TimesXor(q[..n], q'[..n], tail);
      assert Xor(q, q')[..n] == Xor(q[..n], q'[..n]);
      var left, right := Times(Xor(q, q'), tail), Xor(Times(q, tail), Times(q', tail));
      forall i | 0 <= i < |left|
        ensures left[i] == right[i]
      {
        TimesAt(Xor(q, q'), tail, i);
        TimesAt(q, tail, i);
        TimesAt(q', tail, i);
      }
    }
  }

  /** The leading term of a product is the leading term of its first factor. */
  lemma {:induction false} LeadingTerm(q: Bits, tail: Bits, k: nat)
    requires k < |q| && q[k]
    requires forall j :: 0 <= j < k ==> !q[j]
    ensures Times(q, tail)[k]
  {
    var n := |q| - 1;
    if k == n {
      ZeroTimes(q[..n], tail);
      assert Times(q[..n], tail)[..n] == Zeros(n) || |tail| == 0;
      if |tail| == 0 {
        assert Times(q, tail)[k] == ((Times(q[..n], tail) + [false])[k] != (Zeros(n) + [true] + tail)[k]);
      }
    } else {
      LeadingTerm(q[..n], tail, k);
    }
  }

  lemma {:induction false} ZeroTimes(q: Bits, tail: Bits)
    requires forall j :: 0 <= j < |q| ==> !q[j]
    ensures Times(q, tail) == Zeros(|q| + |tail|)
  {
    if q != [] {
      ZeroTimes(q[..|q| - 1], tail);
    }
  }

  /** Division has one answer, so a remainder found by any means is the remainder. */
  lemma RemainderIsUnique(m: Bits, tail: Bits, rem: Bits, rem': Bits)
    requires IsRemainder(m, tail, rem) && IsRemainder(m, tail, rem')
    ensures rem == rem'
  {
    var q :| DividesWith(m, tail, q, rem);
    var q' :| DividesWith(m, tail, q', rem');
    var n := |q|;
    var d := Xor(q, q');
    TimesXor(q, q', tail);
    forall i | 0 <= i < |m|
      ensures Times(d, tail)[i] == (Zeros(n) + Xor(rem, rem'))[i]
    {
      assert m[i] == (Times(q, tail)[i] != (Zeros(n) + rem)[i]);
      assert m[i] == (Times(q', tail)[i] != (Zeros(n) + rem')[i]);
    }
    if exists k :: 0 <= k < n && d[k] {
      var k := FirstSet(d);
      LeadingTerm(d, tail, k);
      assert false;
    }
    ZeroTimes(d, tail);
    forall i | 0 <= i < |rem|
      ensures rem[i] == rem'[i]
    {
      assert Times(d, tail)[n + i] == Xor(rem, rem')[i];
    }
  }

  lemma FirstSet(d: Bits) returns (k: nat)
    requires exists j :: 0 <= j < |d| && d[j]
    ensures k < |d| && d[k] && forall j :: 0 <= j < k ==> !d[j]
  {
    k := 0;
    while !d[k]
      invariant k < |d| && forall j :: 0 <= j < k ==> !d[j]
      decreases |d| - k
    {
      k := k + 1;
    }
  }

  // ----- what a register can and cannot miss -----

  /** When the divisor has a constant term, the lowest term of a product is that of its first factor. */
  lemma {:induction false} TrailingTerm(q: Bits, tail: Bits, k: nat)
    requires tail != [] && tail[|tail| - 1]
    requires k < |q| && q[k]
    requires forall j :: k < j < |q| ==> !q[j]
    ensures Times(q, tail)[k + |tail|]
  {
    var n := |q| - 1;
    TimesAt(q, tail, k + |tail|);
    if k < n {
      TrailingTerm(q[..n], tail, k);
    }
  }

  lemma LastSet(d: Bits) returns (k: nat)
    requires exists j :: 0 <= j < |d| && d[j]
    ensures k < |d| && d[k] && forall j :: k < j < |d| ==> !d[j]
  {
    k := |d| - 1;
    while !d[k]
      invariant k < |d| && forall j :: k < j < |d| ==> !d[j]
      decreases k
    {
      k := k - 1;
    }
  }

  /** Two runs of equal length that end alike differ by a multiple of the divisor. */
  lemma EndAlike(tail: Bits, r: Bits, m: Bits, r': Bits, m': Bits)
    requires |r| == |r'| == |tail| > 0 && |m| == |m'|
    requires ShiftAll(tail, r, m) == ShiftAll(tail, r', m')
    ensures Xor(Dividend(r, m), Dividend(r', m'))
         == Times(Xor(Quotient(tail, r, m), Quotient(tail, r', m')), tail)
  {
    hide Times, Dividend, Quotient, ShiftAll, Xor;
    var left := Xor(Dividend(r, m), Dividend(r', m'));
    var right := Times(Xor(Quotient(tail, r, m), Quotient(tail, r', m')), tail);
    forall i | 0 <= i < |left|
      ensures left[i] == right[i]
    {
      EndAlikeAt(tail, r, m, r', m', i);
    }
  }

  lemma EndAlikeAt(tail: Bits, r: Bits, m: Bits, r': Bits, m': Bits, i: nat)
    requires |r| == |r'| == |tail| > 0 && |m| == |m'| && i < |m| + |tail|
    requires ShiftAll(tail, r, m) == ShiftAll(tail, r', m')
    ensures Xor(Dividend(r, m), Dividend(r', m'))[i]
         == Times(Xor(Quotient(tail, r, m), Quotient(tail, r', m')), tail)[i]
  {
    hide Times, Dividend, Quotient, ShiftAll, Xor;
    var q, q' := Quotient(tail, r, m), Quotient(tail, r', m');
    TimesXor(q, q', tail);
    RegisterDividesAt(tail, r, m, i);
    RegisterDividesAt(tail, r', m', i);
    assert Times(Xor(q, q'), tail)[i] == (Times(q, tail)[i] != Times(q', tail)[i]);
  }

  /** If moreover nothing differs in the last |m| places, nothing differs at all. */
  lemma EndAlikeMeansAlike(tail: Bits, r: Bits, m: Bits, r': Bits, m': Bits)
    requires |r| == |r'| == |tail| > 0 && |m| == |m'| && tail[|tail| - 1]
    requires ShiftAll(tail, r, m) == ShiftAll(tail, r', m')
    requires forall i :: |tail| <= i < |tail| + |m| ==> Dividend(r, m)[i] == Dividend(r', m')[i]
    ensures Dividend(r, m) == Dividend(r', m')
  {
    var d := Xor(Quotient(tail, r, m), Quotient(tail, r', m'));
    EndAlike(tail, r, m, r', m');
    var e := Xor(Dividend(r, m), Dividend(r', m'));
    if exists k :: 0 <= k < |d| && d[k] {
      var k := LastSet(d);
      TrailingTerm(d, tail, k);
      assert false;
    }
    ZeroTimes(d, tail);
    forall i | 0 <= i < |e|
      ensures Dividend(r, m)[i] == Dividend(r', m')[i]
    {
      assert !e[i];
    }
  }

  /** Different registers stay different under a common message. */
  lemma RegistersStayApart(tail: Bits, r: Bits, r': Bits, m: Bits)
    requires |r| == |r'| == |tail| > 0 && tail[|tail| - 1]
    requires r != r'
    ensures ShiftAll(tail, r, m) != ShiftAll(tail, r', m)
  {
    if ShiftAll(tail, r, m) == ShiftAll(tail, r', m) {
      forall i | |tail| <= i < |tail| + |m|
        ensures Dividend(r, m)[i] == Dividend(r', m)[i]
      {
        DividendAt(r, m, i);
        DividendAt(r', m, i);
      }
      EndAlikeMeansAlike(tail, r, m, r', m);
      forall i | 0 <= i < |r|
        ensures r[i] == r'[i]
      {
        DividendAt(r, m, i);
        DividendAt(r', m, i);
      }
    }
  }

  /** From one register, different messages no longer than the register end differently. */
  lemma ShortMessagesDiffer(tail: Bits, r: Bits, m: Bits, m': Bits)
    requires |r| == |tail| > 0 && tail[|tail| - 1]
    requires |m| == |m'| <= |tail| && m != m'
    ensures ShiftAll(tail, r, m) != ShiftAll(tail, r, m')
  {
    if ShiftAll(tail, r, m) == ShiftAll(tail, r, m') {
      forall i | |tail| <= i < |tail| + |m|
        ensures Dividend(r, m)[i] == Dividend(r, m')[i]
      {
        DividendAt(r, m, i);
        DividendAt(r, m', i);
      }
      EndAlikeMeansAlike(tail, r, m, r, m');
      forall i | 0 <= i < |m|
        ensures m[i] == m'[i]
      {
        DividendAt(r, m, i);
        DividendAt(r, m', i);
      }
    }
  }

  /** An error burst no longer than the register is always caught, wherever it falls. */
  lemma BurstsAreCaught(tail: Bits, r: Bits, before: Bits, burst: Bits, burst': Bits, after: Bits)
    requires |r| == |tail| > 0 && tail[|tail| - 1]
    requires |burst| == |burst'| <= |tail| && burst != burst'
    ensures ShiftAll(tail, r, before + burst + after) != ShiftAll(tail, r, before + burst' + after)
  {
    var r1 := ShiftAll(tail, r, before);
    ShiftAllConcat(tail, r, before, burst);
    ShiftAllConcat(tail, r, before, burst');
    ShiftAllConcat(tail, r, before + burst, after);
    ShiftAllConcat(tail, r, before + burst', after);
    ShortMessagesDiffer(tail, r1, burst, burst');
    RegistersStayApart(tail, ShiftAll(tail, r1, burst), ShiftAll(tail, r1, burst'), after);
  }

  /** Adding a chunk to the top of the register and clocking zeros is the same as clocking in the chunk. */
  lemma {:induction false} ChunkIntoRegister(tail: Bits, r: Bits, chunk: Bits)
    requires |r| == |tail| > 0 && |chunk| <= |tail|
    ensures ShiftAll(tail, Xor(r, chunk + Zeros(|r| - |chunk|)), Zeros(|chunk|)) == ShiftAll(tail, r, chunk)
    decreases |chunk|
  {
    if chunk == [] {
      assert Xor(r, chunk + Zeros(|r|)) == r;
    } else {
      var rest := chunk[1..];
      var mixed := Xor(r, chunk + Zeros(|r| - |chunk|));
      ShiftAllConcat(tail, mixed, [false], Zeros(|rest|));
      assert Zeros(|chunk|) == [false] + Zeros(|rest|);
      ShiftAllConcat(tail, r, [chunk[0]], rest);
      assert chunk == [chunk[0]] + rest;
      assert ShiftAll(tail, mixed, [false]) == Shift(tail, mixed, false);
      assert ShiftAll(tail, r, [chunk[0]]) == Shift(tail, r, chunk[0]);
      MixedShift(tail, r, chunk);
      ChunkIntoRegister(tail, Shift(tail, r, chunk[0]), rest);
    }
  }

  lemma MixedShift(tail: Bits, r: Bits, chunk: Bits)
    requires |r| == |tail| > 0 && 0 < |chunk| <= |tail|
    ensures Shift(tail, Xor(r, chunk + Zeros(|r| - |chunk|)), false)
         == Xor(Shift(tail, r, chunk[0]), chunk[1..] + Zeros(|r| - |chunk| + 1))
  {
    var mixed := Xor(r, chunk + Zeros(|r| - |chunk|));
    forall j | 0 <= j < |r|
      ensures Shift(tail, mixed, false)[j]
           == Xor(Shift(tail, r, chunk[0]), chunk[1..] + Zeros(|r| - |chunk| + 1))[j]
    {
      ShiftAt(tail, mixed, false, j);
      ShiftAt(tail, r, chunk[0], j);
    }
  }

  /** A register fed its own content is emptied. */
  lemma OwnContentEmpties(tail: Bits, r: Bits)
    requires |r| == |tail| > 0
    ensures ShiftAll(tail, r, r) == Zeros(|r|)
  {
    ChunkIntoRegister(tail, r, r);
    assert Xor(r, r + Zeros(0)) == Zeros(|r|);
    ZeroStaysZero(tail, |r|);
  }

  lemma {:induction false} ZeroStaysZero(tail: Bits, n: nat)
    requires |tail| > 0
    ensures ShiftAll(tail, Zeros(|tail|), Zeros(n)) == Zeros(|tail|)
  {
    if n > 0 {
      ZeroStaysZero(tail, n - 1);
      assert Zeros(n)[..n - 1] == Zeros(n - 1);
    }
  }
}
