/** Arithmetic of any width, one byte an instruction: ADD then ADCs, SUB then SBCs, CP then CPCs. */
module AvrChains {
  import opened Bytes
  import opened AvrAlu
  import opened Division

  type Ram = s: seq<byte> | |s| == 0x860 witness seq(0x860, _ => 0)

  const SREG := 0x5f

  function SregOf(f: Flags): byte {
    Byte([f.i, f.t, f.h, f.s, f.v, f.n, f.z, f.c])
  }

  lemma FlagsBack(f: Flags)
    ensures FlagsOf(SregOf(f)) == f
  {
    BitsOfByte([f.i, f.t, f.h, f.s, f.v, f.n, f.z, f.c]);
  }

  function DoAdd(ram: Ram, dest: nat, value: byte, carry: bool): Ram
    requires dest < 32
  {
    var sum := Add(FlagsOf(ram[SREG]), ram[dest], value, carry);
    Written(ram, dest, sum.0, SregOf(sum.1))
  }

  function Written(ram: Ram, dest: nat, result: byte, sreg: byte): Ram
    requires dest < 32
  {
    ram[SREG := sreg][dest := result]
  }

  function DoCpOrSub(ram: Ram, dest: nat, value: byte, carry: bool, store: bool): Ram
    requires dest < 32
  {
    var difference := Sub(FlagsOf(ram[SREG]), ram[dest], value, carry);
    Written(ram, dest, if store then difference.0 else ram[dest], SregOf(difference.1))
  }

  // ----- numbers of several bytes, low byte first -----

  function Pow256(n: nat): (p: nat)
    ensures p >= 1
  {
    if n == 0 then 1 else 256 * Pow256(n - 1)
  }

  function Value(a: seq<byte>): nat {
    if a == [] then 0
    else
      var n := |a| - 1;
      Value(a[..n]) + Pow256(n) * a[n]
  }

  lemma SmallValues(low: byte, high: byte)
    ensures Value([low]) == low && Value([low, high]) == 0x100 * (high as int) + low
  {
    assert [low, high][..1] == [low] && [low][..0] == [];
  }

  /** In two's complement. */
  function SignedValue(a: seq<byte>): int
    requires a != []
  {
    var n := |a| - 1;
    Value(a[..n]) + Pow256(n) * Signed(a[n])
  }

  lemma {:induction false} ValueBound(a: seq<byte>)
    ensures Value(a) < Pow256(|a|)
  {
    if a != [] {
      var n := |a| - 1;
      ValueBound(a[..n]);
      TopBound(Pow256(n), Value(a[..n]), a[n]);
    }
  }

  lemma TopBound(p: nat, low: nat, top: byte)
    requires low < p
    ensures low + p * top < 256 * p
  {
    assert p * top <= p * 255;
  }

  predicate FitsSigned(x: int, n: nat)
    requires n >= 1
  {
    -128 * Pow256(n - 1) <= x < 128 * Pow256(n - 1)
  }

  /** A whole number of top bytes plus less than one fits, and is negative, as the top byte alone. */
  lemma TopByteDecides(low: nat, top: int, p: nat)
    requires low < p
    ensures -128 * p <= low + p * top < 128 * p <==> Fits(top)
    ensures low + p * top < 0 <==> top < 0
  {
    if top < -128 {
      ProductOrder(p, top, -129);
    } else if top <= 127 {
      ProductOrder(p, -128, top);
      ProductOrder(p, top, 127);
    } else {
      ProductOrder(p, 128, top);
    }
    if top < 0 {
      ProductOrder(p, top, -1);
    } else {
      ProductOrder(p, 0, top);
    }
  }

  // ----- byte by byte -----

  function AddBytes(f: Flags, a: seq<byte>, b: seq<byte>): (r: (seq<byte>, Flags))
    requires |a| == |b|
    ensures |r.0| == |a|
  {
    if a == [] then ([], f)
    else
      var n := |a| - 1;
      var (low, g) := AddBytes(f, a[..n], b[..n]);
      var (top, h) := Add(g, a[n], b[n], n > 0);
      (low + [top], h)
  }

  function SubBytes(f: Flags, a: seq<byte>, b: seq<byte>): (r: (seq<byte>, Flags))
    requires |a| == |b|
    ensures |r.0| == |a|
  {
    if a == [] then ([], f)
    else
      var n := |a| - 1;
      var (low, g) := SubBytes(f, a[..n], b[..n]);
      var (top, h) := Sub(g, a[n], b[n], n > 0);
      (low + [top], h)
  }

  lemma SumSplits(p: nat, x: int, y: int, r: int, c: int, d: int, v: int, t: int, c': int)
    requires x + y == r + p * c && d + v + c == t + 256 * c'
    ensures (x + p * d) + (y + p * v) == (r + p * t) + 256 * p * c'
  {
    assert p * d + p * v + p * c == p * (d + v + c) == p * t + p * (256 * c');
  }

  /** The carry into byte n of the chain. */
  function CarryIn(f: Flags, n: nat): nat {
    if n == 0 then 0 else Bit(f.c)
  }

  lemma {:induction false} AddBytesCarry(f: Flags, a: seq<byte>, b: seq<byte>)
    requires |a| == |b|
    ensures var (r, g) := AddBytes(f, a, b);
            Value(r) + Pow256(|a|) * CarryIn(g, |a|) == Value(a) + Value(b)
  {
    hide Add;
    if a != [] {
      var n := |a| - 1;
      AddBytesCarry(f, a[..n], b[..n]);
      var (low, g) := AddBytes(f, a[..n], b[..n]);
      var (top, h) := Add(g, a[n], b[n], n > 0);
      AddCarry(g, a[n], b[n], n > 0);
      SumSplits(Pow256(n), Value(a[..n]), Value(b[..n]), Value(low), CarryIn(g, n), a[n], b[n], top, Bit(h.c));
    }
  }

  lemma SignedSplits(p: nat, x: int, y: int, r: int, c: int, d: int, v: int)
    requires x + y == r + p * c
    ensures (x + p * d) + (y + p * v) == r + p * (d + v + c)
  {
    assert p * d + p * v + p * c == p * (d + v + c);
  }

  /** An ADD followed by ADCs adds numbers of any width: C is the carry out, V signed overflow, N the sign of
      the result and S the sign of the true sum. */
  lemma WideAdd(f: Flags, a: seq<byte>, b: seq<byte>)
    requires |a| == |b| > 0
    ensures var (r, g) := AddBytes(f, a, b);
            var sum := SignedValue(a) + SignedValue(b);
            && Value(r) + Pow256(|a|) * Bit(g.c) == Value(a) + Value(b)
            && (g.v <==> !FitsSigned(sum, |a|))
            && (g.s <==> sum < 0)
            && (g.n <==> SignedValue(r) < 0)
  {
    hide Add, Value, Pow256, Fits;
    var n := |a| - 1;
    var (low, g) := AddBytes(f, a[..n], b[..n]);
    var (top, h) := Add(g, a[n], b[n], n > 0);
    AddBytesCarry(f, a, b);
    AddBytesCarry(f, a[..n], b[..n]);
    AddSigns(g, a[n], b[n], n > 0);
    ValueBound(low);
    var t := Signed(a[n]) + Signed(b[n]) + CarryIn(g, n);
    SignedSplits(Pow256(n), Value(a[..n]), Value(b[..n]), Value(low), CarryIn(g, n), Signed(a[n]), Signed(b[n]));
    TopByteDecides(Value(low), t, Pow256(n));
    TopByteDecides(Value(low), Signed(top), Pow256(n));
    assert (low + [top])[..n] == low;
  }

  lemma DifferenceSplits(p: nat, x: int, y: int, r: int, c: int, d: int, v: int, t: int, c': int)
    requires x - y == r - p * c && d - v - c == t - 256 * c'
    ensures (x + p * d) - (y + p * v) == (r + p * t) - 256 * p * c'
  {
    assert p * d - p * v - p * c == p * (d - v - c) == p * t - p * (256 * c');
  }

  lemma {:induction false} SubBytesBorrow(f: Flags, a: seq<byte>, b: seq<byte>)
    requires |a| == |b|
    ensures var (r, g) := SubBytes(f, a, b);
            Value(r) - Pow256(|a|) * CarryIn(g, |a|) == Value(a) - Value(b)
  {
    hide Sub;
    if a != [] {
      var n := |a| - 1;
      SubBytesBorrow(f, a[..n], b[..n]);
      var (low, g) := SubBytes(f, a[..n], b[..n]);
      var (top, h) := Sub(g, a[n], b[n], n > 0);
      SubBorrow(g, a[n], b[n], n > 0);
      DifferenceSplits(Pow256(n), Value(a[..n]), Value(b[..n]), Value(low), CarryIn(g, n), a[n], b[n], top, Bit(h.c));
    }
  }

  lemma SignedDifference(p: nat, x: int, y: int, r: int, c: int, d: int, v: int)
    requires x - y == r - p * c
    ensures (x + p * d) - (y + p * v) == r + p * (d - v - c)
  {
    assert p * d - p * v - p * c == p * (d - v - c);
  }

  /** Z gathers over the chain: it is set when every byte of the result is zero. */
  lemma {:induction false} ZeroGathers(f: Flags, a: seq<byte>, b: seq<byte>)
    requires |a| == |b| > 0
    ensures SubBytes(f, a, b).1.z <==> forall i :: 0 <= i < |a| ==> SubBytes(f, a, b).0[i] == 0
  {
    hide Sub;
    var n := |a| - 1;
    var (low, g) := SubBytes(f, a[..n], b[..n]);
    var (top, h) := Sub(g, a[n], b[n], n > 0);
    var r := SubBytes(f, a, b).0;
    SubSigns(g, a[n], b[n], n > 0);
    assert r[n] == top;
    assert forall i :: 0 <= i < n ==> r[i] == low[i];
    if n > 0 {
      ZeroGathers(f, a[..n], b[..n]);
    }
  }

  lemma {:induction false} ZeroValue(r: seq<byte>)
    ensures (forall i :: 0 <= i < |r| ==> r[i] == 0) <==> Value(r) == 0
  {
    if r != [] {
      var n := |r| - 1;
      ZeroValue(r[..n]);
      assert r[n] > 0 ==> Pow256(n) * r[n] >= 1;
      assert forall i :: 0 <= i < n ==> r[i] == r[..n][i];
    }
  }

  lemma {:induction false} ValueInjective(a: seq<byte>, b: seq<byte>)
    requires |a| == |b| && Value(a) == Value(b)
    ensures a == b
  {
    if a != [] {
      var n := |a| - 1;
      ValueBound(a[..n]);
      ValueBound(b[..n]);
      TopsEqual(Value(a[..n]), a[n], Value(b[..n]), b[n], Pow256(n));
      ValueInjective(a[..n], b[..n]);
      assert a == a[..n] + [a[n]] && b == b[..n] + [b[n]];
    }
  }

  lemma WideSubSigns(f: Flags, a: seq<byte>, b: seq<byte>)
    requires |a| == |b| > 0
    ensures var (r, g) := SubBytes(f, a, b);
            var difference := SignedValue(a) - SignedValue(b);
            (g.v <==> !FitsSigned(difference, |a|)) && (g.s <==> difference < 0) && (g.n <==> SignedValue(r) < 0)
  {
    hide Sub, Value, Pow256, Fits;
    var n := |a| - 1;
    var (low, g) := SubBytes(f, a[..n], b[..n]);
    var (top, h) := Sub(g, a[n], b[n], n > 0);
    SubBytesBorrow(f, a[..n], b[..n]);
    SubSigns(g, a[n], b[n], n > 0);
    ValueBound(low);
    var t := Signed(a[n]) - Signed(b[n]) - CarryIn(g, n);
    SignedDifference(Pow256(n), Value(a[..n]), Value(b[..n]), Value(low), CarryIn(g, n), Signed(a[n]), Signed(b[n]));
    TopByteDecides(Value(low), t, Pow256(n));
    TopByteDecides(Value(low), Signed(top), Pow256(n));
    assert (low + [top])[..n] == low;
  }

  /** A SUB followed by SBCs, and so a CP followed by CPCs, compares numbers of any width: C tells unsigned
      less, Z equal, S signed less; the result is the difference. */
  lemma WideSub(f: Flags, a: seq<byte>, b: seq<byte>)
    requires |a| == |b| > 0
    ensures var (r, g) := SubBytes(f, a, b);
            var difference := SignedValue(a) - SignedValue(b);
            && Value(r) - Pow256(|a|) * Bit(g.c) == Value(a) - Value(b)
            && (g.c <==> Value(a) < Value(b))
            && (g.z <==> a == b)
            && (g.v <==> !FitsSigned(difference, |a|))
            && (g.s <==> SignedValue(a) < SignedValue(b))
            && (g.n <==> SignedValue(r) < 0)
  {
    hide SubBytes, Value, SignedValue, Pow256, FitsSigned;
    var (r, g) := SubBytes(f, a, b);
    SubBytesBorrow(f, a, b);
    WideSubSigns(f, a, b);
    EqualIffZero(f, a, b);
    ValueBound(r);
  }

  lemma EqualIffZero(f: Flags, a: seq<byte>, b: seq<byte>)
    requires |a| == |b| > 0
    ensures SubBytes(f, a, b).1.z <==> a == b
  {
    hide Sub, Value, Pow256, SubBytes;
    var (r, g) := SubBytes(f, a, b);
    ZeroGathers(f, a, b);
    ZeroValue(r);
    SubBytesBorrow(f, a, b);
    ValueBound(a);
    ValueBound(b);
    ValueBound(r);
    if g.z {
      ValueInjective(a, b);
    }
  }

  // ----- the same on the register file -----

  function At(ram: Ram, regs: seq<nat>): (s: seq<byte>)
    requires forall i :: 0 <= i < |regs| ==> regs[i] < 32
    ensures |s| == |regs|
  {
    seq(|regs|, i requires 0 <= i < |regs| => ram[regs[i]])
  }

  /** The destinations are distinct registers, and no source byte is one already overwritten. */
  predicate Operands(ds: seq<nat>, ss: seq<nat>) {
    && |ds| == |ss|
    && (forall i :: 0 <= i < |ds| ==> ds[i] < 32 && ss[i] < 32)
    && (forall i, j :: 0 <= i < j < |ds| ==> ds[i] != ds[j] && ds[i] != ss[j])
  }

  /** ADD of the low bytes, then ADC of the others. */
  function AddChain(ram: Ram, ds: seq<nat>, ss: seq<nat>): Ram
    requires Operands(ds, ss)
  {
    if ds == [] then ram
    else
      var n := |ds| - 1;
      var m := AddChain(ram, ds[..n], ss[..n]);
      DoAdd(m, ds[n], m[ss[n]], n > 0)
  }

  /** SUB then SBCs, or without storing CP then CPCs. */
  function SubChain(ram: Ram, ds: seq<nat>, ss: seq<nat>, store: bool): Ram
    requires Operands(ds, ss)
  {
    if ds == [] then ram
    else
      var n := |ds| - 1;
      var m := SubChain(ram, ds[..n], ss[..n], store);
      DoCpOrSub(m, ds[n], m[ss[n]], n > 0, store)
  }

  ghost predicate OnlyChanged(m: Ram, ram: Ram, ds: seq<nat>) {
    forall k :: 0 <= k < 0x860 && k != SREG && k !in ds ==> m[k] == ram[k]
  }

  lemma AtPrefix(ram: Ram, regs: seq<nat>, n: nat)
    requires n < |regs| && forall i :: 0 <= i < |regs| ==> regs[i] < 32
    ensures At(ram, regs)[..n] == At(ram, regs[..n]) && At(ram, regs)[n] == ram[regs[n]]
  {
  }

  lemma {:induction false} AddChainRefines(ram: Ram, ds: seq<nat>, ss: seq<nat>)
    requires Operands(ds, ss)
    ensures var m := AddChain(ram, ds, ss);
            var (r, g) := AddBytes(FlagsOf(ram[SREG]), At(ram, ds), At(ram, ss));
            At(m, ds) == r && FlagsOf(m[SREG]) == g && OnlyChanged(m, ram, ds)
  {
    hide Add, FlagsOf, SregOf, Written;
    if ds == [] {
    } else {
      var n := |ds| - 1;
      var m := AddChain(ram, ds[..n], ss[..n]);
      AddChainRefines(ram, ds[..n], ss[..n]);
      AtPrefix(ram, ds, n);
      AtPrefix(ram, ss, n);
      assert m[ds[n]] == ram[ds[n]] && m[ss[n]] == ram[ss[n]];
      var (result, g) := Add(FlagsOf(m[SREG]), m[ds[n]], m[ss[n]], n > 0);
      FlagsBack(g);
      ResultStored(m, ram, ds, n, result, SregOf(g));
    }
  }

  /** The last operands are as they were before the lower bytes were done. */
  lemma OperandsKept(ram: Ram, m: Ram, ds: seq<nat>, ss: seq<nat>)
    requires Operands(ds, ss) && ds != [] && OnlyChanged(m, ram, ds[..|ds| - 1])
    ensures var n := |ds| - 1; m[ds[n]] == ram[ds[n]] && m[ss[n]] == ram[ss[n]]
  {
  }

  lemma AtStep(ram: Ram, regs: seq<nat>, n: nat)
    requires |regs| == n + 1 && forall i :: 0 <= i < |regs| ==> regs[i] < 32
    ensures At(ram, regs) == At(ram, regs[..n]) + [ram[regs[n]]]
  {
  }

  lemma ResultStored(m: Ram, ram: Ram, ds: seq<nat>, n: nat, result: byte, sreg: byte)
    requires |ds| == n + 1 && (forall i :: 0 <= i < |ds| ==> ds[i] < 32)
    requires forall i :: 0 <= i < n ==> ds[i] != ds[n]
    requires OnlyChanged(m, ram, ds[..n])
    ensures var m' := Written(m, ds[n], result, sreg);
            && At(m', ds) == At(m, ds[..n]) + [result]
            && m'[SREG] == sreg && OnlyChanged(m', ram, ds)
  {
    assert forall k :: k !in ds ==> k !in ds[..n];
    assert ds[n] in ds;
  }

  lemma {:induction false} SubChainRefines(ram: Ram, ds: seq<nat>, ss: seq<nat>, store: bool)
    requires Operands(ds, ss)
    ensures var m := SubChain(ram, ds, ss, store);
            var (r, g) := SubBytes(FlagsOf(ram[SREG]), At(ram, ds), At(ram, ss));
            At(m, ds) == (if store then r else At(ram, ds)) && FlagsOf(m[SREG]) == g && OnlyChanged(m, ram, ds)
  {
    hide Sub, FlagsOf, SregOf, Written;
    if ds == [] {
    } else {
      var n := |ds| - 1;
      var m := SubChain(ram, ds[..n], ss[..n], store);
      SubChainRefines(ram, ds[..n], ss[..n], store);
      AtPrefix(ram, ds, n);
      AtPrefix(ram, ss, n);
      OperandsKept(ram, m, ds, ss);
      var (result, g) := Sub(FlagsOf(m[SREG]), m[ds[n]], m[ss[n]], n > 0);
      FlagsBack(g);
      hide At, OnlyChanged;
      ResultStored(m, ram, ds, n, if store then result else m[ds[n]], SregOf(g));
      AtStep(ram, ds, n);
    }
  }

  /** On the registers: an ADD/ADC sequence over any n register pairs adds two n-byte numbers in place. */
  lemma AddChainAdds(ram: Ram, ds: seq<nat>, ss: seq<nat>)
    requires Operands(ds, ss) && ds != []
    ensures var m := AddChain(ram, ds, ss);
            var g := FlagsOf(m[SREG]);
            && Value(At(m, ds)) + Pow256(|ds|) * Bit(g.c) == Value(At(ram, ds)) + Value(At(ram, ss))
            && (g.v <==> !FitsSigned(SignedValue(At(ram, ds)) + SignedValue(At(ram, ss)), |ds|))
            && (g.s <==> SignedValue(At(ram, ds)) + SignedValue(At(ram, ss)) < 0)
            && OnlyChanged(m, ram, ds)
  {
    hide AddBytes, AddChain, At, Value, SignedValue, FitsSigned, FlagsOf;
    AddChainRefines(ram, ds, ss);
    WideAdd(FlagsOf(ram[SREG]), At(ram, ds), At(ram, ss));
  }

  /** A SUB/SBC sequence subtracts, and a CP/CPC sequence compares without changing any register. */
  lemma SubChainCompares(ram: Ram, ds: seq<nat>, ss: seq<nat>, store: bool)
    requires Operands(ds, ss) && ds != []
    ensures var m := SubChain(ram, ds, ss, store);
            var (g, a, b) := (FlagsOf(m[SREG]), At(ram, ds), At(ram, ss));
            && (g.c <==> Value(a) < Value(b)) && (g.z <==> a == b)
            && (g.s <==> SignedValue(a) < SignedValue(b))
            && (g.v <==> !FitsSigned(SignedValue(a) - SignedValue(b), |ds|))
            && (store ==> Value(At(m, ds)) == Value(a) - Value(b) + Pow256(|ds|) * Bit(g.c))
            && OnlyChanged(m, ram, if store then ds else [])
  {
    hide SubBytes, SubChain, At, Value, SignedValue, FitsSigned, FlagsOf;
    SubChainRefines(ram, ds, ss, store);
    WideSub(FlagsOf(ram[SREG]), At(ram, ds), At(ram, ss));
    if !store {
      ComparedUnchanged(ram, ds, ss);
    }
  }

  lemma ComparedUnchanged(ram: Ram, ds: seq<nat>, ss: seq<nat>)
    requires Operands(ds, ss)
    ensures OnlyChanged(SubChain(ram, ds, ss, false), ram, [])
  {
    hide SubChain;
    SubChainRefines(ram, ds, ss, false);
    var m := SubChain(ram, ds, ss, false);
    forall k | 0 <= k < 0x860 && k != SREG
      ensures m[k] == ram[k]
    {
      if k in ds {
        var i :| 0 <= i < |ds| && ds[i] == k;
        assert At(m, ds)[i] == At(ram, ds)[i];
      }
    }
  }
}
