/** The DS1307 on the I2C bus: register pointer, bursts, and the copy of the time a read is served from. */
module ClockBus {
  import opened Wrappers
  import opened Bytes
  import opened ClockRegisters
  import opened ClockRuns

  datatype Rtc = Rtc(i2c_addr: byte, listening: bool, receiving_address: bool, reg_pointer: nat,
                     time_modified: bool, nvram: Nvram, cached_time: seq<byte>)

  predicate Valid(r: Rtc) {
    r.reg_pointer < 64 && |r.cached_time| == 7
  }

  function NextPointer(p: nat): nat
    requires p < 64
  {
    if p + 1 >= 64 then 0 else p + 1
  }

  function ReceiveStart(r: Rtc): Rtc {
    r.(listening := false, time_modified := false)
  }

  /** A stop after the time was written fails when the registers hold no time. */
  function ReceiveStop(r: Rtc): Outcome<Rtc> {
    if r.time_modified && GetTime(r.nvram).None? then Failed
    else Done(r.(listening := false, time_modified := false))
  }

  function ReceiveAddress(r: Rtc, address: byte, write: bool): Rtc {
    if address != r.i2c_addr then r
    else r.(listening := true, receiving_address := write,
            cached_time := if write then r.cached_time else r.nvram[..7])
  }

  function ReceiveData(r: Rtc, data: byte): Outcome<Rtc>
    requires Valid(r)
  {
    if !r.listening then Done(r)
    else if r.receiving_address then
      if data >= 64 then Failed else Done(r.(reg_pointer := data, receiving_address := false))
    else Done(r.(time_modified := r.time_modified || r.reg_pointer < 7,
                 nvram := r.nvram[r.reg_pointer := data], reg_pointer := NextPointer(r.reg_pointer)))
  }

  function QueryData(r: Rtc): (Rtc, seq<byte>)
    requires Valid(r)
  {
    if !r.listening then (r, [])
    else (r.(reg_pointer := NextPointer(r.reg_pointer)),
          [if r.reg_pointer < 7 then r.cached_time[r.reg_pointer] else r.nvram[r.reg_pointer]])
  }

  datatype Event = Start | Stop | Address(address: byte, write: bool) | Put(data: byte) | Get | Second

  /** One event, with the bytes the device puts on the bus. */
  function Step(r: Rtc, e: Event): Outcome<(Rtc, seq<byte>)>
    requires Valid(r)
  {
    match e
    case Start => Done((ReceiveStart(r), []))
    case Stop => NoBytes(ReceiveStop(r))
    case Address(address, write) => Done((ReceiveAddress(r, address, write), []))
    case Put(data) => NoBytes(ReceiveData(r, data))
    case Get => Done(QueryData(r))
    case Second =>
      match Tick(r.nvram)
      case Done(nv) => Done((r.(nvram := nv), []))
      case Failed => Failed
  }

  function NoBytes(o: Outcome<Rtc>): Outcome<(Rtc, seq<byte>)> {
    match o
    case Done(r) => Done((r, []))
    case Failed => Failed
  }

  function Run(r: Rtc, events: seq<Event>): (o: Outcome<(Rtc, seq<byte>)>)
    requires Valid(r)
    ensures o.Done? ==> Valid(o.value.0)
    decreases |events|
  {
    if events == [] then Done((r, []))
    else
      match Step(r, events[0])
      case Failed => Failed
      case Done((s, out)) =>
        match Run(s, events[1..])
        case Failed => Failed
        case Done((t, more)) => Done((t, out + more))
  }

  lemma {:induction false} RunConcat(r: Rtc, a: seq<Event>, b: seq<Event>, s: Rtc, out: seq<byte>)
    requires Valid(r) && Run(r, a) == Done((s, out))
    ensures Valid(s)
    ensures Run(r, a + b) == (match Run(s, b) case Failed => Failed case Done((t, more)) => Done((t, out + more)))
    decreases |a|
  {
    hide Step;
    if a == [] {
      assert a + b == b;
      if Run(s, b).Done? {
        assert [] + Run(s, b).value.1 == Run(s, b).value.1;
      }
    } else {
      StepKeepsValid(r, a[0]);
      var (m, o) := Step(r, a[0]).value;
      var (t, more) := Run(m, a[1..]).value;
      RunConcat(m, a[1..], b, t, more);
      assert (a + b)[0] == a[0] && (a + b)[1..] == a[1..] + b;
      if Run(s, b).Done? {
        assert o + (more + Run(s, b).value.1) == (o + more) + Run(s, b).value.1;
      }
    }
  }

  // ----- reading -----

  /** k registers from p on, around the end. */
  function Window(nv: Nvram, p: nat, k: nat): (s: seq<byte>)
    requires p < 64
    ensures |s| == k
    decreases k
  {
    if k == 0 then [] else [nv[p]] + Window(nv, NextPointer(p), k - 1)
  }

  function Gets(events: seq<Event>): nat {
    if events == [] then 0 else (if events[0].Get? then 1 else 0) + Gets(events[1..])
  }

  /** The device is serving a read that began when the registers were nv. */
  predicate Serving(r: Rtc, nv: Nvram) {
    Valid(r) && r.listening && r.cached_time == nv[..7] && r.nvram[7..] == nv[7..]
  }

  lemma TickKeepsMemory(nv: Nvram)
    ensures Tick(nv).Done? ==> Tick(nv).value[7..] == nv[7..]
  {
    hide SetTime, GetTime, Halted, BitSet;
    if !Halted(nv) && GetTime(nv).Some? {
      SetTimeFrame(nv, GetTime(nv).value + 1);
    }
  }

  /** However long a burst read lasts, and however often the clock ticks meanwhile, the host receives the
      registers of the one instant it addressed the device, in order around the end of the memory. */
  lemma {:induction false} BurstReadIsAtomic(r: Rtc, nv: Nvram, events: seq<Event>)
    requires Serving(r, nv) && forall i :: 0 <= i < |events| ==> events[i].Get? || events[i].Second?
    ensures Run(r, events).Done? ==> Run(r, events).value.1 == Window(nv, r.reg_pointer, Gets(events))
    decreases |events|
  {
    hide Tick;
    if events != [] {
      if events[0].Get? {
        BurstReadIsAtomic(QueryData(r).0, nv, events[1..]);
      } else {
        TickKeepsMemory(r.nvram);
        if Tick(r.nvram).Done? {
          var s := r.(nvram := Tick(r.nvram).value);
          BurstReadIsAtomic(s, nv, events[1..]);
          if Run(s, events[1..]).Done? {
            var out := Run(s, events[1..]).value.1;
            assert [] + out == out;
          }
        }
      }
    }
  }

  /** The read above, from the address byte on. */
  lemma ReadIsSnapshot(r: Rtc, events: seq<Event>)
    requires Valid(r) && forall i :: 0 <= i < |events| ==> events[i].Get? || events[i].Second?
    ensures var o := Run(r, [Address(r.i2c_addr, false)] + events);
            o.Done? ==> o.value.1 == Window(r.nvram, r.reg_pointer, Gets(events))
  {
    hide Tick;
    var all := [Address(r.i2c_addr, false)] + events;
    assert all[1..] == events;
    var s := ReceiveAddress(r, r.i2c_addr, false);
    BurstReadIsAtomic(s, r.nvram, events);
    if Run(s, events).Done? {
      assert [] + Run(s, events).value.1 == Run(s, events).value.1;
    }
  }

  // ----- writing -----

  function Puts(data: seq<byte>): (events: seq<Event>)
    ensures |events| == |data|
  {
    seq(|data|, i requires 0 <= i < |data| => Put(data[i]))
  }

  function WriteFrom(nv: Nvram, p: nat, data: seq<byte>): Nvram
    requires p < 64
    decreases |data|
  {
    if data == [] then nv else WriteFrom(nv[p := data[0]], NextPointer(p), data[1..])
  }

  /** n registers from p on, around the end, reach one of the seven that hold the time. */
  predicate TouchesTime(p: nat, n: nat) {
    n > 0 && (p < 7 || p + n > 64)
  }

  lemma {:induction false} WriteBurst(r: Rtc, data: seq<byte>)
    requires Valid(r) && r.listening && !r.receiving_address
    ensures Run(r, Puts(data)).Done? && Run(r, Puts(data)).value.1 == []
    ensures Run(r, Puts(data)).value.0 ==
            r.(nvram := WriteFrom(r.nvram, r.reg_pointer, data), reg_pointer := (r.reg_pointer + |data|) % 64,
               time_modified := r.time_modified || TouchesTime(r.reg_pointer, |data|))
    decreases |data|
  {
    if data != [] {
      var s := ReceiveData(r, data[0]).value;
      assert Puts(data)[1..] == Puts(data[1..]);
      WriteBurst(s, data[1..]);
    }
  }

  /** The register at distance j after p holds what the burst put there, if the burst is within one turn. */
  lemma {:induction false} WrittenRegister(nv: Nvram, p: nat, data: seq<byte>, j: nat)
    requires p < 64 && |data| <= 64 && j < 64
    ensures WriteFrom(nv, p, data)[(p + j) % 64] == if j < |data| then data[j] else nv[(p + j) % 64]
    decreases |data|
  {
    if data != [] {
      var q, m := NextPointer(p), nv[p := data[0]];
      if j == 0 {
        assert (q + 63) % 64 == p;
        WrittenRegister(m, q, data[1..], 63);
      } else {
        assert (q + (j - 1)) % 64 == (p + j) % 64 && (p + j) % 64 != p;
        WrittenRegister(m, q, data[1..], j - 1);
      }
    }
  }

  lemma {:induction false} WindowAt(nv: Nvram, p: nat, k: nat, j: nat)
    requires p < 64 && j < k
    ensures Window(nv, p, k)[j] == nv[(p + j) % 64]
    decreases k
  {
    if j > 0 {
      WindowAt(nv, NextPointer(p), k - 1, j - 1);
      assert (NextPointer(p) + (j - 1)) % 64 == (p + j) % 64;
    }
  }

  lemma WindowOfWritten(nv: Nvram, p: nat, data: seq<byte>)
    requires p < 64 && |data| <= 64
    ensures Window(WriteFrom(nv, p, data), p, |data|) == data
  {
    var m := WriteFrom(nv, p, data);
    forall j | 0 <= j < |data|
      ensures Window(m, p, |data|)[j] == data[j]
    {
      WindowAt(m, p, |data|, j);
      WrittenRegister(nv, p, data, j);
    }
  }

  function PointTo(a: byte, p: byte): seq<Event> {
    [Start, Address(a, true), Put(p)]
  }

  lemma RunOne(r: Rtc, e: Event)
    requires Valid(r)
    ensures Run(r, [e]) == Step(r, e)
  {
    hide Step;
    assert [e][1..] == [];
    if Step(r, e).Done? {
      var (s, out) := Step(r, e).value;
      StepKeepsValid(r, e);
      assert Run(s, []) == Done((s, []));
      assert out + [] == out;
    }
  }

  lemma StepKeepsValid(r: Rtc, e: Event)
    requires Valid(r)
    ensures Step(r, e).Done? ==> Valid(Step(r, e).value.0)
  {
    hide Tick;
  }

  lemma PointingRuns(r: Rtc, p: byte)
    requires Valid(r) && p < 64
    ensures Run(r, PointTo(r.i2c_addr, p)) ==
            Done((r.(listening := true, time_modified := false, receiving_address := false, reg_pointer := p as nat),
                []))
  {
    var s := ReceiveStart(r);
    var t := ReceiveAddress(s, r.i2c_addr, true);
    var u := ReceiveData(t, p).value;
    RunOne(t, Put(p));
    RunOne(s, Address(r.i2c_addr, true));
    RunOne(r, Start);
    ThreeRuns(r, [Start], s, [Address(r.i2c_addr, true)], t, [Put(p)], u);
    assert ([Start] + [Address(r.i2c_addr, true)]) + [Put(p)] == PointTo(r.i2c_addr, p);
  }

  lemma ThreeRuns(r: Rtc, a: seq<Event>, s: Rtc, b: seq<Event>, t: Rtc, c: seq<Event>, u: Rtc)
    requires Valid(r) && Run(r, a) == Done((s, [])) && Valid(s)
    requires Run(s, b) == Done((t, [])) && Valid(t)
    requires Run(t, c) == Done((u, []))
    ensures Run(r, (a + b) + c) == Done((u, []))
  {
    hide Run;
    var none: seq<byte> := [];
    assert none + none == none;
    RunConcat(r, a, b, s, []);
    RunConcat(r, a + b, c, t, []);
  }

  lemma {:induction false} CountGets(n: nat)
    ensures Gets(seq(n, _ => Get)) == n
  {
    if n > 0 {
      assert seq(n, _ => Get)[1..] == seq(n - 1, _ => Get);
      CountGets(n - 1);
    }
  }

  /** Reads never fail while the clock does not tick. */
  lemma {:induction false} GetsRun(r: Rtc, n: nat)
    requires Valid(r)
    ensures Run(r, seq(n, _ => Get)).Done?
    decreases n
  {
    if n > 0 {
      assert seq(n, _ => Get)[1..] == seq(n - 1, _ => Get);
      GetsRun(QueryData(r).0, n - 1);
    }
  }

  function ReadBurst(a: byte, n: nat): seq<Event> {
    [Address(a, false)] + seq(n, _ => Get)
  }

  lemma ReadBurstRuns(r: Rtc, n: nat)
    requires Valid(r)
    ensures Run(r, ReadBurst(r.i2c_addr, n)).Done?
    ensures Run(r, ReadBurst(r.i2c_addr, n)).value.1 == Window(r.nvram, r.reg_pointer, n)
  {
    var gets := seq(n, _ => Get);
    GetsRun(ReceiveAddress(r, r.i2c_addr, false), n);
    ReadIsSnapshot(r, gets);
    CountGets(n);
    assert ReadBurst(r.i2c_addr, n)[1..] == gets;
  }

  /** Up to 64 bytes written in one burst, at any register, read back in one burst from there. */
  lemma WriteThenRead(r: Rtc, p: byte, data: seq<byte>)
    requires Valid(r) && p < 64 && |data| <= 64
    ensures var a := r.i2c_addr;
            var o := Run(r, PointTo(a, p) + (Puts(data) + (PointTo(a, p) + ReadBurst(a, |data|))));
            o.Done? && o.value.1 == data
  {
    hide Run, PointTo, ReadBurst, Puts, Window, WriteFrom;
    var a := r.i2c_addr;
    var tail := PointTo(a, p) + ReadBurst(a, |data|);
    PointingRuns(r, p);
    var s := r.(listening := true, time_modified := false, receiving_address := false, reg_pointer := p as nat);
    RunConcat(r, PointTo(a, p), Puts(data) + tail, s, []);
    WriteBurst(s, data);
    var t := Run(s, Puts(data)).value.0;
    RunConcat(s, Puts(data), tail, t, []);
    PointingRuns(t, p);
    var u := t.(listening := true, time_modified := false, receiving_address := false, reg_pointer := p as nat);
    RunConcat(t, PointTo(a, p), ReadBurst(a, |data|), u, []);
    ReadBurstRuns(u, |data|);
    WindowOfWritten(r.nvram, p, data);
  }

  /** What a write of data from register p on comes to at its stop: an error when it reached the time and the registers
      then hold none. */
  function Completed(r: Rtc, p: nat, data: seq<byte>): Outcome<(Rtc, seq<byte>)>
    requires p < 64
  {
    var nv := WriteFrom(r.nvram, p, data);
    if TouchesTime(p, |data|) && GetTime(nv).None? then Failed
    else Done((r.(listening := false, time_modified := false, receiving_address := false, nvram := nv,
                  reg_pointer := (p + |data|) % 64), []))
  }

  /** A write of any length ends with an error exactly when it reached the time and the registers then hold none. */
  lemma StopFailsIff(r: Rtc, p: byte, data: seq<byte>)
    requires Valid(r) && p < 64
    ensures Run(r, PointTo(r.i2c_addr, p) + (Puts(data) + [Stop])) == Completed(r, p, data)
  {
    var s := r.(listening := true, time_modified := false, receiving_address := false, reg_pointer := p as nat);
    assert Valid(s) && Completed(s, p, data) == Completed(r, p, data);
    hide *;
    PointingRuns(r, p);
    RunConcat(r, PointTo(r.i2c_addr, p), Puts(data) + [Stop], s, []);
    BurstThenStop(s, data);
    NoMore(Run(s, Puts(data) + [Stop]));
  }

  lemma NoMore(o: Outcome<(Rtc, seq<byte>)>)
    ensures o == match o case Failed => Failed case Done((t, more)) => Done((t, [] + more))
  {
    if o.Done? {
      assert [] + o.value.1 == o.value.1;
    }
  }

  lemma BurstThenStop(s: Rtc, data: seq<byte>)
    requires Valid(s) && s.listening && !s.receiving_address && !s.time_modified
    ensures Run(s, Puts(data) + [Stop]) == Completed(s, s.reg_pointer, data)
  {
    hide Run, Puts, WriteFrom, TouchesTime, GetTime;
    WriteBurst(s, data);
    var t := Run(s, Puts(data)).value.0;
    RunConcat(s, Puts(data), [Stop], t, []);
    RunOne(t, Stop);
    NoMore(Run(t, [Stop]));
  }

  /** The first byte of a write sets the register pointer, and no other than these 64 values is taken. */
  lemma PointerFailsIff(r: Rtc, b: byte)
    requires Valid(r)
    ensures Run(r, PointTo(r.i2c_addr, b)).Failed? <==> b >= 64
  {
    if b < 64 {
      PointingRuns(r, b);
    } else {
      var s := ReceiveStart(r);
      var t := ReceiveAddress(s, r.i2c_addr, true);
      RunOne(s, Address(r.i2c_addr, true));
      RunOne(r, Start);
      RunOne(t, Put(b));
      RunConcat(s, [Address(r.i2c_addr, true)], [Put(b)], t, []);
      RunConcat(r, [Start], [Address(r.i2c_addr, true)] + [Put(b)], s, []);
      assert [Start] + ([Address(r.i2c_addr, true)] + [Put(b)]) == PointTo(r.i2c_addr, b);
      hide Run;
    }
  }

  /** Starts, stops, bytes and addresses of other devices, as they pass on the bus. */
  predicate ForOthers(r: Rtc, events: seq<Event>) {
    forall e :: e in events ==> e.Start? || e.Stop? || e.Put? || e.Get? || (e.Address? && e.address != r.i2c_addr)
  }

  /** What is meant for other devices neither changes anything here nor is answered. */
  lemma {:induction false} OthersAreIgnored(r: Rtc, events: seq<Event>)
    requires Valid(r) && !r.listening && !r.time_modified && ForOthers(r, events)
    ensures Run(r, events) == Done((r, []))
    decreases |events|
  {
    if events != [] {
      assert events[0] in events;
      assert Step(r, events[0]) == Done((r, []));
      OthersAreIgnored(r, events[1..]);
      var none: seq<byte> := [];
      assert none + none == none;
      hide Step;
    }
  }
}
