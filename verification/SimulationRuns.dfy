/** Whole runs of the simulation loop of src/simulation/simulation.cpp. What a device does when it acts is a
    script of requests, any function of the events dispatched so far. */
module SimulationRuns {
  import opened EventQueue

  datatype Request = Schedule(device: nat, event_id: int, delay: int) | Unschedule(device: nat) | EndRun

  datatype Status = Running | Deadlocked | Ended

  /** The simulation, with an account of every event ever scheduled, dispatched or taken back. */
  datatype Sim = Sim(queue: seq<Event>, time: int, status: Status,
                     log: seq<Event>, scheduled: multiset<Event>, cancelled: multiset<Event>)

  function EndEvent(time: int): Event {
    Event(time, 0, -1)
  }

  function Enter(s: Sim, e: Event): Sim {
    s.(queue := Inserted(s.queue, e), scheduled := s.scheduled + multiset{e})
  }

  function Perform1(s: Sim, r: Request): Sim {
    match r
    case Schedule(device, event_id, delay) => Enter(s, Event(s.time + delay, device, event_id))
    case Unschedule(device) =>
      s.(queue := Without(s.queue, device), cancelled := s.cancelled + multiset(Only(s.queue, device)))
    case EndRun => Enter(s, EndEvent(s.time))
  }

  function Perform(s: Sim, script: seq<Request>): Sim {
    if script == [] then s
    else Perform1(Perform(s, script[..|script| - 1]), script[|script| - 1])
  }

  type Devices = seq<Event> -> seq<Request>

  function Pop(s: Sim): Sim
    requires s.queue != []
  {
    s.(queue := s.queue[1..], time := s.queue[0].timestamp, log := s.log + [s.queue[0]])
  }

  predicate Stopped(s: Sim, to: int) {
    s.status != Running || s.time >= to
  }

  /** One round of the run loop. */
  function Turn(s: Sim, to: int, act: Devices): Sim {
    if Stopped(s, to) then s
    else if s.queue == [] then s.(status := Deadlocked)
    else
      var t := Pop(s);
      if s.queue[0].device != 0 then Perform(t, act(t.log))
      else if s.queue[0].event_id == -1 then t.(status := Ended)
      else t
  }

  function Turns(s: Sim, to: int, act: Devices, n: nat): Sim
    decreases n
  {
    if n == 0 then s else Turns(Turn(s, to, act), to, act, n - 1)
  }

  function Booted(boot: seq<Request>): Sim {
    Perform(Sim([], 0, Running, [], multiset{}, multiset{}), boot)
  }

  // ----- what devices are held to -----

  predicate PoliteRequest(r: Request) {
    match r
    case Schedule(device, event_id, delay) => device != 0 && event_id >= 0 && delay >= 0
    case Unschedule(device) => device != 0
    case EndRun => true
  }

  ghost predicate Polite(script: seq<Request>) {
    forall i :: 0 <= i < |script| ==> PoliteRequest(script[i])
  }

  ghost predicate PoliteDevices(act: Devices) {
    forall log :: Polite(act(log))
  }

  // ----- what every run keeps -----

  predicate Timely(e: Event, time: int) {
    e.timestamp >= time && if e.device == 0 then e == EndEvent(time) else e.event_id >= 0
  }

  ghost predicate AllTimely(q: seq<Event>, time: int) {
    forall e :: e in q ==> Timely(e, time)
  }

  predicate Balanced(s: Sim) {
    s.scheduled == s.cancelled + multiset(s.queue) + multiset(s.log)
  }

  ghost predicate Chronological(log: seq<Event>, time: int) {
    && (forall i, j :: 0 <= i < j < |log| ==> log[i].timestamp <= log[j].timestamp)
    && (forall i :: 0 <= i < |log| ==> log[i].timestamp <= time)
  }

  ghost predicate Inv(s: Sim) {
    Sorted(s.queue) && AllTimely(s.queue, s.time) && Balanced(s) && Chronological(s.log, s.time)
  }

  lemma EnterKeeps(s: Sim, e: Event)
    requires Inv(s) && Timely(e, s.time)
    ensures Inv(Enter(s, e))
  {
    hide Inserted, Sorted, Chronological, Timely;
    InsertedSorted(s.queue, e);
    InsertedCounts(s.queue, e);
    forall x | x in Inserted(s.queue, e)
      ensures Timely(x, s.time)
    {
      InsertedMember(s.queue, e, x);
    }
  }

  lemma UnscheduleKeeps(s: Sim, d: nat)
    requires Inv(s)
    ensures Inv(Perform1(s, Unschedule(d)))
  {
    hide Without, Only, Sorted, Chronological, Timely;
    WithoutSorted(s.queue, d);
    WithoutCounts(s.queue, d);
    forall x | x in Without(s.queue, d)
      ensures Timely(x, s.time)
    {
      WithoutMember(s.queue, d, x);
    }
  }

  lemma RequestKeeps(s: Sim, r: Request)
    requires Inv(s) && PoliteRequest(r)
    ensures Inv(Perform1(s, r))
  {
    hide Inv, Enter;
    match r
    case Schedule(device, event_id, delay) => EnterKeeps(s, Event(s.time + delay, device, event_id));
    case Unschedule(device) => UnscheduleKeeps(s, device);
    case EndRun => EnterKeeps(s, EndEvent(s.time));
  }

  /** A script changes the queue and its account, and nothing else. */
  lemma {:induction false} PerformKeeps(s: Sim, script: seq<Request>)
    requires Inv(s) && Polite(script)
    ensures Inv(Perform(s, script))
    ensures Perform(s, script).time == s.time && Perform(s, script).log == s.log
            && Perform(s, script).status == s.status
  {
    hide Inv;
    if script != [] {
      var n := |script| - 1;
      PerformKeeps(s, script[..n]);
      RequestKeeps(Perform(s, script[..n]), script[n]);
    }
  }

  /** A pending end is in front of everything. */
  lemma EndIsFront(s: Sim)
    requires Inv(s) && EndEvent(s.time) in s.queue
    ensures s.queue[0] == EndEvent(s.time)
  {
    var i :| 0 <= i < |s.queue| && s.queue[i] == EndEvent(s.time);
    assert s.queue[0] in s.queue;
    assert i > 0 ==> !Before(s.queue[i], s.queue[0]);
  }

  lemma PopTimely(s: Sim)
    requires Inv(s) && s.queue != [] && s.queue[0].device != 0
    ensures AllTimely(Pop(s).queue, Pop(s).time)
  {
    forall x | x in s.queue[1..]
      ensures Timely(x, s.queue[0].timestamp)
    {
      assert x in s.queue && s.queue[0] in s.queue;
      if x.device == 0 {
        EndIsFront(s);
      }
    }
  }

  lemma PopBalanced(s: Sim)
    requires Balanced(s) && s.queue != []
    ensures Balanced(Pop(s))
  {
    assert s.queue == [s.queue[0]] + s.queue[1..];
  }

  lemma PopChronological(s: Sim)
    requires Inv(s) && s.queue != []
    ensures Chronological(Pop(s).log, Pop(s).time) && Pop(s).time >= s.time
  {
    assert s.queue[0] in s.queue;
  }

  lemma PopKeeps(s: Sim)
    requires Inv(s) && s.queue != [] && s.queue[0].device != 0
    ensures Inv(Pop(s)) && Pop(s).time >= s.time
  {
    PopTimely(s);
    PopBalanced(s);
    PopChronological(s);
  }

  lemma EndKeeps(s: Sim)
    requires Inv(s) && s.queue != [] && s.queue[0].device == 0
    ensures s.queue[0] == EndEvent(s.time) && Inv(Pop(s)) && Pop(s).time == s.time
  {
    assert s.queue[0] in s.queue;
    PopBalanced(s);
    PopChronological(s);
  }

  lemma TurnKeeps(s: Sim, to: int, act: Devices)
    requires Inv(s) && PoliteDevices(act)
    ensures Inv(Turn(s, to, act)) && Turn(s, to, act).time >= s.time
  {
    hide Perform, Sorted, AllTimely, Chronological;
    if !Stopped(s, to) && s.queue != [] {
      if s.queue[0].device != 0 {
        PopKeeps(s);
        PerformKeeps(Pop(s), act(Pop(s).log));
      } else {
        EndKeeps(s);
      }
    }
  }

  /** After any number of rounds of any polite devices the queue is in order, no pending event lies in the
      past, events dispatched, pending and taken back are together the events scheduled, and time has not
      gone back. */
  lemma {:induction false} RunsKeep(s: Sim, to: int, act: Devices, n: nat)
    requires Inv(s) && PoliteDevices(act)
    ensures Inv(Turns(s, to, act, n)) && Turns(s, to, act, n).time >= s.time
    decreases n
  {
    hide Inv, Turn;
    if n > 0 {
      TurnKeeps(s, to, act);
      RunsKeep(Turn(s, to, act), to, act, n - 1);
    }
  }

  lemma EveryRunKeeps(boot: seq<Request>, to: int, act: Devices, n: nat)
    requires Polite(boot) && PoliteDevices(act)
    ensures Inv(Turns(Booted(boot), to, act, n))
  {
    hide Turns, Perform;
    PerformKeeps(Sim([], 0, Running, [], multiset{}, multiset{}), boot);
    RunsKeep(Booted(boot), to, act, n);
  }

  /** What a round dispatches comes before everything still pending. */
  lemma EachPopIsMinimum(s: Sim, to: int, act: Devices)
    requires Inv(s) && PoliteDevices(act) && !Stopped(s, to) && s.queue != []
    ensures Turn(s, to, act).log == s.log + [s.queue[0]]
    ensures forall e :: e in s.queue ==> DueNoLater(s.queue[0], e)
  {
    hide Perform;
    SortedIff(s.queue);
    if s.queue[0].device != 0 {
      PopKeeps(s);
      PerformKeeps(Pop(s), act(Pop(s).log));
    }
    forall e | e in s.queue
      ensures DueNoLater(s.queue[0], e)
    {
      var i :| 0 <= i < |s.queue| && s.queue[i] == e;
    }
  }

  lemma {:induction false} StoppedStays(s: Sim, to: int, act: Devices, n: nat)
    requires Stopped(s, to)
    ensures Turns(s, to, act, n) == s
  {
    if n > 0 {
      StoppedStays(s, to, act, n - 1);
    }
  }

  /** Once a device has asked for the end no device acts again: what is left of the run is at most the end
      event itself, at the same instant. */
  lemma EndIsPrompt(s: Sim, to: int, act: Devices, n: nat)
    requires Inv(s) && EndEvent(s.time) in s.queue
    ensures Turns(s, to, act, n).log == s.log + (if n == 0 || Stopped(s, to) then [] else [EndEvent(s.time)])
    ensures n > 0 && !Stopped(s, to) ==> Turns(s, to, act, n).status == Ended && Turns(s, to, act, n).time == s.time
  {
    hide Inv;
    EndIsFront(s);
    if Stopped(s, to) {
      StoppedStays(s, to, act, n);
    } else if n > 0 {
      StoppedStays(Turn(s, to, act), to, act, n - 1);
    }
  }

  lemma RequestKeepsEnd(p: Sim, r: Request)
    requires PoliteRequest(r) && (EndEvent(p.time) in p.queue || r == EndRun)
    ensures EndEvent(p.time) in Perform1(p, r).queue
  {
    var e := EndEvent(p.time);
    match r
    case Schedule(device, event_id, delay) => InsertedMember(p.queue, Event(p.time + delay, device, event_id), e);
    case Unschedule(device) => WithoutMember(p.queue, device, e);
    case EndRun => InsertedMember(p.queue, e, e);
  }

  lemma {:induction false} AskedStays(s: Sim, script: seq<Request>)
    requires Inv(s) && Polite(script) && EndRun in script
    ensures EndEvent(s.time) in Perform(s, script).queue
  {
    hide Inv, Perform1;
    var n := |script| - 1;
    PerformKeeps(s, script[..n]);
    if script[n] != EndRun {
      AskedStays(s, script[..n]);
    }
    RequestKeepsEnd(Perform(s, script[..n]), script[n]);
  }

  /** From the act that asks for it, whatever else the act does. */
  lemma NoDeviceActsAfterEnd(s: Sim, to: int, act: Devices, n: nat)
    requires Inv(s) && PoliteDevices(act) && !Stopped(s, to) && s.queue != [] && s.queue[0].device != 0
    requires EndRun in act(s.log + [s.queue[0]])
    ensures var ran := s.log + [s.queue[0]];
            var log := Turns(s, to, act, n + 1).log;
            log == ran || log == ran + [EndEvent(s.queue[0].timestamp)]
  {
    hide Inv, Perform;
    var t := Pop(s);
    PopKeeps(s);
    PerformKeeps(t, act(t.log));
    AskedStays(t, act(t.log));
    EndIsPrompt(Turn(s, to, act), to, act, n);
    assert Turns(s, to, act, n + 1) == Turns(Turn(s, to, act), to, act, n);
  }

  // ----- every run ends -----

  function Schedules(script: seq<Request>): nat {
    if script == [] then 0
    else Schedules(script[..|script| - 1]) + if script[|script| - 1].Schedule? then 1 else 0
  }

  /** Each act schedules at most k events, each at least one unit of time ahead. */
  ghost predicate Paced(act: Devices, k: nat) {
    forall log :: PacedScript(act(log), k)
  }

  ghost predicate PacedScript(script: seq<Request>, k: nat) {
    Schedules(script) <= k && Ahead(script)
  }

  ghost predicate Ahead(script: seq<Request>) {
    forall i :: 0 <= i < |script| ==> script[i].Schedule? ==> script[i].delay >= 1
  }

  function Pow(b: nat, e: nat): nat {
    if e == 0 then 1 else b * Pow(b, e - 1)
  }

  lemma {:induction false} PowAscends(b: nat, i: nat, j: nat)
    requires b >= 1 && i <= j
    ensures 1 <= Pow(b, i) <= Pow(b, j)
    decreases j
  {
    if i < j {
      PowAscends(b, i, j - 1);
      assert b * Pow(b, j - 1) >= 1 * Pow(b, j - 1);
    } else if i > 0 {
      PowAscends(b, i - 1, i - 1);
    }
  }

  /** How many rounds an event due before `to` can lead to. */
  function Weight(e: Event, to: int, k: nat): nat {
    if e.device != 0 && e.timestamp < to then Pow(k + 1, to - e.timestamp) else 0
  }

  function Measure(q: seq<Event>, to: int, k: nat): nat {
    if q == [] then 0 else Weight(q[0], to, k) + Measure(q[1..], to, k)
  }

  lemma {:induction false} MeasureInserted(q: seq<Event>, e: Event, to: int, k: nat)
    ensures Measure(Inserted(q, e), to, k) == Measure(q, to, k) + Weight(e, to, k)
  {
    hide Weight;
    if q != [] && Before(q[0], e) {
      MeasureInserted(q[1..], e, to, k);
      assert Inserted(q, e)[1..] == Inserted(q[1..], e);
    } else {
      assert ([e] + q)[1..] == q;
    }
  }

  lemma {:induction false} MeasureWithout(q: seq<Event>, d: nat, to: int, k: nat)
    ensures Measure(Without(q, d), to, k) <= Measure(q, to, k)
  {
    hide Weight;
    if q != [] {
      MeasureWithout(q[1..], d, to, k);
      if q[0].device != d {
        assert Without(q, d)[1..] == Without(q[1..], d);
      }
    }
  }

  /** An event at least one unit ahead weighs at most this. */
  function Share(time: int, to: int, k: nat): nat {
    if time < to then Pow(k + 1, to - time - 1) else 0
  }

  lemma WeightAhead(e: Event, time: int, to: int, k: nat)
    requires e.timestamp >= time + 1
    ensures Weight(e, to, k) <= Share(time, to, k)
  {
    if e.device != 0 && e.timestamp < to {
      PowAscends(k + 1, to - e.timestamp, to - time - 1);
    }
  }

  lemma RequestWeighs(s: Sim, r: Request, to: int, k: nat)
    requires r.Schedule? ==> r.delay >= 1
    ensures Measure(Perform1(s, r).queue, to, k)
            <= Measure(s.queue, to, k) + if r.Schedule? then Share(s.time, to, k) else 0
  {
    hide Share, Measure;
    match r
    case Schedule(device, event_id, delay) =>
      var e := Event(s.time + delay, device, event_id);
      MeasureInserted(s.queue, e, to, k);
      WeightAhead(e, s.time, to, k);
    case Unschedule(device) => MeasureWithout(s.queue, device, to, k);
    case EndRun => MeasureInserted(s.queue, EndEvent(s.time), to, k);
  }

  lemma {:induction false} ScriptWeighs(s: Sim, script: seq<Request>, to: int, k: nat)
    requires Ahead(script)
    ensures Perform(s, script).time == s.time
    ensures Measure(Perform(s, script).queue, to, k) <= Measure(s.queue, to, k)
            + Schedules(script) * Share(s.time, to, k)
  {
    hide Share, Measure, Perform1;
    if script != [] {
      var n := |script| - 1;
      var p := Perform(s, script[..n]);
      ScriptWeighs(s, script[..n], to, k);
      RequestWeighs(p, script[n], to, k);
      SameTime(p, script[n]);
    }
  }

  lemma SameTime(p: Sim, r: Request)
    ensures Perform1(p, r).time == p.time
  {
  }

  lemma ShareFits(n: nat, k: nat, x: nat)
    requires n <= k && x >= 1
    ensures n * x < (k + 1) * x
  {
    assert (k + 1 - n) * x >= 1;
  }

  /** Each dispatch that leaves time below `to` makes the sum of (k + 1) ^ (to - timestamp), over the device
      events pending before `to`, smaller. */
  lemma DispatchShrinks(s: Sim, to: int, act: Devices, k: nat)
    requires Paced(act, k) && !Stopped(s, to) && s.queue != []
    requires s.queue[0].device != 0 && s.queue[0].timestamp < to
    ensures Measure(Turn(s, to, act).queue, to, k) < Measure(s.queue, to, k)
  {
    hide Perform, Schedules, Pow, Ahead;
    var t := Pop(s);
    var script := act(t.log);
    assert PacedScript(script, k);
    ScriptWeighs(t, script, to, k);
    PowAscends(k + 1, 0, to - t.time - 1);
    ShareFits(Schedules(script), k, Share(t.time, to, k));
    PowStep(k + 1, to - t.time);
  }

  lemma PowStep(b: nat, e: nat)
    requires e >= 1
    ensures Pow(b, e) == b * Pow(b, e - 1)
  {
  }

  /** A round of any other kind is the last. */
  lemma OtherwiseStops(s: Sim, to: int, act: Devices)
    requires Inv(s) && PoliteDevices(act) && !Stopped(s, to)
    requires s.queue == [] || s.queue[0].device == 0 || s.queue[0].timestamp >= to
    ensures Stopped(Turn(s, to, act), to)
  {
    hide Perform;
    if s.queue != [] {
      if s.queue[0].device == 0 {
        EndKeeps(s);
      } else {
        PopKeeps(s);
        PerformKeeps(Pop(s), act(Pop(s).log));
      }
    }
  }

  /** The run loop stops, within a number of rounds known beforehand. */
  lemma {:induction false} EveryRunStops(s: Sim, to: int, act: Devices, k: nat, n: nat)
    requires Inv(s) && PoliteDevices(act) && Paced(act, k) && n > Measure(s.queue, to, k)
    ensures Stopped(Turns(s, to, act, n), to)
    decreases n
  {
    hide Inv, Turn, Measure;
    if Stopped(s, to) {
      StoppedStays(s, to, act, n);
    } else {
      var t := Turn(s, to, act);
      if s.queue != [] && s.queue[0].device != 0 && s.queue[0].timestamp < to {
        TurnKeeps(s, to, act);
        DispatchShrinks(s, to, act, k);
        EveryRunStops(t, to, act, k, n - 1);
      } else {
        OtherwiseStops(s, to, act);
        StoppedStays(t, to, act, n - 1);
      }
    }
  }
}
