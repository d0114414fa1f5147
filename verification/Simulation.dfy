/** The simulation as the object it is in src/simulation/simulation.cpp: queue and time updated in place. */
module Simulation {
  import opened EventQueue
  import opened SimulationRuns

  datatype Finish = NoDevices | Deadlock | Returned

  class Simulation {
    var event_queue: seq<Event>
    var time: int
    var devices: seq<nat>
    // what has been dispatched, for the devices' scripts to depend on, and the account of the rest
    var log: seq<Event>
    ghost var scheduled: multiset<Event>
    ghost var cancelled: multiset<Event>

    ghost function Snapshot(status: Status): Sim
      reads this
    {
      Sim(event_queue, time, status, log, scheduled, cancelled)
    }

    method AddDevice(device: nat)
      modifies this`devices
      ensures devices == if device in old(devices) then old(devices) else old(devices) + [device]
    {
      if device in devices {
        return;
      }
      devices := devices + [device];
    }

    method ScheduleEvent(device: nat, event: int, time: int)
      requires Sorted(event_queue)
      modifies this`event_queue, this`scheduled
      ensures event_queue == Inserted(old(event_queue), Event(time, device, event))
      ensures scheduled == old(scheduled) + multiset{Event(time, device, event)}
    {
      hide Inserted;
      var new_evt := Event(time, device, event);
      scheduled := scheduled + multiset{new_evt};
      if event_queue == [] || Before(new_evt, event_queue[0]) {
        FrontInsert(event_queue, new_evt);
        event_queue := [new_evt] + event_queue;
        return;
      }
      if Before(event_queue[|event_queue| - 1], new_evt) {
        BackInsert(event_queue, new_evt);
        event_queue := event_queue + [new_evt];
        return;
      }
      var it := 0;
      while it < |event_queue|
        invariant 0 <= it < |event_queue|
        invariant event_queue == old(event_queue)
        invariant forall j :: 0 <= j < it ==> Before(event_queue[j], new_evt)
      {
        if !Before(event_queue[it], new_evt) {
          SlowInsert(event_queue, new_evt, it);
          event_queue := event_queue[..it] + [new_evt] + event_queue[it..];
          break;
        }
        it := it + 1;
      }
    }

    method ScheduleEventIn(device: nat, event: int, time: int)
      requires Sorted(event_queue)
      modifies this`event_queue, this`scheduled
      ensures event_queue == Inserted(old(event_queue), Event(this.time + time, device, event))
      ensures scheduled == old(scheduled) + multiset{Event(this.time + time, device, event)}
    {
      ScheduleEvent(device, event, this.time + time);
    }

    method UnscheduleAll(device: nat)
      modifies this`event_queue, this`cancelled
      ensures event_queue == Without(old(event_queue), device)
      ensures cancelled == old(cancelled) + multiset(Only(old(event_queue), device))
    {
      cancelled := cancelled + multiset(Only(event_queue, device));
      var kept: seq<Event> := [];
      for i := 0 to |event_queue|
        invariant event_queue == old(event_queue)
        invariant cancelled == old(cancelled) + multiset(Only(old(event_queue), device))
        invariant kept == Without(event_queue[..i], device)
      {
        WithoutSnoc(event_queue[..i], event_queue[i], device);
        assert event_queue[..i + 1] == event_queue[..i] + [event_queue[i]];
        if event_queue[i].device != device {
          kept := kept + [event_queue[i]];
        }
      }
      assert event_queue[..|event_queue|] == event_queue;
      event_queue := kept;
    }

    method End()
      requires Sorted(event_queue)
      modifies this`event_queue, this`scheduled
      ensures event_queue == Inserted(old(event_queue), EndEvent(time))
      ensures scheduled == old(scheduled) + multiset{EndEvent(time)}
    {
      ScheduleEventIn(0, -1, 0);
    }

    /** One request of a device that acts. */
    method Serve(r: Request)
      requires Sorted(event_queue)
      modifies this`event_queue, this`scheduled, this`cancelled
      ensures Snapshot(Running) == Perform1(old(Snapshot(Running)), r)
    {
      hide Inserted, Without, Only;
      match r
      case Schedule(device, event_id, delay) => ScheduleEventIn(device, event_id, delay);
      case Unschedule(device) => UnscheduleAll(device);
      case EndRun => End();
    }

    /** What a device does in its act or its reset. */
    method Act(script: seq<Request>)
      requires Inv(Snapshot(Running)) && Polite(script)
      modifies this`event_queue, this`scheduled, this`cancelled
      ensures Snapshot(Running) == Perform(old(Snapshot(Running)), script)
    {
      hide AllTimely, Balanced, Chronological, Perform1;
      for i := 0 to |script|
        invariant Snapshot(Running) == Perform(old(Snapshot(Running)), script[..i])
      {
        PerformKeeps(old(Snapshot(Running)), script[..i]);
        Serve(script[i]);
        PerformNext(old(Snapshot(Running)), script, i);
      }
      assert script[..|script|] == script;
    }

    method Reset()
      modifies this`event_queue, this`time, this`log, this`scheduled, this`cancelled
      ensures Snapshot(Running) == Sim([], 0, Running, [], multiset{}, multiset{})
    {
      time := 0;
      event_queue := [];
      log, scheduled, cancelled := [], multiset{}, multiset{};
    }

    /** pop_front, and the new time. */
    method PopFront() returns (evt: Event)
      requires event_queue != []
      modifies this`event_queue, this`time, this`log
      ensures evt == old(event_queue[0])
      ensures Snapshot(Running) == Pop(old(Snapshot(Running)))
    {
      evt := event_queue[0];
      event_queue := event_queue[1..];
      time := evt.timestamp;
      log := log + [evt];
    }

    /** One pass of the run loop's body, less the wait for real time. */
    method RunOnce(to_time: int, act: Devices) returns (ended: bool)
      requires Inv(Snapshot(Running)) && PoliteDevices(act) && !Stopped(Snapshot(Running), to_time)
      requires event_queue != []
      modifies this`event_queue, this`time, this`log, this`scheduled, this`cancelled
      ensures Snapshot(if ended then Ended else Running) == Turn(old(Snapshot(Running)), to_time, act)
    {
      hide Perform, Inv;
      ghost var before := Snapshot(Running);
      if event_queue[0].device != 0 {
        PopKeeps(before);
      }
      var evt := PopFront();
      if evt.device != 0 {
        Act(act(log));
      } else if evt.event_id == -1 {
        return true;
      }
      return false;
    }

    /** runToTime: the devices reset, then the loop, which stops because every act paces itself. */
    method RunToTime(to_time: int, boot: seq<Request>, act: Devices, ghost k: nat) returns (r: Finish, ghost n: nat)
      requires Polite(boot) && PoliteDevices(act) && Paced(act, k)
      modifies this`event_queue, this`time, this`log, this`scheduled, this`cancelled
      ensures devices == [] <==> r == NoDevices
      ensures devices != [] ==> var s := Turns(Booted(boot), to_time, act, n);
                Stopped(s, to_time) && s == Snapshot(s.status) && (r == Deadlock <==> s.status == Deadlocked)
    {
      hide Inv, Turns, Turn, Perform, Measure, Paced, Polite, PoliteDevices;
      r, n := Returned, 0;
      if devices == [] {
        return NoDevices, 0;
      }
      Reset();
      ghost var s0 := Booted(boot);
      Boot(boot);
      assert Turns(s0, to_time, act, 0) == s0 by { NoTurns(s0, to_time, act); }
      while time < to_time
        invariant Snapshot(Running) == Turns(s0, to_time, act, n)
        invariant Inv(Snapshot(Running)) && r == Returned
        decreases if time < to_time then 1 else 0, Measure(event_queue, to_time, k)
      {
        ghost var s := Snapshot(Running);
        TurnsNext(s0, to_time, act, n);
        n := n + 1;
        if event_queue == [] {
          EmptyTurn(s, to_time, act);
          return Deadlock, n;
        }
        var ended := RunOnce(to_time, act);
        if ended {
          return Returned, n;
        }
        TurnKeeps(s, to_time, act);
        if s.queue[0].device != 0 && s.queue[0].timestamp < to_time {
          DispatchShrinks(s, to_time, act, k);
        } else {
          OtherwiseStops(s, to_time, act);
        }
      }
    }

    method Boot(boot: seq<Request>)
      requires Snapshot(Running) == Sim([], 0, Running, [], multiset{}, multiset{}) && Polite(boot)
      modifies this`event_queue, this`scheduled, this`cancelled
      ensures Snapshot(Running) == Booted(boot) && Inv(Snapshot(Running))
    {
      hide Perform;
      PerformKeeps(Snapshot(Running), boot);
      Act(boot);
    }
  }

  lemma NoTurns(s: Sim, to: int, act: Devices)
    ensures Turns(s, to, act, 0) == s
  {
  }

  lemma EmptyTurn(s: Sim, to: int, act: Devices)
    requires !Stopped(s, to) && s.queue == []
    ensures Turn(s, to, act) == s.(status := Deadlocked)
  {
  }

  lemma {:induction false} TurnsNext(s: Sim, to: int, act: Devices, n: nat)
    ensures Turns(s, to, act, n + 1) == Turn(Turns(s, to, act, n), to, act)
    decreases n
  {
    hide Turn;
    if n > 0 {
      TurnsNext(Turn(s, to, act), to, act, n - 1);
    } else {
      NoTurns(Turn(s, to, act), to, act);
    }
  }

  lemma PerformNext(s: Sim, script: seq<Request>, i: nat)
    requires i < |script|
    ensures Perform(s, script[..i + 1]) == Perform1(Perform(s, script[..i]), script[i])
  {
    hide Perform1;
    assert script[..i + 1][..i] == script[..i];
  }
}
