/** The event queue of src/simulation/simulation.cpp: a sequence kept in order by `before`. */
module EventQueue {

  /** A device is its address, zero for the simulation itself. */
  datatype Event = Event(timestamp: int, device: nat, event_id: int)

  predicate Before(a: Event, b: Event) {
    if a.timestamp != b.timestamp then a.timestamp < b.timestamp
    else if a.event_id != b.event_id then a.event_id < b.event_id
    else a.device < b.device
  }

  /** `before` is a strict order in which no two different events are equal. */
  lemma BeforeIsStrictAndTotal(a: Event, b: Event, c: Event)
    ensures !(Before(a, b) && Before(b, a))
    ensures Before(a, b) && Before(b, c) ==> Before(a, c)
    ensures Before(a, b) || Before(b, a) || a == b
  {
  }

  ghost predicate Sorted(q: seq<Event>) {
    forall i, j :: 0 <= i < j < |q| ==> !Before(q[j], q[i])
  }

  /** Due no later, and at one instant with no greater id, and of one id for no later device. */
  predicate DueNoLater(a: Event, b: Event) {
    && a.timestamp <= b.timestamp
    && (a.timestamp == b.timestamp ==>
          && a.event_id <= b.event_id
          && (a.event_id == b.event_id ==> a.device <= b.device))
  }

  /** So a queue in order is one by time, then event id, then device. */
  lemma SortedIff(q: seq<Event>)
    ensures Sorted(q) <==> forall i, j :: 0 <= i < j < |q| ==> DueNoLater(q[i], q[j])
  {
    assert forall a, b :: DueNoLater(a, b) <==> !Before(b, a);
    hide DueNoLater, Before;
  }

  /** Where the slow path of scheduleEvent puts a new event. */
  function Inserted(q: seq<Event>, e: Event): seq<Event> {
    if q == [] || !Before(q[0], e) then [e] + q else [q[0]] + Inserted(q[1..], e)
  }

  lemma {:induction false} InsertedMember(q: seq<Event>, e: Event, x: Event)
    ensures x in Inserted(q, e) <==> x == e || x in q
  {
    if q != [] && Before(q[0], e) {
      InsertedMember(q[1..], e, x);
      assert q == [q[0]] + q[1..];
    }
  }

  lemma {:induction false} InsertedSorted(q: seq<Event>, e: Event)
    requires Sorted(q)
    ensures Sorted(Inserted(q, e))
  {
    if q == [] {
    } else if !Before(q[0], e) {
      forall y | y in q
        ensures !Before(y, e)
      {
        var i :| 0 <= i < |q| && q[i] == y;
        assert i > 0 ==> !Before(q[i], q[0]);
      }
    } else {
      InsertedSorted(q[1..], e);
      forall y | y in Inserted(q[1..], e)
        ensures !Before(y, q[0])
      {
        InsertedMember(q[1..], e, y);
      }
    }
  }

  lemma {:induction false} InsertedCounts(q: seq<Event>, e: Event)
    ensures multiset(Inserted(q, e)) == multiset(q) + multiset{e}
  {
    if q != [] && Before(q[0], e) {
      InsertedCounts(q[1..], e);
      assert q == [q[0]] + q[1..];
    }
  }

  /** The first fast path is the slow path's answer. */
  lemma FrontInsert(q: seq<Event>, e: Event)
    requires q == [] || Before(e, q[0])
    ensures Inserted(q, e) == [e] + q
  {
  }

  /** And so is the second, in a sorted queue. */
  lemma {:induction false} BackInsert(q: seq<Event>, e: Event)
    requires Sorted(q) && q != [] && Before(q[|q| - 1], e)
    ensures Inserted(q, e) == q + [e]
  {
    assert |q| > 1 ==> !Before(q[|q| - 1], q[0]);
    if |q| > 1 {
      BackInsert(q[1..], e);
      assert q + [e] == [q[0]] + (q[1..] + [e]);
    } else {
      assert q[1..] == [] && q == [q[0]];
    }
  }

  /** The slow path stops at the first event not before the new one. */
  lemma {:induction false} SlowInsert(q: seq<Event>, e: Event, i: nat)
    requires i < |q| && !Before(q[i], e) && forall j :: 0 <= j < i ==> Before(q[j], e)
    ensures Inserted(q, e) == q[..i] + [e] + q[i..]
  {
    hide Before;
    if i > 0 {
      SlowInsert(q[1..], e, i - 1);
      assert q[..i] == [q[0]] + q[1..][..i - 1] && q[1..][i - 1..] == q[i..];
    }
  }

  // ----- unscheduling -----

  function Without(q: seq<Event>, d: nat): seq<Event> {
    if q == [] then []
    else if q[0].device == d then Without(q[1..], d)
    else [q[0]] + Without(q[1..], d)
  }

  function Only(q: seq<Event>, d: nat): seq<Event> {
    if q == [] then []
    else if q[0].device == d then [q[0]] + Only(q[1..], d)
    else Only(q[1..], d)
  }

  lemma {:induction false} WithoutCounts(q: seq<Event>, d: nat)
    ensures multiset(q) == multiset(Without(q, d)) + multiset(Only(q, d))
  {
    if q != [] {
      WithoutCounts(q[1..], d);
      assert q == [q[0]] + q[1..];
    }
  }

  lemma {:induction false} WithoutMember(q: seq<Event>, d: nat, x: Event)
    ensures x in Without(q, d) <==> x in q && x.device != d
    ensures x in Only(q, d) <==> x in q && x.device == d
  {
    if q != [] {
      WithoutMember(q[1..], d, x);
      assert q == [q[0]] + q[1..];
    }
  }

  lemma {:induction false} WithoutSorted(q: seq<Event>, d: nat)
    requires Sorted(q)
    ensures Sorted(Without(q, d))
  {
    if q != [] {
      WithoutSorted(q[1..], d);
      if q[0].device != d {
        forall y | y in Without(q[1..], d)
          ensures !Before(y, q[0])
        {
          WithoutMember(q[1..], d, y);
        }
      }
    }
  }

  lemma {:induction false} WithoutSnoc(q: seq<Event>, e: Event, d: nat)
    ensures Without(q + [e], d) == Without(q, d) + if e.device == d then [] else [e]
  {
    if q != [] {
      WithoutSnoc(q[1..], e, d);
      assert (q + [e])[1..] == q[1..] + [e];
    } else {
      assert (q + [e])[1..] == [];
    }
  }
}
