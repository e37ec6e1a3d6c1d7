/** relay/hlc.py: hybrid logical clocks. The class is one node's clock; the runs
    below it are any number of nodes exchanging stamps over skewed wall clocks. */
module HybridLogicalClock {
  import opened Common

  datatype Stamp = Stamp(physical: int, counter: int)

  predicate Before(a: Stamp, b: Stamp) {
    a.physical < b.physical || (a.physical == b.physical && a.counter < b.counter)
  }

  function Max(a: int, b: int): int {
    if a < b then b else a
  }

  // The source's `tick`.
  function Ticked(c: Stamp, wall: int): Stamp {
    if wall > c.physical then Stamp(wall, 0) else Stamp(c.physical, c.counter + 1)
  }

  // The source's `on_receive`.
  function Received(c: Stamp, wall: int, msg: Stamp): Stamp {
    var p := Max(Max(c.physical, msg.physical), wall);
    if p == c.physical && p == msg.physical then Stamp(p, Max(c.counter, msg.counter) + 1)
    else if p == c.physical then Stamp(p, c.counter + 1)
    else if p == msg.physical then Stamp(p, msg.counter + 1)
    else Stamp(p, 0)
  }

  // The smallest stamp after both.
  ghost predicate NextAfter(s: Stamp, a: Stamp, b: Stamp) {
    var later := if Before(a, b) then b else a;
    s == Stamp(later.physical, later.counter + 1)
  }

  class HybridLogicalClock {
    var physical: int
    var counter: int

    function Now(): Stamp
      reads this
    {
      Stamp(physical, counter)
    }

    constructor (physical: int, counter: int)
      ensures Now() == Stamp(physical, counter)
    {
      this.physical, this.counter := physical, counter;
    }

    /** The source's `tick`: the new stamp is after the old, and not before the
        wall clock. */
    method Tick(wallNow: int) returns (s: Stamp)
      modifies this
      ensures s == Now() == Ticked(old(Now()), wallNow)
      ensures Before(old(Now()), s) && s.physical >= wallNow
      ensures s == if wallNow > old(physical) then Stamp(wallNow, 0) else Stamp(old(physical), old(counter) + 1)
    {
      if wallNow > physical {
        physical := wallNow;
        counter := 0;
      } else {
        counter := counter + 1;
      }
      return Stamp(physical, counter);
    }

    /** The source's `on_receive`: after both the node's last stamp and the
        message's. */
    method OnReceive(wallNow: int, msg: Stamp) returns (s: Stamp)
      modifies this
      ensures s == Now() == Received(old(Now()), wallNow, msg)
      ensures Before(old(Now()), s) && Before(msg, s) && s.physical >= wallNow
      ensures wallNow > old(physical) && wallNow > msg.physical ==> s == Stamp(wallNow, 0)
      ensures !(wallNow > old(physical) && wallNow > msg.physical) ==> NextAfter(s, old(Now()), msg)
    {
      var newPhysical := Max(Max(physical, msg.physical), wallNow);
      if newPhysical == physical && physical == msg.physical {
        counter := Max(counter, msg.counter) + 1;
      } else if newPhysical == physical {
        counter := counter + 1;
      } else if newPhysical == msg.physical {
        counter := msg.counter + 1;
      } else {
        counter := 0;
      }
      physical := newPhysical;
      return Stamp(physical, counter);
    }

    /** The source's `compare`. */
    static method Compare(a: Stamp, b: Stamp) returns (r: int)
      ensures r == if Before(a, b) then -1 else if Before(b, a) then 1 else 0
      ensures r == 0 <==> a == b
    {
      if a.physical < b.physical || (a.physical == b.physical && a.counter < b.counter) {
        return -1;
      }
      if b.physical < a.physical || (b.physical == a.physical && b.counter < a.counter) {
        return 1;
      }
      return 0;
    }
  }

  // ---- runs

  // A local event (a send stamps with `tick` too), or the receipt of the message
  // stamped by the earlier event `source`.
  datatype Event =
    | Local(node: string, wall: int)
    | Receive(node: string, wall: int, source: nat)

  ghost predicate WellFormed(run: seq<Event>) {
    forall i :: 0 <= i < |run| && run[i].Receive? ==> run[i].source < i
  }

  // The node's last event before step `upTo`, or -1.
  function Previous(run: seq<Event>, i: nat, upTo: nat): (p: int)
    requires upTo <= i < |run|
    ensures -1 <= p < upTo
    ensures p >= 0 ==> run[p].node == run[i].node
    ensures forall k :: p < k < upTo ==> run[k].node != run[i].node
  {
    if upTo == 0 then -1
    else if run[upTo-1].node == run[i].node then upTo - 1
    else Previous(run, i, upTo - 1)
  }

  // The stamp issued at step `i`; every clock starts at (0, 0).
  function StampAt(run: seq<Event>, i: nat): Stamp
    requires WellFormed(run) && i < |run|
    decreases i
  {
    var p := Previous(run, i, i);
    var c := if p < 0 then Stamp(0, 0) else StampAt(run, p);
    match run[i]
    case Local(_, wall) => Ticked(c, wall)
    case Receive(_, wall, m) => Received(c, wall, StampAt(run, m))
  }

  // One step of happens-before: the same node's last event, or the send.
  predicate Precedes(run: seq<Event>, i: nat, j: nat)
    requires WellFormed(run) && j < |run|
  {
    Previous(run, j, j) == i || (run[j].Receive? && run[j].source == i)
  }

  // `i` is in the causal past of `j`, or is `j`.
  ghost predicate InPast(run: seq<Event>, i: nat, j: nat)
    requires WellFormed(run) && j < |run|
    decreases j
  {
    || i == j
    || exists k :: 0 <= k < j && Precedes(run, k, j) && InPast(run, i, k)
  }

  lemma StampGrows(run: seq<Event>, i: nat, j: nat)
    requires WellFormed(run) && i < j < |run| && Precedes(run, i, j)
    ensures Before(StampAt(run, i), StampAt(run, j))
  {
  }

  /** Causality, over every run: an event in another's causal past carries a
      smaller stamp, however the wall clocks are skewed. */
  lemma {:induction false} CausalityIsStamped(run: seq<Event>, i: nat, j: nat)
    requires WellFormed(run) && j < |run| && i != j
    requires InPast(run, i, j)
    ensures i < j && Before(StampAt(run, i), StampAt(run, j))
    decreases j
  {
    var k :| 0 <= k < j && Precedes(run, k, j) && InPast(run, i, k);
    StampGrows(run, k, j);
    if i != k { CausalityIsStamped(run, i, k); }
  }

  // `x` is the largest wall reading in the causal past of `j`, or the starting 0.
  ghost predicate IsLargestWall(run: seq<Event>, j: nat, x: int)
    requires WellFormed(run) && j < |run|
  {
    && (forall i :: 0 <= i <= j && InPast(run, i, j) ==> run[i].wall <= x)
    && x >= 0 && (x == 0 || WasRead(run, j, x))
  }

  ghost predicate WasRead(run: seq<Event>, j: nat, x: int)
    requires WellFormed(run) && j < |run|
  {
    exists i :: 0 <= i <= j && InPast(run, i, j) && run[i].wall == x
  }

  lemma ReadEarlier(run: seq<Event>, k: nat, j: nat, x: int)
    requires WellFormed(run) && k < j < |run| && Precedes(run, k, j)
    requires WasRead(run, k, x)
    ensures WasRead(run, j, x)
  {
  }

  lemma {:induction false} PhysicalWasRead(run: seq<Event>, j: nat)
    requires WellFormed(run) && j < |run|
    ensures StampAt(run, j).physical == 0 || WasRead(run, j, StampAt(run, j).physical)
    decreases j
  {
    var x, p := StampAt(run, j).physical, Previous(run, j, j);
    if x == run[j].wall {
      assert InPast(run, j, j);
    } else if p >= 0 && x == StampAt(run, p).physical {
      PhysicalWasRead(run, p);
      if x != 0 { ReadEarlier(run, p, j, x); }
    } else if run[j].Receive? && x == StampAt(run, run[j].source).physical {
      PhysicalWasRead(run, run[j].source);
      if x != 0 { ReadEarlier(run, run[j].source, j, x); }
    }
  }

  lemma {:induction false} PhysicalIsNotNegative(run: seq<Event>, j: nat)
    requires WellFormed(run) && j < |run|
    ensures StampAt(run, j).physical >= 0
    decreases j
  {
    var p := Previous(run, j, j);
    if p >= 0 { PhysicalIsNotNegative(run, p); }
  }

  /** The physical part is exactly the largest wall reading in the event's causal
      past (or the starting 0): it never runs ahead of every wall clock the event
      could know of. */
  lemma PhysicalIsLargestKnownWall(run: seq<Event>, j: nat)
    requires WellFormed(run) && j < |run|
    ensures IsLargestWall(run, j, StampAt(run, j).physical)
  {
    PhysicalWasRead(run, j);
    PhysicalIsNotNegative(run, j);
    forall i | 0 <= i <= j && InPast(run, i, j) ensures run[i].wall <= StampAt(run, j).physical {
      assert run[i].wall <= StampAt(run, i).physical;
      if i != j { CausalityIsStamped(run, i, j); }
    }
  }

  // The event's wall clock is past the start and past every reading in the event's
  // causal past.
  ghost predicate WallIsAhead(run: seq<Event>, j: nat)
    requires WellFormed(run) && j < |run|
  {
    run[j].wall > 0 && forall i :: 0 <= i < j && InPast(run, i, j) ==> run[i].wall < run[j].wall
  }

  // The stamps an event starts from lie before its wall reading.
  ghost predicate AheadOfStamps(run: seq<Event>, j: nat)
    requires WellFormed(run) && j < |run|
  {
    run[j].wall > 0 && forall k: nat :: k < j && Precedes(run, k, j) ==> StampAt(run, k).physical < run[j].wall
  }

  lemma {:induction false} CounterRestarts(run: seq<Event>, j: nat)
    requires WellFormed(run) && j < |run|
    ensures StampAt(run, j).counter >= 0
    ensures StampAt(run, j).counter == 0 <==> AheadOfStamps(run, j)
    decreases j
  {
    var p := Previous(run, j, j);
    if p >= 0 {
      CounterRestarts(run, p);
      PhysicalIsNotNegative(run, p);
      assert Precedes(run, p, j);
    }
    if run[j].Receive? {
      var m := run[j].source;
      CounterRestarts(run, m);
      PhysicalIsNotNegative(run, m);
      assert Precedes(run, m, j);
    }
  }

  lemma AheadOfStampsIffOfWalls(run: seq<Event>, j: nat)
    requires WellFormed(run) && j < |run|
    ensures AheadOfStamps(run, j) <==> WallIsAhead(run, j)
  {
    if WallIsAhead(run, j) {
      forall k: nat | k < j && Precedes(run, k, j) ensures StampAt(run, k).physical < run[j].wall {
        PhysicalWasRead(run, k);
        if WasRead(run, k, StampAt(run, k).physical) {
          var i :| 0 <= i <= k && InPast(run, i, k) && run[i].wall == StampAt(run, k).physical;
          assert InPast(run, i, j);
        }
      }
    }
    if AheadOfStamps(run, j) {
      forall i | 0 <= i < j && InPast(run, i, j) ensures run[i].wall < run[j].wall {
        var k :| 0 <= k < j && Precedes(run, k, j) && InPast(run, i, k);
        CausalityIsOrdered(run, i, k);
        PhysicalIsLargestKnownWall(run, k);
      }
    }
  }

  lemma CausalityIsOrdered(run: seq<Event>, i: nat, k: nat)
    requires WellFormed(run) && k < |run| && InPast(run, i, k)
    ensures i <= k
  {
    if i != k { CausalityIsStamped(run, i, k); }
  }

  /** The counter starts over exactly where the wall clock has moved past every
      reading the event could know of; everywhere else it counts. */
  lemma CounterIsZeroIff(run: seq<Event>, j: nat)
    requires WellFormed(run) && j < |run|
    ensures StampAt(run, j).counter == 0 <==> WallIsAhead(run, j)
  {
    CounterRestarts(run, j);
    AheadOfStampsIffOfWalls(run, j);
  }

  // The events of j's causal past, itself included, that carry j's physical part
  // and whose wall clock had not moved past what they knew.
  ghost function Stalls(run: seq<Event>, j: nat): set<nat>
    requires WellFormed(run) && j < |run|
  {
    set i: nat | i <= j && StalledIn(run, i, j)
  }

  ghost predicate StalledIn(run: seq<Event>, i: nat, j: nat)
    requires WellFormed(run) && i <= j < |run|
  {
    InPast(run, i, j) && StampAt(run, i).physical == StampAt(run, j).physical && !WallIsAhead(run, i)
  }

  lemma StallsGrow(run: seq<Event>, k: nat, j: nat)
    requires WellFormed(run) && k < j < |run| && Precedes(run, k, j)
    requires StampAt(run, k).physical == StampAt(run, j).physical && StampAt(run, j).counter > 0
    ensures |Stalls(run, k)| < |Stalls(run, j)|
  {
    CounterIsZeroIff(run, j);
    forall i: nat | i <= k && StalledIn(run, i, k) ensures StalledIn(run, i, j) { }
    assert StalledIn(run, j, j) && j !in Stalls(run, k);
    assert Stalls(run, k) + {j} <= Stalls(run, j);
    SubsetSize(Stalls(run, k) + {j}, Stalls(run, j));
  }

  // A counter above zero is one more than that of an event just before with the same
  // physical part, or the first.
  lemma CounterContinues(run: seq<Event>, j: nat) returns (k: int)
    requires WellFormed(run) && j < |run| && StampAt(run, j).counter > 0
    ensures -1 <= k < j
    ensures k == -1 ==> StampAt(run, j).counter == 1
    ensures k >= 0 ==> Precedes(run, k, j) && StampAt(run, k).physical == StampAt(run, j).physical
                       && StampAt(run, j).counter == StampAt(run, k).counter + 1
  {
    var p, s := Previous(run, j, j), StampAt(run, j);
    if run[j].Receive? {
      var m := StampAt(run, run[j].source);
      CounterRestarts(run, run[j].source);
      if p >= 0 { CounterRestarts(run, p); }
      if m.physical == s.physical && s.counter == m.counter + 1 { return run[j].source; }
    }
    return p;
  }

  /** The counter counts only stalls: it is at most the number of events of the
      causal past that share the physical part and did not advance it. */
  lemma {:induction false} CounterIsBounded(run: seq<Event>, j: nat)
    requires WellFormed(run) && j < |run|
    ensures 0 <= StampAt(run, j).counter <= |Stalls(run, j)|
    decreases j
  {
    CounterRestarts(run, j);
    CounterIsZeroIff(run, j);
    if StampAt(run, j).counter > 0 {
      assert StalledIn(run, j, j) && j in Stalls(run, j);
      SubsetSize({j}, Stalls(run, j));
      var k := CounterContinues(run, j);
      if k >= 0 {
        CounterIsBounded(run, k);
        StallsGrow(run, k, j);
      }
    }
  }
}
