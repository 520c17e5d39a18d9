/**
 xEventGroupSync as a rendezvous: tasks that each set bits of their own and wait for the bits of all.
 */
module Rendezvous {
  import opened EventBits

  /** The event bits, the waiting tasks, and what the event list items of released tasks hold. */
  datatype Group = Group(bits: Bits, list: seq<Waiter>, values: map<Id, Bits>)

  datatype Arrival = Arrival(task: Id, bits: Bits)

  function TaskSet(list: seq<Waiter>): set<Id> {
    set w | w in list :: w.task
  }

  /** Each released waiter gets the same value. */
  function Deliver(values: map<Id, Bits>, released: seq<Waiter>, value: Bits): map<Id, Bits> {
    map t | t in values.Keys + TaskSet(released) :: if t in TaskSet(released) then value else values[t]
  }

  /** xEventGroupSetBits */
  function SetBits(g: Group, bits: Bits): Group {
    var now := Or(g.bits, bits);
    Group(Without(now, ToClear(g.list, now)), Kept(g.list, now),
          Deliver(g.values, Released(g.list, now), Snapshot(now)))
  }

  /** xEventGroupSync up to the point where the task returns or blocks, for a block time that is not zero */
  function Arrive(g: Group, t: Id, bits: Bits, waitFor: Bits): Group {
    var h := SetBits(g, bits);
    if TestWaitCondition(Or(g.bits, bits), waitFor, true) then h.(bits := Without(h.bits, waitFor))
    else h.(list := h.list + [Waiter(t, WaitValue(waitFor, true, true))])
  }

  function ArriveAll(g: Group, arrivals: seq<Arrival>, waitFor: Bits): Group {
    if arrivals == [] then g
    else
      var n := |arrivals| - 1;
      Arrive(ArriveAll(g, arrivals[..n], waitFor), arrivals[n].task, arrivals[n].bits, waitFor)
  }

  function AllBits(start: Bits, arrivals: seq<Arrival>): Bits {
    if arrivals == [] then start
    else
      var n := |arrivals| - 1;
      Or(AllBits(start, arrivals[..n]), arrivals[n].bits)
  }

  function WaitersOf(arrivals: seq<Arrival>, waitFor: Bits): seq<Waiter> {
    seq(|arrivals|, i requires 0 <= i < |arrivals| => Waiter(arrivals[i].task, WaitValue(waitFor, true, true)))
  }

  lemma SatisfiedWhenComplete(waitFor: Bits, current: Bits)
    requires Plain(waitFor)
    ensures Satisfied(WaitValue(waitFor, true, true), current) <==> TestWaitCondition(current, waitFor, true)
    ensures Clearing(WaitValue(waitFor, true, true), current) ==
            if TestWaitCondition(current, waitFor, true) then waitFor else 0
  {
    WaitValueRoundTrip(waitFor, true, true);
  }

  lemma IncompleteBefore(before: Bits, bits: Bits, waitFor: Bits)
    ensures !TestWaitCondition(Or(before, bits), waitFor, true) ==> !TestWaitCondition(before, waitFor, true)
  {
  }

  lemma OrZero(a: Bits)
    ensures Or(0, a) == a && Or(a, a) == a && Or(a, 0) == a && Without(a, 0) == a
  {
  }

  lemma ClearTwice(a: Bits, b: Bits)
    ensures Without(Without(a, b), b) == Without(a, b)
  {
  }

  /** All the waiters of the rendezvous are released together, or none of them. */
  lemma {:induction false} AllOrNone(list: seq<Waiter>, waitFor: Bits, current: Bits)
    requires Plain(waitFor) && forall i :: 0 <= i < |list| ==> list[i].value == WaitValue(waitFor, true, true)
    ensures TestWaitCondition(current, waitFor, true) ==>
      && Released(list, current) == list && Kept(list, current) == []
      && ToClear(list, current) == if list == [] then 0 else waitFor
    ensures !TestWaitCondition(current, waitFor, true) ==>
      Released(list, current) == [] && Kept(list, current) == list && ToClear(list, current) == 0
  {
    hide Satisfied, Clearing, TestWaitCondition, WaitValue, Or, Plain;
    if list != [] {
      assert list == [list[0]] + list[1..];
      AllOrNone(list[1..], waitFor, current);
      SatisfiedWhenComplete(waitFor, current);
      OrZero(waitFor);
      OrZero(0);
    }
  }

  lemma DeliverNothing(values: map<Id, Bits>, value: Bits)
    ensures Deliver(values, [], value) == values
  {
  }

  lemma OneArrives(g: Group, t: Id, bits: Bits, waitFor: Bits)
    requires Plain(waitFor) && forall i :: 0 <= i < |g.list| ==> g.list[i].value == WaitValue(waitFor, true, true)
    ensures var now := Or(g.bits, bits);
      Arrive(g, t, bits, waitFor) ==
        if TestWaitCondition(now, waitFor, true)
        then Group(Without(now, waitFor), [], Deliver(g.values, g.list, Snapshot(now)))
        else Group(now, g.list + [Waiter(t, WaitValue(waitFor, true, true))], g.values)
  {
    hide TestWaitCondition, WaitValue, Or, Without, Plain, Deliver, Snapshot, Released, Kept, ToClear;
    var now := Or(g.bits, bits);
    AllOrNone(g.list, waitFor, now);
    OrZero(now);
    ClearTwice(now, waitFor);
    DeliverNothing(g.values, Snapshot(now));
  }

  /** Until the bits are complete everyone who arrives waits, in order, and no bit is lost. */
  lemma {:induction false} EveryoneWaits(start: Bits, values: map<Id, Bits>, arrivals: seq<Arrival>, waitFor: Bits)
    requires Plain(waitFor) && Without(waitFor, AllBits(start, arrivals)) != 0
    ensures ArriveAll(Group(start, [], values), arrivals, waitFor) ==
            Group(AllBits(start, arrivals), WaitersOf(arrivals, waitFor), values)
  {
    hide TestWaitCondition, WaitValue, Or, Without, Plain, Arrive;
    if arrivals != [] {
      var n := |arrivals| - 1;
      var before, list := AllBits(start, arrivals[..n]), WaitersOf(arrivals[..n], waitFor);
      IncompleteBefore(before, arrivals[n].bits, waitFor);
      WaitConditionMeans(before, waitFor, true);
      WaitConditionMeans(AllBits(start, arrivals), waitFor, true);
      EveryoneWaits(start, values, arrivals[..n], waitFor);
      OneArrives(Group(before, list, values), arrivals[n].task, arrivals[n].bits, waitFor);
      assert WaitersOf(arrivals, waitFor) == list + [Waiter(arrivals[n].task, WaitValue(waitFor, true, true))];
    }
  }

  /**
   The arrival that completes the bits releases every task that waits, each with the complete bits as its result,
   and leaves the bits of the rendezvous clear for the next one.
   */
  lemma {:induction false} LastArrivalReleasesAll(start: Bits, values: map<Id, Bits>, arrivals: seq<Arrival>,
                                                  last: Arrival, waitFor: Bits)
    requires Plain(waitFor) && Without(waitFor, AllBits(start, arrivals)) != 0
    requires Without(waitFor, AllBits(start, arrivals + [last])) == 0
    ensures var g := ArriveAll(Group(start, [], values), arrivals + [last], waitFor);
      var all := AllBits(start, arrivals + [last]);
      && g.list == [] && g.bits == Without(all, waitFor)
      && (forall a :: a in arrivals ==> a.task in g.values && g.values[a.task] == Snapshot(all))
      && g.values.Keys == values.Keys + set a | a in arrivals :: a.task
  {
    hide TestWaitCondition, WaitValue, Or, Without, Plain, Snapshot, Arrive, WaitersOf, TaskSet;
    var before, list := AllBits(start, arrivals), WaitersOf(arrivals, waitFor);
    assert (arrivals + [last])[..|arrivals|] == arrivals;
    WaitConditionMeans(AllBits(start, arrivals + [last]), waitFor, true);
    EveryoneWaits(start, values, arrivals, waitFor);
    SameTasks(arrivals, waitFor);
    OneArrives(Group(before, list, values), last.task, last.bits, waitFor);
  }

  lemma SameTasks(arrivals: seq<Arrival>, waitFor: Bits)
    ensures forall i :: 0 <= i < |arrivals| ==> WaitersOf(arrivals, waitFor)[i].value == WaitValue(waitFor, true, true)
    ensures |WaitersOf(arrivals, waitFor)| == |arrivals|
    ensures TaskSet(WaitersOf(arrivals, waitFor)) == set a | a in arrivals :: a.task
    ensures forall a :: a in arrivals ==> a.task in TaskSet(WaitersOf(arrivals, waitFor))
  {
    hide WaitValue;
    var list := WaitersOf(arrivals, waitFor);
    forall a | a in arrivals ensures a.task in TaskSet(list) {
      var i :| 0 <= i < |arrivals| && arrivals[i] == a;
      assert list[i] in list;
    }
    forall w | w in list ensures exists a :: a in arrivals && a.task == w.task {
      var i :| 0 <= i < |list| && list[i] == w;
      assert arrivals[i] in arrivals;
    }
  }

  // A rendezvous among other waiters

  /** The waiter does not clear any of the bits of the rendezvous. */
  predicate Harmless(value: Bits, waitFor: Bits) {
    !ClearsOnExit(value) || Avoids(EventBitsOf(value), waitFor)
  }

  /** The two agree on the bits of the rendezvous. */
  predicate Agree(a: Bits, b: Bits, waitFor: Bits) {
    a & waitFor == b & waitFor
  }

  /** Everyone who has arrived waits, and all the others were there before. */
  ghost predicate AllWait(list: seq<Waiter>, others: seq<Waiter>, arrivals: seq<Arrival>, waitFor: Bits) {
    && (forall a :: a in arrivals ==> Waiter(a.task, WaitValue(waitFor, true, true)) in list)
    && (forall w :: w in list ==> w.value == WaitValue(waitFor, true, true) || w in others)
  }

  lemma AgreeTests(a: Bits, b: Bits, waitFor: Bits)
    requires Agree(a, b, waitFor)
    ensures TestWaitCondition(a, waitFor, true) <==> TestWaitCondition(b, waitFor, true)
  {
  }

  lemma AgreeOr(a: Bits, b: Bits, bits: Bits, waitFor: Bits)
    requires Agree(a, b, waitFor)
    ensures Agree(Or(a, bits), Or(b, bits), waitFor)
  {
  }

  lemma AgreeWithout(a: Bits, clear: Bits, waitFor: Bits)
    ensures Avoids(clear, waitFor) ==> Agree(Without(a, clear), a, waitFor)
    ensures Avoids(Without(a, waitFor), waitFor)
  {
  }

  lemma AgreeOn(a: Bits, b: Bits, c: Bits, waitFor: Bits)
    requires Agree(a, b, waitFor) && Agree(b, c, waitFor)
    ensures Agree(a, c, waitFor)
  {
  }

  lemma HarmlessClearing(value: Bits, current: Bits, waitFor: Bits)
    requires Harmless(value, waitFor)
    ensures Avoids(Clearing(value, current), waitFor)
  {
    NothingInZero(waitFor);
  }

  /** Setting bits that do not complete the rendezvous releases nobody who waits in it and clears none of its bits. */
  lemma Incomplete(list: seq<Waiter>, others: seq<Waiter>, arrivals: seq<Arrival>, waitFor: Bits, now: Bits)
    requires Plain(waitFor) && AllWait(list, others, arrivals, waitFor) && !TestWaitCondition(now, waitFor, true)
    requires forall w :: w in others ==> Harmless(w.value, waitFor)
    ensures AllWait(Kept(list, now), others, arrivals, waitFor)
    ensures Agree(Without(now, ToClear(list, now)), now, waitFor)
  {
    hide TestWaitCondition, WaitValue, Without, Plain, Harmless, Avoids, Agree, Satisfied, Clearing, ToClear;
    Members(list, now);
    SatisfiedWhenComplete(waitFor, now);
    NothingInZero(waitFor);
    forall w | w in list ensures Avoids(Clearing(w.value, now), waitFor) {
      if w.value != WaitValue(waitFor, true, true) {
        HarmlessClearing(w.value, now, waitFor);
      }
    }
    ToClearIsUnion(list, now, waitFor);
    AgreeWithout(now, ToClear(list, now), waitFor);
  }

  /** Until the bits are complete everyone who arrives waits, whoever else is there. */
  lemma {:induction false} EveryoneWaitsAmongOthers(g: Group, arrivals: seq<Arrival>, waitFor: Bits)
    requires Plain(waitFor) && Without(waitFor, AllBits(g.bits, arrivals)) != 0
    requires forall w :: w in g.list ==> Harmless(w.value, waitFor)
    ensures var h := ArriveAll(g, arrivals, waitFor);
      AllWait(h.list, g.list, arrivals, waitFor) && Agree(h.bits, AllBits(g.bits, arrivals), waitFor)
  {
    hide TestWaitCondition, WaitValue, Or, Without, Plain, Harmless, Agree, Released, Kept, ToClear, Deliver, Snapshot;
    if arrivals == [] {
      SelfAgrees(g.bits, waitFor);
    } else {
      var n := |arrivals| - 1;
      var before, all := ArriveAll(g, arrivals[..n], waitFor), AllBits(g.bits, arrivals[..n]);
      var now := Or(before.bits, arrivals[n].bits);
      IncompleteBefore(all, arrivals[n].bits, waitFor);
      WaitConditionMeans(all, waitFor, true);
      WaitConditionMeans(AllBits(g.bits, arrivals), waitFor, true);
      EveryoneWaitsAmongOthers(g, arrivals[..n], waitFor);
      AgreeOr(before.bits, all, arrivals[n].bits, waitFor);
      AgreeTests(now, Or(all, arrivals[n].bits), waitFor);
      Incomplete(before.list, g.list, arrivals[..n], waitFor, now);
      AgreeOn(Without(now, ToClear(before.list, now)), now, AllBits(g.bits, arrivals), waitFor);
      assert arrivals == arrivals[..n] + [arrivals[n]];
    }
  }

  lemma SelfAgrees(a: Bits, waitFor: Bits)
    ensures Agree(a, a, waitFor)
  {
  }

  /**
   Among waiters of other kinds that clear none of its bits: the arrival that completes the bits of a rendezvous
   releases everyone who waits in it, all with the same complete bits, and leaves those bits clear; who stays was there
   before.
   */
  lemma LastArrivalAmongOthers(g: Group, arrivals: seq<Arrival>, last: Arrival, waitFor: Bits)
    requires Plain(waitFor) && Without(waitFor, AllBits(g.bits, arrivals)) != 0
    requires Without(waitFor, AllBits(g.bits, arrivals + [last])) == 0
    requires forall w :: w in g.list ==> Harmless(w.value, waitFor)
    ensures var h := ArriveAll(g, arrivals + [last], waitFor);
      var all := Or(ArriveAll(g, arrivals, waitFor).bits, last.bits);
      && Without(waitFor, all) == 0 && Avoids(h.bits, waitFor)
      && (forall a :: a in arrivals ==> a.task in h.values && h.values[a.task] == Snapshot(all))
      && forall w :: w in h.list ==> w in g.list
  {
    hide TestWaitCondition, WaitValue, Or, Without, Plain, Harmless, Agree, Avoids, Satisfied, Released, Kept, ToClear;
    hide Snapshot;
    var before := ArriveAll(g, arrivals, waitFor);
    var now := Or(before.bits, last.bits);
    assert (arrivals + [last])[..|arrivals|] == arrivals;
    WaitConditionMeans(AllBits(g.bits, arrivals + [last]), waitFor, true);
    WaitConditionMeans(now, waitFor, true);
    EveryoneWaitsAmongOthers(g, arrivals, waitFor);
    AgreeOr(before.bits, AllBits(g.bits, arrivals), last.bits, waitFor);
    AgreeTests(now, AllBits(g.bits, arrivals + [last]), waitFor);
    Members(before.list, now);
    SatisfiedWhenComplete(waitFor, now);
    AgreeWithout(Without(now, ToClear(before.list, now)), 0, waitFor);
    forall a | a in arrivals ensures a.task in TaskSet(Released(before.list, now)) {
      assert Waiter(a.task, WaitValue(waitFor, true, true)) in Released(before.list, now);
    }
  }
}
