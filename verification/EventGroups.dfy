/**
 The event groups of event_groups.c.
 */
module EventGroups {
  import opened EventBits
  import opened Rendezvous

  /** No listed waiter's condition holds: every task that could go on has been released. */
  ghost predicate Settled(list: seq<Waiter>, bits: Bits) {
    Plain(bits) && DistinctTasks(list) && forall w :: w in list ==> !Satisfied(w.value, bits)
  }

  /** A task released by the setting of bits finds bits in its event list item that satisfy what it waited for. */
  ghost predicate Truthful(list: seq<Waiter>, values: map<Id, Bits>, waits: map<Id, Bits>) {
    && (forall w :: w in list ==>
          w.task !in values && w.task in waits && waits[w.task] == w.value && !Unblocked(w.value))
    && (forall t :: t in values && Unblocked(values[t]) ==>
          t in waits && Plain(EventBitsOf(values[t])) && Satisfied(waits[t], EventBitsOf(values[t])))
  }

  lemma SettledAfterSet(list: seq<Waiter>, bits: Bits)
    requires Plain(bits) && DistinctTasks(list)
    ensures Settled(Kept(list, bits), Without(bits, ToClear(list, bits)))
  {
    hide Satisfied, Plain, Without;
    Members(list, bits);
    KeptDistinct(list, bits);
    PlainKept(bits, ToClear(list, bits));
    forall w | w in Kept(list, bits) ensures !Satisfied(w.value, Without(bits, ToClear(list, bits))) {
      ClearingSatisfiesNothing(w.value, bits, ToClear(list, bits));
    }
  }

  lemma SettledAfterClear(list: seq<Waiter>, bits: Bits, clear: Bits)
    requires Settled(list, bits)
    ensures Settled(list, Without(bits, clear))
  {
    hide Satisfied, Plain, Without;
    PlainKept(bits, clear);
    forall w | w in list ensures !Satisfied(w.value, Without(bits, clear)) {
      ClearingSatisfiesNothing(w.value, bits, clear);
    }
  }

  lemma TruthfulAfterSet(list: seq<Waiter>, values: map<Id, Bits>, waits: map<Id, Bits>, bits: Bits)
    requires Truthful(list, values, waits) && Plain(bits) && DistinctTasks(list)
    ensures Truthful(Kept(list, bits), Deliver(values, Released(list, bits), Snapshot(bits)), waits)
  {
    hide Satisfied, Plain, Snapshot, EventBitsOf, Unblocked;
    Members(list, bits);
    SnapshotRoundTrip(bits);
    forall w, r | w in Kept(list, bits) && r in Released(list, bits) ensures w.task != r.task {
      var i :| 0 <= i < |list| && list[i] == r;
      var j :| 0 <= j < |list| && list[j] == w;
      assert i != j;
    }
  }

  lemma Appended(list: seq<Waiter>, bits: Bits, values: map<Id, Bits>, waits: map<Id, Bits>, w: Waiter)
    requires Settled(list, bits) && Truthful(list, values, waits)
    requires w.task !in values && w.task !in TaskSet(list) && !Satisfied(w.value, bits) && !Unblocked(w.value)
    ensures Settled(list + [w], bits) && Truthful(list + [w], values, waits[w.task := w.value])
  {
    hide Satisfied, Plain, Unblocked, EventBitsOf;
    forall i | 0 <= i < |list| ensures list[i].task != w.task {
      assert list[i].task in TaskSet(list);
    }
  }

  lemma Unlinked(list: seq<Waiter>, bits: Bits, values: map<Id, Bits>, waits: map<Id, Bits>, i: nat)
    requires Settled(list, bits) && Truthful(list, values, waits) && i < |list|
    ensures Settled(list[..i] + list[i + 1..], bits)
    ensures Truthful(list[..i] + list[i + 1..], values[list[i].task := list[i].value], waits)
  {
    hide Satisfied, Plain, Unblocked, EventBitsOf;
    var rest := list[..i] + list[i + 1..];
    forall j | 0 <= j < |rest| ensures rest[j] == list[if j < i then j else j + 1] && rest[j].task != list[i].task {
    }
    assert list[i] in list;
    assert forall w :: w in rest ==> w in list && w.task != list[i].task;
  }

  lemma Collected(list: seq<Waiter>, bits: Bits, values: map<Id, Bits>, waits: map<Id, Bits>, t: Id)
    requires Settled(list, bits) && Truthful(list, values, waits) && t in values
    ensures Truthful(list, values - {t}, waits)
    ensures Plain(bits) && Plain(EventBitsOf(values[t])) && EventBitsOf(bits) == bits
    ensures Unblocked(values[t]) ==> t in waits && Satisfied(waits[t], EventBitsOf(values[t]))
  {
    hide Satisfied, Unblocked;
    PlainBits(bits, values[t]);
  }

  lemma PlainBits(bits: Bits, value: Bits)
    requires Plain(bits)
    ensures Plain(EventBitsOf(value)) && EventBitsOf(bits) == bits
  {
  }

  lemma DeliverOne(values: map<Id, Bits>, released: seq<Waiter>, w: Waiter, value: Bits)
    ensures Deliver(values, released + [w], value) == Deliver(values, released, value)[w.task := value]
  {
    assert TaskSet(released + [w]) == TaskSet(released) + {w.task};
  }

  lemma OrAssociates(a: Bits, b: Bits, c: Bits)
    ensures Or(a, Or(b, c)) == Or(Or(a, b), c)
  {
  }

  /** Either way the pieces of the loop invariant stay together. */
  lemma Rearranged(list: seq<Waiter>, i: nat, released: seq<Waiter>, acc: Bits, bits: Bits)
    requires i < |list|
    ensures list[..i + 1] == list[..i] + [list[i]]
    ensures (list[..i] + list[i + 1..])[i..] == list[i + 1..] && (list[..i] + list[i + 1..])[..i] == list[..i]
    ensures forall r: seq<Waiter> ::
      list[..i] + ([list[i]] + r) == list[..i + 1] + r && list[..i] + ([] + r) == list[..i] + r
    ensures forall r: seq<Waiter> ::
      released + ([list[i]] + r) == released + [list[i]] + r && released + ([] + r) == released + r
    ensures Or(acc, Or(Clearing(list[i].value, bits), ToClear(list[i + 1..], bits))) ==
            Or(if Satisfied(list[i].value, bits) && ClearsOnExit(list[i].value)
               then Or(acc, EventBitsOf(list[i].value)) else acc,
               ToClear(list[i + 1..], bits))
  {
    hide Or, Satisfied, ClearsOnExit, EventBitsOf, ToClear;
    OrAssociates(acc, Clearing(list[i].value, bits), ToClear(list[i + 1..], bits));
    OrZero(acc);
    OrZero(ToClear(list[i + 1..], bits));
  }

  lemma NotListed(g: Group, t: Id, bits: Bits, waitFor: Bits)
    requires t !in g.values && t !in TaskSet(g.list)
    ensures var h := SetBits(g, bits); t !in h.values && t !in TaskSet(h.list)
    ensures !TestWaitCondition(Or(g.bits, bits), waitFor, true) ==>
      !TestWaitCondition(SetBits(g, bits).bits, waitFor, true)
  {
    hide Satisfied, Plain, Snapshot, TestWaitCondition, Or, Without;
    var now := Or(g.bits, bits);
    Members(g.list, now);
    StillIncomplete(now, ToClear(g.list, now), waitFor);
  }

  lemma StillIncomplete(bits: Bits, clear: Bits, waitFor: Bits)
    ensures TestWaitCondition(Without(bits, clear), waitFor, true) ==> TestWaitCondition(bits, waitFor, true)
  {
  }

  class EventGroup {
    var uxEventBits: Bits
    var xTasksWaitingForBits: seq<Waiter>

    /** The values of the event list items of the tasks that have been unblocked and have not run since. */
    var itemValues: map<Id, Bits>

    /** What each task waited for last. */
    ghost var waits: map<Id, Bits>

    function State(): Group
      reads this
    {
      Group(uxEventBits, xTasksWaitingForBits, itemValues)
    }

    ghost predicate Valid()
      reads this
    {
      Settled(xTasksWaitingForBits, uxEventBits) && Truthful(xTasksWaitingForBits, itemValues, waits)
    }

    constructor ()
      ensures Valid() && State() == Group(0, [], map[])
    {
      uxEventBits, xTasksWaitingForBits, itemValues, waits := 0, [], map[], map[];
    }

    /** The loop of xEventGroupSetBits over the waiting tasks, which unlinks those it releases as it goes */
    method ReleaseSatisfied() returns (bitsToClear: Bits)
      modifies `xTasksWaitingForBits, `itemValues
      ensures xTasksWaitingForBits == Kept(old(xTasksWaitingForBits), uxEventBits)
      ensures bitsToClear == ToClear(old(xTasksWaitingForBits), uxEventBits)
      ensures itemValues ==
        Deliver(old(itemValues), Released(old(xTasksWaitingForBits), uxEventBits), Snapshot(uxEventBits))
    {
      hide Satisfied, ClearsOnExit, EventBitsOf, Or, Snapshot, Deliver, Kept, Released, ToClear;
      bitsToClear := 0;
      var i := 0;
      ghost var all, released := xTasksWaitingForBits, [];
      OrZero(ToClear(all, uxEventBits));
      DeliverNothing(itemValues, Snapshot(uxEventBits));
      assert all[0..] == all;
      while i < |xTasksWaitingForBits|
        invariant 0 <= i <= |xTasksWaitingForBits|
        invariant xTasksWaitingForBits[..i] + Kept(xTasksWaitingForBits[i..], uxEventBits) == Kept(all, uxEventBits)
        invariant released + Released(xTasksWaitingForBits[i..], uxEventBits) == Released(all, uxEventBits)
        invariant Or(bitsToClear, ToClear(xTasksWaitingForBits[i..], uxEventBits)) == ToClear(all, uxEventBits)
        invariant itemValues == Deliver(old(itemValues), released, Snapshot(uxEventBits))
        decreases |xTasksWaitingForBits| - i
      {
        var list := xTasksWaitingForBits;
        var w := xTasksWaitingForBits[i];
        Splits(list, i, uxEventBits);
        Rearranged(list, i, released, bitsToClear, uxEventBits);
        if Satisfied(w.value, uxEventBits) {
          if ClearsOnExit(w.value) {
            bitsToClear := Or(bitsToClear, EventBitsOf(w.value));
          }
          DeliverOne(old(itemValues), released, w, Snapshot(uxEventBits));
          itemValues := itemValues[w.task := Snapshot(uxEventBits)];
          xTasksWaitingForBits := list[..i] + list[i + 1..];
          released := released + [w];
        } else {
          i := i + 1;
        }
      }
      NothingLeft(xTasksWaitingForBits[i..], uxEventBits);
      assert xTasksWaitingForBits[i..] == [] && released + [] == released;
      OrZero(bitsToClear);
    }

    /** xEventGroupSetBits */
    method SetEventBits(bits: Bits)
      requires Valid() && Plain(bits)
      modifies `uxEventBits, `xTasksWaitingForBits, `itemValues
      ensures Valid() && State() == SetBits(old(State()), bits)
      ensures var now := Or(old(uxEventBits), bits);
        forall w :: w in old(xTasksWaitingForBits) ==>
          if (if WaitsForAll(w.value) then Without(EventBitsOf(w.value), now) == 0
              else !Avoids(now, EventBitsOf(w.value)))
          then w !in xTasksWaitingForBits && w.task in itemValues && itemValues[w.task] == Snapshot(now)
          else w in xTasksWaitingForBits
    {
      hide Plain, Or, Without, Snapshot, Truthful, TestWaitCondition, Avoids, WaitsForAll, EventBitsOf;
      PlainKept(uxEventBits, bits);
      Members(xTasksWaitingForBits, Or(uxEventBits, bits));
      forall w | w in xTasksWaitingForBits
        ensures Satisfied(w.value, Or(uxEventBits, bits)) <==>
                if WaitsForAll(w.value) then Without(EventBitsOf(w.value), Or(uxEventBits, bits)) == 0
                else !Avoids(Or(uxEventBits, bits), EventBitsOf(w.value))
      {
        WaitConditionMeans(Or(uxEventBits, bits), EventBitsOf(w.value), WaitsForAll(w.value));
      }
      uxEventBits := Or(uxEventBits, bits);
      SettledAfterSet(xTasksWaitingForBits, uxEventBits);
      TruthfulAfterSet(xTasksWaitingForBits, itemValues, waits, uxEventBits);
      var bitsToClear := ReleaseSatisfied();
      uxEventBits := Without(uxEventBits, bitsToClear);
    }

    /** xEventGroupClearBits */
    method ClearEventBits(bits: Bits) returns (r: Bits)
      requires Valid()
      modifies `uxEventBits
      ensures Valid() && r == old(uxEventBits) && uxEventBits == Without(r, bits)
    {
      hide Settled, Truthful, Without;
      SettledAfterClear(xTasksWaitingForBits, uxEventBits, bits);
      r := uxEventBits;
      uxEventBits := Without(uxEventBits, bits);
    }

    /** vTaskPlaceOnUnorderedEventList */
    method PlaceOnList(t: Id, waitFor: Bits, clearOnExit: bool, all: bool)
      requires Valid() && Plain(waitFor) && t !in itemValues && t !in TaskSet(xTasksWaitingForBits)
      requires !TestWaitCondition(uxEventBits, waitFor, all)
      modifies `xTasksWaitingForBits, `waits
      ensures Valid() && waits == old(waits)[t := WaitValue(waitFor, clearOnExit, all)]
      ensures xTasksWaitingForBits == old(xTasksWaitingForBits) + [Waiter(t, WaitValue(waitFor, clearOnExit, all))]
    {
      hide Settled, Truthful, TestWaitCondition, WaitValue, Plain, EventBitsOf;
      WaitValueRoundTrip(waitFor, clearOnExit, all);
      var w := Waiter(t, WaitValue(waitFor, clearOnExit, all));
      Appended(xTasksWaitingForBits, uxEventBits, itemValues, waits, w);
      waits := waits[t := w.value];
      xTasksWaitingForBits := xTasksWaitingForBits + [w];
    }

    /** xEventGroupWaitBits up to the point where the task returns or blocks */
    method WaitBits(t: Id, waitFor: Bits, clearOnExit: bool, all: bool, canBlock: bool) returns (blocked: bool, r: Bits)
      requires Valid() && Plain(waitFor) && waitFor != 0 && t !in itemValues && t !in TaskSet(xTasksWaitingForBits)
      modifies `uxEventBits, `xTasksWaitingForBits, `waits
      ensures Valid() && r == old(uxEventBits)
      ensures all ==> (blocked <==> Without(waitFor, r) != 0 && canBlock)
      ensures !all ==> (blocked <==> Avoids(r, waitFor) && canBlock)
      ensures blocked <==> !TestWaitCondition(r, waitFor, all) && canBlock
      ensures uxEventBits == if TestWaitCondition(r, waitFor, all) && clearOnExit then Without(r, waitFor) else r
      ensures xTasksWaitingForBits == old(xTasksWaitingForBits) +
                if blocked then [Waiter(t, WaitValue(waitFor, clearOnExit, all))] else []
      ensures blocked ==> waits == old(waits)[t := WaitValue(waitFor, clearOnExit, all)]
      ensures !blocked ==> waits == old(waits)
    {
      hide Settled, Truthful, TestWaitCondition, WaitValue, Plain, Without, Avoids;
      r, blocked := uxEventBits, false;
      WaitConditionMeans(r, waitFor, all);
      if TestWaitCondition(r, waitFor, all) {
        if clearOnExit {
          var before := ClearEventBits(waitFor);
        }
      } else if canBlock {
        PlaceOnList(t, waitFor, clearOnExit, all);
        blocked := true;
      }
    }

    /** xEventGroupSync up to the point where the task returns or blocks */
    method Sync(t: Id, bits: Bits, waitFor: Bits, canBlock: bool) returns (blocked: bool, r: Bits)
      requires Valid() && Plain(bits) && Plain(waitFor) && waitFor != 0
      requires t !in itemValues && t !in TaskSet(xTasksWaitingForBits)
      modifies `uxEventBits, `xTasksWaitingForBits, `itemValues, `waits
      ensures Valid()
      ensures blocked <==> Without(waitFor, Or(old(uxEventBits), bits)) != 0 && canBlock
      ensures canBlock ==> State() == Arrive(old(State()), t, bits, waitFor)
      ensures !canBlock && Without(waitFor, Or(old(uxEventBits), bits)) != 0 ==>
        State() == SetBits(old(State()), bits) && r == uxEventBits
      ensures Without(waitFor, Or(old(uxEventBits), bits)) == 0 ==> r == Or(old(uxEventBits), bits)
      ensures blocked ==> waits == old(waits)[t := WaitValue(waitFor, true, true)]
      ensures !blocked ==> waits == old(waits)
    {
      hide Settled, Truthful, TestWaitCondition, WaitValue, Plain, Without, Or, SetBits;
      var original := uxEventBits;
      SetEventBits(bits);
      NotListed(old(State()), t, bits, waitFor);
      WaitConditionMeans(Or(original, bits), waitFor, true);
      r, blocked := uxEventBits, false;
      if TestWaitCondition(Or(original, bits), waitFor, true) {
        r := Or(original, bits);
        var before := ClearEventBits(waitFor);
      } else if canBlock {
        PlaceOnList(t, waitFor, true, true);
        blocked := true;
      }
    }

    /** The block time of a waiting task ends: it leaves the list with its event list item as it is. */
    method TimeOut(i: nat)
      requires Valid() && i < |xTasksWaitingForBits|
      modifies `xTasksWaitingForBits, `itemValues
      ensures forall w :: w in xTasksWaitingForBits ==> w in old(xTasksWaitingForBits)
      ensures Valid() && xTasksWaitingForBits == old(xTasksWaitingForBits)[..i] + old(xTasksWaitingForBits)[i + 1..]
      ensures itemValues == old(itemValues)[old(xTasksWaitingForBits)[i].task := old(xTasksWaitingForBits)[i].value]
    {
      hide Settled, Truthful;
      Unlinked(xTasksWaitingForBits, uxEventBits, itemValues, waits, i);
      var w := xTasksWaitingForBits[i];
      itemValues := itemValues[w.task := w.value];
      xTasksWaitingForBits := xTasksWaitingForBits[..i] + xTasksWaitingForBits[i + 1..];
    }

    /**
     The rest of xEventGroupWaitBits, and of xEventGroupSync with both options on, when the task runs again. Released
     by the setting of bits it returns bits that satisfy its condition, whatever has become of the group since.
     */
    method Finish(t: Id, waitFor: Bits, clearOnExit: bool, all: bool) returns (r: Bits)
      requires Valid() && t in itemValues && Plain(waitFor)
      requires t in waits && waits[t] == WaitValue(waitFor, clearOnExit, all)
      modifies `uxEventBits, `itemValues
      ensures Valid() && itemValues == old(itemValues) - {t} && Plain(r)
      ensures Unblocked(old(itemValues)[t]) ==>
        && r == EventBitsOf(old(itemValues)[t]) && uxEventBits == old(uxEventBits)
        && TestWaitCondition(r, waitFor, all)
        && if all then Without(waitFor, r) == 0 else !Avoids(r, waitFor)
      ensures !Unblocked(old(itemValues)[t]) ==>
        && r == old(uxEventBits)
        && uxEventBits == if TestWaitCondition(r, waitFor, all) && clearOnExit then Without(r, waitFor) else r
    {
      hide Settled, Truthful, TestWaitCondition, WaitValue, Plain, Without, EventBitsOf, Unblocked, Avoids;
      WaitValueRoundTrip(waitFor, clearOnExit, all);
      WaitConditionMeans(EventBitsOf(itemValues[t]), waitFor, all);
      Collected(xTasksWaitingForBits, uxEventBits, itemValues, waits, t);
      r := itemValues[t];
      itemValues := itemValues - {t};
      if !Unblocked(r) {
        r := uxEventBits;
        if TestWaitCondition(r, waitFor, all) && clearOnExit {
          var before := ClearEventBits(waitFor);
        }
      }
      r := EventBitsOf(r);
    }
  }
}
