/**
 The two delayed task lists of tasks.c in unbounded time.
 */
module Delays {
  import opened Ticks
  import opened Lists
  import opened TaskLists
  import opened WakeList

  /** The lists hold exactly the tasks of `due`: those whose container is a delayed list. */
  ghost predicate Linked(current: seq<Item>, overflow: seq<Item>, where: map<Id, Place>, due: map<Id, nat>, base: nat) {
    && Holds(current, base, due) && Holds(overflow, base + WRAP, due) && base % WRAP == 0
    && (forall t :: t in due ==> base <= due[t] < base + 2 * WRAP)
    && forall t :: t in due <==> t in where && where[t].Timed?
  }

  /** No wake time has passed, and none can be reached by the tick that wraps the count. */
  ghost predicate Pending(due: map<Id, nat>, base: nat, tick: Tick) {
    forall t :: t in due ==> base + tick <= due[t] && (due[t] == base + tick ==> tick < MAX_DELAY)
  }

  lemma PendingFewer(due: map<Id, nat>, due': map<Id, nat>, base: nat, tick: Tick)
    requires Pending(due, base, tick) && due'.Keys <= due.Keys && forall t :: t in due' ==> due'[t] == due[t]
    ensures Pending(due', base, tick)
  {
  }

  /** xNextTaskUnblockTime is not later than any wake time. */
  ghost predicate Bounded(due: map<Id, nat>, base: nat, next: Tick) {
    forall t :: t in due ==> base + next <= due[t]
  }

  lemma LinkedRemove(current: seq<Item>, overflow: seq<Item>, where: map<Id, Place>, due: map<Id, nat>, base: nat,
                     t: Id)
    requires Linked(current, overflow, where, due, base) && t in where && where[t].Timed?
    ensures Linked(Remove(current, t), Remove(overflow, t), where - {t}, due - {t}, base)
  {
    hide Holds, Remove;
    HoldsRemove(current, base, due, t);
    HoldsRemove(overflow, base + WRAP, due, t);
  }

  lemma LinkedElsewhere(current: seq<Item>, overflow: seq<Item>, where: map<Id, Place>, due: map<Id, nat>, base: nat,
                        t: Id, place: Place)
    requires Linked(current, overflow, where, due, base) && (t in where ==> !where[t].Timed?) && !place.Timed?
    ensures t !in due && due == due - {t}
    ensures Linked(current, overflow, where - {t}, due, base)
    ensures Linked(current, overflow, where[t := place], due, base)
  {
    hide Holds;
  }

  /** Where prvAddCurrentTaskToDelayedList puts a task that waits for `ticks`. */
  lemma LinkedAdd(current: seq<Item>, overflow: seq<Item>, where: map<Id, Place>, due: map<Id, nat>, base: nat,
                  t: Id, tick: Tick, ticks: Tick)
    requires Linked(current, overflow, where, due, base) && t !in where
    ensures Plus(tick, ticks) < tick ==>
      && base + tick + ticks == base + WRAP + Plus(tick, ticks)
      && Linked(current, Insert(overflow, Item(Plus(tick, ticks), t)), where[t := Timed],
                due[t := base + tick + ticks], base)
    ensures tick <= Plus(tick, ticks) ==>
      && base + tick + ticks == base + Plus(tick, ticks)
      && Linked(Insert(current, Item(Plus(tick, ticks), t)), overflow, where[t := Timed],
                due[t := base + tick + ticks], base)
  {
    hide Holds, Insert;
    var wake, time := Plus(tick, ticks), base + tick + ticks;
    if wake < tick {
      HoldsInsert(overflow, base + WRAP, due, Item(wake, t));
      HoldsElsewhere(current, base, due, t, time);
    } else {
      HoldsInsert(current, base, due, Item(wake, t));
      HoldsElsewhere(overflow, base + WRAP, due, t, time);
    }
  }

  /** taskSWITCH_DELAYED_LISTS finds the current list empty: every task in it has been woken. */
  lemma LinkedSwitch(current: seq<Item>, overflow: seq<Item>, where: map<Id, Place>, due: map<Id, nat>, base: nat)
    requires Linked(current, overflow, where, due, base) && Pending(due, base, MAX_DELAY)
    ensures current == [] && Linked(overflow, [], where, due, base + WRAP)
    ensures forall t :: t in due ==> base + WRAP <= due[t]
  {
    hide Holds;
    if current != [] {
      HoldsHead(current, base, due);
    }
    HoldsEmpty(base, due);
    HoldsNothing(base + 2 * WRAP, due);
  }

  lemma LinkedHead(current: seq<Item>, overflow: seq<Item>, where: map<Id, Place>, due: map<Id, nat>, base: nat)
    requires Linked(current, overflow, where, due, base)
    ensures current == [] ==> forall t :: t in due ==> base + WRAP <= due[t]
    ensures current != [] ==>
      && current[0].owner in due && due[current[0].owner] == base + current[0].value
      && forall t :: t in due ==> base + current[0].value <= due[t]
  {
    hide Holds;
    if current == [] {
      HoldsEmpty(base, due);
    } else {
      HoldsHead(current, base, due);
    }
  }

  lemma BoundedAdd(due: map<Id, nat>, base: nat, next: Tick, t: Id, wake: Tick, time: nat)
    requires Bounded(due, base, next) && (time == base + wake || time == base + WRAP + wake)
    ensures Bounded(due[t := time], base, if time == base + wake && wake < next then wake else next)
  {
  }

  /** A wait of zero ticks is the only one that prvAddCurrentTaskToDelayedList may not start, and only at one tick. */
  lemma PendingAdd(due: map<Id, nat>, base: nat, tick: Tick, t: Id, ticks: Tick)
    requires Pending(due, base, tick)
    ensures Pending(due[t := base + tick + ticks], base, tick) <==> 0 < ticks || tick < MAX_DELAY
  {
    var after := due[t := base + tick + ticks];
    assert t in after;
  }

  /** What vTaskDelayUntil computes with */
  lemma DelayUntilTicks(previous: nat, now: nat, increment: Tick)
    requires previous <= now < previous + WRAP
    ensures var wake := Plus(Low(previous), increment);
      && wake == Low(previous + increment)
      && (ShouldDelay(Low(previous), increment, Low(now)) <==> now < previous + increment)
      && (now < previous + increment ==> 0 < Minus(wake, Low(now)) == previous + increment - now)
  {
    hide ShouldDelay, Plus, Minus, Low;
    ShouldDelayExact(previous, now, increment);
    WakeTick(previous, increment);
  }

  lemma WakeTick(previous: nat, increment: Tick)
    ensures Plus(Low(previous), increment) == Low(previous + increment)
  {
  }

  /** The decision of vTaskDelayUntil, made with 32-bit comparisons only. */
  function ShouldDelay(previousWake: Tick, increment: Tick, tick: Tick): bool {
    var timeToWake := Plus(previousWake, increment);
    if tick < previousWake then timeToWake < previousWake && timeToWake > tick
    else timeToWake < previousWake || timeToWake > tick
  }

  /**
   A periodic task waits until its next wake time, whatever the wraps of the count in between: for a last wake time
   of any age the decision is whether the age, cut to 32 bits, is within the period.
   */
  lemma ShouldDelayExact(previous: nat, now: nat, increment: Tick)
    requires previous <= now
    ensures ShouldDelay(Low(previous), increment, Low(now)) <==> (now - previous) % WRAP < increment
    ensures now < previous + WRAP ==>
      && (ShouldDelay(Low(previous), increment, Low(now)) <==> now < previous + increment)
      && (now < previous + increment ==>
          now + Minus(Plus(Low(previous), increment), Low(now)) == previous + increment)
  {
    var p, t := previous % WRAP, now % WRAP;
    assert (now - previous) % WRAP == if t >= p then t - p else t - p + WRAP;
  }

  /** Right exactly if the last wake time is less than a wrap ago or its age, cut to 32 bits, is past the period */
  lemma ShouldDelayAtAnyAge(previous: nat, now: nat, increment: Tick)
    requires previous <= now
    ensures (ShouldDelay(Low(previous), increment, Low(now)) <==> now < previous + increment)
            <==> now < previous + WRAP || (now - previous) % WRAP >= increment
  {
    hide ShouldDelay;
    ShouldDelayExact(previous, now, increment);
  }

  /** A last wake time exactly one wrap ago: the period of one tick is over, and the task is delayed all the same. */
  lemma DelayedAWrapLate()
    ensures ShouldDelay(Low(0), 1, Low(WRAP)) && !(WRAP < 0 + 1)
  {
    ShouldDelayExact(0, WRAP, 1);
  }
}
