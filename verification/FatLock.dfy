/**
 The locks of FreeRTOS+FAT, ff_locking.c, on the event group they are built from. A task gets a lock by being the one
 that clears its bit; each method is a step that other tasks' steps can come between.
 */
module FatLock {
  import opened EventBits
  import opened Rendezvous
  import opened EventGroups

  const FAT_LOCK: Bits := 0x01
  const DIR_LOCK: Bits := 0x02
  const BUF_LOCK: Bits := 0x04

  datatype Handle = Null | Task(t: Id)

  /** Where a task is between taking the FAT lock and having given it back. */
  datatype Stage = Claimed | Owns | Releasing

  /**
   At most one task is inside each lock, a lock's bit is clear exactly while a task is inside, and pvFATLockHandle
   names a task exactly while it owns the FAT lock.
   */
  ghost predicate Exclusive(bits: Bits, fat: map<Id, Stage>, dir: set<Id>, handle: Handle) {
    && (forall t, u :: t in fat && u in fat ==> t == u)
    && (forall t, u :: t in dir && u in dir ==> t == u)
    && (Avoids(bits, FAT_LOCK) <==> fat != map[])
    && (Avoids(bits, DIR_LOCK) <==> dir != {})
    && (forall t :: t in fat && fat[t].Owns? <==> handle == Task(t))
  }

  /** Only the buffer bit is ever cleared for a waiting task. */
  ghost predicate OnlyBuffersClear(list: seq<Waiter>) {
    forall w :: w in list && ClearsOnExit(w.value) ==> EventBitsOf(w.value) == BUF_LOCK
  }

  lemma Masks()
    ensures Plain(FAT_LOCK) && Plain(DIR_LOCK) && Plain(BUF_LOCK) && Plain(Or(Or(FAT_LOCK, DIR_LOCK), BUF_LOCK))
    ensures FAT_LOCK != 0 && DIR_LOCK != 0 && BUF_LOCK != 0
  {
  }

  /** Clearing one lock bit leaves the other as it is. */
  lemma ClearedBits(bits: Bits)
    ensures Avoids(Without(bits, FAT_LOCK), FAT_LOCK)
    ensures (Avoids(Without(bits, FAT_LOCK), DIR_LOCK) <==> Avoids(bits, DIR_LOCK))
    ensures Avoids(Without(bits, DIR_LOCK), DIR_LOCK)
    ensures (Avoids(Without(bits, DIR_LOCK), FAT_LOCK) <==> Avoids(bits, FAT_LOCK))
    ensures Avoids(Without(bits, BUF_LOCK), DIR_LOCK) <==> Avoids(bits, DIR_LOCK)
    ensures Avoids(Without(bits, BUF_LOCK), FAT_LOCK) <==> Avoids(bits, FAT_LOCK)
  {
    hide Avoids, Without;
    BitFacts();
    WithoutItself(bits, FAT_LOCK);
    WithoutItself(bits, DIR_LOCK);
    WithoutOther(bits, FAT_LOCK, DIR_LOCK);
    WithoutOther(bits, DIR_LOCK, FAT_LOCK);
    WithoutOther(bits, BUF_LOCK, DIR_LOCK);
    WithoutOther(bits, BUF_LOCK, FAT_LOCK);
  }

  /** To wait for any of the bits of a mask is to wait until not all of them are clear. */
  lemma AnyOf(bits: Bits, mask: Bits)
    ensures TestWaitCondition(bits, mask, false) <==> !Avoids(bits, mask)
  {
  }

  lemma WithoutItself(bits: Bits, mask: Bits)
    ensures Avoids(Without(bits, mask), mask)
  {
  }

  lemma SetThenCleared(bits: Bits, set_: Bits, clear: Bits, mask: Bits)
    requires Avoids(clear, mask)
    ensures Avoids(Without(Or(bits, set_), clear), mask) <==> Avoids(bits, mask) && Avoids(set_, mask)
  {
    hide Without, Or, Avoids;
    OrAvoids(bits, set_, mask);
    WithoutOther(Or(bits, set_), clear, mask);
  }

  lemma WithoutOther(bits: Bits, clear: Bits, mask: Bits)
    requires Avoids(clear, mask)
    ensures Avoids(bits, mask) ==> Avoids(Without(bits, clear), mask)
    ensures Avoids(Without(bits, clear), mask) ==> Avoids(bits, mask)
  {
  }

  lemma BitFacts()
    ensures !Avoids(FAT_LOCK, FAT_LOCK) && Avoids(FAT_LOCK, DIR_LOCK) && !Avoids(DIR_LOCK, DIR_LOCK)
    ensures Avoids(DIR_LOCK, FAT_LOCK)
    ensures Avoids(BUF_LOCK, FAT_LOCK) && Avoids(BUF_LOCK, DIR_LOCK) && Avoids(0, FAT_LOCK) && Avoids(0, DIR_LOCK)
  {
  }

  /** Releasing the waiting tasks clears no lock bit. */
  lemma LocksNotCleared(list: seq<Waiter>, bits: Bits)
    requires OnlyBuffersClear(list)
    ensures Avoids(ToClear(list, bits), FAT_LOCK) && Avoids(ToClear(list, bits), DIR_LOCK)
  {
    hide Satisfied, ClearsOnExit, EventBitsOf, Avoids;
    BitFacts();
    ToClearIsUnion(list, bits, FAT_LOCK);
    ToClearIsUnion(list, bits, DIR_LOCK);
  }

  /** What xEventGroupSetBits does to the lock bits */
  lemma SetLockBits(g: Group, bits: Bits, mask: Bits)
    requires OnlyBuffersClear(g.list) && (mask == FAT_LOCK || mask == DIR_LOCK)
    ensures Avoids(SetBits(g, bits).bits, mask) <==> Avoids(g.bits, mask) && Avoids(bits, mask)
    ensures OnlyBuffersClear(SetBits(g, bits).list)
  {
    hide Satisfied, ClearsOnExit, EventBitsOf, Avoids, Without, Or;
    var now := Or(g.bits, bits);
    LocksNotCleared(g.list, now);
    SetThenCleared(g.bits, bits, ToClear(g.list, now), mask);
    Members(g.list, now);
  }

  class IOManager {
    const xEventGroup: EventGroup
    var pvFATLockHandle: Handle

    /** The tasks inside the FAT lock and inside the directory lock. */
    ghost var fat: map<Id, Stage>
    ghost var dir: set<Id>

    ghost predicate Valid()
      reads this, xEventGroup
    {
      && xEventGroup.Valid() && OnlyBuffersClear(xEventGroup.xTasksWaitingForBits)
      && Exclusive(xEventGroup.uxEventBits, fat, dir, pvFATLockHandle)
    }

    /** FF_CreateEvents */
    constructor ()
      ensures Valid() && fresh(xEventGroup) && fat == map[] && dir == {}
    {
      xEventGroup := new EventGroup();
      pvFATLockHandle, fat, dir := Null, map[], {};
      new;
      Masks();
      BitFacts();
      SetLockBits(xEventGroup.State(), Or(Or(FAT_LOCK, DIR_LOCK), BUF_LOCK), FAT_LOCK);
      SetLockBits(xEventGroup.State(), Or(Or(FAT_LOCK, DIR_LOCK), BUF_LOCK), DIR_LOCK);
      xEventGroup.SetEventBits(Or(Or(FAT_LOCK, DIR_LOCK), BUF_LOCK));
    }

    /** The first step of the locking loops: wait until the bit is set, or for ten seconds. */
    method WaitForBit(t: Id, bit: Bits) returns (blocked: bool)
      requires Valid() && (bit == FAT_LOCK || bit == DIR_LOCK)
      requires t !in xEventGroup.itemValues && t !in TaskSet(xEventGroup.xTasksWaitingForBits)
      modifies xEventGroup
      ensures Valid() && (blocked <==> Avoids(xEventGroup.uxEventBits, bit))
      ensures xEventGroup.uxEventBits == old(xEventGroup.uxEventBits)
      ensures blocked ==> t in xEventGroup.waits && xEventGroup.waits[t] == WaitValue(bit, false, false)
    {
      hide Settled, Truthful, Exclusive, Plain, Satisfied, WaitValue, ClearsOnExit, EventBitsOf;
      Masks();
      WaitValueRoundTrip(bit, false, false);
      var r: Bits;
      blocked, r := xEventGroup.WaitBits(t, bit, false, false, true);
    }

    /** The task runs again, released or timed out; it learns no more than that it is time to try. */
    method Resume(t: Id, bit: Bits)
      requires Valid() && t in xEventGroup.itemValues && (bit == FAT_LOCK || bit == DIR_LOCK)
      requires t in xEventGroup.waits && xEventGroup.waits[t] == WaitValue(bit, false, false)
      modifies xEventGroup
      ensures Valid() && xEventGroup.uxEventBits == old(xEventGroup.uxEventBits)
      ensures xEventGroup.itemValues == old(xEventGroup.itemValues) - {t}
    {
      hide Settled, Truthful, Exclusive, Plain, Satisfied, WaitValue, ClearsOnExit, EventBitsOf;
      Masks();
      var r := xEventGroup.Finish(t, bit, false, false);
    }

    /** The atomic test and clear of FF_LockFAT: it succeeds if and only if no task is inside. */
    method TryLockFAT(t: Id) returns (owned: bool)
      requires Valid()
      modifies xEventGroup, `fat
      ensures Valid() && (owned <==> old(fat) == map[])
      ensures fat == if owned then map[t := Claimed] else old(fat)
      ensures xEventGroup.xTasksWaitingForBits == old(xEventGroup.xTasksWaitingForBits)
    {
      hide Settled, Truthful, Without, ClearsOnExit, EventBitsOf, Avoids;
      ClearedBits(xEventGroup.uxEventBits);
      var r := xEventGroup.ClearEventBits(FAT_LOCK);
      owned := !Avoids(r, FAT_LOCK);
      if owned {
        fat := map[t := Claimed];
        assert t in fat;
      }
    }

    /** The task that cleared the bit records itself as the owner. */
    method TakeHandle(t: Id)
      requires Valid() && t in fat && fat[t].Claimed?
      modifies `pvFATLockHandle, `fat
      ensures Valid() && pvFATLockHandle == Task(t) && fat == old(fat)[t := Owns]
    {
      hide Settled, Truthful, ClearsOnExit, EventBitsOf, Avoids;
      assert fat[t := Owns] != map[];
      pvFATLockHandle, fat := Task(t), fat[t := Owns];
    }

    /** The first steps of FF_UnlockFAT, with its assertion that the bit is clear */
    method DropHandle(t: Id)
      requires Valid() && t in fat && fat[t].Owns?
      modifies `pvFATLockHandle, `fat
      ensures Valid() && pvFATLockHandle == Null && fat == old(fat)[t := Releasing]
    {
      hide Settled, Truthful, ClearsOnExit, EventBitsOf, Avoids;
      assert Avoids(xEventGroup.uxEventBits, FAT_LOCK);
      assert fat[t := Releasing] != map[];
      pvFATLockHandle, fat := Null, fat[t := Releasing];
    }

    /** The last step of FF_UnlockFAT: the bit is set and every task that waits for it is released. */
    method ReleaseFAT(t: Id)
      requires Valid() && t in fat && fat[t].Releasing?
      modifies xEventGroup, `fat
      ensures Valid() && fat == map[]
      ensures xEventGroup.State() == SetBits(old(xEventGroup.State()), FAT_LOCK)
    {
      hide Settled, Truthful, ClearsOnExit, EventBitsOf, Avoids, SetBits, Plain;
      Masks();
      BitFacts();
      SetLockBits(xEventGroup.State(), FAT_LOCK, FAT_LOCK);
      SetLockBits(xEventGroup.State(), FAT_LOCK, DIR_LOCK);
      xEventGroup.SetEventBits(FAT_LOCK);
      fat := map[];
    }

    /** FF_Has_Lock for the FAT lock, called by task `t` */
    method HasLock(t: Id) returns (r: bool)
      requires Valid()
      ensures r <==> t in fat && fat[t].Owns?
    {
      r := pvFATLockHandle != Null && pvFATLockHandle == Task(t);
    }

    /** The atomic test and clear of FF_LockDirectory */
    method TryLockDirectory(t: Id) returns (owned: bool)
      requires Valid()
      modifies xEventGroup, `dir
      ensures Valid() && (owned <==> old(dir) == {}) && dir == if owned then {t} else old(dir)
      ensures xEventGroup.xTasksWaitingForBits == old(xEventGroup.xTasksWaitingForBits)
    {
      hide Settled, Truthful, Without, ClearsOnExit, EventBitsOf, Avoids;
      ClearedBits(xEventGroup.uxEventBits);
      var r := xEventGroup.ClearEventBits(DIR_LOCK);
      owned := !Avoids(r, DIR_LOCK);
      if owned {
        dir := {t};
      }
    }

    /** FF_UnlockDirectory */
    method UnlockDirectory(t: Id)
      requires Valid() && t in dir
      modifies xEventGroup, `dir
      ensures Valid() && dir == {} && xEventGroup.State() == SetBits(old(xEventGroup.State()), DIR_LOCK)
    {
      hide Settled, Truthful, ClearsOnExit, EventBitsOf, Avoids, SetBits, Plain;
      assert Avoids(xEventGroup.uxEventBits, DIR_LOCK);
      Masks();
      BitFacts();
      SetLockBits(xEventGroup.State(), DIR_LOCK, FAT_LOCK);
      SetLockBits(xEventGroup.State(), DIR_LOCK, DIR_LOCK);
      xEventGroup.SetEventBits(DIR_LOCK);
      dir := {};
    }

    /** FF_BufferProceed: the third bit of the group does not disturb the locks. */
    method BufferProceed()
      requires Valid()
      modifies xEventGroup
      ensures Valid() && xEventGroup.State() == SetBits(old(xEventGroup.State()), BUF_LOCK)
    {
      hide Settled, Truthful, ClearsOnExit, EventBitsOf, Avoids, SetBits, Plain;
      Masks();
      BitFacts();
      SetLockBits(xEventGroup.State(), BUF_LOCK, FAT_LOCK);
      SetLockBits(xEventGroup.State(), BUF_LOCK, DIR_LOCK);
      xEventGroup.SetEventBits(BUF_LOCK);
    }

    /** FF_BufferWait up to the point where the task returns or blocks */
    method BufferWait(t: Id, canBlock: bool) returns (blocked: bool, r: Bits)
      requires Valid() && t !in xEventGroup.itemValues && t !in TaskSet(xEventGroup.xTasksWaitingForBits)
      modifies xEventGroup
      ensures Valid() && r == old(xEventGroup.uxEventBits)
      ensures blocked <==> Avoids(r, BUF_LOCK) && canBlock
      ensures xEventGroup.uxEventBits == if Avoids(r, BUF_LOCK) then r else Without(r, BUF_LOCK)
      ensures xEventGroup.xTasksWaitingForBits == old(xEventGroup.xTasksWaitingForBits) +
                if blocked then [Waiter(t, WaitValue(BUF_LOCK, true, false))] else []
      ensures blocked ==> t in xEventGroup.waits && xEventGroup.waits[t] == WaitValue(BUF_LOCK, true, false)
    {
      hide Settled, Truthful, ClearsOnExit, EventBitsOf, Avoids, Plain, Without, WaitValue, TestWaitCondition;
      AnyOf(xEventGroup.uxEventBits, BUF_LOCK);
      Masks();
      ClearedBits(xEventGroup.uxEventBits);
      WaitValueRoundTrip(BUF_LOCK, true, false);
      blocked, r := xEventGroup.WaitBits(t, BUF_LOCK, true, false, canBlock);
    }

    /** The rest of FF_BufferWait, when the task runs again */
    method BufferResume(t: Id) returns (r: bool)
      requires Valid() && t in xEventGroup.itemValues
      requires t in xEventGroup.waits && xEventGroup.waits[t] == WaitValue(BUF_LOCK, true, false)
      modifies xEventGroup
      ensures Valid() && xEventGroup.itemValues == old(xEventGroup.itemValues) - {t}
      ensures Unblocked(old(xEventGroup.itemValues)[t]) ==> r && xEventGroup.uxEventBits == old(xEventGroup.uxEventBits)
      ensures !Unblocked(old(xEventGroup.itemValues)[t]) ==>
        && (r <==> !Avoids(old(xEventGroup.uxEventBits), BUF_LOCK))
        && xEventGroup.uxEventBits == if r then Without(old(xEventGroup.uxEventBits), BUF_LOCK)
                                      else old(xEventGroup.uxEventBits)
    {
      hide Settled, Truthful, ClearsOnExit, EventBitsOf, Avoids, Plain, Without, WaitValue, Unblocked;
      hide TestWaitCondition;
      AnyOf(xEventGroup.uxEventBits, BUF_LOCK);
      Masks();
      ClearedBits(xEventGroup.uxEventBits);
      var bits := xEventGroup.Finish(t, BUF_LOCK, true, false);
      r := TestWaitCondition(bits, BUF_LOCK, false);
    }

    /** A block time ends, for a task that waits for any of the bits. */
    method TimeOut(i: nat)
      requires Valid() && i < |xEventGroup.xTasksWaitingForBits|
      modifies xEventGroup
      ensures Valid() && xEventGroup.uxEventBits == old(xEventGroup.uxEventBits)
      ensures xEventGroup.xTasksWaitingForBits ==
        old(xEventGroup.xTasksWaitingForBits)[..i] + old(xEventGroup.xTasksWaitingForBits)[i + 1..]
      ensures var w := old(xEventGroup.xTasksWaitingForBits)[i];
        xEventGroup.itemValues == old(xEventGroup.itemValues)[w.task := w.value]
    {
      hide Settled, Truthful, ClearsOnExit, EventBitsOf, Exclusive;
      xEventGroup.TimeOut(i);
    }

    /** A lock that is free keeps no task waiting. */
    lemma NobodyWaitsForAFreeLock(w: Waiter)
      requires Valid() && w in xEventGroup.xTasksWaitingForBits
      ensures w.value == WaitValue(FAT_LOCK, false, false) ==> exists t :: t in fat
      ensures w.value == WaitValue(DIR_LOCK, false, false) ==> exists t :: t in dir
    {
      hide Truthful, ClearsOnExit, EventBitsOf, Plain, WaitValue, WaitsForAll;
      Masks();
      WaitValueRoundTrip(FAT_LOCK, false, false);
      WaitValueRoundTrip(DIR_LOCK, false, false);
      if w.value == WaitValue(FAT_LOCK, false, false) {
        assert Avoids(xEventGroup.uxEventBits, FAT_LOCK);
        var t :| t in fat;
      }
      if w.value == WaitValue(DIR_LOCK, false, false) {
        assert Avoids(xEventGroup.uxEventBits, DIR_LOCK);
      }
    }
  }
}
