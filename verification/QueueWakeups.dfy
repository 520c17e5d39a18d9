/**
 One side of a queue: the tasks that wait for messages and the messages there are, or the tasks that wait for
 free slots and the free slots there are. Both sides work the same way, so the argument is made once.
 */
module QueueWakeups {
  import Lists

  type Id = Lists.Id

  const UNLOCKED: int := -1
  const LOCKED_UNMODIFIED: int := 0

  /**
   The event list, the tasks taken off it that have not retried yet, and the lock: cTxLock on the side of the
   receivers, cRxLock on that of the senders.
   */
  datatype Side = Side(waiting: seq<Id>, woken: set<Id>, lock: int)

  /** The cast to int8_t of a lock count. */
  function Int8(x: int): int {
    if x > 127 then x - 256 else x
  }

  function Counted(lock: int): nat {
    if lock > 0 then lock else 0
  }

  ghost predicate Listed(s: Side) {
    && UNLOCKED <= s.lock <= 127
    && (forall i, j :: 0 <= i < j < |s.waiting| ==> s.waiting[i] != s.waiting[j])
    && forall t :: t in s.waiting ==> t !in s.woken
  }

  /** Everything there is to take has a task that is on its way to it. */
  ghost predicate Covered(s: Side, amount: int) {
    amount <= |s.woken| + Counted(s.lock)
  }

  /** No task waits for something that is there, unless a task was woken for it, or unlocking will wake one. */
  ghost predicate Wakeful(s: Side, amount: int) {
    Listed(s) && (s.waiting != [] ==> Covered(s, amount))
  }

  /** xTaskRemoveFromEventList, when a task waits. */
  function WakeOne(s: Side): Side {
    if s.waiting == [] then s else Side(s.waiting[1..], s.woken + {s.waiting[0]}, s.lock)
  }

  /** What an interrupt does when it has added a message, or made room. */
  function Post(s: Side): Side {
    if s.lock == UNLOCKED then WakeOne(s) else s.(lock := Int8(s.lock + 1))
  }

  /** The loop of prvUnlockQueue for one of the locks. */
  function Drained(s: Side): Side
    decreases Counted(s.lock)
  {
    if s.lock > LOCKED_UNMODIFIED && s.waiting != [] then Drained(WakeOne(s).(lock := s.lock - 1))
    else s.(lock := UNLOCKED)
  }

  function Retried(s: Side, t: Id): Side {
    s.(woken := s.woken - {t})
  }

  lemma WakeOneKeeps(s: Side, amount: int)
    requires Wakeful(s, amount)
    ensures Wakeful(WakeOne(s), amount + 1) && WakeOne(s).lock == s.lock
  {
  }

  lemma WakeOneLock(s: Side, lock: int)
    ensures WakeOne(s.(lock := lock)) == WakeOne(s).(lock := lock)
  {
  }

  lemma PostKeeps(s: Side, amount: int)
    requires Wakeful(s, amount) && s.lock < 127
    ensures Wakeful(Post(s), amount + 1) && (Post(s).lock == UNLOCKED <==> s.lock == UNLOCKED)
    ensures s.lock != UNLOCKED && Covered(s, amount) ==> Covered(Post(s), amount + 1)
  {
    WakeOneKeeps(s, amount);
  }

  lemma {:induction false} DrainedKeeps(s: Side, amount: int)
    requires Wakeful(s, amount)
    ensures Wakeful(Drained(s), amount) && Drained(s).lock == UNLOCKED
    decreases Counted(s.lock)
  {
    if s.lock > LOCKED_UNMODIFIED && s.waiting != [] {
      DrainedKeeps(WakeOne(s).(lock := s.lock - 1), amount);
    }
  }

  /** A task, woken or not, takes one of what there is; or it retries and finds nothing. */
  lemma RetriedKeeps(s: Side, t: Id, amount: nat)
    requires Wakeful(s, amount)
    ensures Wakeful(Retried(s, t), if amount > 0 then amount - 1 else 0)
    ensures t !in s.woken ==> Retried(s, t) == s
  {
  }

  /** A task that looked without taking passes its wake-up on. */
  lemma PassedOn(s: Side, t: Id, amount: int)
    requires Wakeful(s, amount)
    ensures Wakeful(WakeOne(Retried(s, t)), amount)
  {
  }

  lemma PlacedKeeps(s: Side, t: Id, p: nat, amount: int)
    requires Wakeful(s, amount) && Covered(s, amount) && t !in s.waiting && t !in s.woken && p <= |s.waiting|
    ensures Wakeful(s.(waiting := s.waiting[..p] + [t] + s.waiting[p..]), amount)
  {
  }

  lemma TimedOutKeeps(s: Side, p: nat, amount: int)
    requires Wakeful(s, amount) && p < |s.waiting|
    ensures Wakeful(s.(waiting := s.waiting[..p] + s.waiting[p + 1..]), amount)
  {
  }

  /**
   The lock count is an int8_t. The 128th message sent while the queue is locked makes it negative, and unlocking
   then wakes no one: the wake-up is lost exactly if there are more messages than tasks already on their way.
   */
  lemma CountWraps(s: Side, amount: int)
    requires Wakeful(s, amount) && s.lock == 127 && s.waiting != []
    ensures Post(s).lock == -128 && Drained(Post(s)) == s.(lock := UNLOCKED)
    ensures !Wakeful(Drained(Post(s)), amount + 1) <==> amount + 1 > |s.woken|
  {
  }

  /** From `s` to `r` the first `n` waiting tasks have been woken. */
  ghost predicate Wakes(s: Side, r: Side, n: nat) {
    && n <= |s.waiting| && r.waiting == s.waiting[n..]
    && forall t :: t in r.woken <==> t in s.woken || t in s.waiting[..n]
  }

  /** Below that count no wake-up is lost: as many tasks are woken, in their order, as messages came. */
  lemma {:induction false} DrainedWakes(s: Side)
    ensures Wakes(s, Drained(s), if Counted(s.lock) < |s.waiting| then Counted(s.lock) else |s.waiting|)
    decreases Counted(s.lock)
  {
    hide Wakes;
    if s.lock > LOCKED_UNMODIFIED && s.waiting != [] {
      var next := WakeOne(s).(lock := s.lock - 1);
      DrainedWakes(next);
      WakesNext(s, next, Drained(next), if s.lock < |s.waiting| then s.lock else |s.waiting|);
    } else {
      WakesNone(s, Drained(s));
    }
  }

  lemma WakesNone(s: Side, r: Side)
    requires r.waiting == s.waiting && r.woken == s.woken
    ensures Wakes(s, r, 0)
  {
  }

  lemma WakesNext(s: Side, next: Side, r: Side, n: nat)
    requires 0 < n <= |s.waiting| && next.waiting == s.waiting[1..] && next.woken == s.woken + {s.waiting[0]}
    requires Wakes(next, r, n - 1)
    ensures Wakes(s, r, n)
  {
    assert s.waiting[..n] == [s.waiting[0]] + next.waiting[..n - 1];
  }
}
