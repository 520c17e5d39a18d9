/**
 The protocol between tasks and interrupts on a queue: each lemma is one critical section of queue.c.
 */
module QueueProtocol {
  import opened QueueWakeups

  /** Where the one task is that has the queue locked; the scheduler is suspended from prvLockQueue on. */
  datatype Phase = Free | Locked(t: Id) | SawEmpty(t: Id) | SawFull(t: Id) | Placed(t: Id) | TxDone(t: Id)

  ghost predicate Absent(s: Side, t: Id) {
    t !in s.waiting && t !in s.woken
  }

  /**
   `r` are the receivers, whom messages concern, `s` the senders, whom free slots concern. This is the claim that no
   wake-up is lost, with what a task that has the queue locked relies on.
   */
  ghost predicate Protocol(r: Side, s: Side, messages: int, free: int, phase: Phase) {
    && Wakeful(r, messages) && Wakeful(s, free)
    && (phase.Free? ==> r.lock == UNLOCKED && s.lock == UNLOCKED)
    && (phase.TxDone? ==> r.lock == UNLOCKED && s.lock != UNLOCKED)
    && (!phase.Free? && !phase.TxDone? ==> r.lock != UNLOCKED && s.lock != UNLOCKED)
    && (phase.SawEmpty? ==> Covered(r, messages))
    && (phase.SawFull? ==> Covered(s, free))
    && (phase.Locked? || phase.SawEmpty? || phase.SawFull? ==> Absent(r, phase.t) && Absent(s, phase.t))
  }

  /**
   Between calls: if no woken task has still to retry, receivers wait only on an empty queue, senders on a full one.
   */
  lemma Quiescent(r: Side, s: Side, messages: nat, free: nat)
    requires Protocol(r, s, messages, free, Free) && r.woken == {} && s.woken == {}
    ensures r.waiting != [] ==> messages == 0
    ensures s.waiting != [] ==> free == 0
  {
  }

  /** A task puts `k` messages, one or (by overwriting) none, and wakes a receiver. */
  lemma TaskPuts(r: Side, s: Side, messages: nat, free: nat, t: Id, k: nat)
    requires Protocol(r, s, messages, free, Free) && k <= 1 && (k <= free) && (k == 0 ==> free == 0)
    ensures Protocol(WakeOne(r), Retried(s, t), messages + k, free - k, Free)
  {
    hide Wakeful, Covered;
    WakeOneKeeps(r, messages);
    RetriedKeeps(s, t, free);
    Fewer(WakeOne(r), messages + 1, messages);
  }

  lemma Fewer(s: Side, amount: int, less: int)
    requires Wakeful(s, amount) && less <= amount
    ensures Wakeful(s, less)
  {
  }

  lemma TaskTakes(r: Side, s: Side, messages: nat, free: nat, t: Id)
    requires Protocol(r, s, messages, free, Free) && messages > 0
    ensures Protocol(Retried(r, t), WakeOne(s), messages - 1, free + 1, Free)
  {
    TaskPuts(s, r, free, messages, t, 1);
  }

  lemma TaskPeeks(r: Side, s: Side, messages: nat, free: nat, t: Id)
    requires Protocol(r, s, messages, free, Free)
    ensures Protocol(WakeOne(Retried(r, t)), s, messages, free, Free)
  {
    hide Wakeful, Covered;
    PassedOn(r, t, messages);
  }

  lemma TaskFails(r: Side, s: Side, messages: nat, free: nat, t: Id)
    requires Protocol(r, s, messages, free, Free)
    ensures messages == 0 ==> Protocol(Retried(r, t), s, messages, free, Free)
    ensures free == 0 ==> Protocol(r, Retried(s, t), messages, free, Free)
  {
    hide Wakeful, Covered;
    RetriedKeeps(r, t, messages);
    RetriedKeeps(s, t, free);
  }

  /** An interrupt puts `k` messages; the count must have room for one more. */
  lemma InterruptPuts(r: Side, s: Side, messages: nat, free: nat, phase: Phase, k: nat)
    requires Protocol(r, s, messages, free, phase) && k <= 1
    ensures Protocol(Post(r), s, messages + k, free - k, phase) <==> r.lock < 127
  {
    if r.lock < 127 {
      hide Wakeful, Covered;
      PostKeeps(r, messages);
      Fewer(Post(r), messages + 1, messages);
      Fewer(s, free, free - k);
      CoveredFewer(Post(r), messages + 1, messages + k);
      CoveredFewer(s, free, free - k);
    }
  }

  lemma CoveredFewer(s: Side, amount: int, less: int)
    requires less <= amount
    ensures Covered(s, amount) ==> Covered(s, less)
  {
  }

  lemma InterruptTakes(r: Side, s: Side, messages: nat, free: nat, phase: Phase)
    requires Protocol(r, s, messages, free, phase)
    ensures Protocol(r, Post(s), messages - 1, free + 1, phase) <==> s.lock < 127
  {
    if s.lock < 127 {
      hide Wakeful, Covered;
      PostKeeps(s, free);
      Fewer(r, messages, messages - 1);
      CoveredFewer(r, messages, messages - 1);
    }
  }

  lemma Unlocked(r: Side, s: Side, messages: int, free: int)
    requires Protocol(r, s, messages, free, Free)
    ensures r.lock == UNLOCKED && s.lock == UNLOCKED
  {
  }

  /** xQueueGenericReset empties the queue and wakes one sender, however many there is room for. */
  lemma Resets(r: Side, s: Side, messages: nat, free: nat)
    requires Protocol(r, s, messages, free, Free)
    ensures Protocol(r, WakeOne(s), 0, messages + free, Free) <==>
            WakeOne(s).waiting == [] || messages + free <= |WakeOne(s).woken|
  {
    WakeOneKeeps(s, free);
  }

  /** prvLockQueue */
  lemma Locks(r: Side, s: Side, messages: int, free: int, t: Id)
    requires Protocol(r, s, messages, free, Free) && Absent(r, t) && Absent(s, t)
    ensures Protocol(r.(lock := LOCKED_UNMODIFIED), s.(lock := LOCKED_UNMODIFIED), messages, free, Locked(t))
  {
  }

  lemma Saw(r: Side, s: Side, messages: int, free: int, t: Id)
    requires Protocol(r, s, messages, free, Locked(t))
    ensures messages == 0 ==> Protocol(r, s, messages, free, SawEmpty(t))
    ensures free == 0 ==> Protocol(r, s, messages, free, SawFull(t))
  {
  }

  /** vTaskPlaceOnEventList, at the place the priority of the task gives it */
  lemma Places(r: Side, s: Side, messages: int, free: int, phase: Phase, p: nat)
    requires Protocol(r, s, messages, free, phase)
    ensures phase.SawEmpty? && p <= |r.waiting| ==>
      Protocol(r.(waiting := r.waiting[..p] + [phase.t] + r.waiting[p..]), s, messages, free, Placed(phase.t))
    ensures phase.SawFull? && p <= |s.waiting| ==>
      Protocol(r, s.(waiting := s.waiting[..p] + [phase.t] + s.waiting[p..]), messages, free, Placed(phase.t))
  {
    hide Wakeful, Covered;
    if phase.SawEmpty? && p <= |r.waiting| {
      PlacedKeeps(r, phase.t, p, messages);
    } else if phase.SawFull? && p <= |s.waiting| {
      PlacedKeeps(s, phase.t, p, free);
    }
  }

  /** The two critical sections of prvUnlockQueue; interrupts may come between them. */
  lemma UnlocksTx(r: Side, s: Side, messages: int, free: int, phase: Phase)
    requires Protocol(r, s, messages, free, phase) && !phase.Free? && !phase.TxDone?
    ensures Protocol(Drained(r), s, messages, free, TxDone(phase.t))
  {
    hide Wakeful, Covered;
    DrainedKeeps(r, messages);
  }

  lemma UnlocksRx(r: Side, s: Side, messages: int, free: int, t: Id)
    requires Protocol(r, s, messages, free, TxDone(t))
    ensures Protocol(r, Drained(s), messages, free, Free)
  {
    hide Wakeful, Covered;
    DrainedKeeps(s, free);
  }

  /** The tick takes a task off the event list when its block time ends; ticks do so only between calls. */
  lemma TimesOut(r: Side, s: Side, messages: int, free: int, p: nat)
    requires Protocol(r, s, messages, free, Free)
    ensures p < |r.waiting| ==>
      Protocol(r.(waiting := r.waiting[..p] + r.waiting[p + 1..]), s, messages, free, Free)
    ensures p < |s.waiting| ==>
      Protocol(r, s.(waiting := s.waiting[..p] + s.waiting[p + 1..]), messages, free, Free)
  {
    hide Wakeful, Covered;
    if p < |r.waiting| {
      TimedOutKeeps(r, p, messages);
    }
    if p < |s.waiting| {
      TimedOutKeeps(s, p, free);
    }
  }
}
