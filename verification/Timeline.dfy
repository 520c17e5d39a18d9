/**
 Blocked tasks in unbounded time: what the scheduler does to the wake times over a whole run.
 */
module Timeline {
  import opened Lists

  /** The unbounded tick count, the tasks blocked with a block time and when it ends, and the tasks that are ready. */
  datatype Clock = Clock(now: nat, due: map<Id, nat>, awake: set<Id>)

  /**
   What a step means for a task that it does not touch: a tick, or several that are made up for at once, wake the task
   exactly if its time has come, and otherwise it stays as it is.
   */
  ghost predicate StepFor(c: Clock, d: Clock, t: Id) {
    && c.now <= d.now
    && (t in c.due ==>
         if d.now < c.due[t] || d.now == c.now then t in d.due && d.due[t] == c.due[t] else t !in d.due && t in d.awake)
    && (t !in c.due ==> t !in d.due && (t in c.awake ==> t in d.awake))
  }

  lemma NoStep(c: Clock)
    ensures forall t :: StepFor(c, c, t)
  {
  }

  lemma StepsOn(c: Clock, d: Clock, e: Clock, t: Id)
    requires StepFor(c, d, t) && StepFor(d, e, t)
    ensures StepFor(c, e, t)
  {
  }

  lemma StepsAllOn(c: Clock, d: Clock, e: Clock)
    requires forall t :: StepFor(c, d, t) && StepFor(d, e, t)
    ensures forall t :: StepFor(c, e, t) && (t in e.due ==> t in d.due)
  {
    forall t ensures StepFor(c, e, t) {
      StepsOn(c, d, e, t);
    }
    forall t ensures t in e.due ==> t in d.due {
      assert StepFor(d, e, t);
    }
  }

  lemma StepsMean(c: Clock, d: Clock)
    requires forall t :: StepFor(c, d, t)
    ensures forall t :: t in d.due <==> t in c.due && (d.now < c.due[t] || d.now == c.now)
    ensures forall t :: t in d.due ==> t in c.due && d.due[t] == c.due[t]
    ensures forall t :: t in c.due && t !in d.due ==> t in d.awake
  {
    forall t
      ensures t in d.due <==> t in c.due && (d.now < c.due[t] || d.now == c.now)
      ensures t in d.due ==> t in c.due && d.due[t] == c.due[t]
      ensures t in c.due && t !in d.due ==> t in d.awake
    {
      assert StepFor(c, d, t);
    }
  }

  /**
   In every run in which no step touches a task that starts to wait for `ticks` ticks, it stays blocked through every
   state before the tick that ends the wait, and is ready in every state from that tick on.
   */
  lemma {:induction false} WokenExactlyOnTime(run: seq<Clock>, t: Id, ticks: nat)
    requires run != [] && 0 < ticks && t in run[0].due && run[0].due[t] == run[0].now + ticks
    requires forall i :: 0 < i < |run| ==> StepFor(run[i - 1], run[i], t)
    ensures forall i :: 0 <= i < |run| ==> OnTime(run[i], t, run[0].now + ticks)
  {
    var n := |run| - 1;
    if n > 0 {
      WokenExactlyOnTime(run[..n], t, ticks);
      assert forall i :: 0 <= i < n ==> run[..n][i] == run[i];
      assert OnTime(run[..n][n - 1], t, run[0].now + ticks);
      assert StepFor(run[n - 1], run[n], t);
    }
  }

  /** The task is blocked until `time` and ready from then on. */
  ghost predicate OnTime(c: Clock, t: Id, time: nat) {
    if c.now < time then t in c.due && c.due[t] == time else t !in c.due && t in c.awake
  }
}
