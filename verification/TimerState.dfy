/**
 The state of the timer daemon of timers.c seen in unbounded time, and the invariant its steps keep.
 */
module TimerState {
  import opened Arithmetic
  import opened Ticks
  import opened Lists

  /** The part of Timer_t that is not its list item. */
  datatype Timer = Timer(period: nat, autoReload: bool)

  /** The timer commands; Start stands for the five start and reset commands. */
  datatype Kind = Start | Stop | ChangePeriod | Delete

  /** A command under way with the unbounded time behind its 32-bit value, or with the new period that it brings. */
  datatype Mail = Mail(kind: Kind, time: nat, timer: Id, period: nat)

  /** One execution of a timer's callback, with the unbounded expiry time it is for. */
  datatype Run = Run(timer: Id, expiry: nat)

  ghost predicate InOrder(runs: seq<Run>) {
    forall i, j :: 0 <= i < j < |runs| ==> runs[i].expiry <= runs[j].expiry
  }

  /** The expiry times that the callback of `t` was run for */
  ghost function CallsOf(runs: seq<Run>, t: Id): seq<nat> {
    if runs == [] then []
    else
      var last := runs[|runs| - 1];
      CallsOf(runs[..|runs| - 1], t) + if last.timer == t then [last.expiry] else []
  }

  lemma CallsOfNext(runs: seq<Run>, run: Run, t: Id)
    ensures CallsOf(runs + [run], t) == CallsOf(runs, t) + if run.timer == t then [run.expiry] else []
  {
    assert (runs + [run])[..|runs|] == runs;
  }

  /** All expiry times of a timer from `first` on that lie before `end` */
  ghost function ExpiriesUntil(first: nat, timer: Timer, end: nat): seq<nat>
    decreases end - first
  {
    if first >= end then []
    else [first] + if timer.autoReload && timer.period != 0 then ExpiriesUntil(first + timer.period, timer, end) else []
  }

  /** What a timer that is listed for `due[t]`, or not at all, has to be called for before `end` */
  ghost function Owed(timers: map<Id, Timer>, due: map<Id, nat>, t: Id, end: nat): seq<nat> {
    if t in due && t in timers then ExpiriesUntil(due[t], timers[t], end) else []
  }

  /** The runs so far and what the listed timers are still owed make up what they were owed at first. */
  ghost predicate Running(timers: map<Id, Timer>, first: map<Id, nat>, due: map<Id, nat>, runs: seq<Run>, end: nat) {
    forall t :: CallsOf(runs, t) + Owed(timers, due, t, end) == Owed(timers, first, t, end)
  }

  lemma RunningStarts(timers: map<Id, Timer>, due: map<Id, nat>, end: nat)
    ensures Running(timers, due, due, [], end)
  {
    forall t ensures CallsOf([], t) + Owed(timers, due, t, end) == Owed(timers, due, t, end) {
    }
  }

  lemma RunningEnds(timers: map<Id, Timer>, first: map<Id, nat>, due: map<Id, nat>, runs: seq<Run>, end: nat)
    requires Running(timers, first, due, runs, end) && InOrder(runs) && forall t :: t in due ==> end <= due[t]
    ensures RunsAll(timers, first, runs, end)
  {
    forall t ensures CallsOf(runs, t) == Owed(timers, first, t, end) {
      assert Owed(timers, due, t, end) == [];
    }
  }

  /** One expiry has been run, and the timer is listed for its next one if that lies before `end`. */
  ghost predicate RunsOn(timers: map<Id, Timer>, due: map<Id, nat>, after: map<Id, nat>, run: Run, end: nat) {
    && run.timer in timers && timers[run.timer].period != 0
    && run.timer in due && due[run.timer] == run.expiry < end
    && (forall t :: t != run.timer ==> (t in due <==> t in after) && (t in due ==> after[t] == due[t]))
    && (run.timer in after <==> timers[run.timer].autoReload && run.expiry + timers[run.timer].period < end)
    && (run.timer in after ==> after[run.timer] == run.expiry + timers[run.timer].period)
  }

  lemma OwedNext(timers: map<Id, Timer>, due: map<Id, nat>, after: map<Id, nat>, run: Run, end: nat)
    requires RunsOn(timers, due, after, run, end)
    ensures Owed(timers, due, run.timer, end) == [run.expiry] + Owed(timers, after, run.timer, end)
  {
    var t, next := run.timer, run.expiry + timers[run.timer].period;
    assert next >= end ==> ExpiriesUntil(next, timers[t], end) == [];
  }

  lemma RunningNext(timers: map<Id, Timer>, first: map<Id, nat>, due: map<Id, nat>, after: map<Id, nat>, runs: seq<Run>,
                    run: Run, end: nat)
    requires Running(timers, first, due, runs, end) && RunsOn(timers, due, after, run, end)
    ensures Running(timers, first, after, runs + [run], end)
  {
    hide CallsOf, ExpiriesUntil;
    OwedNext(timers, due, after, run, end);
    forall t
      ensures CallsOf(runs + [run], t) + Owed(timers, after, t, end) == Owed(timers, first, t, end)
    {
      CallsOfNext(runs, run, t);
      assert CallsOf(runs, t) + Owed(timers, due, t, end) == Owed(timers, first, t, end);
      if t == run.timer {
        Regroup(CallsOf(runs, t), run.expiry, Owed(timers, after, t, end));
      } else {
        assert CallsOf(runs + [run], t) == CallsOf(runs, t);
      }
    }
  }

  lemma Regroup(a: seq<nat>, x: nat, b: seq<nat>)
    ensures a + [x] + b == a + ([x] + b)
  {
  }

  lemma {:induction false} CallsAreRuns(runs: seq<Run>, t: Id, expiry: nat)
    requires expiry in CallsOf(runs, t)
    ensures Run(t, expiry) in runs
  {
    var n := |runs| - 1;
    if runs[n] != Run(t, expiry) {
      CallsAreRuns(runs[..n], t, expiry);
    }
  }

  lemma OwedIsRun(timers: map<Id, Timer>, due: map<Id, nat>, runs: seq<Run>, end: nat, t: Id)
    requires RunsAll(timers, due, runs, end) && t in due && t in timers && due[t] < end
    ensures Run(t, due[t]) in runs
  {
    assert CallsOf(runs, t) == Owed(timers, due, t, end);
    CallsAreRuns(runs, t, due[t]);
  }

  /** Exactly the expiries before `end` of the listed timers have been run, in time order. */
  ghost predicate RunsAll(timers: map<Id, Timer>, due: map<Id, nat>, runs: seq<Run>, end: nat) {
    InOrder(runs) && forall t :: CallsOf(runs, t) == Owed(timers, due, t, end)
  }

  /**
   A timer followed since its start: how often it was called, when it has to be called next, and how long the log of
   the callbacks was when the timer began to be followed.
   */
  datatype Plan = Plan(start: nat, calls: nat, next: nat, since: nat)

  /** The time `k` periods after `start`. */
  ghost function After(start: nat, period: nat, k: nat): nat {
    if k == 0 then start else After(start, period, k - 1) + period
  }

  lemma {:induction false} AfterIsProduct(start: nat, period: nat, k: nat)
    ensures After(start, period, k) == start + k * period
  {
    if k != 0 {
      AfterIsProduct(start, period, k - 1);
    }
  }

  /** The ends of the first `n` periods after `start` */
  ghost function Expiries(start: nat, period: nat, n: nat): (s: seq<nat>)
    ensures |s| == n
  {
    if n == 0 then [] else Expiries(start, period, n - 1) + [After(start, period, n)]
  }

  /** The callbacks of a followed timer since then are those for the ends of its first periods, in this order. */
  ghost predicate Logged(plan: Plan, timer: Timer, log: seq<Run>, t: Id) {
    && plan.since <= |log|
    && CallsOf(log[plan.since..], t) == Expiries(plan.start, timer.period, plan.calls)
  }

  lemma LoggedCall(plan: Plan, timer: Timer, log: seq<Run>, t: Id, run: Run)
    requires Logged(plan, timer, log, t)
    requires run.timer == t ==> run.expiry == After(plan.start, timer.period, plan.calls + 1)
    ensures Logged(if run.timer == t then plan.(calls := plan.calls + 1, next := plan.next + timer.period) else plan,
                   timer, log + [run], t)
  {
    assert (log + [run])[plan.since..] == log[plan.since..] + [run];
    CallsOfNext(log[plan.since..], run, t);
  }

  /** From `b` to `c` the timer `t`, if it was followed, is so still, from the same start and with the same settings. */
  ghost predicate KeepsTimer(b: Book, c: Book, t: Id) {
    b.log <= c.log && b.now <= c.now &&
    (t in b.plan && t in b.timers ==>
      && t in c.plan && t in c.timers && c.timers[t] == b.timers[t]
      && c.plan[t].start == b.plan[t].start && c.plan[t].since == b.plan[t].since)
  }

  ghost predicate Keeps(b: Book, c: Book) {
    forall t :: KeepsTimer(b, c, t)
  }

  /** From `b` to `c` only `t` is listed or followed anew, or sent commands for. */
  ghost predicate OnlyFor(b: Book, c: Book, t: Id) {
    && c.plan.Keys - {t} == b.plan.Keys - {t} && c.due.Keys - {t} <= b.due.Keys
    && b.mail <= c.mail && forall j :: |b.mail| <= j < |c.mail| ==> c.mail[j].timer == t
  }

  /** From `b` to `c` the timer `t`, if it was on no list and in no command, is so still and has not been called. */
  ghost predicate Rests(b: Book, c: Book, t: Id) {
    b.log <= c.log &&
    (t !in b.due && t !in b.Mailed() ==>
      && t !in c.due && t !in c.Mailed()
      && forall j :: |b.log| <= j < |c.log| ==> c.log[j].timer != t)
  }

  lemma AllRest(b: Book)
    ensures forall t :: Rests(b, b, t)
  {
  }

  lemma RestsOn(b: Book, c: Book, d: Book, t: Id)
    requires Rests(b, c, t) && Rests(c, d, t)
    ensures Rests(b, d, t)
  {
    assert |b.log| <= |c.log| && forall j :: |b.log| <= j < |c.log| ==> d.log[j] == c.log[j];
  }

  lemma AllRestOn(b: Book, c: Book, d: Book)
    requires forall t :: Rests(b, c, t) && Rests(c, d, t)
    ensures forall t :: Rests(b, d, t)
  {
    hide Rests;
    forall t ensures Rests(b, d, t) {
      RestsOn(b, c, d, t);
    }
  }

  /** What the contracts of a step say of lists, commands and callbacks is enough. */
  lemma RestIf(b: Book, c: Book, runs: seq<Run>)
    requires c.due.Keys <= b.due.Keys + b.Mailed() && c.Mailed() <= b.due.Keys + b.Mailed() && c.log == b.log + runs
    requires forall r :: r in runs ==> r.timer in b.due || r.timer in b.Mailed()
    ensures forall t :: Rests(b, c, t)
  {
    forall t, j | |b.log| <= j < |c.log| && c.log[j].timer == t ensures t in b.due || t in b.Mailed() {
      assert c.log[j] in runs;
    }
  }

  lemma {:induction false} RunIsCall(runs: seq<Run>, r: Run)
    requires r in runs
    ensures r.expiry in CallsOf(runs, r.timer)
  {
    var n := |runs| - 1;
    if r != runs[n] {
      RunIsCall(runs[..n], r);
    }
  }

  /** The callbacks of a switch are those of timers that were listed. */
  lemma RunsOfListed(timers: map<Id, Timer>, due: map<Id, nat>, runs: seq<Run>, end: nat)
    requires RunsAll(timers, due, runs, end)
    ensures forall r :: r in runs ==> r.timer in due
  {
    forall r | r in runs ensures r.timer in due {
      RunIsCall(runs, r);
      assert CallsOf(runs, r.timer) == Owed(timers, due, r.timer, end);
    }
  }

  /**
   In every run in which no command is sent for a timer, once it is on no list and in no command it is never called
   and never listed again.
   */
  lemma {:induction false} NotCalledInAnyRun(run: seq<Book>, t: Id)
    requires run != [] && t !in run[0].due && t !in run[0].Mailed()
    requires forall i :: 0 < i < |run| ==> Rests(run[i - 1], run[i], t)
    ensures forall i :: 0 <= i < |run| ==>
      && t !in run[i].due && t !in run[i].Mailed() && run[0].log <= run[i].log
      && CallsOf(run[i].log[|run[0].log|..], t) == []
  {
    forall i | 0 <= i < |run|
      ensures && t !in run[i].due && t !in run[i].Mailed() && run[0].log <= run[i].log
              && CallsOf(run[i].log[|run[0].log|..], t) == []
    {
      RestsThrough(run[..i + 1], t);
      NotInLog(run[i].log[|run[0].log|..], t);
    }
  }

  lemma {:induction false} RestsThrough(run: seq<Book>, t: Id)
    requires run != [] && forall i :: 0 < i < |run| ==> Rests(run[i - 1], run[i], t)
    ensures Rests(run[0], run[|run| - 1], t)
  {
    var n := |run| - 1;
    if n > 0 {
      RestsThrough(run[..n], t);
      RestsOn(run[0], run[n - 1], run[n], t);
    }
  }

  lemma {:induction false} NotInLog(runs: seq<Run>, t: Id)
    requires forall j :: 0 <= j < |runs| ==> runs[j].timer != t
    ensures CallsOf(runs, t) == []
  {
    if runs != [] {
      NotInLog(runs[..|runs| - 1], t);
    }
  }

  lemma KeepsSame(b: Book)
    ensures Keeps(b, b)
  {
  }

  lemma CallKeeps(b: Book, t: Id, expiry: nat)
    requires t in b.timers
    ensures var c := b.Call(t, expiry);
      && Keeps(b, c) && c.log == b.log + [Run(t, expiry)] && c.plan.Keys == b.plan.Keys
      && (forall u :: u in c.plan && u != t ==> c.plan[u] == b.plan[u])
      && (t in c.plan ==>
           && c.plan[t].next == b.plan[t].next + b.timers[t].period && c.plan[t].calls != 0
           && c.plan[t].start == b.plan[t].start && c.plan[t].since == b.plan[t].since)
  {
  }

  lemma KeepsIf(b: Book, c: Book)
    requires b.log <= c.log && b.now <= c.now && b.timers == c.timers
    requires forall t :: t in b.plan ==>
      t in c.plan && c.plan[t].start == b.plan[t].start && c.plan[t].since == b.plan[t].since
    ensures Keeps(b, c)
  {
  }

  lemma KeepsOn(b: Book, c: Book, d: Book)
    requires Keeps(b, c) && Keeps(c, d)
    ensures Keeps(b, d)
  {
    forall t ensures KeepsTimer(b, d, t) {
      assert KeepsTimer(b, c, t) && KeepsTimer(c, d, t);
    }
  }

  /**
   `due` has the unbounded expiry time of every timer on a list, `log` the callbacks run so far, and `plan` the timers
   followed: those that were started and have had no other command since.
   */
  datatype Book = Book(timers: map<Id, Timer>, due: map<Id, nat>, mail: seq<Mail>, plan: map<Id, Plan>, log: seq<Run>,
                       now: nat) {

    ghost function Mailed(): set<Id> {
      set m | m in mail :: m.timer
    }

    ghost predicate Known() {
      && (forall t :: t in timers ==> 1 <= timers[t].period < WRAP)
      && due.Keys <= timers.Keys && plan.Keys <= timers.Keys && Mailed() <= timers.Keys
      && forall m :: m in mail ==> m.time <= now
    }

    /** No command or expiry is left unhandled for as long as a whole wrap of the tick count. */
    ghost predicate TimelyAt(time: nat) {
      && (forall m :: m in mail ==> time < m.time + WRAP)
      && (forall t :: t in due ==> time < due[t] + WRAP)
    }

    /** The calls of a followed timer are on schedule and none was early. */
    ghost predicate OnSchedule(t: Id)
      requires t in plan && t in timers
    {
      && plan[t].next == After(plan[t].start, timers[t].period, plan[t].calls + 1)
      && plan[t].next <= now + timers[t].period
      && Logged(plan[t], timers[t], log, t)
    }

    /** A followed timer stands on a list or in one start command, with the right expiry time. */
    ghost predicate Followed(t: Id, held: set<Id>)
      requires t in plan && t in timers
    {
      && (t in due ==> due[t] == plan[t].next && t !in Mailed())
      && (forall m :: m in mail && m.timer == t ==> m.kind == Start && m.time + timers[t].period == plan[t].next)
      && (forall i, j :: 0 <= i < j < |mail| && mail[i].timer == t ==> mail[j].timer != t)
      && (t in held ==> t !in Mailed())
      && (t !in held && (timers[t].autoReload || plan[t].calls == 0) ==> t in due || t in Mailed())
    }

    /** `held` has the timer the daemon holds in its hands, on no list and in no command. */
    ghost predicate Inv(held: set<Id>) {
      && Known() && TimelyAt(now)
      && (forall t :: t in held ==> t !in due)
      && (forall t :: t in plan && t in timers ==> OnSchedule(t) && Followed(t, held))
    }

    function Advance(elapsed: nat): Book {
      this.(now := now + elapsed)
    }

    function Unlist(t: Id): Book {
      this.(due := due - {t})
    }

    function List(t: Id, expiry: nat): Book {
      this.(due := due[t := expiry])
    }

    function Post(m: Mail): Book {
      this.(mail := mail + [m])
    }

    function Take(): Book
      requires mail != []
    {
      this.(mail := mail[1..])
    }

    /** The callback of `t` runs for its expiry at `expiry`. */
    function Call(t: Id, expiry: nat): Book
      requires t in timers
    {
      var p := if t in plan
               then plan[t := plan[t].(calls := plan[t].calls + 1, next := plan[t].next + timers[t].period)] else plan;
      this.(plan := p, log := log + [Run(t, expiry)])
    }

    lemma AdvanceInv(elapsed: nat, held: set<Id>)
      requires Inv(held) && TimelyAt(now + elapsed)
      ensures Advance(elapsed).Inv(held)
    {
      hide Logged, After;
    }

    lemma UnlistInv(t: Id, others: set<Id>)
      requires Inv(others) && t in due
      ensures Unlist(t).Inv(others + {t})
    {
      hide Logged, After;
    }

    lemma ListInv(t: Id, expiry: nat, others: set<Id>)
      requires Inv(others + {t}) && t !in others && t in timers && now < expiry + WRAP
      requires t in plan ==> expiry == plan[t].next
      ensures List(t, expiry).Inv(others)
    {
      hide Logged, After;
    }

    lemma CallInv(t: Id, expiry: nat, others: set<Id>)
      requires Inv(others + {t}) && t in timers && expiry <= now
      requires t in plan ==> plan[t].next == expiry
      ensures Call(t, expiry).Inv(others + {t})
    {
      hide Logged;
      var b := Call(t, expiry);
      assert b.Mailed() == Mailed();
      forall u | u in b.plan && u in timers ensures b.OnSchedule(u) && b.Followed(u, others + {t}) {
        assert OnSchedule(u) && Followed(u, others + {t});
        LoggedCall(plan[u], timers[u], log, u, Run(t, expiry));
      }
    }

    lemma PostInv(m: Mail, others: set<Id>)
      requires Inv(others + {m.timer}) && m.timer !in others
      requires m.timer in timers && m.kind == Start && m.time <= now < m.time + WRAP
      requires m.timer in plan ==> m.time + timers[m.timer].period == plan[m.timer].next
      ensures Post(m).Inv(others)
    {
      hide Logged, After;
      var b := Post(m);
      assert b.Mailed() == Mailed() + {m.timer};
      forall u | u in b.plan && u in timers ensures b.Followed(u, others) {
        assert Followed(u, others + {m.timer});
      }
    }

    /** The daemon lets go of a timer that is not going to be called again. */
    lemma ReleaseInv(t: Id, others: set<Id>)
      requires Inv(others + {t}) && t !in others
      requires t in plan && t in timers ==> !timers[t].autoReload && plan[t].calls != 0
      ensures Inv(others)
    {
      hide Logged, After;
    }

    lemma TakeInv()
      requires Inv({}) && mail != []
      ensures mail[0].timer !in due ==> Take().Inv({mail[0].timer})
      ensures mail[0].timer in due ==> Take().Inv({})
    {
      hide Logged, After;
      var b := Take();
      assert forall m :: m in b.mail ==> m in mail;
      forall u | u in b.plan && u in timers
        ensures b.OnSchedule(u)
        ensures mail[0].timer !in due ==> b.Followed(u, {mail[0].timer})
        ensures mail[0].timer in due ==> b.Followed(u, {})
      {
        assert OnSchedule(u) && Followed(u, {});
      }
    }

    /** A command of another task: the timer it is for is not followed while it is under way. */
    lemma CommandInv(m: Mail)
      requires Inv({}) && m.timer in timers && m.time <= now < m.time + WRAP
      ensures this.(mail := mail + [m], plan := plan - {m.timer}).Inv({})
    {
      hide Logged, After;
      var b := this.(mail := mail + [m], plan := plan - {m.timer});
      assert b.Mailed() == Mailed() + {m.timer};
      forall u | u in b.plan && u in timers ensures b.OnSchedule(u) && b.Followed(u, {}) {
        assert OnSchedule(u) && Followed(u, {});
      }
    }

    /** A timer that is followed from `start` on and has not been called since */
    ghost function Fresh(t: Id, start: nat): Plan
      requires t in timers
    {
      Plan(start, 0, start + timers[t].period, |log|)
    }

    lemma FreshLogged(t: Id, start: nat)
      requires t in timers
      ensures Fresh(t, start).next == After(start, timers[t].period, 1) && Logged(Fresh(t, start), timers[t], log, t)
    {
      assert After(start, timers[t].period, 1) == After(start, timers[t].period, 0) + timers[t].period;
    }

    /** A start command is the last one under way for its timer: from here on it is followed. */
    lemma FollowInv(t: Id, start: nat)
      requires Inv({t}) && t in timers && t !in Mailed() && start <= now
      ensures this.(plan := plan[t := Fresh(t, start)]).Inv({t})
    {
      hide Logged, After, CallsOf;
      FreshLogged(t, start);
      assert forall m :: m in mail ==> m.timer != t;
    }

    /** A start command of another task for a timer that is on no list and in no command: it is followed at once. */
    lemma StartInv(t: Id)
      requires Inv({}) && t in timers && t !in due && t !in Mailed()
      ensures this.(mail := mail + [Mail(Start, now, t, 0)], plan := plan[t := Fresh(t, now)]).Inv({})
    {
      hide Logged, After, CallsOf;
      FreshLogged(t, now);
      var b := this.(mail := mail + [Mail(Start, now, t, 0)], plan := plan[t := Fresh(t, now)]);
      assert b.Mailed() == Mailed() + {t};
      assert forall m :: m in mail ==> m.timer != t;
      forall u | u in b.plan && u in timers ensures b.OnSchedule(u) && b.Followed(u, {}) {
        if u != t {
          assert OnSchedule(u) && Followed(u, {});
        } else {
          assert b.mail[|mail|] == Mail(Start, now, t, 0);
        }
      }
    }

    /** A timer that is not followed gets a new period. */
    lemma ChangeInv(t: Id, timer: Timer, others: set<Id>)
      requires Inv(others) && t in timers && t !in plan && 1 <= timer.period < WRAP
      ensures this.(timers := timers[t := timer]).Inv(others)
    {
      hide Logged, After;
    }

    /** What the invariant says of one timer. */
    lemma About(t: Id, held: set<Id>)
      requires Inv(held)
      ensures t in due || t in plan || t in Mailed() ==> t in timers
      ensures t in timers ==> 1 <= timers[t].period < WRAP
      ensures t in held ==> t !in due
      ensures t in due ==> now < due[t] + WRAP
      ensures t in due && t in plan ==> due[t] == plan[t].next && t !in held
    {
    }

    /** What the invariant says of the first command under way. */
    lemma AboutMail(held: set<Id>)
      requires Inv(held) && mail != []
      ensures mail[0].timer in timers && mail[0].time <= now < mail[0].time + WRAP
      ensures mail[0].timer in plan ==>
        && mail[0].kind == Start && mail[0].time + timers[mail[0].timer].period == plan[mail[0].timer].next
        && mail[0].timer !in due
    {
    }
  }

  // A queue of commands is emptied

  /** The command is the only one under way for its timer. */
  ghost predicate Alone(i: nat, commands: seq<Mail>) {
    i < |commands| && forall j :: 0 <= j < |commands| && j != i ==> commands[j].timer != commands[i].timer
  }

  /**
   From `b` to `c` the first command, for `t`, is obeyed. With a switch of the lists new commands may have been sent for
   the timers that were listed, and otherwise only for `t`.
   */
  ghost predicate Moves(b: Book, c: Book, t: Id, switched: bool) {
    && b.mail != [] && b.mail[1..] <= c.mail
    && (forall j :: |b.mail| - 1 <= j < |c.mail| ==> c.mail[j].timer == t || (switched && c.mail[j].timer in b.due))
    && c.plan.Keys - {t} == b.plan.Keys - {t} && c.due.Keys - {t} <= b.due.Keys
    && c.timers.Keys == b.timers.Keys && forall u :: u in b.timers && u != t ==> c.timers[u] == b.timers[u]
  }

  lemma MovesIf(b: Book, at: Book, c: Book, t: Id, switched: bool)
    requires b.mail != [] && b.mail[1..] <= at.mail && OnlyFor(at, c, t)
    requires !switched ==> at.mail == b.mail[1..]
    requires forall j :: |b.mail| - 1 <= j < |at.mail| ==> at.mail[j].timer in b.due
    requires at.plan.Keys == b.plan.Keys && at.due.Keys <= b.due.Keys && t in c.timers
    requires c.timers == at.timers == b.timers || (at.timers == b.timers && c.timers == b.timers[t := c.timers[t]])
    requires t in b.timers
    ensures Moves(b, c, t, switched)
  {
    forall j | |b.mail| - 1 <= j < |c.mail|
      ensures c.mail[j].timer == t || (switched && c.mail[j].timer in b.due)
    {
      if j < |at.mail| {
        assert c.mail[j] == at.mail[j];
      }
    }
  }

  lemma MovesRest(b: Book, c: Book, t: Id, switched: bool, runs: seq<Run>)
    requires Moves(b, c, t, switched) && t in b.Mailed() && c.log == b.log + runs
    requires forall r :: r in runs ==> r.timer == t || r.timer in b.due
    ensures forall u :: Rests(b, c, u)
  {
    hide Rests;
    forall u | u in c.due ensures u in b.due || u in b.Mailed() {
      assert u != t ==> u in c.due.Keys - {t};
    }
    forall j | 0 <= j < |c.mail| ensures c.mail[j].timer in b.due || c.mail[j].timer in b.Mailed() {
      if j < |b.mail| - 1 {
        assert c.mail[j] == b.mail[1..][j] == b.mail[j + 1];
      }
    }
    RestIf(b, c, runs);
  }

  /**
   The first command, with no other under way for its timer, is obeyed: a timer that it starts or gives a new period is
   followed from then on, and one that it stops is on no list and in no command.
   */
  ghost predicate ObeysFirst(b: Book, c: Book) {
    b.mail != [] && Alone(0, b.mail) ==>
      var t := b.mail[0].timer;
      && (b.mail[0].kind.Start? ==>
           t in c.plan && c.timers == b.timers && (t !in b.plan ==> c.plan[t].start == b.mail[0].time))
      && (b.mail[0].kind.ChangePeriod? && t in b.timers ==>
           t in c.plan && t in c.timers && c.timers[t] == b.timers[t].(period := b.mail[0].period))
      && (b.mail[0].kind.Stop? || b.mail[0].kind.Delete? ==> t !in c.due && t !in c.Mailed())
  }

  /** A command with no other under way for its timer, which no switch of the lists sends a start */
  ghost predicate Single(b: Book, i: nat, switched: bool) {
    Alone(i, b.mail) && (i == 0 || !switched || b.mail[i].timer !in b.due)
  }

  /** The command has still to be taken, after `k` others have been. */
  ghost predicate StillWaits(b: Book, c: Book, k: nat, i: nat)
    requires i < |b.mail|
  {
    var t := b.mail[i].timer;
    && k <= i && Alone(i - k, c.mail) && c.mail[i - k] == b.mail[i]
    && t in b.timers && t in c.timers && c.timers[t] == b.timers[t] && (t in c.plan <==> t in b.plan)
  }

  /**
   The timer of a start is followed, with its settings, from that start, that of a change of period with the new one;
   the timer of a command to stop or to delete it is on no list and in no command.
   */
  ghost predicate Obeyed(b: Book, c: Book, i: nat)
    requires i < |b.mail|
  {
    var t := b.mail[i].timer;
    && (b.mail[i].kind.Start? ==>
         && t in b.timers && t in c.plan && t in c.timers && c.timers[t] == b.timers[t]
         && c.plan[t].start == if t in b.plan then b.plan[t].start else b.mail[i].time)
    && (b.mail[i].kind.ChangePeriod? && t in b.timers ==>
         t in c.plan && t in c.timers && c.timers[t] == b.timers[t].(period := b.mail[i].period))
    && (b.mail[i].kind.Stop? || b.mail[i].kind.Delete? ==> t !in c.due && t !in c.Mailed())
  }

  ghost predicate ObeysAll(b: Book, c: Book, k: nat, switched: bool) {
    forall i: nat :: i < |b.mail| && Single(b, i, switched) ==>
      if i < k then Obeyed(b, c, i) else StillWaits(b, c, k, i)
  }

  lemma NoneTaken(b: Book, switched: bool)
    requires b.Inv({})
    ensures ObeysAll(b, b, 0, switched)
  {
    hide Book.TimelyAt, Book.OnSchedule, Book.Followed;
    forall i: nat | i < |b.mail| ensures b.mail[i].timer in b.timers {
      assert b.mail[i] in b.mail && b.mail[i].timer in b.Mailed();
    }
  }

  lemma AllTaken(b: Book, c: Book, k: nat, switched: bool)
    requires ObeysAll(b, c, k, switched) && c.mail == []
    ensures forall i: nat :: i < |b.mail| && Single(b, i, switched) ==> Obeyed(b, c, i)
  {
  }

  lemma OneTaken(b: Book, c: Book, d: Book, k: nat, switched: bool, now: bool)
    requires ObeysAll(b, c, k, switched) && c.mail != [] && Moves(c, d, c.mail[0].timer, now)
    requires now ==> c == b && switched && k == 0
    requires ObeysFirst(c, d) && Keeps(c, d) && Keeps(b, c) && forall t :: Rests(c, d, t)
    ensures ObeysAll(b, d, k + 1, switched)
  {
    hide Keeps, KeepsTimer, Rests;
    forall i: nat | i < |b.mail| && Single(b, i, switched)
      ensures if i < k + 1 then Obeyed(b, d, i) else StillWaits(b, d, k + 1, i)
    {
      if i < k {
        FollowedStill(b, c, d, i);
      } else if i == k {
        FollowedNow(b, c, d, i);
      } else {
        WaitsOn(b, c, d, k, i, switched, now);
      }
    }
  }

  lemma FollowedStill(b: Book, c: Book, d: Book, i: nat)
    requires i < |b.mail| && Obeyed(b, c, i) && Keeps(c, d) && Rests(c, d, b.mail[i].timer)
    ensures Obeyed(b, d, i)
  {
    assert KeepsTimer(c, d, b.mail[i].timer);
  }

  lemma FollowedNow(b: Book, c: Book, d: Book, i: nat)
    requires i < |b.mail| && StillWaits(b, c, i, i) && ObeysFirst(c, d)
    requires Keeps(b, c) && Keeps(c, d)
    ensures Obeyed(b, d, i)
  {
    assert KeepsTimer(b, c, b.mail[i].timer) && KeepsTimer(c, d, b.mail[i].timer);
  }

  lemma WaitsOn(b: Book, c: Book, d: Book, k: nat, i: nat, switched: bool, now: bool)
    requires k < i < |b.mail| && Single(b, i, switched) && StillWaits(b, c, k, i)
    requires c.mail != [] && Moves(c, d, c.mail[0].timer, now) && (now ==> c == b && switched)
    ensures StillWaits(b, d, k + 1, i)
  {
    var t := b.mail[i].timer;
    assert c.mail[0].timer != t;
    assert t in c.plan.Keys - {c.mail[0].timer} <==> t in d.plan.Keys - {c.mail[0].timer};
    assert d.mail[i - k - 1] == c.mail[1..][i - k - 1] == c.mail[i - k];
    forall j | 0 <= j < |d.mail| && j != i - k - 1 ensures d.mail[j].timer != t {
      if j < |c.mail| - 1 {
        assert d.mail[j] == c.mail[1..][j] == c.mail[j + 1];
      }
    }
  }

  /**
   The callbacks of a followed auto-reload timer are those for the ends of its first periods, never more than have
   passed, and all of them if and only if the end of the next one lies in the future; that is when it is listed for,
   unless it is in a command.
   */
  lemma OneCallPerPeriod(b: Book, t: Id)
    requires b.Inv({}) && t in b.plan && t in b.timers && b.timers[t].autoReload
    ensures b.timers[t].period != 0 && b.plan[t].since <= |b.log|
    ensures CallsOf(b.log[b.plan[t].since..], t) == Expiries(b.plan[t].start, b.timers[t].period, b.plan[t].calls)
    ensures b.plan[t].start <= b.now && b.plan[t].calls <= (b.now - b.plan[t].start) / b.timers[t].period
    ensures b.plan[t].calls == (b.now - b.plan[t].start) / b.timers[t].period <==> b.now < b.plan[t].next
    ensures b.plan[t].next == b.plan[t].start + (b.plan[t].calls + 1) * b.timers[t].period
    ensures t !in b.Mailed() ==> t in b.due && b.due[t] == b.plan[t].next
  {
    hide CallsOf, Expiries;
    var start, calls, period := b.plan[t].start, b.plan[t].calls, b.timers[t].period;
    assert b.OnSchedule(t) && b.Followed(t, {});
    AfterIsProduct(start, period, calls);
    AfterIsProduct(start, period, calls + 1);
    Quotient(b.now - start, period, calls);
  }

  /** The timer has had exactly one callback for each period since its start, in order, and is listed for the next. */
  ghost predicate OnTime(b: Book, t: Id)
    requires t in b.plan && t in b.timers
  {
    var start, period := b.plan[t].start, b.timers[t].period;
    && start <= b.now && 1 <= period && b.plan[t].since <= |b.log|
    && CallsOf(b.log[b.plan[t].since..], t) == Expiries(start, period, (b.now - start) / period)
    && t in b.due && b.due[t] == start + ((b.now - start) / period + 1) * period
  }

  ghost predicate AllOnTime(b: Book) {
    forall t :: t in b.plan && t in b.timers && b.timers[t].autoReload ==> OnTime(b, t)
  }

  lemma Quotient(elapsed: int, period: nat, calls: nat)
    requires period != 0 && calls * period <= elapsed
    ensures calls <= elapsed / period && (calls == elapsed / period <==> elapsed < (calls + 1) * period)
  {
    var q := QuotientOf(elapsed, period);
    Ordered(calls, q, period);
    Ordered(calls + 1, q, period);
  }

  lemma QuotientOf(elapsed: nat, period: nat) returns (q: nat)
    requires period != 0
    ensures q == elapsed / period && q * period <= elapsed < (q + 1) * period
  {
    q := elapsed / period;
    Spread(q, 1, period);
  }

  /** A multiple that is not above what lies below the multiple after `q` is not above the one of `q`. */
  lemma Ordered(k: nat, q: nat, period: nat)
    ensures k > q ==> k * period >= (q + 1) * period
    ensures k <= q ==> k * period <= q * period
  {
    Spread(q + 1, k - (q + 1), period);
    Spread(k, q - k, period);
  }

  /**
   In every run of steps of the daemon and of other tasks with no other command for a timer: from the state in which it
   is first followed, started at `start`, its callbacks are those for start + period, start + 2 * period and so on, one
   for each period that has passed, except while its next expiry is overdue or in a command.
   */
  lemma {:induction false} OneCallPerPeriodInEveryRun(run: seq<Book>, t: Id, timer: Timer, start: nat)
    requires run != [] && t in run[0].plan && t in run[0].timers && run[0].timers[t] == timer
    requires timer.autoReload && timer.period != 0 && run[0].plan[t].start == start
    requires forall i :: 0 <= i < |run| ==> run[i].Inv({})
    requires forall i :: 0 < i < |run| ==> KeepsTimer(run[i - 1], run[i], t)
    ensures forall i :: 0 <= i < |run| ==> OnePerPeriod(run[i], t, timer, start, run[0].plan[t].since)
  {
    hide OnePerPeriod, Book.Inv;
    var n := |run| - 1;
    if n > 0 {
      OneCallPerPeriodInEveryRun(run[..n], t, timer, start);
      assert forall i :: 0 <= i < n ==> run[..n][i] == run[i];
      assert OnePerPeriod(run[..n][n - 1], t, timer, start, run[0].plan[t].since);
      StillFollowed(run[n - 1], run[n], t, timer, start, run[0].plan[t].since);
    }
    OnePerPeriodNow(run[n], t, timer, start, run[0].plan[t].since);
  }

  lemma StillFollowed(b: Book, c: Book, t: Id, timer: Timer, start: nat, since: nat)
    requires OnePerPeriod(b, t, timer, start, since) && KeepsTimer(b, c, t)
    ensures t in c.plan && t in c.timers && c.timers[t] == timer
    ensures c.plan[t].start == start && c.plan[t].since == since
  {
  }

  lemma OnePerPeriodNow(b: Book, t: Id, timer: Timer, start: nat, since: nat)
    requires b.Inv({}) && t in b.plan && t in b.timers && b.timers[t] == timer && timer.autoReload
    requires b.plan[t].start == start && b.plan[t].since == since
    ensures OnePerPeriod(b, t, timer, start, since)
  {
    hide CallsOf, Expiries, Book.Inv;
    OneCallPerPeriod(b, t);
    if t in b.due {
      b.About(t, {});
    }
  }

  ghost predicate OnePerPeriod(b: Book, t: Id, timer: Timer, start: nat, since: nat) {
    && t in b.plan && t in b.timers && b.timers[t] == timer && b.plan[t].start == start <= b.now
    && timer.period != 0 && b.plan[t].since == since <= |b.log|
    && (t !in b.Mailed() ==> t in b.due)
    && exists n: nat ::
      && CallsOf(b.log[since..], t) == Expiries(start, timer.period, n) && n <= (b.now - start) / timer.period
      && (t in b.due && b.now < b.due[t] ==> n == (b.now - start) / timer.period)
  }
}
