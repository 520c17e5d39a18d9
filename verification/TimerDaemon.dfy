/**
 The timer daemon of timers.c. The lists, the command queue and the sampled tick count are the 32-bit data of
 the source; the ghost fields say what they mean in unbounded time.
 */
module TimerDaemon {
  import opened Ticks
  import opened Lists
  import opened TimerRoute
  import opened TimerState
  import opened WakeList

  /** DaemonTaskMessage_t */
  datatype Message = Message(kind: Kind, value: Tick, timer: Id)

  /** What is left of an epoch for the timers of a list. */
  ghost function Remaining(s: seq<Item>): nat {
    if s == [] then 0 else WRAP - s[0].value + Remaining(s[1..])
  }

  lemma {:induction false} RemainingInsert(s: seq<Item>, x: Item)
    ensures Remaining(Insert(s, x)) == Remaining(s) + WRAP - x.value
  {
    var r := Insert(s, x);
    if s != [] && s[0].value <= x.value {
      RemainingInsert(s[1..], x);
      assert r[0] == s[0] && r[1..] == Insert(s[1..], x);
    } else {
      assert r[0] == x && r[1..] == s;
    }
  }

  lemma RemainingRest(s: seq<Item>)
    requires s != []
    ensures Remaining(s) == WRAP - s[0].value + Remaining(s[1..]) && forall y :: y in s[1..] ==> y in s
  {
  }

  /** How far the commands under way lie in the past. */
  ghost function Backlog(mail: seq<Mail>, time: nat): nat {
    if mail == [] then 0 else (if mail[0].time <= time then time + 1 - mail[0].time else 0) + Backlog(mail[1..], time)
  }

  lemma {:induction false} BacklogAppend(a: seq<Mail>, m: Mail, time: nat)
    ensures Backlog(a + [m], time) == Backlog(a, time) + Backlog([m], time)
  {
    if a == [] {
      assert a + [m] == [m];
    } else {
      assert (a + [m])[1..] == a[1..] + [m];
      BacklogAppend(a[1..], m, time);
    }
  }

  lemma BacklogOne(m: Mail, time: nat)
    requires m.time <= time
    ensures Backlog([m], time) == time + 1 - m.time
  {
  }

  lemma LowOfSum(base: nat, value: Tick, period: nat)
    requires base % WRAP == 0 && period < WRAP
    ensures Low(base + value) == value && Plus(value, period) == Low(base + value + period)
  {
  }

  lemma LowOfStart(start: nat, period: nat)
    requires period < WRAP
    ensures Plus(Low(start), period) == Low(start + period)
  {
  }

  /** A tick count that is lower than when it was last sampled has wrapped since, and no other has. */
  lemma WrapSeen(base: nat, sampled: nat, time: nat)
    requires base % WRAP == 0 && base <= sampled < base + WRAP && sampled <= time < sampled + WRAP
    ensures Low(time) < Low(sampled) <==> base + WRAP <= time
  {
  }

  /** A command that another task sends, some ticks after the one before it */
  datatype Arrival = Arrival(after: nat, kind: Kind, timer: Id, period: Tick)

  /** The message of a command, which carries the period where it changes that */
  ghost predicate Carries(m: Message, a: Arrival) {
    m.kind == a.kind && m.timer == a.timer && (a.kind != Start ==> m.value == a.period)
  }

  lemma CarriesThat(m: Message, a: Arrival)
    requires m.kind == a.kind && m.timer == a.timer && (a.kind != Start ==> m.value == a.period)
    ensures Carries(m, a)
  {
  }

  function Duration(arrivals: seq<Arrival>): nat {
    if arrivals == [] then 0 else arrivals[0].after + Duration(arrivals[1..])
  }

  lemma DurationNext(arrivals: seq<Arrival>, k: nat)
    requires k < |arrivals|
    ensures Duration(arrivals[k..]) == arrivals[k].after + Duration(arrivals[k + 1..])
  {
    assert arrivals[k..][1..] == arrivals[k + 1..];
  }

  lemma DurationEnds(arrivals: seq<Arrival>)
    ensures Duration(arrivals[|arrivals|..]) == 0
  {
  }

  class Daemon {
    var pxCurrentTimerList: seq<Item>
    var pxOverflowTimerList: seq<Item>
    var xTimerQueue: seq<Message>
    var xLastTime: Tick
    var timer: map<Id, Timer>

    /** The time in ticks; xTaskGetTickCount() shows its low 32 bits. */
    var time: nat

    ghost var base: nat
    ghost var sampled: nat
    ghost var due: map<Id, nat>
    ghost var mail: seq<Mail>
    ghost var plan: map<Id, Plan>

    /** The callbacks run so far, and the same with those that the present step of the daemon is bound to run */
    ghost var log: seq<Run>
    ghost var booked: seq<Run>

    ghost function View(): Book
      reads `timer, `due, `mail, `plan, `booked, `time
    {
      Book(timer, due, mail, plan, booked, time)
    }

    /** The current list has the expiries of the epoch at `base`, the overflow list those of the next. */
    ghost predicate Lists()
      reads `pxCurrentTimerList, `pxOverflowTimerList, `base, `due
    {
      && Holds(pxCurrentTimerList, base, due) && Holds(pxOverflowTimerList, base + WRAP, due)
      && base % WRAP == 0 && forall t :: t in due ==> base <= due[t] < base + 2 * WRAP
    }

    ghost predicate Commands()
      reads `xTimerQueue, `mail
    {
      && |xTimerQueue| == |mail|
      && forall i :: 0 <= i < |mail| ==>
        && xTimerQueue[i].kind == mail[i].kind && xTimerQueue[i].timer == mail[i].timer
        && (mail[i].kind == Start ==> xTimerQueue[i].value == Low(mail[i].time))
        && (mail[i].kind == ChangePeriod ==> 1 <= xTimerQueue[i].value == mail[i].period)
    }

    /** What every step of the daemon keeps; `held` has the timers it is busy with. */
    ghost predicate Core(held: set<Id>)
      reads `pxCurrentTimerList, `pxOverflowTimerList, `xTimerQueue, `base, `timer, `due, `mail, `plan, `booked, `time
    {
      Lists() && Commands() && View().Inv(held)
    }

    /** The lists are those of the epoch in which the tick count was last sampled. */
    ghost predicate Sampled()
      reads `base, `sampled, `time, `xLastTime
    {
      base <= sampled < base + WRAP && sampled <= time < sampled + WRAP && xLastTime == Low(sampled)
    }

    ghost predicate Valid()
      reads this
    {
      Core({}) && Sampled() && log == booked
    }

    /** `elapsed` more ticks leave nothing unhandled for a whole wrap of the tick count. */
    ghost predicate Timely(elapsed: nat)
      reads `timer, `due, `mail, `plan, `booked, `time, `sampled
    {
      View().TimelyAt(time + elapsed) && time + elapsed < sampled + WRAP
    }

    constructor (timers: map<Id, Timer>)
      requires forall t :: t in timers ==> 1 <= timers[t].period < WRAP
      ensures Valid() && timer == timers && plan == map[] && log == [] && time == 0
      ensures due == map[] && mail == [] && xTimerQueue == []
    {
      pxCurrentTimerList, pxOverflowTimerList, xTimerQueue, xLastTime := [], [], [], 0;
      timer, time := timers, 0;
      base, sampled, due, mail, plan, log, booked := 0, 0, map[], [], map[], [], [];
    }

    /** uxListRemove on a timer's list item. */
    method Unlist(t: Id, ghost others: set<Id>)
      requires Core(others) && t in due
      modifies `pxCurrentTimerList, `pxOverflowTimerList, `due
      ensures Core(others + {t}) && due == old(due) - {t}
      ensures pxCurrentTimerList == Remove(old(pxCurrentTimerList), t)
      ensures pxOverflowTimerList == Remove(old(pxOverflowTimerList), t)
    {
      hide Book.Inv, Holds;
      HoldsRemove(pxCurrentTimerList, base, due, t);
      HoldsRemove(pxOverflowTimerList, base + WRAP, due, t);
      View().UnlistInv(t, others);
      pxCurrentTimerList := Remove(pxCurrentTimerList, t);
      pxOverflowTimerList := Remove(pxOverflowTimerList, t);
      due := due - {t};
    }

    method InsertCurrent(t: Id, value: Tick, ghost others: set<Id>)
      requires Core(others + {t}) && t !in others && t in timer && time < base + value + WRAP
      requires t in plan ==> plan[t].next == base + value
      modifies `pxCurrentTimerList, `due
      ensures Core(others) && due == old(due)[t := base + value]
      ensures pxCurrentTimerList == Insert(old(pxCurrentTimerList), Item(value, t))
    {
      hide Book.Inv, Holds;
      View().About(t, others + {t});
      HoldsInsert(pxCurrentTimerList, base, due, Item(value, t));
      HoldsElsewhere(pxOverflowTimerList, base + WRAP, due, t, base + value);
      View().ListInv(t, base + value, others);
      pxCurrentTimerList := Insert(pxCurrentTimerList, Item(value, t));
      due := due[t := base + value];
    }

    method InsertOverflow(t: Id, value: Tick, ghost others: set<Id>)
      requires Core(others + {t}) && t !in others && t in timer && time < base + WRAP + value + WRAP
      requires t in plan ==> plan[t].next == base + WRAP + value
      modifies `pxOverflowTimerList, `due
      ensures Core(others) && due == old(due)[t := base + WRAP + value]
      ensures pxOverflowTimerList == Insert(old(pxOverflowTimerList), Item(value, t))
    {
      hide Book.Inv, Holds;
      View().About(t, others + {t});
      HoldsInsert(pxOverflowTimerList, base + WRAP, due, Item(value, t));
      HoldsElsewhere(pxCurrentTimerList, base, due, t, base + WRAP + value);
      View().ListInv(t, base + WRAP + value, others);
      pxOverflowTimerList := Insert(pxOverflowTimerList, Item(value, t));
      due := due[t := base + WRAP + value];
    }

    /** The timer has been found expired: from here on its callback is owed. */
    ghost method Count(t: Id, expiry: nat, others: set<Id>)
      requires Core(others + {t}) && t in timer && expiry <= time
      requires t in plan ==> plan[t].next == expiry
      modifies `plan, `booked
      ensures Core(others + {t}) && View() == old(View().Call(t, expiry))
    {
      hide Book.Inv, Holds;
      View().CallInv(t, expiry, others);
      plan, booked := View().Call(t, expiry).plan, View().Call(t, expiry).log;
    }

    /** pxCallbackFunction; what it does is not part of this model. */
    method Callback(t: Id, ghost expiry: nat)
      modifies `log
      ensures log == old(log) + [Run(t, expiry)]
    {
      log := log + [Run(t, expiry)];
    }

    /** xTimerGenericCommand(tmrCOMMAND_START_DONT_TRACE), sent by the daemon to itself. */
    method SendStart(t: Id, value: Tick, ghost start: nat, ghost others: set<Id>)
      requires Core(others + {t}) && t !in others && t in timer
      requires value == Low(start) && start <= time < start + WRAP
      requires t in plan ==> plan[t].next == start + timer[t].period
      modifies `xTimerQueue, `mail
      ensures Core(others) && mail == old(mail) + [Mail(Start, start, t, 0)]
      ensures xTimerQueue == old(xTimerQueue) + [Message(Start, value, t)]
    {
      hide Book.Inv, Holds;
      View().PostInv(Mail(Start, start, t, 0), others);
      xTimerQueue := xTimerQueue + [Message(Start, value, t)];
      mail := mail + [Mail(Start, start, t, 0)];
    }

    lemma Head(held: set<Id>)
      requires Core(held) && pxCurrentTimerList != []
      ensures var x := pxCurrentTimerList[0];
        && x.owner in timer && x.owner in due && due[x.owner] == base + x.value && x.owner !in held
        && 1 <= timer[x.owner].period < WRAP && time < base + x.value + WRAP
        && (x.owner in plan ==> plan[x.owner].next == base + x.value)
        && (forall y :: y in pxCurrentTimerList ==> x.value <= y.value)
        && (forall t :: t in due ==> base + x.value <= due[t])
        && Remove(pxCurrentTimerList, x.owner) == pxCurrentTimerList[1..]
        && Remove(pxOverflowTimerList, x.owner) == pxOverflowTimerList
    {
      hide Book.Inv, Holds, Remove;
      HoldsHead(pxCurrentTimerList, base, due);
      HoldsNot(pxOverflowTimerList, base + WRAP, due, pxCurrentTimerList[0].owner);
      forall t | t in held ensures t !in due {
        View().About(t, held);
      }
      View().About(pxCurrentTimerList[0].owner, held);
    }

    lemma Settings(held: set<Id>, t: Id)
      requires Core(held) && t in timer
      ensures base % WRAP == 0 && 1 <= timer[t].period < WRAP
    {
      hide Book.Inv, Holds;
      View().About(t, held);
    }

    lemma Aligned(held: set<Id>)
      requires Core(held)
      ensures base % WRAP == 0
    {
      hide Book.Inv, Holds;
    }

    /** A timer that expired in an epoch that is over is put back for the same epoch, or sent a command. */
    method Reload(t: Id, value: Tick, ghost others: set<Id>)
      requires Core(others + {t}) && t !in others && t in timer && 1 <= timer[t].period < WRAP
      requires base + WRAP <= time < base + value + WRAP
      requires t in plan ==> plan[t].next == base + value + timer[t].period && plan[t].calls != 0
      modifies `pxCurrentTimerList, `xTimerQueue, `due, `mail
      ensures Core(others) && old(mail) <= mail
      ensures base % WRAP == 0 && (t in due <==> timer[t].autoReload && value + timer[t].period < WRAP)
      ensures t in due ==>
        && due == old(due)[t := base + value + timer[t].period]
        && pxCurrentTimerList == Insert(old(pxCurrentTimerList), Item(value + timer[t].period, t))
      ensures t !in due ==> due == old(due) && pxCurrentTimerList == old(pxCurrentTimerList)
      ensures forall i :: |old(mail)| <= i < |mail| ==> mail[i].timer == t
    {
      hide Core, Insert;
      HeldFacts(t, others);
      if timer[t].autoReload {
        var xReloadTime := Plus(value, timer[t].period);
        if xReloadTime > value {
          InsertCurrent(t, xReloadTime, others);
        } else {
          SendStart(t, value, base + value, others);
        }
      } else {
        LetGo(t, others);
      }
    }

    lemma HeldFacts(t: Id, others: set<Id>)
      requires Core(others + {t})
      ensures base % WRAP == 0 && t !in due
    {
      hide Book.Inv, Holds;
      View().About(t, others + {t});
    }

    lemma LetGo(t: Id, others: set<Id>)
      requires Core(others + {t}) && t !in others
      requires t in plan && t in timer ==> !timer[t].autoReload && plan[t].calls != 0
      ensures Core(others)
    {
      hide Book.Inv, Holds;
      View().ReleaseInv(t, others);
    }

    /** The timer at the head of the current list is taken off it, to be called. */
    method TakeHead(ghost held: set<Id>) returns (xNextExpireTime: Tick, t: Id)
      requires Core(held) && pxCurrentTimerList != [] && base + pxCurrentTimerList[0].value <= time
      modifies `pxCurrentTimerList, `pxOverflowTimerList, `due, `plan, `booked
      ensures Core(held + {t}) && t !in held && Keeps(old(View()), View())
      ensures old(pxCurrentTimerList) == [Item(xNextExpireTime, t)] + pxCurrentTimerList
      ensures pxOverflowTimerList == old(pxOverflowTimerList)
      ensures forall y :: y in pxCurrentTimerList ==> xNextExpireTime <= y.value
      ensures t in timer && 1 <= timer[t].period < WRAP && time < base + xNextExpireTime + WRAP
      ensures due == old(due) - {t} && t in old(due) && old(due)[t] == base + xNextExpireTime
      ensures booked == old(booked) + [Run(t, base + xNextExpireTime)]
      ensures plan.Keys == old(plan.Keys) && forall u :: u in plan && u != t ==> plan[u] == old(plan[u])
      ensures t in plan ==> plan[t].next == base + xNextExpireTime + timer[t].period && plan[t].calls != 0
    {
      hide Book.Inv, Holds, Core, Remove, Keeps, Book.Call;
      Head(held);
      xNextExpireTime, t := pxCurrentTimerList[0].value, pxCurrentTimerList[0].owner;
      Unlist(t, held);
      ghost var at := View();
      CallKeeps(at, t, base + xNextExpireTime);
      Count(t, base + xNextExpireTime, held);
      KeepsIf(old(View()), View());
    }

    /** The timer at the head of the current list is taken off it and called. */
    method CallHead(ghost held: set<Id>) returns (xNextExpireTime: Tick, t: Id)
      requires Core(held) && pxCurrentTimerList != [] && base + pxCurrentTimerList[0].value <= time
      modifies `pxCurrentTimerList, `pxOverflowTimerList, `due, `plan, `log, `booked
      ensures Core(held + {t}) && t !in held && Keeps(old(View()), View())
      ensures old(pxCurrentTimerList) == [Item(xNextExpireTime, t)] + pxCurrentTimerList
      ensures pxOverflowTimerList == old(pxOverflowTimerList)
      ensures forall y :: y in pxCurrentTimerList ==> xNextExpireTime <= y.value
      ensures t in timer && 1 <= timer[t].period < WRAP && time < base + xNextExpireTime + WRAP
      ensures due == old(due) - {t} && t in old(due) && old(due)[t] == base + xNextExpireTime
      ensures log == old(log) + [Run(t, base + xNextExpireTime)]
      ensures booked == old(booked) + [Run(t, base + xNextExpireTime)]
      ensures plan.Keys == old(plan.Keys) && forall u :: u in plan && u != t ==> plan[u] == old(plan[u])
      ensures t in plan ==> plan[t].next == base + xNextExpireTime + timer[t].period && plan[t].calls != 0
    {
      hide Core, Keeps;
      xNextExpireTime, t := TakeHead(held);
      Callback(t, base + xNextExpireTime);
    }

    /** One pass of the loop of prvSwitchTimerLists. */
    method RunHead(ghost held: set<Id>) returns (ghost run: Run)
      requires Core(held) && pxCurrentTimerList != [] && base + WRAP <= time
      modifies `pxCurrentTimerList, `pxOverflowTimerList, `xTimerQueue, `due, `mail, `plan, `log, `booked
      ensures Core(held) && pxOverflowTimerList == old(pxOverflowTimerList) && old(mail) <= mail
      ensures run == Run(old(pxCurrentTimerList[0].owner), base + old(pxCurrentTimerList[0].value))
      ensures run.timer !in held
      ensures log == old(log) + [run] && booked == old(booked) + [run] && Keeps(old(View()), View())
      ensures plan.Keys == old(plan.Keys) && forall t :: t in plan && t != run.timer ==> plan[t] == old(plan[t])
      ensures run.timer in plan && run.timer in timer ==> plan[run.timer].next == run.expiry + timer[run.timer].period
      ensures forall y :: y in pxCurrentTimerList ==> run.expiry <= base + y.value
      ensures RunsOn(timer, old(due), due, run, base + WRAP)
      ensures forall i :: |old(mail)| <= i < |mail| ==> mail[i].timer == run.timer
      ensures Remaining(pxCurrentTimerList) < Remaining(old(pxCurrentTimerList))
    {
      hide Book.Inv, Holds, Core, Insert, Keeps, Remaining;
      var xNextExpireTime, t := CallHead(held);
      ghost var rest, at := pxCurrentTimerList, View();
      RemainingRest(old(pxCurrentTimerList));
      assert old(pxCurrentTimerList)[1..] == rest;
      Reload(t, xNextExpireTime, held);
      run := Run(t, base + xNextExpireTime);
      KeepsIf(at, View());
      KeepsOn(old(View()), at, View());
      if t in due {
        var x := Item(xNextExpireTime + timer[t].period, t);
        RemainingInsert(rest, x);
        InsertMembers(rest, x);
      }
    }

    /** The current list has run empty in an epoch that is over: the lists change places. */
    method SwapLists(ghost held: set<Id>)
      requires Core(held) && pxCurrentTimerList == []
      modifies `pxCurrentTimerList, `pxOverflowTimerList, `base
      ensures Core(held) && base == old(base) + WRAP
      ensures pxCurrentTimerList == old(pxOverflowTimerList) && pxOverflowTimerList == []
      ensures forall t :: t in due ==> base <= due[t]
    {
      hide Book.Inv, Holds;
      HoldsEmpty(base, due);
      HoldsNothing(base + 2 * WRAP, due);
      var pxTemp := pxCurrentTimerList;
      pxCurrentTimerList := pxOverflowTimerList;
      pxOverflowTimerList := pxTemp;
      base := base + WRAP;
    }

    /**
     prvSwitchTimerLists: it ends, runs exactly the expiries left in the finished epoch in time order, each timer as
     often as it expires there, and the new current list is the old overflow list.
     */
    method SwitchTimerLists(ghost held: set<Id>) returns (ghost runs: seq<Run>)
      requires Core(held) && base + WRAP <= time && log == booked
      modifies `pxCurrentTimerList, `pxOverflowTimerList, `xTimerQueue, `due, `mail, `plan, `log, `booked, `base
      ensures Core(held) && base == old(base) + WRAP && log == booked
      ensures pxCurrentTimerList == old(pxOverflowTimerList) && pxOverflowTimerList == []
      ensures log == old(log) + runs && RunsAll(timer, old(due), runs, base)
      ensures forall x :: x in old(pxCurrentTimerList) ==> Run(x.owner, old(base) + x.value) in runs
      ensures forall r :: r in runs ==> old(base) <= r.expiry < base
      ensures Keeps(old(View()), View()) && plan.Keys == old(plan.Keys)
      ensures forall t :: t in held && t in plan ==> plan[t] == old(plan[t])
      ensures old(mail) <= mail && due.Keys <= old(due.Keys)
      ensures forall i :: |old(mail)| <= i < |mail| ==> mail[i].timer !in held && mail[i].timer in old(due)
    {
      hide Book.Inv, Holds, Core, Insert, Remove, Remaining, RunsAll, Running, Keeps, View, Book.Call;
      runs := [];
      KeepsSame(View());
      RunningStarts(timer, due, base + WRAP);
      ListedAreDue(held);
      while pxCurrentTimerList != []
        invariant Core(held) && pxOverflowTimerList == old(pxOverflowTimerList) && base == old(base)
        invariant log == booked == old(log) + runs && InOrder(runs)
        invariant forall r :: r in runs ==> base <= r.expiry < base + WRAP
        invariant forall r, x :: r in runs && x in pxCurrentTimerList ==> r.expiry <= base + x.value
        invariant Keeps(old(View()), View()) && plan.Keys == old(plan.Keys)
        invariant forall t :: t in held && t in plan ==> plan[t] == old(plan[t])
        invariant old(mail) <= mail && due.Keys <= old(due.Keys)
        invariant forall i :: |old(mail)| <= i < |mail| ==> mail[i].timer !in held && mail[i].timer in old(due)
        invariant Running(timer, old(due), due, runs, base + WRAP)
        decreases Remaining(pxCurrentTimerList)
      {
        ghost var x, before, at := pxCurrentTimerList[0], due, View();
        assert x in pxCurrentTimerList;
        Head(held);
        ghost var run := RunHead(held);
        RunningNext(timer, old(due), before, due, runs, run, base + WRAP);
        KeepsOn(old(View()), at, View());
        runs := runs + [run];
      }
      SwapLists(held);
      KeepsSame(View());
      RunningEnds(timer, old(due), due, runs, base);
      forall x | x in old(pxCurrentTimerList) ensures Run(x.owner, old(base) + x.value) in runs {
        OwedIsRun(timer, old(due), runs, base, x.owner);
      }
    }

    lemma ListedAreDue(held: set<Id>)
      requires Core(held)
      ensures forall x :: x in pxCurrentTimerList ==>
        x.owner in due && x.owner in timer && due[x.owner] == base + x.value
    {
      hide Book.Inv, Holds;
      forall x | x in pxCurrentTimerList
        ensures x.owner in due && x.owner in timer && due[x.owner] == base + x.value
      {
        HoldsMember(pxCurrentTimerList, base, due, x);
        View().About(x.owner, held);
      }
    }

    /** Ticks go by. */
    method Elapse(elapsed: nat, ghost held: set<Id>)
      requires Core(held) && Timely(elapsed)
      modifies `time
      ensures Core(held) && time == old(time) + elapsed && Keeps(old(View()), View())
    {
      hide Book.Inv, Holds, Keeps;
      View().AdvanceInv(elapsed, held);
      time := time + elapsed;
      KeepsIf(old(View()), View());
    }

    /** prvSampleTimeNow, `elapsed` ticks after the last look at the tick count. */
    method SampleTimeNow(elapsed: nat, ghost held: set<Id>)
      returns (xTimeNow: Tick, switched: bool, ghost runs: seq<Run>)
      requires Core(held) && Sampled() && Timely(elapsed) && log == booked
      modifies `pxCurrentTimerList, `pxOverflowTimerList, `xTimerQueue, `xLastTime, `time
      modifies `due, `mail, `plan, `log, `booked, `base, `sampled
      ensures Core(held) && Sampled() && sampled == time == old(time) + elapsed && xTimeNow == xLastTime
      ensures log == booked
      ensures switched <==> Low(time) < old(xLastTime)
      ensures log == old(log) + runs
      ensures !switched ==>
        && base == old(base) && due == old(due) && plan == old(plan) && runs == []
        && mail == old(mail) && xTimerQueue == old(xTimerQueue)
        && pxCurrentTimerList == old(pxCurrentTimerList) && pxOverflowTimerList == old(pxOverflowTimerList)
      ensures switched ==>
        && base == old(base) + WRAP && RunsAll(timer, old(due), runs, base)
        && pxCurrentTimerList == old(pxOverflowTimerList) && pxOverflowTimerList == []
      ensures elapsed == 0 && old(sampled) == old(time) ==> !switched
      ensures Keeps(old(View()), View()) && plan.Keys == old(plan.Keys)
      ensures forall t :: t in held && t in plan ==> plan[t] == old(plan[t])
      ensures old(mail) <= mail && due.Keys <= old(due.Keys)
      ensures forall i :: |old(mail)| <= i < |mail| ==> mail[i].timer !in held && mail[i].timer in old(due)
    {
      hide Book.Inv, Holds, Core, Insert, Remove, RunsAll, Keeps, Low, View;
      Elapse(elapsed, held);
      Aligned(held);
      WrapSeen(base, sampled, time);
      ghost var at := View();
      xTimeNow := Low(time);
      switched, runs := xTimeNow < xLastTime, [];
      if switched {
        runs := SwitchTimerLists(held);
        KeepsOn(old(View()), at, View());
      }
      xLastTime, sampled := xTimeNow, time;
    }

    /**
     prvInsertTimerInActiveList for a timer whose period runs from `command`: it is to be processed at once exactly
     when it has expired, and otherwise goes on the list of the epoch its expiry time lies in.
     */
    method InsertTimerInActiveList(t: Id, xNextExpiryTime: Tick, xTimeNow: Tick, xCommandTime: Tick, ghost command: nat)
      returns (xProcessTimerNow: bool)
      requires Core({t}) && Sampled() && t in timer && xTimeNow == xLastTime
      requires command <= sampled < command + WRAP && xCommandTime == Low(command)
      requires xNextExpiryTime == Low(command + timer[t].period)
      requires t in plan ==> plan[t].next == command + timer[t].period
      modifies `pxCurrentTimerList, `pxOverflowTimerList, `due
      ensures xProcessTimerNow <==> command + timer[t].period <= sampled
      ensures xProcessTimerNow ==>
        && Core({t}) && due == old(due)
        && pxCurrentTimerList == old(pxCurrentTimerList) && pxOverflowTimerList == old(pxOverflowTimerList)
      ensures !xProcessTimerNow ==> Core({}) && due == old(due)[t := command + timer[t].period]
      ensures !xProcessTimerNow && command + timer[t].period < base + WRAP ==>
        && pxCurrentTimerList == Insert(old(pxCurrentTimerList), Item(xNextExpiryTime, t))
        && pxOverflowTimerList == old(pxOverflowTimerList)
      ensures !xProcessTimerNow && base + WRAP <= command + timer[t].period ==>
        && pxCurrentTimerList == old(pxCurrentTimerList)
        && pxOverflowTimerList == Insert(old(pxOverflowTimerList), Item(xNextExpiryTime, t))
    {
      hide Core, Insert, Low, Minus;
      Settings({t}, t);
      RouteOnLists(base, command, sampled, timer[t].period);
      assert {t} == {} + {t};
      xProcessTimerNow := false;
      if xNextExpiryTime <= xTimeNow {
        if Minus(xTimeNow, xCommandTime) >= timer[t].period {
          xProcessTimerNow := true;
        } else {
          InsertOverflow(t, xNextExpiryTime, {});
        }
      } else {
        if xTimeNow < xCommandTime && xNextExpiryTime >= xCommandTime {
          xProcessTimerNow := true;
        } else {
          InsertCurrent(t, xNextExpiryTime, {});
        }
      }
    }

    /** prvGetNextExpireTime */
    method GetNextExpireTime() returns (xNextExpireTime: Tick, listWasEmpty: bool)
      requires Valid()
      ensures listWasEmpty <==> pxCurrentTimerList == []
      ensures xNextExpireTime == if listWasEmpty then 0 else pxCurrentTimerList[0].value
      ensures !listWasEmpty ==> forall t :: t in due ==> base + xNextExpireTime <= due[t]
    {
      hide Book.Inv, Holds;
      listWasEmpty := pxCurrentTimerList == [];
      xNextExpireTime := 0;
      if !listWasEmpty {
        Head({});
        xNextExpireTime := pxCurrentTimerList[0].value;
      }
    }

    /** A start time that may already be missed is left to the command queue. */
    method Restart(t: Id, xNextExpireTime: Tick, xTimeNow: Tick)
      requires Core({t}) && Sampled() && t in timer && xTimeNow == xLastTime && base + xNextExpireTime <= sampled
      requires timer[t].autoReload && (t in plan ==> plan[t].next == base + xNextExpireTime + timer[t].period)
      requires time < base + xNextExpireTime + WRAP
      modifies `pxCurrentTimerList, `pxOverflowTimerList, `xTimerQueue, `due, `mail
      ensures Core({})
      ensures var expiry := base + xNextExpireTime;
        if expiry + timer[t].period <= sampled
        then
          && due == old(due) && mail == old(mail) + [Mail(Start, expiry, t, 0)]
          && xTimerQueue == old(xTimerQueue) + [Message(Start, xNextExpireTime, t)]
        else due == old(due)[t := expiry + timer[t].period] && mail == old(mail) && xTimerQueue == old(xTimerQueue)
    {
      hide Core, Insert, Plus;
      Settings({t}, t);
      LowOfSum(base, xNextExpireTime, timer[t].period);
      assert {t} == {} + {t};
      var expired := InsertTimerInActiveList(t, Plus(xNextExpireTime, timer[t].period), xTimeNow, xNextExpireTime,
                                             base + xNextExpireTime);
      if expired {
        SendStart(t, xNextExpireTime, base + xNextExpireTime, {});
      }
    }

    /** A timer that has expired and is off its list: one that does not start again is left alone. */
    method GoOn(t: Id, xNextExpireTime: Tick, xTimeNow: Tick)
      requires Core({t}) && Sampled() && t in timer && xTimeNow == xLastTime && base + xNextExpireTime <= sampled
      requires t in plan ==> plan[t].next == base + xNextExpireTime + timer[t].period && plan[t].calls != 0
      requires time < base + xNextExpireTime + WRAP
      modifies `pxCurrentTimerList, `pxOverflowTimerList, `xTimerQueue, `due, `mail
      ensures Core({}) && t !in old(due)
      ensures var expiry := base + xNextExpireTime;
        if !timer[t].autoReload
        then due == old(due) && mail == old(mail) && xTimerQueue == old(xTimerQueue)
        else if expiry + timer[t].period <= sampled
        then
          && due == old(due) && mail == old(mail) + [Mail(Start, expiry, t, 0)]
          && xTimerQueue == old(xTimerQueue) + [Message(Start, xNextExpireTime, t)]
        else due == old(due)[t := expiry + timer[t].period] && mail == old(mail) && xTimerQueue == old(xTimerQueue)
    {
      hide Core;
      NotListed(t);
      if timer[t].autoReload {
        Restart(t, xNextExpireTime, xTimeNow);
      } else {
        Release(t);
      }
    }

    lemma NotListed(t: Id)
      requires Core({t})
      ensures t !in due
    {
      hide Book.TimelyAt, Book.OnSchedule, Book.Followed, Book.Known, Holds;
    }

    /** prvProcessExpiredTimer */
    method ProcessExpiredTimer(xNextExpireTime: Tick, xTimeNow: Tick)
      requires Valid() && pxCurrentTimerList != []
      requires pxCurrentTimerList[0].value == xNextExpireTime <= xTimeNow == xLastTime
      modifies `pxCurrentTimerList, `pxOverflowTimerList, `xTimerQueue, `due, `mail, `plan, `log, `booked
      ensures Valid() && Keeps(old(View()), View())
      ensures log == old(log) + [Run(old(pxCurrentTimerList[0].owner), base + xNextExpireTime)]
      ensures var t, expiry := old(pxCurrentTimerList[0].owner), base + xNextExpireTime;
        && t in timer && t in old(due) && old(due)[t] == expiry
        && if !timer[t].autoReload
           then due == old(due) - {t} && mail == old(mail) && xTimerQueue == old(xTimerQueue)
           else if expiry + timer[t].period <= sampled
           then
             && due == old(due) - {t} && mail == old(mail) + [Mail(Start, expiry, t, 0)]
             && xTimerQueue == old(xTimerQueue) + [Message(Start, xNextExpireTime, t)]
           else due == old(due)[t := expiry + timer[t].period] && mail == old(mail) && xTimerQueue == old(xTimerQueue)
    {
      hide Core, Keeps;
      LastTime();
      var value, t := TakeHead({});
      assert {t} == {} + {t};
      ghost var taken := View();
      GoOn(t, xNextExpireTime, xTimeNow);
      Callback(t, base + xNextExpireTime);
      KeepsIf(taken, View());
      KeepsOn(old(View()), taken, View());
    }

    lemma LastTime()
      requires Valid()
      ensures base + xLastTime == sampled <= time
    {
    }

    lemma Release(t: Id)
      requires Core({t}) && (t in plan && t in timer ==> !timer[t].autoReload && plan[t].calls != 0)
      ensures Core({})
    {
      hide Core;
      assert {t} == {} + {t};
      LetGo(t, {});
    }

    /**
     prvProcessTimerOrBlockTask: the daemon blocks only when no expiry has been reached at the present tick, and
     until the next expiry of this epoch or the end of the epoch.
     */
    method ProcessTimerOrBlockTask(xNextExpireTime: Tick, listWasEmpty: bool, elapsed: nat)
      returns (blocks: bool, xTicksToWait: Tick, waitIndefinitely: bool, ghost runs: seq<Run>)
      requires Valid() && Timely(elapsed) && (listWasEmpty <==> pxCurrentTimerList == [])
      requires xNextExpireTime == if listWasEmpty then 0 else pxCurrentTimerList[0].value
      modifies this
      ensures Valid() && timer == old(timer) && Keeps(old(View()), View()) && time == sampled == old(time) + elapsed
      ensures log == old(log) + runs
      ensures base != old(base) ==> !blocks && base == old(base) + WRAP && RunsAll(timer, old(due), runs, base)
      ensures base == old(base) ==>
        && (blocks <==> listWasEmpty || time < base + xNextExpireTime)
        && runs == if blocks then [] else [Run(old(pxCurrentTimerList)[0].owner, base + xNextExpireTime)]
      ensures forall u :: Rests(old(View()), View(), u)
      ensures blocks ==> xTimerQueue == old(xTimerQueue) && forall t :: t in due ==> time < due[t]
      ensures blocks && xTimerQueue == [] ==> AllOnTime(View())
      ensures blocks && pxCurrentTimerList != [] ==>
        !waitIndefinitely && time + xTicksToWait == base + pxCurrentTimerList[0].value
      ensures blocks && pxCurrentTimerList == [] ==> (waitIndefinitely <==> pxOverflowTimerList == [])
      ensures blocks && pxCurrentTimerList == [] && time != base ==> time + xTicksToWait == base + WRAP
    {
      hide Book.Inv, Holds, Core, Insert, Remove, RunsAll, Keeps, AllOnTime, Rests;
      ghost var sampling;
      var xTimeNow, switched;
      xTimeNow, switched, sampling := SampleTimeNow(elapsed, {});
      LastTime();
      Aligned({});
      ghost var at := View();
      blocks, xTicksToWait, waitIndefinitely, runs := false, 0, false, sampling;
      if !switched {
        if !listWasEmpty && xNextExpireTime <= xTimeNow {
          ProcessExpiredTimer(xNextExpireTime, xTimeNow);
          runs := [Run(old(pxCurrentTimerList)[0].owner, base + xNextExpireTime)];
          KeepsOn(old(View()), at, View());
        } else {
          if listWasEmpty {
            waitIndefinitely := pxOverflowTimerList == [];
          }
          blocks, xTicksToWait := true, Minus(xNextExpireTime, xTimeNow);
          NothingExpired();
          if xTimerQueue == [] {
            QuietIsOnTime();
          }
        }
      } else {
        RunsOfListed(timer, old(due), runs, base);
      }
      StepRests(old(View()), runs);
    }

    lemma StepRests(b: Book, runs: seq<Run>)
      requires due.Keys <= b.due.Keys && b.mail <= mail && booked == b.log + runs
      requires forall j :: |b.mail| <= j < |mail| ==> mail[j].timer in b.due
      requires forall r :: r in runs ==> r.timer in b.due
      ensures forall u :: Rests(b, View(), u)
    {
      hide Rests;
      forall j | 0 <= j < |mail| ensures mail[j].timer in b.due || mail[j].timer in b.Mailed() {
        if j < |b.mail| {
          assert mail[j] == b.mail[j];
        }
      }
      RestIf(b, View(), runs);
    }

    lemma QuietIsOnTime()
      requires Valid() && xTimerQueue == [] && forall t :: t in due ==> time < due[t]
      ensures AllOnTime(View())
    {
      hide Book.Inv, Holds, OnTime;
      forall t | t in plan && t in timer && timer[t].autoReload ensures OnTime(View(), t) {
        QuietTimer(t);
      }
    }

    lemma QuietTimer(t: Id)
      requires View().Inv({}) && log == booked && mail == [] && forall u :: u in due ==> time < due[u]
      requires t in plan && t in timer && timer[t].autoReload
      ensures OnTime(View(), t)
    {
      hide Book.Inv, CallsOf, Expiries;
      OneCallPerPeriod(View(), t);
    }

    lemma NothingExpired()
      requires Valid() && time == sampled && (pxCurrentTimerList == [] || xLastTime < pxCurrentTimerList[0].value)
      ensures forall t :: t in due ==> time < due[t]
    {
      hide Book.Inv, Holds;
      if pxCurrentTimerList == [] {
        HoldsEmpty(base, due);
      } else {
        Head({});
      }
    }

    /** The daemon takes the first command and, if the timer it is for is on a list, takes it off. */
    method TakeCommand() returns (m: Message, ghost sent: Mail)
      requires Core({}) && xTimerQueue != []
      modifies `pxCurrentTimerList, `pxOverflowTimerList, `xTimerQueue, `due, `mail
      ensures mail == old(mail)[1..] && old(mail) != [] && sent == old(mail)[0] && due == old(due) - {sent.timer}
      ensures Core({sent.timer}) && sent.timer in timer && sent.time <= time < sent.time + WRAP
      ensures m == old(xTimerQueue)[0] && xTimerQueue == old(xTimerQueue)[1..]
      ensures m.kind == sent.kind && m.timer == sent.timer
      ensures sent.kind == Start ==> m.value == Low(sent.time)
      ensures sent.kind == ChangePeriod ==> 1 <= m.value == sent.period
      ensures sent.timer in plan ==> sent.kind == Start && plan[sent.timer].next == sent.time + timer[sent.timer].period
    {
      hide Book.Inv, Holds;
      m, sent := xTimerQueue[0], mail[0];
      View().TakeInv();
      View().AboutMail({});
      xTimerQueue, mail := xTimerQueue[1..], mail[1..];
      HoldsFind(pxCurrentTimerList, base, due, m.timer);
      HoldsFind(pxOverflowTimerList, base + WRAP, due, m.timer);
      var listed := Find(pxCurrentTimerList, m.timer) < |pxCurrentTimerList|
                 || Find(pxOverflowTimerList, m.timer) < |pxOverflowTimerList|;
      if listed {
        assert {m.timer} == {} + {m.timer};
        Unlist(m.timer, {});
      }
    }

    /** A timer that gets started with no other command under way is followed from its start time. */
    ghost method Follow(t: Id, start: nat)
      requires Core({t}) && t in timer && start <= time
      modifies `plan
      ensures Core({t}) && Keeps(old(View()), View()) && plan.Keys - {t} == old(plan.Keys) - {t}
      ensures old(t !in plan && t !in View().Mailed()) ==> t in plan && plan[t] == View().Fresh(t, start)
      ensures t in plan && t !in old(plan) ==> plan[t].next == start + timer[t].period
      ensures t in old(plan) ==> plan == old(plan)
    {
      hide Book.Inv, Holds, Keeps;
      if t !in plan && t !in View().Mailed() {
        View().FollowInv(t, start);
        plan := plan[t := View().Fresh(t, start)];
      }
      KeepsIf(old(View()), View());
    }

    /** A start whose period has passed already: the callback runs, and the next period starts where this one ended. */
    method MissedStart(t: Id, xNextExpiryTime: Tick, ghost expiry: nat)
      requires Core({t}) && t in timer && log == booked
      requires expiry <= time < expiry + WRAP && xNextExpiryTime == Low(expiry)
      requires t in plan ==> plan[t].next == expiry
      modifies `xTimerQueue, `mail, `plan, `log, `booked
      ensures Core({}) && Keeps(old(View()), View()) && log == booked == old(log) + [Run(t, expiry)]
      ensures plan.Keys == old(plan.Keys)
      ensures t in plan ==> plan[t].start == old(plan[t].start) && plan[t].since == old(plan[t].since)
      ensures if timer[t].autoReload
              then mail == old(mail) + [Mail(Start, expiry, t, 0)]
                   && xTimerQueue == old(xTimerQueue) + [Message(Start, xNextExpiryTime, t)]
              else mail == old(mail) && xTimerQueue == old(xTimerQueue)
    {
      hide Core, Low, Keeps;
      assert {t} == {} + {t};
      CallKeeps(View(), t, expiry);
      Count(t, expiry, {});
      Callback(t, expiry);
      if timer[t].autoReload {
        SendStart(t, xNextExpiryTime, expiry, {});
      } else {
        Release(t);
      }
      KeepsIf(old(View()), View());
    }

    /**
     A timer that is started is listed for the end of its period; if that has passed already it is sent another start
     for then, unless it runs once only.
     */
    ghost predicate StartsAs(wasDue: map<Id, nat>, wasMail: seq<Mail>, wasQueue: seq<Message>, t: Id, start: nat)
      reads `timer, `due, `mail, `xTimerQueue, `time
    {
      t in timer &&
      var expiry := start + timer[t].period;
      if time < expiry then due == wasDue[t := expiry] && mail == wasMail && xTimerQueue == wasQueue
      else if timer[t].autoReload then
        && due == wasDue && mail == wasMail + [Mail(Start, expiry, t, 0)]
        && xTimerQueue == wasQueue + [Message(Start, Low(expiry), t)]
      else due == wasDue && mail == wasMail && xTimerQueue == wasQueue
    }

    /** The start and reset commands. */
    method Started(t: Id, value: Tick, xTimeNow: Tick, ghost start: nat)
      requires Core({t}) && Sampled() && t in timer && xTimeNow == xLastTime && sampled == time && log == booked
      requires start <= time < start + WRAP && value == Low(start)
      requires t in plan ==> plan[t].next == start + timer[t].period
      modifies `pxCurrentTimerList, `pxOverflowTimerList, `xTimerQueue, `due, `mail, `plan, `log, `booked
      ensures Core({}) && Keeps(old(View()), View()) && OnlyFor(old(View()), View(), t) && log == booked
      ensures old(t !in View().Mailed()) ==> t in plan
      ensures old(t !in View().Mailed() && t !in plan) ==>
        t in plan && plan[t].start == start && plan[t].since == |old(log)|
      ensures log == old(log) + if start + timer[t].period <= time then [Run(t, start + timer[t].period)] else []
      ensures StartsAs(old(due), old(mail), old(xTimerQueue), t, start)
      ensures mail == old(mail) || exists m :: mail == old(mail) + [m] && start < m.time <= time
    {
      hide Core, Insert, Plus, Low, Keeps, Book.Mailed;
      Settings({t}, t);
      Follow(t, start);
      ghost var at := View();
      LowOfStart(start, timer[t].period);
      assert {t} == {} + {t};
      var xNextExpiryTime := Plus(value, timer[t].period);
      var expired := InsertTimerInActiveList(t, xNextExpiryTime, xTimeNow, value, start);
      ghost var listed := View();
      KeepsIf(at, listed);
      if expired {
        MissedStart(t, xNextExpiryTime, start + timer[t].period);
        KeepsOn(at, listed, View());
      }
      KeepsOn(old(View()), at, View());
    }

    /** tmrCOMMAND_CHANGE_PERIOD: the new period runs from the present time, so it cannot have passed. */
    method PeriodChanged(t: Id, period: Tick, xTimeNow: Tick)
      requires Core({t}) && Sampled() && t in timer && xTimeNow == xLastTime && sampled == time
      requires t !in plan && 1 <= period
      modifies `pxCurrentTimerList, `pxOverflowTimerList, `timer, `due, `plan
      ensures Core({}) && Keeps(old(View()), View()) && OnlyFor(old(View()), View(), t)
      ensures timer == old(timer)[t := old(timer[t]).(period := period)]
      ensures due == old(due)[t := time + period]
      ensures old(t !in View().Mailed()) ==> t in plan && plan[t].start == time && plan[t].since == |booked|
    {
      hide Core, Insert, Plus, Low, Keeps;
      SetPeriod(t, period);
      ghost var at := View();
      Follow(t, time);
      ghost var followed := View();
      LowOfStart(time, period);
      var expired := InsertTimerInActiveList(t, Plus(xTimeNow, period), xTimeNow, xTimeNow, time);
      KeepsIf(followed, View());
      KeepsOn(at, followed, View());
      KeepsOn(old(View()), at, View());
    }

    method SetPeriod(t: Id, period: Tick)
      requires Core({t}) && t in timer && t !in plan && 1 <= period
      modifies `timer
      ensures Keeps(old(View()), View())
      ensures Core({t}) && timer == old(timer)[t := old(timer[t]).(period := period)]
    {
      hide Book.Inv, Holds;
      View().ChangeInv(t, timer[t].(period := period), {t});
      timer := timer[t := timer[t].(period := period)];
    }

    /**
     One pass of the loop of prvProcessReceivedCommands. The callbacks run are those of a switch of the lists and that
     of a start whose period has passed; a timer started by its only command is followed from the time of that command.
     */
    method ReceiveCommand(elapsed: nat) returns (ghost sent: Mail, ghost runs: seq<Run>)
      requires Valid() && xTimerQueue != [] && Timely(elapsed)
      modifies this
      ensures Valid() && Keeps(old(View()), View()) && sampled == time == old(time) + elapsed
      ensures old(mail) != [] && sent == old(mail)[0] && sent.timer in old(timer) && sent.timer in timer
      ensures base == old(base) ==> runs == []
      ensures base != old(base) ==> base == old(base) + WRAP && RunsAll(old(timer), old(due) - {sent.timer}, runs, base)
      ensures log == old(log) + runs + if sent.kind.Start? && sent.time + timer[sent.timer].period <= time
                                       then [Run(sent.timer, sent.time + timer[sent.timer].period)] else []
      ensures !sent.kind.ChangePeriod? ==> timer == old(timer)
      ensures sent.kind.ChangePeriod? ==>
        timer == old(timer)[sent.timer := old(timer)[sent.timer].(period := old(xTimerQueue)[0].value)]
      ensures base == old(base) ==>
        var due', mail', queue' := old(due) - {sent.timer}, old(mail)[1..], old(xTimerQueue)[1..];
        if sent.kind.Start? then StartsAs(due', mail', queue', sent.timer, sent.time)
        else
          && mail == mail' && xTimerQueue == queue'
          && due == if sent.kind.ChangePeriod? then due'[sent.timer := time + old(xTimerQueue)[0].value] else due'
      ensures (sent.kind.Start? || sent.kind.ChangePeriod?) && Alone(0, old(mail)) ==>
        && sent.timer in plan
        && (sent.timer !in old(plan) ==>
             && plan[sent.timer].start == (if sent.kind.Start? then sent.time else time)
             && plan[sent.timer].since == |old(log)| + |runs|)
      ensures (sent.kind.Stop? || sent.kind.Delete?) && Alone(0, old(mail)) ==>
        sent.timer !in due && sent.timer !in View().Mailed()
      ensures forall t :: Rests(old(View()), View(), t)
      ensures Moves(old(View()), View(), sent.timer, base != old(base)) && ObeysFirst(old(View()), View())
      ensures elapsed == 0 && old(sampled) == old(time) ==> base == old(base)
      ensures elapsed == 0 && old(sampled) == old(time) ==>
        mail == old(mail)[1..] || exists m :: mail == old(mail)[1..] + [m] && old(mail)[0].time < m.time <= time
    {
      hide Core, Low, RunsAll, Keeps, Alone, Book.Mailed, Moves, OnlyFor, Rests, StartsAs;
      ghost var start := View();
      var xMessage, xTimeNow, switched;
      xMessage, sent, xTimeNow, switched, runs := TakeAndSample(elapsed);
      ghost var at := View();
      NoOther(old(mail), at);
      Obey(xMessage, xTimeNow, sent);
      KeepsOn(old(View()), at, View());
      MovesIf(start, at, View(), sent.timer, switched);
      ReceivedRest(start, sent, runs, switched, start.timers);
    }

    lemma ReceivedRest(b: Book, sent: Mail, runs: seq<Run>, switched: bool, timers: map<Id, Timer>)
      requires Moves(b, View(), sent.timer, switched) && b.mail != [] && sent == b.mail[0] && b.log <= booked
      requires booked == b.log + runs || exists expiry :: booked == b.log + runs + [Run(sent.timer, expiry)]
      requires if switched then RunsAll(timers, b.due - {sent.timer}, runs, base) else runs == []
      ensures forall u :: Rests(b, View(), u)
    {
      hide RunsAll, Rests, Moves;
      if switched {
        RunsOfListed(timers, b.due - {sent.timer}, runs, base);
      }
      assert sent in b.mail;
      MovesRest(b, View(), sent.timer, switched, booked[|b.log|..]);
    }

    /** The part before the switch over the kind of the command: the command is taken, and then the time is sampled. */
    method TakeAndSample(elapsed: nat)
      returns (m: Message, ghost sent: Mail, xTimeNow: Tick, switched: bool, ghost runs: seq<Run>)
      requires Valid() && xTimerQueue != [] && Timely(elapsed)
      modifies this
      ensures old(mail) != [] && sent == old(mail)[0] && sent.timer in timer && timer == old(timer)
      ensures Core({sent.timer}) && Sampled() && sampled == time == old(time) + elapsed && xTimeNow == xLastTime
      ensures log == booked == old(log) + runs && (switched <==> base != old(base)) && (!switched ==> runs == [])
      ensures switched ==> base == old(base) + WRAP && RunsAll(timer, old(due) - {sent.timer}, runs, base)
      ensures m == old(xTimerQueue)[0] && (!switched ==> xTimerQueue == old(xTimerQueue)[1..])
      ensures !switched ==> due == old(due) - {sent.timer}
      ensures m.kind == sent.kind && m.timer == sent.timer && sent.time <= time < sent.time + WRAP
      ensures sent.kind == Start ==> m.value == Low(sent.time)
      ensures sent.kind == ChangePeriod ==> 1 <= m.value == sent.period
      ensures sent.timer in plan ==> sent.kind == Start && plan[sent.timer].next == sent.time + timer[sent.timer].period
      ensures Keeps(old(View()), View()) && plan.Keys == old(plan.Keys) && due.Keys <= old(due.Keys)
      ensures old(mail)[1..] <= mail && sent.timer !in due
      ensures !switched ==> mail == old(mail)[1..]
      ensures forall j :: |old(mail)| - 1 <= j < |mail| ==>
        mail[j].timer != sent.timer && mail[j].timer in old(due)
      ensures elapsed == 0 && old(sampled) == old(time) ==> !switched
    {
      hide Core, Low, RunsAll, Keeps;
      m, sent := TakeCommand();
      assert Timely(elapsed) by {
        assert forall n :: n in mail ==> n in old(mail);
      }
      ghost var first := View();
      KeepsIf(old(View()), first);
      Aligned({sent.timer});
      xTimeNow, switched, runs := SampleTimeNow(elapsed, {sent.timer});
      NotListed(sent.timer);
      KeepsOn(old(View()), first, View());
    }

    /** The switch of prvProcessReceivedCommands over the kind of the command */
    method Obey(m: Message, xTimeNow: Tick, ghost sent: Mail)
      requires Core({m.timer}) && Sampled() && m.timer in timer && xTimeNow == xLastTime && sampled == time
      requires log == booked
      requires m.kind == sent.kind && m.timer == sent.timer && sent.time <= time < sent.time + WRAP
      requires m.kind == Start ==> m.value == Low(sent.time)
      requires m.kind == ChangePeriod ==> 1 <= m.value == sent.period
      requires m.timer in plan ==> m.kind == Start && plan[m.timer].next == sent.time + timer[m.timer].period
      modifies `pxCurrentTimerList, `pxOverflowTimerList, `xTimerQueue, `timer, `due, `mail, `plan, `log, `booked
      ensures Core({}) && log == booked && Keeps(old(View()), View()) && m.timer in timer
      ensures OnlyFor(old(View()), View(), m.timer)
      ensures log == old(log) + if m.kind.Start? && sent.time + timer[m.timer].period <= time
                                then [Run(m.timer, sent.time + timer[m.timer].period)] else []
      ensures !m.kind.ChangePeriod? ==> timer == old(timer)
      ensures m.kind.ChangePeriod? ==> timer == old(timer)[m.timer := old(timer[m.timer]).(period := m.value)]
      ensures (m.kind.Start? || m.kind.ChangePeriod?) && old(m.timer !in View().Mailed()) ==>
        && m.timer in plan
        && (m.timer !in old(plan) ==>
             && plan[m.timer].start == (if m.kind.Start? then sent.time else time)
             && plan[m.timer].since == |old(log)|)
      ensures m.kind.Start? ==> StartsAs(old(due), old(mail), old(xTimerQueue), m.timer, sent.time)
      ensures mail == old(mail) || exists n :: mail == old(mail) + [n] && sent.time < n.time <= time
      ensures m.kind.ChangePeriod? ==>
        due == old(due)[m.timer := time + m.value] && mail == old(mail) && xTimerQueue == old(xTimerQueue)
      ensures m.kind.Stop? || m.kind.Delete? ==>
        && due == old(due) && mail == old(mail) && xTimerQueue == old(xTimerQueue) && plan == old(plan)
        && pxCurrentTimerList == old(pxCurrentTimerList) && pxOverflowTimerList == old(pxOverflowTimerList)
    {
      hide Core, Keeps, Plus, Low, StartsAs;
      KeepsSame(View());
      match m.kind {
        case Start => Started(m.timer, m.value, xTimeNow, sent.time);
        case Stop => Release(m.timer);
        case ChangePeriod => PeriodChanged(m.timer, m.value, xTimeNow);
        case Delete => Release(m.timer);
      }
    }

    static lemma NoOther(before: seq<Mail>, b: Book)
      requires before != [] && before[1..] <= b.mail
      requires forall i :: |before| - 1 <= i < |b.mail| ==> b.mail[i].timer != before[0].timer
      ensures Alone(0, before) ==> before[0].timer !in b.Mailed()
    {
      assert forall i :: 0 <= i < |before| - 1 ==> b.mail[i] == before[i + 1];
    }

    /** The passes after the first, in which no time goes by */
    method ReceiveNext(ghost start: Book, ghost taken: nat, ghost switched: bool)
      requires Valid() && xTimerQueue != [] && sampled == time
      requires Keeps(start, View()) && ObeysAll(start, View(), taken, switched)
      modifies this
      ensures Valid() && sampled == time == old(time) && base == old(base)
      ensures forall u :: Rests(old(View()), View(), u)
      ensures Keeps(start, View()) && ObeysAll(start, View(), taken + 1, switched)
      ensures Backlog(mail, time) < Backlog(old(mail), time)
    {
      hide Book.Inv, Holds, Keeps, RunsAll, Moves, ObeysFirst, ObeysAll, Rests;
      ghost var was, before := mail, View();
      StillTimely();
      ghost var sent, runs := ReceiveCommand(0);
      KeepsOn(start, before, View());
      OneTaken(start, before, View(), taken, switched, false);
      if mail != was[1..] {
        ghost var m :| mail == was[1..] + [m] && was[0].time < m.time <= time;
        BacklogAppend(was[1..], m, time);
        BacklogOne(m, time);
      }
    }

    /**
     prvProcessReceivedCommands, with `elapsed` ticks before the first command is looked at and no command of another
     task meanwhile: the daemon catches up on every expiry it has missed and empties the queue. Every timer that is
     started by its only command is followed from then on, one that is given a new period is followed with that, and one
     that is stopped or deleted is on no list, unless the lists are switched while it is listed and the command is not
     the first.
     */
    method ProcessReceivedCommands(elapsed: nat)
      requires Valid() && Timely(elapsed)
      modifies this
      ensures Valid() && Keeps(old(View()), View()) && xTimerQueue == [] && mail == []
      ensures time == if old(xTimerQueue) == [] then old(time) else old(time) + elapsed
      ensures old(xTimerQueue) == [] ==> View() == old(View())
      ensures forall u :: Rests(old(View()), View(), u)
      ensures forall i: nat :: i < |old(mail)| && Single(old(View()), i, base != old(base)) ==>
        Obeyed(old(View()), View(), i)
    {
      hide Core, Keeps, RunsAll, Moves, ObeysFirst, Single, Obeyed, ObeysAll, Alone, Rests;
      ghost var start := View();
      QueueIsMail();
      KeepsSame(start);
      AllRest(start);
      if xTimerQueue == [] {
        return;
      }
      ghost var sent, runs := ReceiveCommand(elapsed);
      ghost var taken, switched := 1, base != old(base);
      QueueIsMail();
      NoneTaken(start, switched);
      OneTaken(start, start, View(), 0, switched, switched);
      while xTimerQueue != []
        invariant Valid() && Keeps(start, View()) && ObeysAll(start, View(), taken, switched)
        invariant sampled == time == old(time) + elapsed && switched == (base != old(base)) && taken >= 1
        invariant forall u :: Rests(start, View(), u)
        decreases Backlog(mail, time)
      {
        ghost var before := View();
        ReceiveNext(start, taken, switched);
        AllRestOn(start, before, View());
        taken := taken + 1;
      }
      QueueIsMail();
      AllTaken(start, View(), taken, switched);
    }

    lemma QueueIsMail()
      requires Valid()
      ensures |xTimerQueue| == |mail| && View().Inv({})
    {
      hide Book.Inv, Holds;
    }

    lemma StillTimely()
      requires Valid()
      ensures Timely(0) && (mail != [] ==> mail[0].time <= time)
    {
    }

    /**
     xTimerGenericCommand, called by another task. A timer that is on no list and in no command is followed from the
     moment it is started; any other is not followed while the command is under way.
     */
    method TimerGenericCommand(kind: Kind, t: Id, optionalValue: Tick)
      requires Valid() && t in timer && (kind == Start ==> optionalValue == Low(time))
      requires kind == ChangePeriod ==> 1 <= optionalValue
      modifies `xTimerQueue, `mail, `plan
      ensures Valid() && xTimerQueue == old(xTimerQueue) + [Message(kind, optionalValue, t)]
      ensures mail == old(mail) + [Mail(kind, time, t, if kind == ChangePeriod then optionalValue else 0)]
      ensures plan == if old(kind == Start && t !in due && t !in View().Mailed())
                      then old(plan)[t := old(View()).Fresh(t, time)]
                      else old(plan) - {t}
      ensures forall u :: u != t ==> KeepsTimer(old(View()), View(), u) && Rests(old(View()), View(), u)
    {
      hide Book.Inv, Holds;
      if kind == Start && t !in due && t !in View().Mailed() {
        View().StartInv(t);
        plan := plan[t := View().Fresh(t, time)];
      } else {
        View().CommandInv(Mail(kind, time, t, if kind == ChangePeriod then optionalValue else 0));
        plan := plan - {t};
      }
      xTimerQueue := xTimerQueue + [Message(kind, optionalValue, t)];
      mail := mail + [Mail(kind, time, t, if kind == ChangePeriod then optionalValue else 0)];
    }

    /** A start command carries the tick count at which it is sent, a change of period the new period. */
    ghost predicate Sendable(arrivals: seq<Arrival>)
      reads `timer
    {
      forall a :: a in arrivals ==> a.timer in timer && (a.kind == ChangePeriod ==> 1 <= a.period)
    }

    method Sleep(ticks: nat)
      requires Valid() && Timely(ticks)
      modifies `time
      ensures Valid() && Timely(0) && time == old(time) + ticks && Keeps(old(View()), View())
      ensures forall u :: Rests(old(View()), View(), u)
    {
      hide Book.Inv, Holds, Lists, Commands, Keeps;
      Elapse(ticks, {});
      StillTimely();
    }

    /** Another task sends a command, with `rest` more ticks to come before the daemon runs again. */
    method Receive(a: Arrival, ghost rest: nat)
      requires Valid() && Timely(a.after + rest) && a.after + rest < WRAP && Sendable([a])
      modifies `xTimerQueue, `mail, `plan, `time
      ensures Valid() && Timely(rest) && time == old(time) + a.after
      ensures mail == old(mail) + [Mail(a.kind, time, a.timer, if a.kind == ChangePeriod then a.period else 0)]
      ensures xTimerQueue ==
        old(xTimerQueue) + [Message(a.kind, if a.kind == Start then Low(time) else a.period, a.timer)]
      ensures forall u :: u != a.timer ==> KeepsTimer(old(View()), View(), u) && Rests(old(View()), View(), u)
    {
      hide Book.Inv, Lists, Commands, KeepsTimer, Low, Keeps, Rests;
      assert a in [a];
      ghost var start := View();
      Elapse(a.after, {});
      StillKeptAll(start, View());
      RestIf(start, View(), []);
      ghost var elapsed := View();
      TimerGenericCommand(a.kind, a.timer, if a.kind == Start then Low(time) else a.period);
      forall u | u != a.timer ensures KeepsTimer(start, View(), u) && Rests(start, View(), u) {
        KeepsTimerOn(start, elapsed, View(), u);
        RestsOn(start, elapsed, View(), u);
      }
    }

    /**
     The daemon is blocked: other tasks send commands, each some ticks after the last, and `last` ticks later the daemon
     runs again.
     */
    method Wait(arrivals: seq<Arrival>, last: nat)
      requires Valid() && Timely(Duration(arrivals) + last) && Duration(arrivals) + last < WRAP && Sendable(arrivals)
      modifies `xTimerQueue, `mail, `plan, `time
      ensures Valid() && Timely(0) && time == old(time) + Duration(arrivals) + last
      ensures |mail| == |old(mail)| + |arrivals| && old(mail) <= mail && old(xTimerQueue) <= xTimerQueue
      ensures |xTimerQueue| == |old(xTimerQueue)| + |arrivals|
      ensures forall i :: 0 <= i < |arrivals| ==>
        Carries(xTimerQueue[|old(xTimerQueue)| + i], arrivals[i])
      ensures forall i :: 0 <= i < |arrivals| ==>
        mail[|old(mail)| + i].kind == arrivals[i].kind && mail[|old(mail)| + i].timer == arrivals[i].timer
      ensures forall u :: (forall a :: a in arrivals ==> a.timer != u) ==>
        KeepsTimer(old(View()), View(), u) && Rests(old(View()), View(), u)
      decreases |arrivals|
    {
      hide Book.Inv, Lists, Commands, Keeps, KeepsTimer, Low, Timely, Rests, Carries, Duration;
      ghost var start := View();
      var k := 0;
      KeepsSame(start);
      StillKeptAll(start, start);
      AllRest(start);
      assert arrivals[0..] == arrivals;
      DurationEnds(arrivals);
      while k < |arrivals|
        invariant 0 <= k <= |arrivals| && Valid() && Timely(Duration(arrivals[k..]) + last)
        invariant Duration(arrivals[k..]) + last < WRAP
        invariant time + Duration(arrivals[k..]) == start.now + Duration(arrivals)
        invariant |mail| == |start.mail| + k && start.mail <= mail
        invariant |xTimerQueue| == |old(xTimerQueue)| + k && old(xTimerQueue) <= xTimerQueue
        invariant forall i :: 0 <= i < k ==> Carries(xTimerQueue[|old(xTimerQueue)| + i], arrivals[i])
        invariant forall i :: 0 <= i < k ==>
          mail[|start.mail| + i].kind == arrivals[i].kind && mail[|start.mail| + i].timer == arrivals[i].timer
        invariant forall u :: (forall a :: a in arrivals ==> a.timer != u) ==>
          KeepsTimer(start, View(), u) && Rests(start, View(), u)
      {
        var a := arrivals[k];
        assert a in arrivals;
        DurationNext(arrivals, k);
        ghost var before := View();
        Receive(a, Duration(arrivals[k + 1..]) + last);
        CarriesThat(xTimerQueue[|xTimerQueue| - 1], a);
        forall u | forall b :: b in arrivals ==> b.timer != u
          ensures KeepsTimer(start, View(), u) && Rests(start, View(), u)
        {
          KeepsTimerOn(start, before, View(), u);
          RestsOn(start, before, View(), u);
        }
        k := k + 1;
      }
      ghost var before := View();
      Sleep(last);
      StillKeptAll(before, View());
      forall u | forall b :: b in arrivals ==> b.timer != u
        ensures KeepsTimer(start, View(), u) && Rests(start, View(), u)
      {
        KeepsTimerOn(start, before, View(), u);
        RestsOn(start, before, View(), u);
      }
    }

    /**
     One pass of the loop of prvTimerTask. When the daemon blocks on an empty queue it is on time; it then wakes to the
     commands that `arrivals` bring, or after `last` ticks. A timer that they are not for is not affected.
     */
    method TimerTaskPass(elapsed: nat, arrivals: seq<Arrival>, last: nat) returns (blocks: bool, ghost quiet: Book)
      requires Valid() && Timely(elapsed) && Duration(arrivals) + last < WRAP && Sendable(arrivals)
      modifies this
      ensures Valid() && xTimerQueue == [] && mail == [] && quiet.now == old(time) + elapsed
      ensures Keeps(old(View()), quiet) && quiet.log <= log
      ensures var waits := blocks && old(xTimerQueue) == [];
        && time == quiet.now + (if waits then Duration(arrivals) + last else 0)
        && (waits ==> AllOnTime(quiet) && quiet.log == old(log))
        && forall u :: (waits ==> forall a :: a in arrivals ==> a.timer != u) ==>
             KeepsTimer(quiet, View(), u) && Rests(old(View()), View(), u)
      ensures forall t :: t in plan && t in timer && timer[t].autoReload ==>
        OnePerPeriod(View(), t, timer[t], plan[t].start, plan[t].since)
    {
      hide Book.Inv, Holds, Lists, Commands, Timely, Keeps, RunsAll, OnePerPeriod, CallsOf, Expiries, KeepsTimer;
      hide AllOnTime, Rests;
      var xNextExpireTime, listWasEmpty := GetNextExpireTime();
      ghost var runs;
      var wait, indefinitely;
      blocks, wait, indefinitely, runs := ProcessTimerOrBlockTask(xNextExpireTime, listWasEmpty, elapsed);
      quiet := View();
      KeepsSame(quiet);
      StillKeptAll(quiet, quiet);
      AllRest(quiet);
      if blocks && xTimerQueue == [] {
        QuietIsTimely(Duration(arrivals) + last);
        Wait(arrivals, last);
      } else {
        StillTimely();
      }
      ghost var woken := View();
      ProcessReceivedCommands(0);
      LogGrows(woken, View());
      StillKeptAll(woken, View());
      forall u | KeepsTimer(quiet, woken, u) ensures KeepsTimer(quiet, View(), u) {
        KeepsTimerOn(quiet, woken, View(), u);
      }
      forall u | Rests(quiet, woken, u) ensures Rests(old(View()), View(), u) {
        RestsOn(old(View()), quiet, woken, u);
        RestsOn(old(View()), woken, View(), u);
      }
      forall t | t in plan && t in timer && timer[t].autoReload
        ensures OnePerPeriod(View(), t, timer[t], plan[t].start, plan[t].since)
      {
        OnePerPeriodNow(View(), t, timer[t], plan[t].start, plan[t].since);
      }
    }

    static lemma LogGrows(b: Book, c: Book)
      requires Keeps(b, c)
      ensures b.log <= c.log
    {
      assert KeepsTimer(b, c, 0);
    }

    static lemma StillKeptAll(b: Book, c: Book)
      requires Keeps(b, c)
      ensures forall u :: KeepsTimer(b, c, u)
    {
      hide KeepsTimer;
    }

    static lemma KeepsTimerOn(b: Book, c: Book, d: Book, u: Id)
      requires KeepsTimer(b, c, u) && KeepsTimer(c, d, u)
      ensures KeepsTimer(b, d, u)
    {
    }

    /** Nothing is overdue when the daemon blocks, so it may sleep for less than a wrap. */
    lemma QuietIsTimely(ticks: nat)
      requires Valid() && sampled == time && xTimerQueue == [] && ticks < WRAP && forall t :: t in due ==> time < due[t]
      ensures Timely(ticks)
    {
    }

    /** A timer that is on no list and in no command is started, and a pass of the daemon follows. */
    method StartThenPass(t: Id, elapsed: nat) returns (blocks: bool)
      requires Valid() && t in timer && timer[t].autoReload && t !in due && t !in View().Mailed()
      requires Timely(elapsed) && elapsed < WRAP
      modifies this
      ensures Valid() && xTimerQueue == [] && time == old(time) + elapsed
      ensures OnePerPeriod(View(), t, old(timer[t]), old(time), |old(log)|)
    {
      hide Book.Inv, Holds, Lists, Commands, Keeps, OnePerPeriod;
      TimerGenericCommand(Start, t, Low(time));
      ghost var at, quiet := View(), View();
      blocks, quiet := TimerTaskPass(elapsed, [], 0);
      StillKeptAll(at, quiet);
      KeepsTimerOn(at, quiet, View(), t);
    }
  }
}
