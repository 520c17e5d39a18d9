/**
 The scheduler of tasks.c: the task lists, the tick and the priorities.
 */
module Kernel {
  import opened Arithmetic
  import opened Ticks
  import opened Lists
  import opened Options
  import Rings
  import opened TaskLists
  import opened WakeList
  import opened Delays
  import opened Timeline
  import opened KernelState
  import opened Census

  class Scheduler {
    var tcb: map<Id, Tcb>
    var where: map<Id, Place>
    var eventWhere: map<Id, EventPlace>
    var pxReadyTasksLists: seq<Rings.Ring<Id>>
    var uxTopReadyPriority: nat
    var pxDelayedTaskList: seq<Item>
    var pxOverflowDelayedTaskList: seq<Item>
    var xSuspendedTaskList: seq<Id>
    var xTasksWaitingTermination: seq<Id>
    var xPendingReadyList: seq<Id>
    var eventLists: map<nat, seq<Id>>
    var mutexes: map<nat, Mutex>
    var pxCurrentTCB: Id
    var uxCurrentNumberOfTasks: nat
    var xTickCount: Tick
    var xNextTaskUnblockTime: Tick
    var uxSchedulerSuspended: nat
    var uxPendedTicks: nat
    var xYieldPending: bool
    var xSchedulerRunning: bool

    /** When the current epoch of the tick count began, and when each task with a block time is to be woken. */
    ghost var base: nat
    ghost var due: map<Id, nat>

    /** The tasks whose own priority has been set while they ran at an inherited one */
    ghost var rebased: set<Id>

    /** xNumOfOverflows * 2^32 + xTickCount, were the overflow count unbounded. */
    ghost function Now(): nat
      reads `base, `xTickCount
    {
      base + xTickCount
    }

    /** The state between two list operations; `limbo` has the task whose xStateListItem is on no list. */
    ghost predicate Core(limbo: set<Id>)
      reads `tcb, `where, `eventWhere, `pxReadyTasksLists, `uxTopReadyPriority, `pxDelayedTaskList
      reads `pxOverflowDelayedTaskList, `xSuspendedTaskList, `xTasksWaitingTermination, `xPendingReadyList, `eventLists
      reads `mutexes, `pxCurrentTCB, `uxCurrentNumberOfTasks, `xNextTaskUnblockTime, `base, `due, `rebased
    {
      && |pxReadyTasksLists| == MAX_PRIORITIES && ReadyLists(pxReadyTasksLists, where, uxTopReadyPriority)
      && Linked(pxDelayedTaskList, pxOverflowDelayedTaskList, where, due, base)
      && Bounded(due, base, xNextTaskUnblockTime)
      && OnList(xSuspendedTaskList, where, Suspended) && OnList(xTasksWaitingTermination, where, Termination)
      && Evented(xPendingReadyList, eventLists, eventWhere, where, limbo)
      && Population(tcb, where, mutexes, pxCurrentTCB, uxCurrentNumberOfTasks, limbo) && Fitting(tcb, rebased)
    }

    ghost function StatusOf(t: Id): Status
      reads `where, `eventWhere, `due
    {
      Status(Lookup(where, t), Lookup(eventWhere, t), Lookup(due, t))
    }

    ghost predicate Valid()
      reads this
    {
      Core({}) && Pending(due, base, xTickCount) && (xPendingReadyList != [] ==> uxSchedulerSuspended != 0)
    }

    /** The kernel when its first task has been created, with the queues and mutexes it will use. */
    constructor (t: Id, uxPriority: nat, events: set<nat>, mutexNames: set<nat>)
      requires uxPriority < MAX_PRIORITIES
      ensures Valid() && Woken(t) && pxCurrentTCB == t && uxCurrentNumberOfTasks == 1
      ensures Now() == 0 && uxSchedulerSuspended == 0 && uxPendedTicks == 0 && !xYieldPending && !xSchedulerRunning
      ensures eventLists.Keys == events && mutexes.Keys == mutexNames
    {
      hide ReadyLists, OnList, Evented, Population, OneReady, NoWaiters, AllAvailable;
      InitialPopulation(t, uxPriority, mutexNames);
      InitialLists(t, uxPriority, events);
      InitialLists(t, uxPriority, mutexNames);
      tcb := map[t := Tcb(uxPriority, uxPriority, 0, MAX_PRIORITIES - uxPriority)];
      where := map[t := Ready(uxPriority)];
      eventWhere := map[];
      pxReadyTasksLists := OneReady(t, uxPriority);
      uxTopReadyPriority := uxPriority;
      pxDelayedTaskList, pxOverflowDelayedTaskList := [], [];
      xSuspendedTaskList, xTasksWaitingTermination, xPendingReadyList := [], [], [];
      eventLists, mutexes := NoWaiters(events), AllAvailable(mutexNames);
      pxCurrentTCB, uxCurrentNumberOfTasks := t, 1;
      xTickCount, xNextTaskUnblockTime := 0, MAX_DELAY;
      uxSchedulerSuspended, uxPendedTicks, xYieldPending, xSchedulerRunning := 0, 0, false, false;
      base, due, rebased := 0, map[], {};
    }

    // uxListRemove on the xStateListItem of a task, for each kind of container.

    method RemoveIfReady(t: Id)
      requires |pxReadyTasksLists| == MAX_PRIORITIES && ReadyLists(pxReadyTasksLists, where, uxTopReadyPriority)
      requires t in where
      modifies `pxReadyTasksLists
      ensures |pxReadyTasksLists| == MAX_PRIORITIES && ReadyLists(pxReadyTasksLists, where - {t}, uxTopReadyPriority)
      ensures pxReadyTasksLists == Unready(old(pxReadyTasksLists), where[t], t)
    {
      hide ReadyLists, Fitting;
      if where[t].Ready? {
        var p := where[t].priority;
        ReadyRemove(pxReadyTasksLists, where, uxTopReadyPriority, t, p);
        pxReadyTasksLists := pxReadyTasksLists[p := Rings.Remove(pxReadyTasksLists[p], t)];
      } else {
        ReadyElsewhere(pxReadyTasksLists, where, uxTopReadyPriority, t, Suspended);
      }
    }

    method RemoveIfDelayed(t: Id)
      requires Linked(pxDelayedTaskList, pxOverflowDelayedTaskList, where, due, base)
      requires Bounded(due, base, xNextTaskUnblockTime) && t in where
      modifies `pxDelayedTaskList, `pxOverflowDelayedTaskList, `due
      ensures Linked(pxDelayedTaskList, pxOverflowDelayedTaskList, where - {t}, due, base)
      ensures Bounded(due, base, xNextTaskUnblockTime) && due == old(due) - {t}
    {
      hide Linked, Remove;
      if where[t].Timed? {
        LinkedRemove(pxDelayedTaskList, pxOverflowDelayedTaskList, where, due, base, t);
        pxDelayedTaskList := Remove(pxDelayedTaskList, t);
        pxOverflowDelayedTaskList := Remove(pxOverflowDelayedTaskList, t);
        due := due - {t};
      } else {
        LinkedElsewhere(pxDelayedTaskList, pxOverflowDelayedTaskList, where, due, base, t, Suspended);
      }
    }

    method RemoveIfParked(t: Id)
      requires OnList(xSuspendedTaskList, where, Suspended) && OnList(xTasksWaitingTermination, where, Termination)
      requires t in where
      modifies `xSuspendedTaskList, `xTasksWaitingTermination
      ensures OnList(xSuspendedTaskList, where - {t}, Suspended)
      ensures OnList(xTasksWaitingTermination, where - {t}, Termination)
      ensures !where[t].Suspended? ==> xSuspendedTaskList == old(xSuspendedTaskList)
      ensures !where[t].Termination? ==> xTasksWaitingTermination == old(xTasksWaitingTermination)
    {
      hide OnList, Without;
      if where[t].Suspended? {
        OnListRemove(xSuspendedTaskList, where, Suspended, t);
        xSuspendedTaskList := Without(xSuspendedTaskList, t);
      } else {
        OnListRemoveOther(xSuspendedTaskList, where, Suspended, t);
      }
      if where[t].Termination? {
        OnListRemove(xTasksWaitingTermination, where, Termination, t);
        xTasksWaitingTermination := Without(xTasksWaitingTermination, t);
      } else {
        OnListRemoveOther(xTasksWaitingTermination, where, Termination, t);
      }
    }

    method RemoveStateItem(t: Id)
      requires Core({}) && t in tcb
      modifies `pxReadyTasksLists, `pxDelayedTaskList, `pxOverflowDelayedTaskList
      modifies `xSuspendedTaskList, `xTasksWaitingTermination, `where, `due
      ensures Core({t}) && where == old(where) - {t} && due == old(due) - {t}
      ensures t in old(where) && pxReadyTasksLists == Unready(old(pxReadyTasksLists), old(where)[t], t)
    {
      hide ReadyLists, Fitting, Linked, Bounded, OnList, Evented, Population, Unready;
      TaskFacts(tcb, where, mutexes, pxCurrentTCB, uxCurrentNumberOfTasks, {}, t);
      PopulationIn(tcb, where, mutexes, pxCurrentTCB, uxCurrentNumberOfTasks, t);
      EventedIn(xPendingReadyList, eventLists, eventWhere, where, t);
      RemoveIfReady(t);
      RemoveIfDelayed(t);
      RemoveIfParked(t);
      where := where - {t};
    }

    /** prvAddTaskToReadyList */
    method AddTaskToReadyList(t: Id)
      requires Core({t}) && t in tcb && t !in eventWhere
      modifies `pxReadyTasksLists, `uxTopReadyPriority, `where
      ensures Core({}) && where == old(where)[t := Ready(tcb[t].priority)]
      ensures pxReadyTasksLists ==
        old(pxReadyTasksLists)[tcb[t].priority := Rings.InsertEnd(old(pxReadyTasksLists)[tcb[t].priority], t)]
    {
      hide ReadyLists, Fitting, Linked, Bounded, OnList, Evented, Population;
      var p := tcb[t].priority;
      TaskFacts(tcb, where, mutexes, pxCurrentTCB, uxCurrentNumberOfTasks, {t}, t);
      PopulationOut(tcb, where, mutexes, pxCurrentTCB, uxCurrentNumberOfTasks, t, Ready(p));
      EventedOut(xPendingReadyList, eventLists, eventWhere, where, t, Ready(p));
      ReadyAdd(pxReadyTasksLists, where, uxTopReadyPriority, t, p);
      LinkedElsewhere(pxDelayedTaskList, pxOverflowDelayedTaskList, where, due, base, t, Ready(p));
      OnListElsewhere(xSuspendedTaskList, where, Suspended, t, Ready(p));
      OnListElsewhere(xTasksWaitingTermination, where, Termination, t, Ready(p));
      if p > uxTopReadyPriority {
        uxTopReadyPriority := p;
      }
      pxReadyTasksLists := pxReadyTasksLists[p := Rings.InsertEnd(pxReadyTasksLists[p], t)];
      where := where[t := Ready(p)];
    }

    function EventValue(t: Id): nat
      reads `tcb
    {
      if t in tcb then tcb[t].eventValue else 0
    }

    ghost predicate Ordered(list: seq<Id>)
      reads `tcb
    {
      forall i, j :: 0 <= i < j < |list| ==> EventValue(list[i]) <= EventValue(list[j])
    }

    /**
     The waiting tasks stand in the order of their event list item values, which are least for the highest priority.
     */
    ghost predicate InPriorityOrder(e: nat)
      reads `tcb, `eventLists
    {
      e in eventLists && Ordered(eventLists[e])
    }

    /** Whoever leaves an event list, those that go on waiting stay in order. */
    lemma OrderStays(lists: map<nat, seq<Id>>, t: Id)
      ensures forall e, list' :: e in lists && Ordered(lists[e]) && Unlinked(lists[e], list', t) ==> Ordered(list')
    {
      hide EventValue;
    }

    /** uxListRemove on the xEventListItem of a task, when it is on a list. */
    method RemoveEventItem(t: Id, ghost limbo: set<Id>)
      requires Core(limbo) && t in tcb
      modifies `xPendingReadyList, `eventLists, `eventWhere
      ensures Core(limbo) && eventWhere == old(eventWhere) - {t} && |xPendingReadyList| <= |old(xPendingReadyList)|
      ensures Unlinked(old(xPendingReadyList), xPendingReadyList, t)
      ensures eventLists.Keys == old(eventLists.Keys)
      ensures forall e :: e in eventLists ==> Unlinked(old(eventLists)[e], eventLists[e], t)
      ensures forall e :: old(InPriorityOrder(e)) ==> InPriorityOrder(e)
    {
      hide ReadyLists, Fitting, Linked, Bounded, OnList, Evented, Population, Without, Unlinked, Ordered;
      EventedUnlinks(xPendingReadyList, eventLists, eventWhere, where, limbo, t);
      OrderStays(eventLists, t);
      if t in eventWhere {
        EventedRemove(xPendingReadyList, eventLists, eventWhere, where, limbo, t);
        match eventWhere[t] {
          case PendingReady => xPendingReadyList := Without(xPendingReadyList, t);
          case Event(e) => eventLists := eventLists[e := Without(eventLists[e], t)];
        }
        eventWhere := eventWhere - {t};
      }
    }

    /** xNextTaskUnblockTime is a wake time, or portMAX_DELAY when none lies in this epoch. */
    ghost predicate NextUnblockExact()
      reads `due, `base, `xNextTaskUnblockTime
    {
      || (exists t :: t in due && due[t] == base + xNextTaskUnblockTime)
      || (xNextTaskUnblockTime == MAX_DELAY && forall t :: t in due ==> base + WRAP <= due[t])
    }

    /** prvResetNextTaskUnblockTime */
    method ResetNextTaskUnblockTime()
      requires Linked(pxDelayedTaskList, pxOverflowDelayedTaskList, where, due, base)
      modifies `xNextTaskUnblockTime
      ensures Bounded(due, base, xNextTaskUnblockTime)
      ensures NextUnblockExact()
    {
      hide Linked;
      LinkedHead(pxDelayedTaskList, pxOverflowDelayedTaskList, where, due, base);
      if pxDelayedTaskList == [] {
        xNextTaskUnblockTime := MAX_DELAY;
      } else {
        xNextTaskUnblockTime := pxDelayedTaskList[0].value;
      }
    }

    /** taskSWITCH_DELAYED_LISTS, with its assertion that the current list is empty. */
    method SwitchDelayedLists()
      requires Core({}) && Pending(due, base, MAX_DELAY)
      modifies `pxDelayedTaskList, `pxOverflowDelayedTaskList, `base, `xNextTaskUnblockTime
      ensures Core({}) && base == old(base) + WRAP
      ensures forall t :: t in due ==> base <= due[t]
    {
      hide ReadyLists, Fitting, Linked, Bounded, OnList, Evented, Population;
      LinkedSwitch(pxDelayedTaskList, pxOverflowDelayedTaskList, where, due, base);
      assert pxDelayedTaskList == [];
      var pxTemp := pxDelayedTaskList;
      pxDelayedTaskList := pxOverflowDelayedTaskList;
      pxOverflowDelayedTaskList := pxTemp;
      base := base + WRAP;
      ResetNextTaskUnblockTime();
    }

    /** A task leaves the list it waits on, and its event list if it is on one, for the ready list of its priority. */
    method MoveToReadyList(t: Id)
      requires Core({}) && t in tcb
      modifies `pxReadyTasksLists, `uxTopReadyPriority, `pxDelayedTaskList, `pxOverflowDelayedTaskList
      modifies `xSuspendedTaskList, `xTasksWaitingTermination, `where, `due
      modifies `xPendingReadyList, `eventLists, `eventWhere
      ensures Core({}) && due == old(due) - {t} && eventWhere == old(eventWhere) - {t}
      ensures |xPendingReadyList| <= |old(xPendingReadyList)| && Unlinked(old(xPendingReadyList), xPendingReadyList, t)
      ensures Woken(t) && forall u :: u != t ==> StatusOf(u) == old(StatusOf(u))
      ensures t in old(where) && tcb[t].priority < |old(pxReadyTasksLists)|
      ensures pxReadyTasksLists == Readied(old(pxReadyTasksLists), old(where)[t], t, tcb[t].priority)
      ensures forall e :: old(InPriorityOrder(e)) ==> InPriorityOrder(e)
    {
      hide Core, Unready, InPriorityOrder, Unlinked;
      TaskIsListed(t);
      RemoveStateItem(t);
      RemoveEventItem(t, {t});
      AddTaskToReadyList(t);
    }

    lemma DelayedIsTask(t: Id)
      requires Core({}) && t in due
      ensures t in tcb && t in where && where[t].Timed?
    {
      hide ReadyLists, Fitting, Holds, Bounded, OnList, Evented, Accounted;
    }

    lemma Head()
      requires Core({})
      ensures pxDelayedTaskList == [] ==> forall t :: t in due ==> base + WRAP <= due[t]
      ensures pxDelayedTaskList != [] ==>
        && pxDelayedTaskList[0].owner in due && due[pxDelayedTaskList[0].owner] == base + pxDelayedTaskList[0].value
        && pxDelayedTaskList[0].owner in tcb
        && forall t :: t in due ==> base + pxDelayedTaskList[0].value <= due[t]
    {
      hide ReadyLists, Fitting, Linked, Bounded, OnList, Evented, Population;
      LinkedHead(pxDelayedTaskList, pxOverflowDelayedTaskList, where, due, base);
      if pxDelayedTaskList != [] {
        DelayedIsTask(pxDelayedTaskList[0].owner);
      }
    }

    /** The task is ready to run and waits for nothing. */
    ghost predicate Woken(t: Id)
      reads `tcb, `where, `due, `eventWhere
    {
      t in tcb && StatusOf(t) == Status(Some(Ready(tcb[t].priority)), None, None)
    }

    /** The loop of xTaskIncrementTick that unblocks every task whose wake time has been reached. */
    method UnblockExpired() returns (xSwitchRequired: bool)
      requires Core({}) && pxCurrentTCB in tcb
      modifies `pxReadyTasksLists, `uxTopReadyPriority, `pxDelayedTaskList, `pxOverflowDelayedTaskList
      modifies `xSuspendedTaskList, `xTasksWaitingTermination, `where, `due
      modifies `xPendingReadyList, `eventLists, `eventWhere, `xNextTaskUnblockTime
      ensures Core({}) && |xPendingReadyList| <= |old(xPendingReadyList)|
      ensures forall t :: t in due <==> t in old(due) && Now() < old(due)[t]
      ensures forall t :: t in due ==> due[t] == old(due)[t]
      ensures forall t :: t in old(due) && t !in due ==> Woken(t)
      ensures forall t :: t !in old(due) ==> StatusOf(t) == old(StatusOf(t))
      ensures NextUnblockExact()
      ensures xSwitchRequired <==> Outranks(tcb, old(due).Keys - due.Keys, pxCurrentTCB)
      ensures Grown(old(pxReadyTasksLists), pxReadyTasksLists)
      ensures forall e :: old(InPriorityOrder(e)) ==> InPriorityOrder(e)
    {
      hide Core, StatusOf, Grown, InPriorityOrder, Outranks, Readied, NextUnblockExact;
      OutranksNobody(tcb, {}, pxCurrentTCB);
      assert old(due).Keys - due.Keys == {};
      xSwitchRequired := false;
      GrownNot(pxReadyTasksLists);
      while true
        invariant Core({}) && |xPendingReadyList| <= |old(xPendingReadyList)|
        invariant forall t :: t in due ==> t in old(due) && due[t] == old(due)[t]
        invariant forall t :: t in old(due) && t !in due ==> old(due)[t] <= Now() && Woken(t)
        invariant forall t :: t !in old(due) ==> StatusOf(t) == old(StatusOf(t))
        invariant xSwitchRequired <==> Outranks(tcb, old(due).Keys - due.Keys, pxCurrentTCB)
        invariant Grown(old(pxReadyTasksLists), pxReadyTasksLists)
        invariant forall e :: old(InPriorityOrder(e)) ==> InPriorityOrder(e)
        decreases due.Keys
      {
        Head();
        if pxDelayedTaskList == [] || xTickCount < pxDelayedTaskList[0].value {
          break;
        }
        var t := pxDelayedTaskList[0].owner;
        DelayedIsTask(t);
        ghost var before, woken := pxReadyTasksLists, old(due).Keys - due.Keys;
        MoveToReadyList(t);
        ReadyGrows(before, Timed, t, tcb[t].priority);
        GrownOn(old(pxReadyTasksLists), before, pxReadyTasksLists);
        OutranksNext(tcb, woken, t, old(due).Keys - due.Keys, pxCurrentTCB);
        if tcb[t].priority >= tcb[pxCurrentTCB].priority {
          xSwitchRequired := true;
        }
      }
      CoreReset();
    }

    /** What the loop of xTaskIncrementTick leaves in xNextTaskUnblockTime when it stops. */
    method CoreReset()
      requires Core({})
      modifies `xNextTaskUnblockTime
      ensures Core({}) && NextUnblockExact()
    {
      hide ReadyLists, Fitting, Linked, Bounded, OnList, Evented, Population;
      ResetNextTaskUnblockTime();
    }

    ghost function Clock(): Clock
      reads `base, `xTickCount, `due, `tcb, `where, `eventWhere
    {
      Timeline.Clock(Now(), due, set t | t in tcb && Woken(t))
    }

    /**
     A call that takes no time is a step of the run for every task whose status and priority it leaves as they are.
     */
    twostate lemma Untouched(t: Id)
      requires Now() == old(Now()) && StatusOf(t) == old(StatusOf(t))
      requires t in old(tcb) ==> t in tcb && tcb[t].priority == old(tcb)[t].priority
      ensures StepFor(old(Clock()), Clock(), t)
    {
    }

    /** Ticks are a step of the run for a task that they wake exactly if its time has come. */
    twostate lemma TimePassed(t: Id)
      requires old(Now()) <= Now() && tcb == old(tcb)
      requires t in old(due) ==>
        if Now() < old(due)[t] || Now() == old(Now()) then t in due && due[t] == old(due)[t] else t !in due && Woken(t)
      requires t !in old(due) ==> StatusOf(t) == old(StatusOf(t))
      ensures StepFor(old(Clock()), Clock(), t)
    {
    }

    /** The step of the tick count itself, across its wrap to zero. */
    method StepTickCount()
      requires Valid()
      modifies `xTickCount, `pxDelayedTaskList, `pxOverflowDelayedTaskList, `base, `xNextTaskUnblockTime
      ensures Core({}) && Now() == old(Now()) + 1
      ensures forall t :: t in due ==> base <= due[t]
    {
      hide ReadyLists, Fitting, Linked, OnList, Evented, Population, Bounded;
      BaseBound();
      xTickCount := Plus(xTickCount, 1);
      if xTickCount == 0 {
        SwitchDelayedLists();
      }
    }

    lemma BaseBound()
      requires Core({})
      ensures forall t :: t in due ==> base <= due[t] && base + xNextTaskUnblockTime <= due[t]
    {
      hide ReadyLists, Fitting, Holds, OnList, Evented, Population;
    }

    /**
     xTaskIncrementTick: with the scheduler running the tick wakes exactly the tasks whose time has come; while it is
     suspended the tick is only counted.
     */
    method IncrementTick() returns (xSwitchRequired: bool)
      requires Valid()
      modifies `pxReadyTasksLists, `uxTopReadyPriority, `pxDelayedTaskList, `pxOverflowDelayedTaskList
      modifies `xSuspendedTaskList, `xTasksWaitingTermination, `where, `due
      modifies `xPendingReadyList, `eventLists, `eventWhere, `xNextTaskUnblockTime
      modifies `xTickCount, `base, `uxPendedTicks
      ensures Valid()
      ensures old(uxSchedulerSuspended) == 0 ==>
        && Now() == old(Now()) + 1 && uxPendedTicks == old(uxPendedTicks)
        && (forall t :: t in due <==> t in old(due) && Now() < old(due)[t])
        && forall t :: t in due ==> due[t] == old(due)[t]
      ensures forall t :: StepFor(old(Clock()), Clock(), t)
      ensures old(uxSchedulerSuspended) == 0 ==> forall t :: t in old(due) && t !in due ==> Woken(t)
      ensures old(uxSchedulerSuspended) != 0 ==>
        && Now() == old(Now()) && due == old(due) && where == old(where) && uxPendedTicks == old(uxPendedTicks) + 1
        && xPendingReadyList == old(xPendingReadyList)
      ensures forall t :: t !in old(due) ==> StatusOf(t) == old(StatusOf(t))
      ensures pxCurrentTCB in tcb && tcb[pxCurrentTCB].priority < |pxReadyTasksLists|
      ensures xSwitchRequired <==>
        || xYieldPending
        || (old(uxSchedulerSuspended) == 0
            && (Outranks(tcb, old(due).Keys - due.Keys, pxCurrentTCB)
                || |pxReadyTasksLists[tcb[pxCurrentTCB].priority].nodes| > 1))
      ensures Grown(old(pxReadyTasksLists), pxReadyTasksLists)
      ensures forall e :: old(InPriorityOrder(e)) ==> InPriorityOrder(e)
    {
      hide Core, Grown, InPriorityOrder;
      GrownNot(pxReadyTasksLists);
      CurrentIsTask();
      xSwitchRequired := false;
      if uxSchedulerSuspended == 0 {
        StepTickCount();
        if xTickCount >= xNextTaskUnblockTime {
          xSwitchRequired := UnblockExpired();
        } else {
          BaseBound();
        }
        var uxPriority := tcb[pxCurrentTCB].priority;
        CurrentIsTask();
        if |pxReadyTasksLists[uxPriority].nodes| > 1 {
          xSwitchRequired := true;
        }
      } else {
        CountPendedTick();
      }
      if xYieldPending {
        xSwitchRequired := true;
      }
      forall t ensures StepFor(old(Clock()), Clock(), t) {
        TimePassed(t);
      }
    }

    method CountPendedTick()
      requires Core({})
      modifies `uxPendedTicks
      ensures Core({}) && uxPendedTicks == old(uxPendedTicks) + 1
    {
      hide ReadyLists, Fitting, Linked, OnList, Evented, Population, Bounded;
      uxPendedTicks := uxPendedTicks + 1;
    }

    lemma CurrentIsTask()
      requires Core({})
      ensures pxCurrentTCB in tcb && tcb[pxCurrentTCB].priority < |pxReadyTasksLists| == MAX_PRIORITIES
    {
      hide ReadyLists, Fitting, Linked, OnList, Evented, Bounded, Accounted;
    }

    /** vTaskSuspendAll */
    method SuspendAll()
      requires Valid()
      modifies `uxSchedulerSuspended
      ensures Valid() && uxSchedulerSuspended == old(uxSchedulerSuspended) + 1
    {
      hide ReadyLists, Fitting, Linked, OnList, Evented, Population, Bounded, Pending;
      uxSchedulerSuspended := uxSchedulerSuspended + 1;
    }

    lemma PendingHead()
      requires Core({}) && xPendingReadyList != []
      ensures xPendingReadyList[0] in eventWhere && xPendingReadyList[0] in tcb
      ensures forall list' ::
        Unlinked(xPendingReadyList, list', xPendingReadyList[0]) ==> list' == xPendingReadyList[1..]
      ensures xPendingReadyList[0] in where && !where[xPendingReadyList[0]].Ready?
    {
      hide ReadyLists, Fitting, Linked, Bounded, Accounted, EventLists, Unlinked;
      assert xPendingReadyList[0] in xPendingReadyList;
      forall list' | Unlinked(xPendingReadyList, list', xPendingReadyList[0]) ensures list' == xPendingReadyList[1..] {
        UnlinkedHead(xPendingReadyList, list', eventWhere, PendingReady, xPendingReadyList[0]);
      }
    }

    lemma PendingMembers()
      requires Core({})
      ensures forall t :: t in xPendingReadyList <==> t in eventWhere && eventWhere[t].PendingReady?
    {
      hide ReadyLists, Fitting, Linked, Bounded, Population, EventLists;
    }

    /** The tasks readied while the scheduler was suspended go to their ready lists. */
    method DrainPendingReady()
      requires Core({}) && pxCurrentTCB in tcb
      modifies `pxReadyTasksLists, `uxTopReadyPriority, `pxDelayedTaskList, `pxOverflowDelayedTaskList
      modifies `xSuspendedTaskList, `xTasksWaitingTermination, `where, `due
      modifies `xPendingReadyList, `eventLists, `eventWhere, `xYieldPending, `xNextTaskUnblockTime
      ensures Core({}) && xPendingReadyList == []
      ensures forall t :: t in old(xPendingReadyList) ==> Woken(t)
      ensures due.Keys <= old(due.Keys) && forall t :: t in due ==> due[t] == old(due)[t]
      ensures forall t :: t !in old(xPendingReadyList) ==> StatusOf(t) == old(StatusOf(t))
      ensures xYieldPending <==>
        old(xYieldPending) || Outranks(tcb, Members(old(xPendingReadyList)), pxCurrentTCB)
      ensures old(xPendingReadyList) != [] ==> NextUnblockExact()
      ensures pxReadyTasksLists == ReadiedAll(old(pxReadyTasksLists), tcb, old(xPendingReadyList))
      ensures forall e :: old(InPriorityOrder(e)) ==> InPriorityOrder(e)
    {
      hide Core, StatusOf, InPriorityOrder, Outranks, Readied, ReadiedAll, Unlinked, NextUnblockExact;
      OutranksNobody(tcb, Members(xPendingReadyList) - Members(xPendingReadyList), pxCurrentTCB);
      var moved := false;
      while xPendingReadyList != []
        invariant Core({})
        invariant forall t :: t in xPendingReadyList ==> t in old(xPendingReadyList)
        invariant due.Keys <= old(due.Keys) && forall t :: t in due ==> due[t] == old(due)[t]
        invariant forall t :: t in old(xPendingReadyList) ==> t in xPendingReadyList || Woken(t)
        invariant forall t :: t !in old(xPendingReadyList) ==> StatusOf(t) == old(StatusOf(t))
        invariant xYieldPending <==>
          || old(xYieldPending)
          || Outranks(tcb, Members(old(xPendingReadyList)) - Members(xPendingReadyList), pxCurrentTCB)
        invariant forall e :: old(InPriorityOrder(e)) ==> InPriorityOrder(e)
        invariant !moved ==> xPendingReadyList == old(xPendingReadyList)
        invariant ReadiedAll(pxReadyTasksLists, tcb, xPendingReadyList)
                  == ReadiedAll(old(pxReadyTasksLists), tcb, old(xPendingReadyList))
        decreases eventWhere.Keys
      {
        PendingHead();
        PendingMembers();
        var t := xPendingReadyList[0];
        TaskIsListed(t);
        FirstReadied(pxReadyTasksLists, tcb, xPendingReadyList, where[t]);
        ghost var moves := Members(old(xPendingReadyList)) - Members(xPendingReadyList);
        MoveToReadyList(t);
        PendingMembers();
        OutranksNext(tcb, moves, t, Members(old(xPendingReadyList)) - Members(xPendingReadyList), pxCurrentTCB);
        if tcb[t].priority >= tcb[pxCurrentTCB].priority {
          xYieldPending := true;
        }
        moved := true;
      }
      assert Members(old(xPendingReadyList)) - Members(xPendingReadyList) == Members(old(xPendingReadyList));
      if moved {
        CoreReset();
      }
      NoneReadied(pxReadyTasksLists, tcb);
    }

    /** The ticks counted while the scheduler was suspended are processed now. */
    method UnwindPendedTicks()
      requires Valid() && uxSchedulerSuspended == 0
      modifies `pxReadyTasksLists, `uxTopReadyPriority, `pxDelayedTaskList, `pxOverflowDelayedTaskList
      modifies `xSuspendedTaskList, `xTasksWaitingTermination, `where, `due
      modifies `xPendingReadyList, `eventLists, `eventWhere, `xNextTaskUnblockTime
      modifies `xTickCount, `base, `uxPendedTicks, `xYieldPending
      ensures Valid() && Now() == old(Now()) + old(uxPendedTicks) && uxPendedTicks == 0
      ensures forall t :: StepFor(old(Clock()), Clock(), t)
      ensures forall t :: t in due <==> t in old(due) && (Now() < old(due)[t] || old(uxPendedTicks) == 0)
      ensures forall t :: t in due ==> due[t] == old(due)[t]
      ensures forall t :: t in old(due) && t !in due ==> Woken(t)
      ensures forall t :: t !in old(due) ==> StatusOf(t) == old(StatusOf(t))
      ensures pxCurrentTCB in tcb && tcb[pxCurrentTCB].priority < |pxReadyTasksLists|
      ensures xYieldPending <==>
        || old(xYieldPending) || Outranks(tcb, old(due).Keys - due.Keys, pxCurrentTCB)
        || (old(uxPendedTicks) != 0 && |pxReadyTasksLists[tcb[pxCurrentTCB].priority].nodes| > 1)
      ensures forall e :: old(InPriorityOrder(e)) ==> InPriorityOrder(e)
    {
      hide Core, Pending, StatusOf, StepFor, Woken, InPriorityOrder, Outranks, Grown;
      var uxPendedCounts := uxPendedTicks;
      ghost var start := Clock();
      NoStep(start);
      CurrentIsTask();
      OutranksNobody(tcb, old(due).Keys - due.Keys, pxCurrentTCB);
      while uxPendedCounts > 0
        invariant Valid() && uxPendedTicks == old(uxPendedTicks)
        invariant 0 <= uxPendedCounts && Now() + uxPendedCounts == old(Now()) + uxPendedTicks
        invariant forall t :: t in due ==> t in start.due
        invariant forall t :: StepFor(start, Clock(), t)
        invariant forall t :: t !in start.due ==> StatusOf(t) == old(StatusOf(t))
        invariant pxCurrentTCB in tcb && tcb[pxCurrentTCB].priority < |pxReadyTasksLists|
        invariant xYieldPending <==>
          || old(xYieldPending) || Outranks(tcb, old(due).Keys - due.Keys, pxCurrentTCB)
          || (uxPendedCounts < uxPendedTicks && |pxReadyTasksLists[tcb[pxCurrentTCB].priority].nodes| > 1)
        invariant forall e :: old(InPriorityOrder(e)) ==> InPriorityOrder(e)
      {
        ghost var before, lists := Clock(), pxReadyTasksLists;
        var switchRequired := IncrementTick();
        StepsAllOn(start, before, Clock());
        GrownAt(lists, pxReadyTasksLists, tcb[pxCurrentTCB].priority);
        OutranksEither(tcb, old(due).Keys - before.due.Keys, before.due.Keys - due.Keys, old(due).Keys - due.Keys,
                       pxCurrentTCB);
        if switchRequired {
          xYieldPending := true;
        }
        uxPendedCounts := uxPendedCounts - 1;
      }
      uxPendedTicks := 0;
      StepsMean(start, Clock());
    }

    /** What xTaskResumeAll does when the last suspension ends. */
    method CatchUp()
      requires Core({}) && Pending(due, base, xTickCount) && uxSchedulerSuspended == 0
      modifies `pxReadyTasksLists, `uxTopReadyPriority, `pxDelayedTaskList, `pxOverflowDelayedTaskList
      modifies `xSuspendedTaskList, `xTasksWaitingTermination, `where, `due
      modifies `xPendingReadyList, `eventLists, `eventWhere, `xNextTaskUnblockTime
      modifies `xTickCount, `base, `uxPendedTicks, `xYieldPending
      ensures Valid() && Now() == old(Now()) + old(uxPendedTicks) && uxPendedTicks == 0 && xPendingReadyList == []
      ensures forall t :: t in old(xPendingReadyList) ==> Woken(t)
      ensures forall t :: t in old(due) && t !in old(xPendingReadyList) ==>
        if Now() < old(due)[t] || old(uxPendedTicks) == 0 then t in due && due[t] == old(due)[t] else Woken(t)
      ensures forall t :: t !in old(due) && t !in old(xPendingReadyList) ==> StatusOf(t) == old(StatusOf(t))
      ensures pxCurrentTCB in tcb && tcb[pxCurrentTCB].priority < |pxReadyTasksLists|
      ensures xYieldPending <==>
        || old(xYieldPending)
        || Outranks(tcb, Members(old(xPendingReadyList)) + (old(due).Keys - due.Keys), pxCurrentTCB)
        || (old(uxPendedTicks) != 0 && |pxReadyTasksLists[tcb[pxCurrentTCB].priority].nodes| > 1)
      ensures forall e :: old(InPriorityOrder(e)) ==> InPriorityOrder(e)
    {
      hide Core, InPriorityOrder, Outranks, StepFor, Pending;
      CurrentIsTask();
      ghost var pending := xPendingReadyList;
      DrainPendingReady();
      assert forall t :: t in pending ==> Woken(t) && t !in due;
      PendingFewer(old(due), due, base, xTickCount);
      ghost var left := due;
      UnwindPendedTicks();
      OutranksEither(tcb, Members(pending), left.Keys - due.Keys, Members(pending) + (old(due).Keys - due.Keys),
                     pxCurrentTCB);
    }

    /**
     xTaskResumeAll: when the last suspension ends, the tasks readied meanwhile are made ready, the ticks that went by
     are made up for, and every wake time they have reached takes effect.
     */
    method ResumeAll() returns (xAlreadyYielded: bool)
      requires Valid() && uxSchedulerSuspended != 0
      modifies `pxReadyTasksLists, `uxTopReadyPriority, `pxDelayedTaskList, `pxOverflowDelayedTaskList
      modifies `xSuspendedTaskList, `xTasksWaitingTermination, `where, `due
      modifies `xPendingReadyList, `eventLists, `eventWhere, `xNextTaskUnblockTime
      modifies `xTickCount, `base, `uxPendedTicks, `xYieldPending, `uxSchedulerSuspended
      ensures Valid() && uxSchedulerSuspended == old(uxSchedulerSuspended) - 1
      ensures Now() + uxPendedTicks == old(Now()) + old(uxPendedTicks)
      ensures forall t :: t !in old(xPendingReadyList) ==> StepFor(old(Clock()), Clock(), t)
      ensures uxSchedulerSuspended == 0 ==> uxPendedTicks == 0 && xPendingReadyList == []
      ensures uxSchedulerSuspended == 0 ==> forall t :: t in old(xPendingReadyList) ==> Woken(t)
      ensures uxSchedulerSuspended == 0 ==> forall t :: t in old(due) && t !in old(xPendingReadyList) ==>
        if Now() < old(due)[t] || old(uxPendedTicks) == 0 then t in due && due[t] == old(due)[t] else Woken(t)
      ensures forall t :: t !in old(due) && (t in old(xPendingReadyList) ==> uxSchedulerSuspended != 0) ==>
        StatusOf(t) == old(StatusOf(t))
      ensures uxSchedulerSuspended != 0 ==> Now() == old(Now()) && due == old(due) && where == old(where)
      ensures xAlreadyYielded <==> uxSchedulerSuspended == 0 && xYieldPending
      ensures uxSchedulerSuspended != 0 ==> xYieldPending == old(xYieldPending)
      ensures pxCurrentTCB in tcb && tcb[pxCurrentTCB].priority < |pxReadyTasksLists|
      ensures uxSchedulerSuspended == 0 ==>
        (xYieldPending <==>
          || old(xYieldPending)
          || Outranks(tcb, Members(old(xPendingReadyList)) + (old(due).Keys - due.Keys), pxCurrentTCB)
          || (old(uxPendedTicks) != 0 && |pxReadyTasksLists[tcb[pxCurrentTCB].priority].nodes| > 1))
      ensures forall e :: old(InPriorityOrder(e)) ==> InPriorityOrder(e)
    {
      hide Core, InPriorityOrder, Outranks, StepFor, Pending;
      CurrentIsTask();
      xAlreadyYielded := false;
      uxSchedulerSuspended := uxSchedulerSuspended - 1;
      if uxSchedulerSuspended == 0 {
        CatchUp();
        xAlreadyYielded := xYieldPending;
      }
      forall t | t !in old(xPendingReadyList) ensures StepFor(old(Clock()), Clock(), t) {
        TimePassed(t);
      }
    }

    /** The task in limbo goes to the suspended task list, or to the termination list. */
    method Park(t: Id, place: Place)
      requires Core({t}) && t in tcb && (place.Suspended? || (place.Termination? && t !in eventWhere))
      modifies `xSuspendedTaskList, `xTasksWaitingTermination, `where
      ensures Core({}) && StatusOf(t) == Status(Some(place), old(Lookup(eventWhere, t)), None)
      ensures forall u :: u != t ==> StatusOf(u) == old(StatusOf(u))
    {
      hide ReadyLists, Fitting, Linked, Bounded, OnList, Evented, Population;
      TaskFacts(tcb, where, mutexes, pxCurrentTCB, uxCurrentNumberOfTasks, {t}, t);
      PopulationOut(tcb, where, mutexes, pxCurrentTCB, uxCurrentNumberOfTasks, t, place);
      EventedOut(xPendingReadyList, eventLists, eventWhere, where, t, place);
      ReadyElsewhere(pxReadyTasksLists, where, uxTopReadyPriority, t, place);
      LinkedElsewhere(pxDelayedTaskList, pxOverflowDelayedTaskList, where, due, base, t, place);
      if place.Suspended? {
        OnListAppend(xSuspendedTaskList, where, Suspended, t);
        OnListElsewhere(xTasksWaitingTermination, where, Termination, t, place);
        xSuspendedTaskList := xSuspendedTaskList + [t];
      } else {
        OnListElsewhere(xSuspendedTaskList, where, Suspended, t, place);
        OnListAppend(xTasksWaitingTermination, where, Termination, t);
        xTasksWaitingTermination := xTasksWaitingTermination + [t];
      }
      where := where[t := place];
    }

    method InsertDelayed(t: Id, xTicksToWait: Tick)
      requires Linked(pxDelayedTaskList, pxOverflowDelayedTaskList, where, due, base) && t !in where
      requires Bounded(due, base, xNextTaskUnblockTime)
      modifies `pxDelayedTaskList, `pxOverflowDelayedTaskList, `due, `xNextTaskUnblockTime
      ensures due == old(due)[t := Now() + xTicksToWait] && Bounded(due, base, xNextTaskUnblockTime)
      ensures Linked(pxDelayedTaskList, pxOverflowDelayedTaskList, where[t := Timed], due, base)
    {
      hide Linked, Bounded, Insert;
      LinkedAdd(pxDelayedTaskList, pxOverflowDelayedTaskList, where, due, base, t, xTickCount, xTicksToWait);
      var xTimeToWake := Plus(xTickCount, xTicksToWait);
      BoundedAdd(due, base, xNextTaskUnblockTime, t, xTimeToWake, Now() + xTicksToWait);
      if xTimeToWake < xTickCount {
        pxOverflowDelayedTaskList := Insert(pxOverflowDelayedTaskList, Item(xTimeToWake, t));
      } else {
        pxDelayedTaskList := Insert(pxDelayedTaskList, Item(xTimeToWake, t));
        if xTimeToWake < xNextTaskUnblockTime {
          xNextTaskUnblockTime := xTimeToWake;
        }
      }
      due := due[t := Now() + xTicksToWait];
    }

    /** The task in limbo goes to the delayed list its wake time belongs on. */
    method Delay(t: Id, xTicksToWait: Tick)
      requires Core({t}) && t in tcb
      modifies `pxDelayedTaskList, `pxOverflowDelayedTaskList, `where, `due, `xNextTaskUnblockTime
      ensures Core({}) && StatusOf(t) == Status(Some(Timed), old(Lookup(eventWhere, t)), Some(Now() + xTicksToWait))
      ensures forall u :: u != t ==> StatusOf(u) == old(StatusOf(u))
      ensures due == old(due)[t := Now() + xTicksToWait]
    {
      hide ReadyLists, Fitting, Linked, Bounded, OnList, Evented, Population;
      TaskFacts(tcb, where, mutexes, pxCurrentTCB, uxCurrentNumberOfTasks, {t}, t);
      PopulationOut(tcb, where, mutexes, pxCurrentTCB, uxCurrentNumberOfTasks, t, Timed);
      EventedOut(xPendingReadyList, eventLists, eventWhere, where, t, Timed);
      ReadyElsewhere(pxReadyTasksLists, where, uxTopReadyPriority, t, Timed);
      OnListElsewhere(xSuspendedTaskList, where, Suspended, t, Timed);
      OnListElsewhere(xTasksWaitingTermination, where, Termination, t, Timed);
      InsertDelayed(t, xTicksToWait);
      where := where[t := Timed];
    }

    /** prvAddCurrentTaskToDelayedList, once the task has left its ready list */
    method Block(t: Id, xTicksToWait: Tick, xCanBlockIndefinitely: bool)
      requires Core({t}) && t in tcb && Pending(due, base, xTickCount) && (0 < xTicksToWait || xTickCount < MAX_DELAY)
      modifies `pxDelayedTaskList, `pxOverflowDelayedTaskList, `xSuspendedTaskList, `xTasksWaitingTermination
      modifies `where, `due, `xNextTaskUnblockTime
      ensures Core({}) && Pending(due, base, xTickCount)
      ensures xTicksToWait == MAX_DELAY && xCanBlockIndefinitely ==>
        StatusOf(t) == Status(Some(Suspended), old(Lookup(eventWhere, t)), None)
      ensures !(xTicksToWait == MAX_DELAY && xCanBlockIndefinitely) ==>
        StatusOf(t) == Status(Some(Timed), old(Lookup(eventWhere, t)), Some(Now() + xTicksToWait))
      ensures forall u :: u != t ==> StatusOf(u) == old(StatusOf(u))
    {
      hide Core;
      if xTicksToWait == MAX_DELAY && xCanBlockIndefinitely {
        Park(t, Suspended);
      } else {
        Delay(t, xTicksToWait);
      }
    }

    /** prvAddCurrentTaskToDelayedList */
    method AddCurrentTaskToDelayedList(xTicksToWait: Tick, xCanBlockIndefinitely: bool)
      requires Valid() && (0 < xTicksToWait || xTickCount < MAX_DELAY)
      modifies `pxReadyTasksLists, `pxDelayedTaskList, `pxOverflowDelayedTaskList
      modifies `xSuspendedTaskList, `xTasksWaitingTermination, `where, `due, `xNextTaskUnblockTime
      ensures Valid()
      ensures xTicksToWait == MAX_DELAY && xCanBlockIndefinitely ==>
        StatusOf(pxCurrentTCB) == old(StatusOf(pxCurrentTCB)).(place := Some(Suspended), wake := None)
      ensures !(xTicksToWait == MAX_DELAY && xCanBlockIndefinitely) ==>
        StatusOf(pxCurrentTCB) == old(StatusOf(pxCurrentTCB)).(place := Some(Timed), wake := Some(Now() + xTicksToWait))
      ensures forall u :: u != pxCurrentTCB ==> StatusOf(u) == old(StatusOf(u))
    {
      hide Core, Unready;
      CurrentIsTask();
      RemoveStateItem(pxCurrentTCB);
      Block(pxCurrentTCB, xTicksToWait, xCanBlockIndefinitely);
    }

    /** The search of vListInsert: behind the waiting tasks of the same or a higher priority */
    method FindEventPlace(t: Id, list: seq<Id>) returns (p: nat)
      ensures p <= |list| && forall i :: 0 <= i < p ==> EventValue(list[i]) <= EventValue(t)
      ensures p < |list| ==> EventValue(t) < EventValue(list[p])
    {
      p := 0;
      while p < |list| && EventValue(list[p]) <= EventValue(t)
        invariant p <= |list| && forall i :: 0 <= i < p ==> EventValue(list[i]) <= EventValue(t)
      {
        p := p + 1;
      }
    }

    lemma OrderedStill(list: seq<Id>, p: nat, t: Id)
      requires p <= |list| && Ordered(list)
      requires p > 0 ==> EventValue(list[p - 1]) <= EventValue(t)
      requires p < |list| ==> EventValue(t) < EventValue(list[p])
      ensures Ordered(list[..p] + [t] + list[p..])
    {
      hide EventValue;
    }

    /** vListInsert of the event list item. */
    method InsertEvent(t: Id, e: nat)
      requires Core({t}) && t in tcb && t !in eventWhere && e in eventLists
      modifies `eventLists, `eventWhere
      ensures Core({t}) && eventWhere == old(eventWhere)[t := Event(e)]
      ensures e in eventLists && t in eventLists[e]
      ensures exists p :: (
        && 0 <= p <= |old(eventLists)[e]|
        && eventLists[e] == old(eventLists)[e][..p] + [t] + old(eventLists)[e][p..]
        && (forall i :: 0 <= i < p ==> EventValue(old(eventLists)[e][i]) <= EventValue(t))
        && (p < |old(eventLists)[e]| ==> EventValue(t) < EventValue(old(eventLists)[e][p])))
      ensures old(InPriorityOrder(e)) ==> InPriorityOrder(e)
    {
      hide ReadyLists, Fitting, Linked, Bounded, OnList, Evented, Population, EventValue, Ordered;
      var list := eventLists[e];
      var p := FindEventPlace(t, list);
      if Ordered(list) {
        OrderedStill(list, p, t);
      }
      EventedAdd(xPendingReadyList, eventLists, eventWhere, where, {t}, t, e, p);
      eventLists := eventLists[e := list[..p] + [t] + list[p..]];
      eventWhere := eventWhere[t := Event(e)];
    }

    /**
     While no waiting task's priority changes, the task that RemoveFromEventList readies is one of the highest
     priority, unless a waiting task's own priority was set while it ran at an inherited one.
     */
    lemma HighestPriorityFirst(e: nat)
      requires Core({}) && InPriorityOrder(e)
      requires forall t :: t in eventLists[e] && t in tcb ==> t !in rebased && tcb[t].eventValue < VALUE_IN_USE
      ensures forall t :: t in eventLists[e] ==> t in tcb && tcb[t].priority <= tcb[eventLists[e][0]].priority
    {
      hide ReadyLists, Fitting, Linked, Bounded, OnList, Accounted;
      if eventLists[e] != [] {
        WaitsAsTask(e, eventLists[e][0]);
        forall t | t in eventLists[e] ensures t in tcb && tcb[t].priority <= tcb[eventLists[e][0]].priority {
          var i :| 0 <= i < |eventLists[e]| && eventLists[e][i] == t;
          WaitsAsTask(e, t);
          FitsAlready(t);
          FitsAlready(eventLists[e][0]);
          assert EventValue(eventLists[e][0]) <= EventValue(t);
        }
      }
    }

    lemma WaitsAsTask(e: nat, t: Id)
      requires Core({}) && e in eventLists && t in eventLists[e]
      ensures t in tcb && tcb[t].priority < MAX_PRIORITIES
    {
      hide ReadyLists, Fitting, Linked, Bounded, Accounted;
    }

    /**
     vTaskPlaceOnEventList. The task leaves its ready list before its event list item is linked; the source does both
     with the scheduler suspended and the event list locked.
     */
    method PlaceOnEventList(e: nat, xTicksToWait: Tick)
      requires Valid() && e in eventLists && pxCurrentTCB !in eventWhere && (0 < xTicksToWait || xTickCount < MAX_DELAY)
      modifies `pxReadyTasksLists, `pxDelayedTaskList, `pxOverflowDelayedTaskList, `eventLists, `eventWhere
      modifies `xSuspendedTaskList, `xTasksWaitingTermination, `where, `due, `xNextTaskUnblockTime
      ensures Valid() && e in eventLists && pxCurrentTCB in eventLists[e]
      ensures old(InPriorityOrder(e)) ==> InPriorityOrder(e)
      ensures StatusOf(pxCurrentTCB) ==
        if xTicksToWait == MAX_DELAY then Status(Some(Suspended), Some(Event(e)), None)
        else Status(Some(Timed), Some(Event(e)), Some(Now() + xTicksToWait))
      ensures forall u :: u != pxCurrentTCB ==> StatusOf(u) == old(StatusOf(u))
    {
      hide Core, Unready, InPriorityOrder;
      CurrentIsTask();
      RemoveStateItem(pxCurrentTCB);
      InsertEvent(pxCurrentTCB, e);
      Block(pxCurrentTCB, xTicksToWait, true);
    }

    /** A task that waits for no event leaves its list for the ready list of its priority. */
    method MakeReady(t: Id)
      requires Core({}) && t in tcb && t !in eventWhere
      modifies `pxReadyTasksLists, `uxTopReadyPriority, `pxDelayedTaskList, `pxOverflowDelayedTaskList
      modifies `xSuspendedTaskList, `xTasksWaitingTermination, `where, `due
      ensures Core({}) && due == old(due) - {t}
      ensures Woken(t) && forall u :: u != t ==> StatusOf(u) == old(StatusOf(u))
      ensures t in old(where) && tcb[t].priority < |old(pxReadyTasksLists)|
      ensures pxReadyTasksLists == Readied(old(pxReadyTasksLists), old(where)[t], t, tcb[t].priority)
    {
      hide Core, Unready;
      TaskIsListed(t);
      RemoveStateItem(t);
      AddTaskToReadyList(t);
    }

    lemma EventHead(e: nat)
      requires Core({}) && e in eventLists && eventLists[e] != []
      ensures var t := eventLists[e][0];
        && t in tcb && t in eventWhere && eventWhere[t] == Event(e)
        && t in where && (where[t].Timed? || where[t].Suspended?)
        && forall f, list' :: f in eventLists && Unlinked(eventLists[f], list', t) ==>
             list' == if f == e then eventLists[e][1..] else eventLists[f]
    {
      hide ReadyLists, Fitting, Linked, Bounded, Accounted, Unlinked;
      assert eventLists[e][0] in eventLists[e];
      forall f, list' | f in eventLists && Unlinked(eventLists[f], list', eventLists[e][0])
        ensures list' == if f == e then eventLists[e][1..] else eventLists[f]
      {
        UnlinkedHead(eventLists[f], list', eventWhere, Event(f), eventLists[e][0]);
      }
    }

    /** The event list item of a blocked or suspended task goes to the end of xPendingReadyList. */
    method Pend(t: Id)
      requires Core({}) && t !in eventWhere && t in where && (where[t].Timed? || where[t].Suspended?)
      modifies `xPendingReadyList, `eventWhere
      ensures Core({}) && xPendingReadyList == old(xPendingReadyList) + [t]
      ensures StatusOf(t) == old(StatusOf(t)).(event := Some(PendingReady))
      ensures forall u :: u != t ==> StatusOf(u) == old(StatusOf(u))
    {
      hide ReadyLists, Fitting, Linked, Bounded, OnList, Evented, Population;
      EventedPend(xPendingReadyList, eventLists, eventWhere, where, t);
      xPendingReadyList, eventWhere := xPendingReadyList + [t], eventWhere[t := PendingReady];
    }

    /** A task that waits for an event is made ready, or pending ready with the scheduler suspended. */
    method Awaken(t: Id)
      requires Valid() && t in tcb && t in where && (where[t].Timed? || where[t].Suspended?)
      modifies `pxReadyTasksLists, `uxTopReadyPriority, `pxDelayedTaskList, `pxOverflowDelayedTaskList
      modifies `xSuspendedTaskList, `xTasksWaitingTermination, `where, `due
      modifies `xPendingReadyList, `eventLists, `eventWhere
      ensures Valid() && (uxSchedulerSuspended == 0 ==> Woken(t))
      ensures uxSchedulerSuspended != 0 ==> StatusOf(t) == old(StatusOf(t)).(event := Some(PendingReady))
      ensures forall u :: u != t ==> StatusOf(u) == old(StatusOf(u))
      ensures tcb[t].priority < |old(pxReadyTasksLists)|
      ensures pxReadyTasksLists ==
        if uxSchedulerSuspended == 0 then Readied(old(pxReadyTasksLists), Suspended, t, tcb[t].priority)
        else old(pxReadyTasksLists)
      ensures eventLists.Keys == old(eventLists.Keys)
      ensures forall e :: e in eventLists ==> Unlinked(old(eventLists)[e], eventLists[e], t)
      ensures forall e :: old(InPriorityOrder(e)) ==> InPriorityOrder(e)
    {
      hide Core, Unlinked, InPriorityOrder;
      TaskIsListed(t);
      RemoveEventItem(t, {});
      if uxSchedulerSuspended == 0 {
        MakeReady(t);
      } else {
        Pend(t);
      }
    }

    /** xTaskRemoveFromEventList: the first task of the event list is readied, now or when the scheduler is resumed. */
    method RemoveFromEventList(e: nat) returns (higherPriorityWoken: bool)
      requires Valid() && e in eventLists && eventLists[e] != []
      modifies `pxReadyTasksLists, `uxTopReadyPriority, `pxDelayedTaskList, `pxOverflowDelayedTaskList
      modifies `xSuspendedTaskList, `xTasksWaitingTermination, `where, `due
      modifies `xPendingReadyList, `eventLists, `eventWhere, `xYieldPending
      ensures Valid()
      ensures var t := old(eventLists)[e][0];
        && t in tcb && pxCurrentTCB in tcb
        && (uxSchedulerSuspended == 0 ==> Woken(t))
        && (uxSchedulerSuspended != 0 ==> StatusOf(t) == old(StatusOf(t)).(event := Some(PendingReady)))
        && (forall u :: u != t ==> StatusOf(u) == old(StatusOf(u)))
        && (higherPriorityWoken <==> tcb[t].priority > tcb[pxCurrentTCB].priority)
      ensures xYieldPending == (old(xYieldPending) || higherPriorityWoken)
      ensures tcb[old(eventLists)[e][0]].priority < |old(pxReadyTasksLists)|
      ensures pxReadyTasksLists ==
        if uxSchedulerSuspended != 0 then old(pxReadyTasksLists)
        else Readied(old(pxReadyTasksLists), Suspended, old(eventLists)[e][0], tcb[old(eventLists)[e][0]].priority)
      ensures eventLists == old(eventLists)[e := old(eventLists)[e][1..]]
      ensures forall f :: old(InPriorityOrder(f)) ==> InPriorityOrder(f)
    {
      hide Core, StatusOf, Unlinked, InPriorityOrder, Readied;
      CurrentIsTask();
      EventHead(e);
      var t := eventLists[e][0];
      Awaken(t);
      higherPriorityWoken := tcb[t].priority > tcb[pxCurrentTCB].priority;
      if higherPriorityWoken {
        xYieldPending := true;
      }
    }

    /** vTaskSuspend: whatever the task was doing or waiting for, it is suspended. */
    method Suspend(t: Id)
      requires Valid() && t in tcb
      modifies `pxReadyTasksLists, `pxDelayedTaskList, `pxOverflowDelayedTaskList, `xNextTaskUnblockTime
      modifies `xSuspendedTaskList, `xTasksWaitingTermination, `where, `due
      modifies `xPendingReadyList, `eventLists, `eventWhere
      ensures Valid() && StatusOf(t) == Status(Some(Suspended), None, None) && NextUnblockExact()
      ensures forall u :: u != t ==> StatusOf(u) == old(StatusOf(u))
      ensures forall e :: old(InPriorityOrder(e)) ==> InPriorityOrder(e)
    {
      hide Core, Unready, NextUnblockExact, InPriorityOrder;
      RemoveStateItem(t);
      RemoveEventItem(t, {t});
      Park(t, Suspended);
      CoreReset();
    }

    /**
     prvTaskIsTaskSuspended: on the suspended list, not readied meanwhile by an interrupt, and waiting for no event. A
     task that waits for an event without a block time is on the suspended list too.
     */
    method IsTaskSuspended(t: Id) returns (r: bool)
      requires Core({}) && t in tcb
      ensures r <==>
        && t in xSuspendedTaskList && t !in xPendingReadyList
        && forall e :: e in eventLists ==> t !in eventLists[e]
      ensures r <==> StatusOf(t) == Status(Some(Suspended), None, None)
    {
      hide Core;
      TaskIsListed(t);
      ListsOf(t);
      r := where[t].Suspended? && t !in eventWhere;
    }

    lemma ListsOf(t: Id)
      requires Core({}) && t in tcb
      ensures t in xSuspendedTaskList <==> t in where && where[t].Suspended?
      ensures t in eventWhere <==> t in xPendingReadyList || exists e :: e in eventLists && t in eventLists[e]
    {
      hide ReadyLists, Fitting, Linked, Bounded, Population;
      if t in eventWhere && eventWhere[t].Event? {
        assert OnList(eventLists[eventWhere[t].list], eventWhere, eventWhere[t]);
      }
    }

    /** vTaskResume: a suspended task is made ready, one that waits for an event without a block time is not. */
    method Resume(t: Id)
      requires Valid() && t in tcb
      modifies `pxReadyTasksLists, `uxTopReadyPriority, `pxDelayedTaskList, `pxOverflowDelayedTaskList
      modifies `xSuspendedTaskList, `xTasksWaitingTermination, `where, `due
      ensures Valid()
      ensures |old(pxReadyTasksLists)| == MAX_PRIORITIES && tcb[t].priority < MAX_PRIORITIES
      ensures if t != pxCurrentTCB && old(StatusOf(t)) == Status(Some(Suspended), None, None)
              then Woken(t) && pxReadyTasksLists == Readied(old(pxReadyTasksLists), Suspended, t, tcb[t].priority)
              else StatusOf(t) == old(StatusOf(t)) && pxReadyTasksLists == old(pxReadyTasksLists)
      ensures forall u :: u != t ==> StatusOf(u) == old(StatusOf(u))
    {
      hide Core, Unready;
      TaskIsListed(t);
      if t != pxCurrentTCB {
        var suspended := IsTaskSuspended(t);
        if suspended {
          MakeReady(t);
        }
      }
    }

    lemma TaskIsListed(t: Id)
      requires Core({}) && t in tcb
      ensures t in where && (t in due <==> where[t].Timed?)
      ensures |pxReadyTasksLists| == MAX_PRIORITIES && tcb[t].priority < |pxReadyTasksLists|
    {
      hide ReadyLists, Fitting, Holds, Bounded, OnList, Evented, Accounted;
    }

    /** xTaskResumeFromISR: the same from an interrupt, which may find the scheduler suspended. */
    method ResumeFromISR(t: Id) returns (xYieldRequired: bool)
      requires Valid() && t in tcb
      modifies `pxReadyTasksLists, `uxTopReadyPriority, `pxDelayedTaskList, `pxOverflowDelayedTaskList
      modifies `xSuspendedTaskList, `xTasksWaitingTermination, `where, `due, `xPendingReadyList, `eventWhere
      ensures Valid()
      ensures old(StatusOf(t)) != Status(Some(Suspended), None, None) ==>
        StatusOf(t) == old(StatusOf(t)) && !xYieldRequired && pxReadyTasksLists == old(pxReadyTasksLists)
      ensures |old(pxReadyTasksLists)| == MAX_PRIORITIES && tcb[t].priority < MAX_PRIORITIES
      ensures pxCurrentTCB in tcb && (xYieldRequired <==>
        && old(StatusOf(t)) == Status(Some(Suspended), None, None) && uxSchedulerSuspended == 0
        && tcb[t].priority >= tcb[pxCurrentTCB].priority)
      ensures old(StatusOf(t)) == Status(Some(Suspended), None, None) ==>
        if uxSchedulerSuspended == 0
        then Woken(t) && pxReadyTasksLists == Readied(old(pxReadyTasksLists), Suspended, t, tcb[t].priority)
        else
          && xPendingReadyList == old(xPendingReadyList) + [t] && pxReadyTasksLists == old(pxReadyTasksLists)
          && StatusOf(t) == Status(Some(Suspended), Some(PendingReady), None)
      ensures forall u :: u != t ==> StatusOf(u) == old(StatusOf(u))
    {
      hide Core, Unready;
      CurrentIsTask();
      TaskIsListed(t);
      xYieldRequired := false;
      var suspended := IsTaskSuspended(t);
      if suspended {
        if uxSchedulerSuspended == 0 {
          xYieldRequired := tcb[t].priority >= tcb[pxCurrentTCB].priority;
          MakeReady(t);
        } else {
          Pend(t);
        }
      }
    }

    /**
     prvAddNewTaskToReadyList for all but the first task. Before the scheduler runs, the last of the tasks of the
     highest priority is chosen to run first; from then on a task of higher priority than the running one makes it
     yield.
     */
    method AddNewTask(t: Id, uxPriority: nat) returns (xYieldRequired: bool)
      requires Valid() && t !in tcb && t !in eventWhere && uxPriority < MAX_PRIORITIES
      modifies `tcb, `uxCurrentNumberOfTasks, `pxReadyTasksLists, `uxTopReadyPriority, `where, `pxCurrentTCB, `rebased
      ensures Valid() && tcb == old(tcb)[t := Tcb(uxPriority, uxPriority, 0, MAX_PRIORITIES - uxPriority)] && Woken(t)
      ensures forall u :: u != t ==> StatusOf(u) == old(StatusOf(u))
      ensures uxCurrentNumberOfTasks == old(uxCurrentNumberOfTasks) + 1 && rebased == old(rebased) - {t}
      ensures |old(pxReadyTasksLists)| == MAX_PRIORITIES
      ensures pxReadyTasksLists == Readied(old(pxReadyTasksLists), Suspended, t, uxPriority)
      ensures old(pxCurrentTCB in tcb)
      ensures pxCurrentTCB == if !xSchedulerRunning && old(tcb[pxCurrentTCB].priority) <= uxPriority then t
                              else old(pxCurrentTCB)
      ensures xYieldRequired <==> xSchedulerRunning && old(tcb[pxCurrentTCB].priority) < uxPriority
    {
      hide Core;
      CurrentIsTask();
      Enter(t, Tcb(uxPriority, uxPriority, 0, MAX_PRIORITIES - uxPriority));
      if !xSchedulerRunning && tcb[pxCurrentTCB].priority <= uxPriority {
        Choose(t);
      }
      AddTaskToReadyList(t);
      NotDelayed(t);
      xYieldRequired := xSchedulerRunning && tcb[pxCurrentTCB].priority < uxPriority;
    }

    /** The end of vTaskStartScheduler; no task has been delayed before. */
    method StartScheduler()
      requires Valid() && !xSchedulerRunning && Now() == 0 && due == map[]
      modifies `xSchedulerRunning, `xNextTaskUnblockTime, `xTickCount
      ensures Valid() && xSchedulerRunning && Now() == 0 && xNextTaskUnblockTime == MAX_DELAY
    {
      hide ReadyLists, Fitting, Linked, OnList, Evented, Population;
      xNextTaskUnblockTime, xSchedulerRunning, xTickCount := MAX_DELAY, true, 0;
    }

    method Choose(t: Id)
      requires Core({t}) && t in tcb
      modifies `pxCurrentTCB
      ensures Core({t}) && pxCurrentTCB == t
    {
      hide ReadyLists, Fitting, Linked, Bounded, OnList, Evented, Accounted;
      pxCurrentTCB := t;
    }

    method Enter(t: Id, x: Tcb)
      requires Core({}) && t !in tcb && x.mutexesHeld == 0 && x.priority == x.base < MAX_PRIORITIES && Fits(x, false)
      modifies `tcb, `uxCurrentNumberOfTasks, `rebased
      ensures Core({t}) && tcb == old(tcb)[t := x] && uxCurrentNumberOfTasks == old(uxCurrentNumberOfTasks) + 1
      ensures rebased == old(rebased) - {t}
    {
      hide ReadyLists, Fitting, Linked, Bounded, OnList, Evented, Population;
      PopulationNew(tcb, where, mutexes, pxCurrentTCB, uxCurrentNumberOfTasks, t, x);
      EventedIn(xPendingReadyList, eventLists, eventWhere, where, t);
      assert where - {t} == where;
      FittingChange(tcb, rebased, t, x, false);
      uxCurrentNumberOfTasks := uxCurrentNumberOfTasks + 1;
      tcb, rebased := tcb[t := x], rebased - {t};
    }

    lemma NotDelayed(t: Id)
      requires Core({})
      ensures t in due <==> t in where && where[t].Timed?
    {
      hide ReadyLists, Fitting, Holds, Bounded, OnList, Evented, Population;
    }

    /** The task, on no list any more, ceases to exist. */
    method Forget(t: Id)
      requires Core({t}) && t in tcb && t != pxCurrentTCB && tcb[t].mutexesHeld == 0 && t !in eventWhere
      modifies `tcb, `uxCurrentNumberOfTasks
      ensures Core({}) && tcb == old(tcb) - {t} && uxCurrentNumberOfTasks == old(uxCurrentNumberOfTasks) - 1
    {
      hide ReadyLists, Fitting, Linked, Bounded, OnList, Evented, Population;
      PopulationDelete(tcb, where, mutexes, pxCurrentTCB, uxCurrentNumberOfTasks, t);
      EventedForget(xPendingReadyList, eventLists, eventWhere, where, t);
      FittingFewer(tcb, rebased, t);
      uxCurrentNumberOfTasks := uxCurrentNumberOfTasks - 1;
      tcb := tcb - {t};
    }

    /**
     vTaskDelete: the running task only goes to the termination list, for the idle task to free it; another task is
     freed at once.
     */
    method Delete(t: Id)
      requires Valid() && t in tcb && (t != pxCurrentTCB ==> tcb[t].mutexesHeld == 0)
      modifies `pxReadyTasksLists, `pxDelayedTaskList, `pxOverflowDelayedTaskList, `xNextTaskUnblockTime
      modifies `xSuspendedTaskList, `xTasksWaitingTermination, `where, `due
      modifies `xPendingReadyList, `eventLists, `eventWhere, `tcb, `uxCurrentNumberOfTasks
      ensures Valid()
      ensures t == pxCurrentTCB ==> tcb == old(tcb) && StatusOf(t) == Status(Some(Termination), None, None)
      ensures t != pxCurrentTCB ==> tcb == old(tcb) - {t} && StatusOf(t) == Status(None, None, None)
      ensures t != pxCurrentTCB ==> NextUnblockExact()
      ensures forall u :: u != t ==> StatusOf(u) == old(StatusOf(u))
    {
      hide Core, Unready, NextUnblockExact;
      RemoveStateItem(t);
      RemoveEventItem(t, {t});
      if t == pxCurrentTCB {
        Park(t, Termination);
      } else {
        Forget(t);
        CoreReset();
      }
    }

    lemma TerminationHead()
      requires Core({}) && xTasksWaitingTermination != []
      ensures var t := xTasksWaitingTermination[0];
        t in tcb && t in where && where[t].Termination? && t !in due && t !in eventWhere
    {
      hide ReadyLists, Fitting, Holds, Bounded, EventLists, Accounted;
      assert xTasksWaitingTermination[0] in xTasksWaitingTermination;
    }

    /** One task freed by prvCheckTasksWaitingTermination, which the idle task runs. */
    method CleanUpOne() returns (t: Id)
      requires Valid() && xTasksWaitingTermination != [] && xTasksWaitingTermination[0] != pxCurrentTCB
      requires xTasksWaitingTermination[0] in tcb ==> tcb[xTasksWaitingTermination[0]].mutexesHeld == 0
      modifies `pxReadyTasksLists, `pxDelayedTaskList, `pxOverflowDelayedTaskList
      modifies `xSuspendedTaskList, `xTasksWaitingTermination, `where, `due, `tcb, `uxCurrentNumberOfTasks
      ensures Valid() && t == old(xTasksWaitingTermination)[0] && t !in tcb && StatusOf(t) == Status(None, None, None)
      ensures tcb == old(tcb) - {t}
      ensures uxCurrentNumberOfTasks == old(uxCurrentNumberOfTasks) - 1
      ensures forall u :: u != t ==> StatusOf(u) == old(StatusOf(u))
    {
      hide Core, Unready;
      TerminationHead();
      t := xTasksWaitingTermination[0];
      RemoveStateItem(t);
      Forget(t);
    }

    ghost predicate SomethingReady()
      reads `where
    {
      exists t :: t in where && where[t].Ready?
    }

    lemma ReadyIsListed(t: Id)
      requires Core({}) && t in where && where[t].Ready?
      ensures t in tcb && where[t].priority == tcb[t].priority <= uxTopReadyPriority < |pxReadyTasksLists|
      ensures t in pxReadyTasksLists[tcb[t].priority].nodes && t !in eventWhere && t !in due
    {
      hide Holds, Bounded, EventLists, Accounted;
    }

    /**
     vTaskSwitchContext with taskSELECT_HIGHEST_PRIORITY_TASK: the loop finds a list with a task, none of higher
     priority is ready, and the task that has waited longest on that list runs.
     */
    method SwitchContext()
      requires Valid() && SomethingReady()
      modifies `pxCurrentTCB, `pxReadyTasksLists, `uxTopReadyPriority, `xYieldPending
      ensures Valid() && xYieldPending == (uxSchedulerSuspended != 0)
      ensures uxSchedulerSuspended != 0 ==> pxCurrentTCB == old(pxCurrentTCB)
      ensures uxSchedulerSuspended == 0 ==>
        && pxCurrentTCB in tcb && Woken(pxCurrentTCB)
        && forall t :: t in where && where[t].Ready? && t in tcb ==> tcb[t].priority <= tcb[pxCurrentTCB].priority
      ensures uxSchedulerSuspended == 0 ==>
        && |pxReadyTasksLists| == |old(pxReadyTasksLists)| && uxTopReadyPriority < |pxReadyTasksLists|
        && var next := Rings.Next(old(pxReadyTasksLists)[uxTopReadyPriority]);
          && 1 <= next.index <= |next.nodes| && pxCurrentTCB == Rings.Current(next)
          && pxReadyTasksLists == old(pxReadyTasksLists)[uxTopReadyPriority := next]
    {
      hide Core;
      if uxSchedulerSuspended != 0 {
        xYieldPending := true;
      } else {
        xYieldPending := false;
        var uxTopPriority := FindTopPriority();
        Select(uxTopPriority);
      }
    }

    /** The search loop, with its assertion that the priority has not reached zero. */
    method FindTopPriority() returns (uxTopPriority: nat)
      requires Core({}) && SomethingReady()
      ensures uxTopPriority <= uxTopReadyPriority < |pxReadyTasksLists| && pxReadyTasksLists[uxTopPriority].nodes != []
      ensures forall q :: uxTopPriority < q <= uxTopReadyPriority ==> pxReadyTasksLists[q].nodes == []
    {
      hide Core;
      ghost var t :| t in where && where[t].Ready?;
      ReadyIsListed(t);
      uxTopPriority := uxTopReadyPriority;
      while pxReadyTasksLists[uxTopPriority].nodes == []
        decreases uxTopPriority
        invariant tcb[t].priority <= uxTopPriority <= uxTopReadyPriority
        invariant forall q :: uxTopPriority < q <= uxTopReadyPriority ==> pxReadyTasksLists[q].nodes == []
      {
        assert uxTopPriority != 0;
        uxTopPriority := uxTopPriority - 1;
      }
    }

    method Select(uxTopPriority: nat)
      requires Valid() && uxTopPriority <= uxTopReadyPriority < |pxReadyTasksLists|
      requires pxReadyTasksLists[uxTopPriority].nodes != []
      requires forall q :: uxTopPriority < q <= uxTopReadyPriority ==> pxReadyTasksLists[q].nodes == []
      modifies `pxCurrentTCB, `pxReadyTasksLists, `uxTopReadyPriority
      ensures Valid() && Woken(pxCurrentTCB) && tcb[pxCurrentTCB].priority == uxTopReadyPriority == uxTopPriority
      ensures forall t :: t in where && where[t].Ready? && t in tcb ==> tcb[t].priority <= uxTopPriority
      ensures var next := Rings.Next(old(pxReadyTasksLists)[uxTopPriority]);
        && 1 <= next.index <= |next.nodes| && pxCurrentTCB == Rings.Current(next)
        && pxReadyTasksLists == old(pxReadyTasksLists)[uxTopPriority := next]
    {
      hide Linked, Bounded, OnList, Evented, Population, ReadyLists, Fitting;
      ReadyTop(pxReadyTasksLists, where, uxTopReadyPriority, uxTopPriority);
      ReadyNext(pxReadyTasksLists, where, uxTopPriority, uxTopPriority);
      var next := Rings.Next(pxReadyTasksLists[uxTopPriority]);
      ReadyIsListed(Rings.Current(next));
      PopulationSelect(tcb, where, mutexes, pxCurrentTCB, uxCurrentNumberOfTasks, {}, Rings.Current(next));
      pxCurrentTCB := Rings.Current(next);
      pxReadyTasksLists := pxReadyTasksLists[uxTopPriority := next];
      uxTopReadyPriority := uxTopPriority;
      forall t | t in where && where[t].Ready? && t in tcb ensures tcb[t].priority <= uxTopPriority {
        ReadyIsListed(t);
      }
    }

    // Priorities and mutexes

    /** New scheduling fields for a task that is on no ready list or keeps its priority. */
    method SetFields(t: Id, x: Tcb, newMutexes: map<nat, Mutex>, ghost limbo: set<Id>, ghost mark: bool)
      requires Core(limbo) && t in tcb && x.priority < MAX_PRIORITIES && x.base < MAX_PRIORITIES
      requires t in where && where[t].Ready? ==> x.priority == tcb[t].priority
      requires Accounted(tcb[t := x], newMutexes) && Fits(x, mark)
      modifies `tcb, `mutexes, `rebased
      ensures Core(limbo) && tcb == old(tcb)[t := x] && mutexes == newMutexes
      ensures rebased == Marked(old(rebased), t, mark)
    {
      hide ReadyLists, Fitting, Linked, Bounded, OnList, Evented, Population, Accounted;
      PopulationChange(tcb, where, mutexes, newMutexes, pxCurrentTCB, uxCurrentNumberOfTasks, limbo, t, x);
      FittingChange(tcb, rebased, t, x, mark);
      tcb, mutexes, rebased := tcb[t := x], newMutexes, Marked(rebased, t, mark);
    }

    lemma AccountsHold()
      requires Core({})
      ensures Accounted(tcb, mutexes)
      ensures forall t :: t in tcb ==> tcb[t].priority < MAX_PRIORITIES && tcb[t].base < MAX_PRIORITIES
    {
      hide ReadyLists, Fitting, Linked, Bounded, OnList, Evented, Accounted;
    }

    /** A task gets new scheduling fields; if it is ready it moves to the end of the list of its new priority. */
    method ChangePriority(t: Id, x: Tcb, newMutexes: map<nat, Mutex>, ghost mark: bool)
      requires Core({}) && t in tcb && x.priority < MAX_PRIORITIES && x.base < MAX_PRIORITIES
      requires Accounted(tcb[t := x], newMutexes) && Fits(x, mark)
      modifies `pxReadyTasksLists, `uxTopReadyPriority, `pxDelayedTaskList, `pxOverflowDelayedTaskList
      modifies `xSuspendedTaskList, `xTasksWaitingTermination, `where, `due, `tcb, `mutexes, `rebased
      ensures Core({}) && tcb == old(tcb)[t := x] && mutexes == newMutexes && due == old(due)
      ensures rebased == Marked(old(rebased), t, mark)
      ensures t in old(where) && x.priority < |old(pxReadyTasksLists)|
      ensures pxReadyTasksLists ==
        if old(where)[t].Ready? then Readied(old(pxReadyTasksLists), old(where)[t], t, x.priority)
        else old(pxReadyTasksLists)
      ensures StatusOf(t) == if old(StatusOf(t)).place.Some? && old(StatusOf(t)).place.value.Ready?
                             then Status(Some(Ready(x.priority)), None, None) else old(StatusOf(t))
      ensures forall u :: u != t ==> StatusOf(u) == old(StatusOf(u))
    {
      hide Core, Accounted, Unready;
      TaskIsListed(t);
      if where[t].Ready? {
        ReadyIsListed(t);
        RemoveStateItem(t);
        SetFields(t, x, newMutexes, {t}, mark);
        AddTaskToReadyList(t);
      } else {
        SetFields(t, x, newMutexes, {}, mark);
      }
    }

    /** vTaskPrioritySet: the base priority is set, the priority in use only when it is not an inherited one. */
    method PrioritySet(t: Id, uxNewPriority: nat) returns (xYieldRequired: bool)
      requires Valid() && t in tcb && uxNewPriority < MAX_PRIORITIES
      modifies `pxReadyTasksLists, `uxTopReadyPriority, `pxDelayedTaskList, `pxOverflowDelayedTaskList
      modifies `xSuspendedTaskList, `xTasksWaitingTermination, `where, `due, `tcb, `mutexes, `rebased
      ensures Valid() && mutexes == old(mutexes) && due == old(due)
      ensures old(tcb)[t].base == uxNewPriority ==> tcb == old(tcb)
      ensures old(tcb)[t].base != uxNewPriority ==> tcb == old(tcb)[t := old(tcb)[t].(
          base := uxNewPriority,
          priority := if old(tcb)[t].base == old(tcb)[t].priority then uxNewPriority else old(tcb)[t].priority,
          eventValue := ValueFor(old(tcb)[t], uxNewPriority))]
      ensures old(tcb)[t].base != uxNewPriority && old(tcb)[t].eventValue < VALUE_IN_USE ==>
        && tcb[t].eventValue + uxNewPriority == MAX_PRIORITIES
        && (tcb[t].eventValue + tcb[t].priority == MAX_PRIORITIES <==>
            old(tcb)[t].base == old(tcb)[t].priority || old(tcb)[t].priority == uxNewPriority)
      ensures old(tcb)[t].eventValue >= VALUE_IN_USE ==> tcb[t].eventValue == old(tcb)[t].eventValue
      ensures |old(pxReadyTasksLists)| == MAX_PRIORITIES && tcb[t].priority < MAX_PRIORITIES && t in old(where)
      ensures pxReadyTasksLists ==
        if old(tcb)[t].base == uxNewPriority || !old(where)[t].Ready? then old(pxReadyTasksLists)
        else Readied(old(pxReadyTasksLists), old(where)[t], t, tcb[t].priority)
      ensures rebased ==
        if old(tcb)[t].base == uxNewPriority then old(rebased)
        else if old(tcb)[t].base == old(tcb)[t].priority || old(tcb)[t].priority == uxNewPriority
          then old(rebased) - {t}
        else old(rebased) + {t}
      ensures StatusOf(t) == if old(StatusOf(t)).place.Some? && old(StatusOf(t)).place.value.Ready?
                             then Status(Some(Ready(tcb[t].priority)), None, None) else old(StatusOf(t))
      ensures forall u :: u != t ==> StatusOf(u) == old(StatusOf(u))
      ensures pxCurrentTCB in tcb
      ensures tcb[t].priority > old(tcb)[t].priority && tcb[t].priority > tcb[pxCurrentTCB].priority ==> xYieldRequired
      ensures t == pxCurrentTCB && tcb[t].priority < old(tcb)[t].priority ==> xYieldRequired
      ensures t == pxCurrentTCB ==> (xYieldRequired <==> uxNewPriority < old(tcb)[t].base)
      ensures t != pxCurrentTCB ==>
        && pxCurrentTCB in tcb
        && (xYieldRequired <==> old(tcb)[t].base < uxNewPriority && tcb[pxCurrentTCB].priority <= uxNewPriority)
    {
      hide Core, Accounted, Readied;
      CurrentIsTask();
      AccountsHold();
      TaskIsListed(t);
      xYieldRequired := false;
      var uxCurrentBasePriority := tcb[t].base;
      if uxCurrentBasePriority != uxNewPriority {
        if uxNewPriority > uxCurrentBasePriority {
          if t != pxCurrentTCB && uxNewPriority >= tcb[pxCurrentTCB].priority {
            xYieldRequired := true;
          }
        } else if t == pxCurrentTCB {
          xYieldRequired := true;
        }
        var x := tcb[t].(base := uxNewPriority, eventValue := ValueFor(tcb[t], uxNewPriority));
        if tcb[t].base == tcb[t].priority {
          x := x.(priority := uxNewPriority);
        }
        if tcb[t].mutexesHeld == 0 {
          BasePriority(tcb, mutexes, t);
        }
        AccountedChange(tcb, mutexes, t, x);
        ChangePriority(t, x, mutexes, x.priority != uxNewPriority);
      } else if where[t].Ready? {
        ReadyIsListed(t);
      }
    }

    /** vTaskPriorityInherit for the holder of a mutex that the running task is about to wait for. */
    method PriorityInherit(m: nat)
      requires Valid() && m in mutexes
      modifies `pxReadyTasksLists, `uxTopReadyPriority, `pxDelayedTaskList, `pxOverflowDelayedTaskList
      modifies `xSuspendedTaskList, `xTasksWaitingTermination, `where, `due, `tcb, `mutexes, `rebased
      ensures Valid() && mutexes == old(mutexes) && due == old(due)
      ensures Inherits(old(tcb), tcb, old(mutexes), m, pxCurrentTCB) && rebased <= old(rebased)
      ensures forall u ::
        u in tcb && u in old(tcb) && pxCurrentTCB in tcb && old(Lookup(mutexes, m)) == Some(Mutex(0, Some(u)))
        && old(tcb)[u].priority < tcb[pxCurrentTCB].priority ==>
          && tcb[u].priority == tcb[pxCurrentTCB].priority && tcb[u].base == old(tcb)[u].base
          && (if old(tcb)[u].eventValue < VALUE_IN_USE then tcb[u].eventValue + tcb[u].priority == MAX_PRIORITIES
              else tcb[u].eventValue == old(tcb)[u].eventValue)
      ensures forall u :: old(Lookup(mutexes, m)) != Some(Mutex(0, Some(u))) ==> StatusOf(u) == old(StatusOf(u))
      ensures forall u :: StatusOf(u) == old(StatusOf(u)) || Woken(u)
    {
      hide Core, Accounted, Unready;
      CurrentIsTask();
      AccountsHold();
      HolderIsTask(tcb, mutexes, m);
      if mutexes[m].holder.Some? {
        var t := mutexes[m].holder.value;
        var p := tcb[pxCurrentTCB].priority;
        if tcb[t].priority < p {
          var x := Inherited(tcb[t], p);
          AccountedChange(tcb, mutexes, t, x);
          ChangePriority(t, x, mutexes, false);
        }
      }
    }

    /** xQueueGenericReceive on a mutex that is available: the running task becomes its holder. */
    method MutexTake(m: nat) returns (taken: bool)
      requires Valid() && m in mutexes
      modifies `tcb, `mutexes, `rebased
      ensures Valid() && rebased == old(rebased) && pxCurrentTCB in old(tcb)
      ensures taken <==> old(mutexes)[m].holder == None
      ensures !taken ==> tcb == old(tcb) && mutexes == old(mutexes)
      ensures taken ==> mutexes == old(mutexes)[m := Mutex(0, Some(pxCurrentTCB))]
      ensures taken ==> tcb == old(tcb)[pxCurrentTCB := old(tcb)[pxCurrentTCB].(
          mutexesHeld := old(tcb)[pxCurrentTCB].mutexesHeld + 1)]
    {
      hide Core, Accounted;
      CurrentIsTask();
      AccountsHold();
      HolderIsTask(tcb, mutexes, m);
      taken := mutexes[m].available > 0;
      if taken {
        var t := pxCurrentTCB;
        ListedAtPriority(t);
        AccountedTake(tcb, mutexes, m, t);
        FitsAlready(t);
        SetFields(t, tcb[t].(mutexesHeld := tcb[t].mutexesHeld + 1), mutexes[m := Mutex(0, Some(t))], {}, t in rebased);
      }
    }

    lemma FitsAlready(t: Id)
      requires Core({}) && t in tcb
      ensures Fits(tcb[t], t in rebased)
    {
      hide ReadyLists, Linked, Bounded, OnList, Evented, Population;
    }

    lemma ListedAtPriority(t: Id)
      requires Core({}) && t in tcb
      ensures t in where && where[t].Ready? ==> tcb[t].priority == where[t].priority
    {
      hide ReadyLists, Fitting, Linked, Bounded, OnList, Evented, Accounted;
    }

    /**
     prvCopyDataToQueue on a mutex with xTaskPriorityDisinherit: the holder, which must be the running task, gives it
     back; giving back its last mutex ends an inherited priority.
     */
    method MutexGive(m: nat) returns (given: bool, xYieldRequired: bool)
      requires Valid() && m in mutexes && Woken(pxCurrentTCB)
      requires mutexes[m].holder.Some? ==> mutexes[m].holder.value == pxCurrentTCB
      modifies `pxReadyTasksLists, `uxTopReadyPriority, `pxDelayedTaskList, `pxOverflowDelayedTaskList
      modifies `xSuspendedTaskList, `xTasksWaitingTermination, `where, `due, `tcb, `mutexes, `rebased
      ensures Valid() && Woken(pxCurrentTCB) && due == old(due) && (given <==> old(mutexes)[m].holder.Some?)
      ensures !given ==> tcb == old(tcb) && mutexes == old(mutexes) && !xYieldRequired
      ensures given ==> Gives(old(tcb), tcb, old(mutexes), mutexes, m, pxCurrentTCB, xYieldRequired)
      ensures pxCurrentTCB in old(where) && tcb[pxCurrentTCB].priority < |old(pxReadyTasksLists)|
      ensures pxReadyTasksLists ==
        if !xYieldRequired then old(pxReadyTasksLists)
        else Readied(old(pxReadyTasksLists), old(where)[pxCurrentTCB], pxCurrentTCB, tcb[pxCurrentTCB].priority)
      ensures rebased == if xYieldRequired then old(rebased) - {pxCurrentTCB} else old(rebased)
      ensures forall u :: u != pxCurrentTCB ==> StatusOf(u) == old(StatusOf(u))
    {
      hide Core, Accounted, Readied;
      AccountsHold();
      CurrentIsTask();
      HolderIsTask(tcb, mutexes, m);
      xYieldRequired := false;
      given := mutexes[m].available < 1;
      if given {
        var t := pxCurrentTCB;
        var x := tcb[t].(mutexesHeld := tcb[t].mutexesHeld - 1);
        FitsAlready(t);
        xYieldRequired := x.priority != x.base && x.mutexesHeld == 0;
        if xYieldRequired {
          x := x.(priority := x.base, eventValue := MAX_PRIORITIES - x.base);
          AccountedGive(tcb, mutexes, m, t, x);
          ChangePriority(t, x, mutexes[m := Mutex(1, None)], false);
        } else {
          AccountedGive(tcb, mutexes, m, t, x);
          SetFields(t, x, mutexes[m := Mutex(1, None)], {}, t in rebased);
        }
      }
    }

    /** xQueueGenericReceive waiting for a mutex: its holder runs at no lower priority than the task that waits. */
    method MutexBlock(m: nat, e: nat, xTicksToWait: Tick)
      requires Valid() && m in mutexes && e in eventLists && Woken(pxCurrentTCB)
      requires 0 < xTicksToWait || xTickCount < MAX_DELAY
      modifies `pxReadyTasksLists, `uxTopReadyPriority, `pxDelayedTaskList, `pxOverflowDelayedTaskList, `eventLists
      modifies `xSuspendedTaskList, `xTasksWaitingTermination, `where, `due, `tcb, `mutexes, `eventWhere, `rebased
      modifies `xNextTaskUnblockTime
      ensures Valid() && mutexes == old(mutexes) && pxCurrentTCB in tcb
      ensures mutexes[m].holder.Some? ==>
        && mutexes[m].holder.value in tcb
        && tcb[mutexes[m].holder.value].priority >= tcb[pxCurrentTCB].priority
      ensures StatusOf(pxCurrentTCB) ==
        if xTicksToWait == MAX_DELAY then Status(Some(Suspended), Some(Event(e)), None)
        else Status(Some(Timed), Some(Event(e)), Some(Now() + xTicksToWait))
      ensures forall u :: u != pxCurrentTCB && mutexes[m].holder != Some(u) ==> StatusOf(u) == old(StatusOf(u))
      ensures tcb.Keys == old(tcb.Keys)
      ensures forall u :: u in tcb && mutexes[m].holder != Some(u) ==> tcb[u] == old(tcb)[u]
    {
      hide Core, Accounted, InPriorityOrder;
      PriorityInherit(m);
      PlaceOnEventList(e, xTicksToWait);
    }

    // Delaying

    /** Tick interrupts that come while the scheduler is suspended. */
    method TicksWhileSuspended(ticks: nat)
      requires Valid() && uxSchedulerSuspended != 0
      modifies `pxReadyTasksLists, `uxTopReadyPriority, `pxDelayedTaskList, `pxOverflowDelayedTaskList
      modifies `xSuspendedTaskList, `xTasksWaitingTermination, `where, `due
      modifies `xPendingReadyList, `eventLists, `eventWhere, `xNextTaskUnblockTime
      modifies `xTickCount, `base, `uxPendedTicks
      ensures Valid() && Now() == old(Now()) && due == old(due) && where == old(where)
      ensures uxPendedTicks == old(uxPendedTicks) + ticks
      ensures xPendingReadyList == old(xPendingReadyList)
      ensures forall t :: t !in old(due) ==> StatusOf(t) == old(StatusOf(t))
      ensures forall t :: StepFor(old(Clock()), Clock(), t)
    {
      hide Core, Pending, StepFor;
      for i := 0 to ticks
        invariant Valid() && Now() == old(Now()) && due == old(due) && where == old(where)
        invariant uxPendedTicks == old(uxPendedTicks) + i
        invariant xPendingReadyList == old(xPendingReadyList)
        invariant forall t :: t !in old(due) ==> StatusOf(t) == old(StatusOf(t))
      {
        var switchRequired := IncrementTick();
      }
      forall t ensures StepFor(old(Clock()), Clock(), t) {
        TimePassed(t);
      }
    }

    /** The rest of a delay: tick interrupts, and xTaskResumeAll, which makes up for them. */
    method FinishDelay(t: Id, ticks: nat)
      requires Valid() && uxSchedulerSuspended == 1 && uxPendedTicks == 0 && xPendingReadyList == []
      modifies this
      ensures Valid() && uxSchedulerSuspended == 0 && uxPendedTicks == 0 && pxCurrentTCB == old(pxCurrentTCB)
      ensures Now() == old(Now()) + ticks
      ensures t in old(due) && Now() < old(due)[t] ==> t in due && due[t] == old(due)[t]
      ensures t in old(due) && ticks != 0 && old(due)[t] <= Now() ==> Woken(t)
      ensures t !in old(due) && old(Woken(t)) ==> Woken(t)
      ensures forall u :: StepFor(old(Clock()), Clock(), u)
    {
      hide Core, Pending, StepFor;
      ghost var before := Clock();
      TicksWhileSuspended(ticks);
      ghost var counted := Clock();
      var xAlreadyYielded := ResumeAll();
      forall u ensures StepFor(before, Clock(), u) {
        StepsOn(before, counted, Clock(), u);
      }
    }

    /** vTaskDelay, with the tick interrupts that come before it resumes the scheduler: no tick of the wait is lost. */
    method TaskDelay(xTicksToDelay: Tick, ticks: nat)
      requires Valid() && uxSchedulerSuspended == 0 && uxPendedTicks == 0 && Woken(pxCurrentTCB)
      modifies this
      ensures Valid() && uxSchedulerSuspended == 0 && uxPendedTicks == 0 && pxCurrentTCB == old(pxCurrentTCB)
      ensures xTicksToDelay == 0 ==> Now() == old(Now()) && due == old(due) && where == old(where)
      ensures xTicksToDelay != 0 ==> Now() == old(Now()) + ticks
      ensures xTicksToDelay != 0 ==>
        if ticks < xTicksToDelay then pxCurrentTCB in due && due[pxCurrentTCB] == old(Now()) + xTicksToDelay
        else Woken(pxCurrentTCB)
      ensures forall u :: u != pxCurrentTCB ==> StepFor(old(Clock()), Clock(), u)
    {
      hide Core, Pending, StepFor, Clock;
      ghost var start := Clock();
      if xTicksToDelay > 0 {
        SuspendAll();
        AddCurrentTaskToDelayedList(xTicksToDelay, false);
        OthersUntouched();
        ghost var begun := Clock();
        FinishDelay(pxCurrentTCB, ticks);
        forall u | u != pxCurrentTCB ensures StepFor(old(Clock()), Clock(), u) {
          StepsOn(start, begun, Clock(), u);
        }
      } else {
        NoStep(Clock());
      }
    }

    twostate lemma OthersUntouched()
      requires Now() == old(Now()) && tcb == old(tcb) && pxCurrentTCB == old(pxCurrentTCB)
      requires forall u :: u != pxCurrentTCB ==> StatusOf(u) == old(StatusOf(u))
      ensures forall u :: u != pxCurrentTCB ==> StepFor(old(Clock()), Clock(), u)
    {
      hide StepFor, Clock;
      forall u | u != pxCurrentTCB ensures StepFor(old(Clock()), Clock(), u) {
        Untouched(u);
      }
    }

    /** The part of vTaskDelayUntil that runs with the scheduler suspended. */
    method StartDelayUntil(previousWake: Tick, increment: Tick, ghost previous: nat) returns (newPreviousWake: Tick)
      requires Valid() && Woken(pxCurrentTCB) && increment > 0
      requires previous <= Now() < previous + WRAP && previousWake == Low(previous)
      modifies `pxReadyTasksLists, `pxDelayedTaskList, `pxOverflowDelayedTaskList
      modifies `xSuspendedTaskList, `xTasksWaitingTermination, `where, `due, `xNextTaskUnblockTime
      ensures Valid() && newPreviousWake == Low(previous + increment)
      ensures StatusOf(pxCurrentTCB) ==
        if Now() < previous + increment then Status(Some(Timed), None, Some(previous + increment))
        else old(StatusOf(pxCurrentTCB))
      ensures forall u :: u != pxCurrentTCB ==> StatusOf(u) == old(StatusOf(u))
    {
      hide Core, Pending, ShouldDelay, Minus, Plus, Low;
      CountShowsNow();
      DelayUntilTicks(previous, Now(), increment);
      newPreviousWake := Plus(previousWake, increment);
      if ShouldDelay(previousWake, increment, xTickCount) {
        AddCurrentTaskToDelayedList(Minus(newPreviousWake, xTickCount), false);
      }
    }

    /**
     vTaskDelayUntil: a task whose last wake time is less than a wrap ago waits until exactly one period later, or
     goes on at once if that time has passed, and its wake time advances by the period in either case.
     */
    method TaskDelayUntil(previousWake: Tick, increment: Tick, ghost previous: nat, ticks: nat)
      returns (newPreviousWake: Tick)
      requires Valid() && uxSchedulerSuspended == 0 && uxPendedTicks == 0 && Woken(pxCurrentTCB) && increment > 0
      requires previous <= Now() < previous + WRAP && previousWake == Low(previous)
      modifies this
      ensures Valid() && uxSchedulerSuspended == 0 && uxPendedTicks == 0 && pxCurrentTCB == old(pxCurrentTCB)
      ensures Now() == old(Now()) + ticks && newPreviousWake == Low(previous + increment)
      ensures if Now() < previous + increment
              then pxCurrentTCB in due && due[pxCurrentTCB] == previous + increment
              else Woken(pxCurrentTCB)
      ensures forall u :: u != pxCurrentTCB ==> StepFor(old(Clock()), Clock(), u)
    {
      hide Core, Pending, StepFor, Clock;
      ghost var start := Clock();
      SuspendAll();
      newPreviousWake := StartDelayUntil(previousWake, increment, previous);
      OthersUntouched();
      ghost var begun := Clock();
      FinishDelay(pxCurrentTCB, ticks);
      forall u | u != pxCurrentTCB ensures StepFor(old(Clock()), Clock(), u) {
        StepsOn(start, begun, Clock(), u);
      }
    }

    /**
     The state list item of a task is on exactly one list, a ready one only on that of its priority; its event list
     item is on at most one list, and on one only while the task is blocked or suspended.
     */
    lemma OnOneList(t: Id)
      requires Core({}) && t in tcb
      ensures Bit(t in Members(pxReadyTasksLists[tcb[t].priority].nodes)) + Bit(t in Owners(pxDelayedTaskList))
              + Bit(t in Owners(pxOverflowDelayedTaskList)) + Bit(t in Members(xSuspendedTaskList))
              + Bit(t in Members(xTasksWaitingTermination)) == 1
      ensures forall p :: 0 <= p < |pxReadyTasksLists| && t in pxReadyTasksLists[p].nodes ==> p == tcb[t].priority
      ensures forall e, f :: e in eventLists && f in eventLists && t in eventLists[e] && t in eventLists[f] ==> e == f
      ensures forall e :: e in eventLists && t in eventLists[e] ==>
        t !in xPendingReadyList && !where[t].Ready? && !where[t].Termination?
    {
      hide Bounded;
      TaskIsListed(t);
    }

    /** Each task has its state list item on exactly one list, and uxCurrentNumberOfTasks counts those items. */
    lemma TaskCount()
      requires Core({})
      ensures forall t :: t in where <==> t in tcb
      ensures uxCurrentNumberOfTasks == Total(pxReadyTasksLists) + |pxDelayedTaskList| + |pxOverflowDelayedTaskList|
                                        + |xSuspendedTaskList| + |xTasksWaitingTermination|
    {
      hide ReadyLists, Fitting, Linked, Bounded, OnList, Evented, Accounted;
      ListsPartitionTasks(pxReadyTasksLists, pxDelayedTaskList, pxOverflowDelayedTaskList, xSuspendedTaskList,
                          xTasksWaitingTermination, where, due, base, uxTopReadyPriority);
      assert where.Keys == tcb.Keys;
      assert |where.Keys| == |where| && |tcb.Keys| == |tcb|;
    }

    lemma CountShowsNow()
      requires Core({})
      ensures Low(Now()) == xTickCount
    {
      hide ReadyLists, Fitting, Holds, Bounded, OnList, Evented, Population;
    }
  }
}
