/**
 The state of the scheduler of tasks.c as values: what holds of it between list operations, and how each operation
 on a task keeps it.
 */
module KernelState {
  import opened Ticks
  import opened Lists
  import opened Options
  import Rings
  import opened TaskLists
  import opened WakeList
  import opened Delays

  /** configMAX_PRIORITIES */
  const MAX_PRIORITIES: nat := 7

  /** taskEVENT_LIST_ITEM_VALUE_IN_USE */
  const VALUE_IN_USE: nat := 0x8000_0000

  /** The scheduling fields of a task control block; `eventValue` is the value of its xEventListItem. */
  datatype Tcb = Tcb(priority: nat, base: nat, mutexesHeld: nat, eventValue: Tick)

  /** xQUEUE as a mutex: uxMessagesWaiting and pxMutexHolder. */
  datatype Mutex = Mutex(available: nat, holder: Option<Id>)

  /** The lists a task is on, and when its block time ends. */
  datatype Status = Status(place: Option<Place>, event: Option<EventPlace>, wake: Option<nat>)

  ghost function Lookup<T>(m: map<nat, T>, t: nat): Option<T> {
    if t in m then Some(m[t]) else None
  }

  ghost function Holdings(mutexes: map<nat, Mutex>, t: Id): set<nat> {
    set m | m in mutexes && mutexes[m].holder == Some(t)
  }

  /** Each task's count is that of the mutexes it holds, and a task with none runs at its own priority. */
  ghost predicate Accounted(tcb: map<Id, Tcb>, mutexes: map<nat, Mutex>) {
    && (forall m :: m in mutexes ==> mutexes[m].available == if mutexes[m].holder == None then 1 else 0)
    && (forall m :: m in mutexes && mutexes[m].holder.Some? ==> mutexes[m].holder.value in tcb)
    && (forall t :: t in tcb ==> tcb[t].mutexesHeld == |Holdings(mutexes, t)|)
    && (forall t :: t in tcb && tcb[t].mutexesHeld == 0 ==> tcb[t].priority == tcb[t].base)
  }

  /**
   The value of a task's xEventListItem, unless it is in use, is less for a higher priority: that of the task, or its
   own one if that was set while the task ran at an inherited priority.
   */
  ghost predicate Fits(x: Tcb, rebased: bool) {
    x.eventValue < VALUE_IN_USE ==>
      x.eventValue + x.priority == MAX_PRIORITIES || (rebased && x.eventValue + x.base == MAX_PRIORITIES)
  }

  ghost predicate Fitting(tcb: map<Id, Tcb>, rebased: set<Id>) {
    forall t :: t in tcb ==> Fits(tcb[t], t in rebased)
  }

  ghost function Marked(rebased: set<Id>, t: Id, mark: bool): set<Id> {
    if mark then rebased + {t} else rebased - {t}
  }

  lemma FittingFewer(tcb: map<Id, Tcb>, rebased: set<Id>, t: Id)
    requires Fitting(tcb, rebased)
    ensures Fitting(tcb - {t}, rebased)
  {
  }

  lemma FittingChange(tcb: map<Id, Tcb>, rebased: set<Id>, t: Id, x: Tcb, mark: bool)
    requires Fitting(tcb, rebased) && Fits(x, mark)
    ensures Fitting(tcb[t := x], Marked(rebased, t, mark))
  {
    hide Fits;
    forall u | u in tcb[t := x] ensures Fits(tcb[t := x][u], u in Marked(rebased, t, mark)) {
    }
  }

  /**
   Every task but those in limbo has its state list item on one list, a ready task on the list of its priority, and
   the counts of tasks and of mutexes held are right.
   */
  ghost predicate Population(tcb: map<Id, Tcb>, where: map<Id, Place>, mutexes: map<nat, Mutex>, current: Id,
                             count: nat, limbo: set<Id>) {
    && (forall t :: t in where <==> t in tcb && t !in limbo) && (forall t :: t in limbo ==> t in tcb)
    && (forall t :: t in tcb ==> tcb[t].priority < MAX_PRIORITIES && tcb[t].base < MAX_PRIORITIES)
    && (forall t :: t in where && where[t].Ready? && t in tcb ==> where[t].priority == tcb[t].priority)
    && Accounted(tcb, mutexes) && current in tcb && count == |tcb|
  }

  /** Only a blocked or suspended task has its event list item on a list. */
  ghost predicate Evented(pending: seq<Id>, lists: map<nat, seq<Id>>, eventWhere: map<Id, EventPlace>,
                          where: map<Id, Place>, limbo: set<Id>) {
    && OnList(pending, eventWhere, PendingReady) && EventLists(lists, eventWhere)
    && forall t :: t in eventWhere ==> t in limbo || (t in where && (where[t].Timed? || where[t].Suspended?))
  }

  /** One of the tasks has at least the priority of the running one. */
  ghost predicate Outranks(tcb: map<Id, Tcb>, tasks: set<Id>, current: Id) {
    exists t :: t in tasks && t in tcb && current in tcb && tcb[t].priority >= tcb[current].priority
  }

  lemma OutranksNobody(tcb: map<Id, Tcb>, tasks: set<Id>, current: Id)
    requires tasks == {}
    ensures !Outranks(tcb, tasks, current)
  {
  }

  lemma OutranksNext(tcb: map<Id, Tcb>, tasks: set<Id>, t: Id, all: set<Id>, current: Id)
    requires all == tasks + {t} && t in tcb && current in tcb
    ensures Outranks(tcb, all, current) <==> Outranks(tcb, tasks, current) || tcb[t].priority >= tcb[current].priority
  {
    OutranksEither(tcb, tasks, {t}, all, current);
  }

  lemma OutranksEither(tcb: map<Id, Tcb>, a: set<Id>, b: set<Id>, all: set<Id>, current: Id)
    requires all == a + b
    ensures Outranks(tcb, all, current) <==> Outranks(tcb, a, current) || Outranks(tcb, b, current)
  {
    if Outranks(tcb, all, current) {
      var t :| t in all && t in tcb && current in tcb && tcb[t].priority >= tcb[current].priority;
      assert t in a || t in b;
    }
    if Outranks(tcb, a, current) || Outranks(tcb, b, current) {
      var t :| (t in a || t in b) && t in tcb && current in tcb && tcb[t].priority >= tcb[current].priority;
      assert t in all;
    }
  }

  /** The ready lists after tasks that were blocked have become ready one after the other. */
  function ReadiedAll(lists: seq<Rings.Ring<Id>>, tcb: map<Id, Tcb>, tasks: seq<Id>): seq<Rings.Ring<Id>>
    decreases tasks
  {
    if tasks == [] then lists
    else if tasks[0] in tcb && tcb[tasks[0]].priority < |lists|
      then ReadiedAll(Readied(lists, Timed, tasks[0], tcb[tasks[0]].priority), tcb, tasks[1..])
    else ReadiedAll(lists, tcb, tasks[1..])
  }

  lemma NoneReadied(lists: seq<Rings.Ring<Id>>, tcb: map<Id, Tcb>)
    ensures ReadiedAll(lists, tcb, []) == lists
  {
  }

  lemma FirstReadied(lists: seq<Rings.Ring<Id>>, tcb: map<Id, Tcb>, tasks: seq<Id>, place: Place)
    requires tasks != [] && tasks[0] in tcb && tcb[tasks[0]].priority < |lists| && !place.Ready?
    ensures ReadiedAll(Readied(lists, place, tasks[0], tcb[tasks[0]].priority), tcb, tasks[1..])
            == ReadiedAll(lists, tcb, tasks)
  {
    assert Readied(lists, place, tasks[0], tcb[tasks[0]].priority)
        == Readied(lists, Timed, tasks[0], tcb[tasks[0]].priority);
  }

  lemma TaskFacts(tcb: map<Id, Tcb>, where: map<Id, Place>, mutexes: map<nat, Mutex>, current: Id, count: nat,
                  limbo: set<Id>, t: Id)
    requires Population(tcb, where, mutexes, current, count, limbo) && t in tcb
    ensures t in where <==> t !in limbo
    ensures tcb[t].priority < MAX_PRIORITIES && tcb[t].base < MAX_PRIORITIES && current in tcb
    ensures t in where && where[t].Ready? ==> where[t].priority == tcb[t].priority
  {
    hide Accounted;
  }

  lemma PopulationIn(tcb: map<Id, Tcb>, where: map<Id, Place>, mutexes: map<nat, Mutex>, current: Id, count: nat, t: Id)
    requires Population(tcb, where, mutexes, current, count, {}) && t in tcb
    ensures Population(tcb, where - {t}, mutexes, current, count, {t})
  {
    hide Accounted;
  }

  lemma PopulationOut(tcb: map<Id, Tcb>, where: map<Id, Place>, mutexes: map<nat, Mutex>, current: Id, count: nat,
                      t: Id, place: Place)
    requires Population(tcb, where, mutexes, current, count, {t})
    requires place.Ready? && t in tcb ==> place.priority == tcb[t].priority
    ensures Population(tcb, where[t := place], mutexes, current, count, {})
  {
    hide Accounted;
  }

  lemma EventedIn(pending: seq<Id>, lists: map<nat, seq<Id>>, eventWhere: map<Id, EventPlace>, where: map<Id, Place>,
                  t: Id)
    requires Evented(pending, lists, eventWhere, where, {})
    ensures Evented(pending, lists, eventWhere, where - {t}, {t})
  {
    hide OnList, EventLists;
  }

  lemma EventedOut(pending: seq<Id>, lists: map<nat, seq<Id>>, eventWhere: map<Id, EventPlace>, where: map<Id, Place>,
                   t: Id, place: Place)
    requires Evented(pending, lists, eventWhere, where, {t})
    requires t in eventWhere ==> place.Timed? || place.Suspended?
    ensures Evented(pending, lists, eventWhere, where[t := place], {})
  {
    hide OnList, EventLists;
  }

  lemma EventedRemove(pending: seq<Id>, lists: map<nat, seq<Id>>, eventWhere: map<Id, EventPlace>,
                      where: map<Id, Place>, limbo: set<Id>, t: Id)
    requires Evented(pending, lists, eventWhere, where, limbo) && t in eventWhere
    ensures eventWhere[t].PendingReady? ==>
      Evented(Without(pending, t), lists, eventWhere - {t}, where, limbo)
    ensures eventWhere[t].Event? ==> eventWhere[t].list in lists
    ensures eventWhere[t].Event? ==>
      Evented(pending, lists[eventWhere[t].list := Without(lists[eventWhere[t].list], t)], eventWhere - {t}, where,
              limbo)
  {
    hide OnList, EventLists, Without;
    match eventWhere[t] {
      case PendingReady =>
        OnListRemove(pending, eventWhere, PendingReady, t);
        EventElsewhere(lists, eventWhere, t);
      case Event(e) =>
        OnListRemoveOther(pending, eventWhere, PendingReady, t);
        EventRemove(lists, eventWhere, t, e);
    }
  }

  lemma EventedUnlinks(pending: seq<Id>, lists: map<nat, seq<Id>>, eventWhere: map<Id, EventPlace>,
                       where: map<Id, Place>, limbo: set<Id>, t: Id)
    requires Evented(pending, lists, eventWhere, where, limbo)
    ensures t in eventWhere && eventWhere[t].PendingReady? ==> Unlinked(pending, Without(pending, t), t)
    ensures !(t in eventWhere && eventWhere[t].PendingReady?) ==> Unlinked(pending, pending, t)
    ensures t in eventWhere && eventWhere[t].Event? ==>
      && eventWhere[t].list in lists
      && var after := lists[eventWhere[t].list := Without(lists[eventWhere[t].list], t)];
         forall f :: f in lists ==> Unlinked(lists[f], after[f], t)
    ensures !(t in eventWhere && eventWhere[t].Event?) ==> forall f :: f in lists ==> Unlinked(lists[f], lists[f], t)
  {
    hide OnList, EventLists, Unlinked, Without;
    EventUnlinks(lists, eventWhere, t);
    WithoutUnlinks(pending, t);
    if !(t in eventWhere && eventWhere[t].PendingReady?) {
      NotListed(pending, eventWhere, PendingReady, t);
    }
  }

  lemma AccountedTake(tcb: map<Id, Tcb>, mutexes: map<nat, Mutex>, m: nat, t: Id)
    requires Accounted(tcb, mutexes) && m in mutexes && mutexes[m].holder == None && t in tcb
    ensures Accounted(tcb[t := tcb[t].(mutexesHeld := tcb[t].mutexesHeld + 1)], mutexes[m := Mutex(0, Some(t))])
  {
    var after := mutexes[m := Mutex(0, Some(t))];
    forall u | u in tcb
      ensures |Holdings(after, u)| == |Holdings(mutexes, u)| + if u == t then 1 else 0
    {
      HoldingsTake(mutexes, m, t, u);
    }
  }

  lemma HoldingsTake(mutexes: map<nat, Mutex>, m: nat, t: Id, u: Id)
    requires m in mutexes && mutexes[m].holder == None
    ensures |Holdings(mutexes[m := Mutex(0, Some(t))], u)| == |Holdings(mutexes, u)| + if u == t then 1 else 0
  {
    var after := mutexes[m := Mutex(0, Some(t))];
    assert m !in Holdings(mutexes, u);
    assert Holdings(after, u) == if u == t then Holdings(mutexes, u) + {m} else Holdings(mutexes, u);
  }

  /** The holder gives the mutex back; with its last mutex it returns to its own priority. */
  lemma AccountedGive(tcb: map<Id, Tcb>, mutexes: map<nat, Mutex>, m: nat, t: Id, x: Tcb)
    requires Accounted(tcb, mutexes) && m in mutexes && mutexes[m].holder == Some(t) && t in tcb
    requires x.mutexesHeld == tcb[t].mutexesHeld - 1 && (x.mutexesHeld == 0 ==> x.priority == x.base)
    ensures tcb[t].mutexesHeld != 0 && Accounted(tcb[t := x], mutexes[m := Mutex(1, None)])
  {
    var after := mutexes[m := Mutex(1, None)];
    assert m in Holdings(mutexes, t);
    forall u | u in tcb
      ensures Holdings(after, u) == if u == t then Holdings(mutexes, u) - {m} else Holdings(mutexes, u)
    {
    }
  }

  lemma AccountedChange(tcb: map<Id, Tcb>, mutexes: map<nat, Mutex>, t: Id, x: Tcb)
    requires Accounted(tcb, mutexes) && t in tcb && x.mutexesHeld == tcb[t].mutexesHeld
    requires x.mutexesHeld == 0 ==> x.priority == x.base
    ensures Accounted(tcb[t := x], mutexes)
  {
  }

  lemma AccountedNew(tcb: map<Id, Tcb>, mutexes: map<nat, Mutex>, t: Id, x: Tcb)
    requires Accounted(tcb, mutexes) && t !in tcb && x.mutexesHeld == 0 && x.priority == x.base
    ensures Accounted(tcb[t := x], mutexes)
  {
    assert Holdings(mutexes, t) == {};
  }

  /** A task can be freed without spoiling the accounts if and only if it holds no mutex. */
  lemma AccountedDelete(tcb: map<Id, Tcb>, mutexes: map<nat, Mutex>, t: Id)
    requires Accounted(tcb, mutexes) && t in tcb
    ensures Accounted(tcb - {t}, mutexes) <==> tcb[t].mutexesHeld == 0
  {
    if tcb[t].mutexesHeld == 0 {
      assert Holdings(mutexes, t) == {};
      assert forall m :: m in mutexes ==> m !in Holdings(mutexes, t);
    } else {
      var m :| m in Holdings(mutexes, t);
      assert mutexes[m].holder == Some(t);
    }
  }

  /** A task that is on no ready list, or keeps its priority, gets new scheduling fields. */
  lemma PopulationChange(tcb: map<Id, Tcb>, where: map<Id, Place>, mutexes: map<nat, Mutex>, mutexes': map<nat, Mutex>,
                         current: Id, count: nat, limbo: set<Id>, t: Id, x: Tcb)
    requires Population(tcb, where, mutexes, current, count, limbo) && t in tcb
    requires Accounted(tcb[t := x], mutexes') && x.priority < MAX_PRIORITIES && x.base < MAX_PRIORITIES
    requires t in where && where[t].Ready? ==> x.priority == tcb[t].priority
    ensures Population(tcb[t := x], where, mutexes', current, count, limbo)
  {
    hide Accounted;
    assert tcb[t := x].Keys == tcb.Keys;
    assert |tcb[t := x].Keys| == |tcb[t := x]|;
  }

  lemma PopulationNew(tcb: map<Id, Tcb>, where: map<Id, Place>, mutexes: map<nat, Mutex>, current: Id, count: nat,
                      t: Id, x: Tcb)
    requires Population(tcb, where, mutexes, current, count, {}) && t !in tcb
    requires x.mutexesHeld == 0 && x.priority == x.base < MAX_PRIORITIES
    ensures t !in where && Population(tcb[t := x], where, mutexes, current, count + 1, {t})
  {
    hide Accounted;
    AccountedNew(tcb, mutexes, t, x);
  }

  lemma PopulationDelete(tcb: map<Id, Tcb>, where: map<Id, Place>, mutexes: map<nat, Mutex>, current: Id, count: nat,
                         t: Id)
    requires Population(tcb, where, mutexes, current, count, {t}) && t in tcb && t != current && tcb[t].mutexesHeld == 0
    ensures count > 0 && Population(tcb - {t}, where, mutexes, current, count - 1, {})
  {
    hide Accounted;
    AccountedDelete(tcb, mutexes, t);
    assert (tcb - {t}).Keys == tcb.Keys - {t};
    assert |(tcb - {t}).Keys| == |tcb - {t}|;
  }

  lemma PopulationSelect(tcb: map<Id, Tcb>, where: map<Id, Place>, mutexes: map<nat, Mutex>, current: Id, count: nat,
                         limbo: set<Id>, t: Id)
    requires Population(tcb, where, mutexes, current, count, limbo) && t in where
    ensures t in tcb && Population(tcb, where, mutexes, t, count, limbo)
  {
    hide Accounted;
  }

  lemma EventedForget(pending: seq<Id>, lists: map<nat, seq<Id>>, eventWhere: map<Id, EventPlace>,
                      where: map<Id, Place>, t: Id)
    requires Evented(pending, lists, eventWhere, where, {t}) && t !in eventWhere
    ensures Evented(pending, lists, eventWhere, where, {})
  {
    hide OnList, EventLists;
  }

  lemma EventedAdd(pending: seq<Id>, lists: map<nat, seq<Id>>, eventWhere: map<Id, EventPlace>, where: map<Id, Place>,
                   limbo: set<Id>, t: Id, e: nat, p: nat)
    requires Evented(pending, lists, eventWhere, where, limbo) && t in limbo && t !in eventWhere
    requires e in lists && p <= |lists[e]|
    ensures Evented(pending, lists[e := lists[e][..p] + [t] + lists[e][p..]], eventWhere[t := Event(e)], where, limbo)
  {
    hide OnList, EventLists;
    OnListElsewhere(pending, eventWhere, PendingReady, t, Event(e));
    EventAdd(lists, eventWhere, t, e, p);
  }

  lemma EventedPend(pending: seq<Id>, lists: map<nat, seq<Id>>, eventWhere: map<Id, EventPlace>, where: map<Id, Place>,
                    t: Id)
    requires Evented(pending, lists, eventWhere, where, {}) && t !in eventWhere
    requires t in where && (where[t].Timed? || where[t].Suspended?)
    ensures Evented(pending + [t], lists, eventWhere[t := PendingReady], where, {})
  {
    hide OnList, EventLists;
    OnListAppend(pending, eventWhere, PendingReady, t);
    EventElsewhere(lists, eventWhere, t);
  }

  /** listSET_LIST_ITEM_VALUE on the xEventListItem, unless its value is in use. */
  function ValueFor(x: Tcb, priority: nat): Tick
    requires priority < MAX_PRIORITIES
  {
    if x.eventValue < VALUE_IN_USE then MAX_PRIORITIES - priority else x.eventValue
  }

  /** The holder of a mutex for which a task of priority `priority` waits. */
  function Inherited(x: Tcb, priority: nat): Tcb
    requires priority < MAX_PRIORITIES
  {
    if x.priority < priority then x.(priority := priority, eventValue := ValueFor(x, priority)) else x
  }

  /** The holder of the mutex, if it has one, runs at no lower priority than the waiting task. */
  ghost predicate Inherits(tcb: map<Id, Tcb>, tcb': map<Id, Tcb>, mutexes: map<nat, Mutex>, m: nat, waiting: Id) {
    && m in mutexes && waiting in tcb && tcb[waiting].priority < MAX_PRIORITIES
    && match mutexes[m].holder {
        case None => tcb' == tcb
        case Some(t) => t in tcb && tcb' == tcb[t := Inherited(tcb[t], tcb[waiting].priority)]
      }
  }

  /** The task `t` has given its mutex back, and with its last one has lost an inherited priority. */
  ghost predicate Gives(tcb: map<Id, Tcb>, tcb': map<Id, Tcb>, mutexes: map<nat, Mutex>, mutexes': map<nat, Mutex>,
                        m: nat, t: Id, disinherited: bool) {
    && t in tcb && tcb[t].mutexesHeld > 0 && mutexes' == mutexes[m := Mutex(1, None)]
    && (disinherited <==> tcb[t].mutexesHeld == 1 && tcb[t].priority != tcb[t].base)
    && tcb' == tcb[t := tcb[t].(
        mutexesHeld := tcb[t].mutexesHeld - 1,
        priority := if disinherited then tcb[t].base else tcb[t].priority,
        eventValue := if disinherited && tcb[t].base <= MAX_PRIORITIES then MAX_PRIORITIES - tcb[t].base
                      else tcb[t].eventValue)]
  }

  function AllAvailable(names: set<nat>): map<nat, Mutex> {
    map m | m in names :: Mutex(1, None)
  }

  function NoWaiters(names: set<nat>): map<nat, seq<Id>> {
    map e | e in names :: []
  }

  function OneReady(t: Id, p: nat): seq<Rings.Ring<Id>> {
    seq(MAX_PRIORITIES, q => Rings.Ring(if q == p then [t] else [], 0))
  }

  /** With one task, ready, on otherwise empty lists. */
  lemma InitialPopulation(t: Id, p: nat, names: set<nat>)
    requires p < MAX_PRIORITIES
    ensures Population(map[t := Tcb(p, p, 0, MAX_PRIORITIES - p)], map[t := Ready(p)], AllAvailable(names), t, 1, {})
  {
    assert Holdings(AllAvailable(names), t) == {};
  }

  lemma InitialLists(t: Id, p: nat, names: set<nat>)
    requires p < MAX_PRIORITIES
    ensures |OneReady(t, p)| == MAX_PRIORITIES && ReadyLists(OneReady(t, p), map[t := Ready(p)], p)
    ensures Evented([], NoWaiters(names), map[], map[t := Ready(p)], {})
    ensures OnList([], map[t := Ready(p)], Suspended) && OnList([], map[t := Ready(p)], Termination)
    ensures NoWaiters(names).Keys == names && AllAvailable(names).Keys == names
  {
  }

  lemma HolderIsTask(tcb: map<Id, Tcb>, mutexes: map<nat, Mutex>, m: nat)
    requires Accounted(tcb, mutexes) && m in mutexes
    ensures mutexes[m].available == (if mutexes[m].holder == None then 1 else 0)
    ensures mutexes[m].holder.Some? ==> mutexes[m].holder.value in tcb && tcb[mutexes[m].holder.value].mutexesHeld > 0
  {
    if mutexes[m].holder.Some? {
      assert m in Holdings(mutexes, mutexes[m].holder.value);
    }
  }

  lemma BasePriority(tcb: map<Id, Tcb>, mutexes: map<nat, Mutex>, t: Id)
    requires Accounted(tcb, mutexes) && t in tcb && tcb[t].mutexesHeld == 0
    ensures tcb[t].priority == tcb[t].base
  {
  }
}
