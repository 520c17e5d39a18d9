/**
 The lists of tasks.c that are not ordered by time: each holds the tasks whose state list item (or event list
 item) has that list as its container, in the order in which they were appended.
 */
module TaskLists {
  import opened Ticks
  import opened Lists
  import Rings
  import Sequences

  /** The list a task's xStateListItem is on; `Timed` stands for the two delayed task lists. */
  datatype Place = Ready(priority: nat) | Timed | Suspended | Termination

  /** The list a task's xEventListItem is on. */
  datatype EventPlace = PendingReady | Event(list: nat)

  ghost predicate OnList<P>(list: seq<Id>, where: map<Id, P>, place: P) {
    && (forall i, j :: 0 <= i < j < |list| ==> list[i] != list[j])
    && forall t :: t in list <==> t in where && where[t] == place
  }

  /** uxListRemove from a list that does not keep an order by value. */
  function Without(list: seq<Id>, t: Id): (r: seq<Id>)
    ensures |r| <= |list|
  {
    if list == [] then [] else if list[0] == t then list[1..] else [list[0]] + Without(list[1..], t)
  }

  lemma {:induction false} WithoutMembers(list: seq<Id>, t: Id)
    requires forall i, j :: 0 <= i < j < |list| ==> list[i] != list[j]
    ensures forall u :: u in Without(list, t) <==> u in list && u != t
    ensures forall i, j :: 0 <= i < j < |Without(list, t)| ==> Without(list, t)[i] != Without(list, t)[j]
    ensures t !in list ==> Without(list, t) == list
  {
    if list != [] {
      var rest := list[1..];
      assert list == [list[0]] + rest;
      WithoutMembers(rest, t);
      assert list[0] !in rest;
    }
  }

  /** `list'` is `list` without `t`, the other tasks in their order. */
  ghost predicate Unlinked(list: seq<Id>, list': seq<Id>, t: Id) {
    if t in list then exists k :: 0 <= k < |list| && list[k] == t && list' == list[..k] + list[k + 1..]
    else list' == list
  }

  lemma WithoutUnlinks(list: seq<Id>, t: Id)
    ensures Unlinked(list, Without(list, t), t)
  {
    hide Without;
    var k := WithoutPlace(list, t);
  }

  lemma {:induction false} WithoutPlace(list: seq<Id>, t: Id) returns (k: nat)
    ensures t in list ==> k < |list| && list[k] == t && Without(list, t) == list[..k] + list[k + 1..]
    ensures t !in list ==> Without(list, t) == list
  {
    k := 0;
    if list != [] && list[0] != t {
      var rest := list[1..];
      k := WithoutPlace(rest, t);
      assert list == [list[0]] + rest;
      if t in rest {
        PlaceBehind(list[0], rest, k);
      }
      k := k + 1;
    }
  }

  lemma PlaceBehind(x: Id, rest: seq<Id>, k: nat)
    requires k < |rest|
    ensures var list := [x] + rest;
      list[k + 1] == rest[k] && list[..k + 1] + list[k + 2..] == [x] + (rest[..k] + rest[k + 1..])
  {
  }

  lemma UnlinkedHead<P>(list: seq<Id>, list': seq<Id>, where: map<Id, P>, place: P, t: Id)
    requires OnList(list, where, place) && Unlinked(list, list', t)
    ensures t in where && where[t] == place && list[0] == t ==> list' == list[1..]
    ensures !(t in where && where[t] == place) ==> list' == list
  {
  }

  lemma OnListRemove<P>(list: seq<Id>, where: map<Id, P>, place: P, t: Id)
    requires OnList(list, where, place)
    ensures OnList(Without(list, t), where - {t}, place)
  {
    WithoutMembers(list, t);
  }

  lemma OnListRemoveOther<P>(list: seq<Id>, where: map<Id, P>, place: P, t: Id)
    requires OnList(list, where, place) && (t in where ==> where[t] != place)
    ensures OnList(list, where - {t}, place)
  {
  }

  lemma OnListAppend<P>(list: seq<Id>, where: map<Id, P>, place: P, t: Id)
    requires OnList(list, where, place) && t !in where
    ensures OnList(list + [t], where[t := place], place)
  {
  }

  lemma OnListElsewhere<P>(list: seq<Id>, where: map<Id, P>, place: P, t: Id, other: P)
    requires OnList(list, where, place) && t !in where && other != place
    ensures OnList(list, where[t := other], place)
  {
  }

  /** The same for a list with a walking index */
  ghost predicate OnRing<P>(ring: Rings.Ring<Id>, where: map<Id, P>, place: P) {
    Rings.InRange(ring) && OnList(ring.nodes, where, place)
  }

  lemma OnRingRemove<P>(ring: Rings.Ring<Id>, where: map<Id, P>, place: P, t: Id)
    requires OnRing(ring, where, place)
    ensures OnRing(Rings.Remove(ring, t), where - {t}, place)
    ensures t !in ring.nodes ==> Rings.Remove(ring, t) == ring
  {
    var s, i := ring.nodes, Sequences.IndexOf(ring.nodes, t);
    var r := Rings.Remove(ring, t).nodes;
    if i < |s| {
      forall j | 0 <= j < |r| ensures r[j] == s[if j < i then j else j + 1] && r[j] in s && r[j] != t {
        assert r[j] == s[if j < i then j else j + 1];
      }
      forall u | u in s && u != t ensures u in r {
        var j :| 0 <= j < |s| && s[j] == u;
        assert r[if j < i then j else j - 1] == u;
      }
    }
  }

  lemma OnRingInsert<P>(ring: Rings.Ring<Id>, where: map<Id, P>, place: P, t: Id)
    requires OnRing(ring, where, place) && t !in where
    ensures OnRing(Rings.InsertEnd(ring, t), where[t := place], place)
  {
    var s, p := ring.nodes, if ring.index == 0 then |ring.nodes| else ring.index - 1;
    assert ring.index == 0 ==> s + [t] == s[..p] + [t] + s[p..];
    OnListInsert(s, where, place, t, p);
  }

  lemma OnRingElsewhere<P>(ring: Rings.Ring<Id>, where: map<Id, P>, place: P, t: Id, other: P)
    requires OnRing(ring, where, place) && t !in where && other != place
    ensures OnRing(ring, where[t := other], place)
  {
    OnListElsewhere(ring.nodes, where, place, t, other);
  }

  /** The ready lists, one for each priority, and uxTopReadyPriority. */
  ghost predicate ReadyLists(lists: seq<Rings.Ring<Id>>, where: map<Id, Place>, top: nat) {
    && (forall p :: 0 <= p < |lists| ==> OnRing(lists[p], where, Ready(p)))
    && (forall t :: t in where && where[t].Ready? ==> where[t].priority < |lists| && where[t].priority <= top)
    && top < |lists|
  }

  /** The ready lists after a task at `place` has been taken off its list. */
  function Unready(lists: seq<Rings.Ring<Id>>, place: Place, t: Id): seq<Rings.Ring<Id>> {
    if place.Ready? && place.priority < |lists| then lists[place.priority := Rings.Remove(lists[place.priority], t)]
    else lists
  }

  lemma ReadyRemove(lists: seq<Rings.Ring<Id>>, where: map<Id, Place>, top: nat, t: Id, p: nat)
    requires ReadyLists(lists, where, top) && t in where && where[t] == Ready(p)
    ensures p < |lists| && ReadyLists(Unready(lists, where[t], t), where - {t}, top)
  {
    hide Rings.Remove, OnList;
    forall q | 0 <= q < |lists| ensures OnRing(Unready(lists, where[t], t)[q], where - {t}, Ready(q)) {
      OnRingRemove(lists[q], where, Ready(q), t);
      if q != p {
        NotOnOther(lists[q], where, Ready(q), t);
      }
    }
  }

  /** The ready lists after a task at `place` has become the last in turn on the list of priority `p`. */
  function Readied(lists: seq<Rings.Ring<Id>>, place: Place, t: Id, p: nat): seq<Rings.Ring<Id>>
    requires p < |lists|
  {
    var others := Unready(lists, place, t);
    others[p := Rings.InsertEnd(others[p], t)]
  }

  lemma NotOnOther<P>(ring: Rings.Ring<Id>, where: map<Id, P>, place: P, t: Id)
    requires OnRing(ring, where, place) && (t in where ==> where[t] != place)
    ensures t !in ring.nodes && OnRing(ring, where - {t}, place)
  {
  }

  /** A task that is on no ready list goes from, or to, some other list. */
  lemma ReadyElsewhere(lists: seq<Rings.Ring<Id>>, where: map<Id, Place>, top: nat, t: Id, place: Place)
    requires ReadyLists(lists, where, top) && (t in where ==> !where[t].Ready?) && !place.Ready?
    ensures ReadyLists(lists, where - {t}, top)
    ensures t !in where ==> ReadyLists(lists, where[t := place], top)
  {
    hide OnRing;
    forall q | 0 <= q < |lists|
      ensures OnRing(lists[q], where - {t}, Ready(q)) && (t !in where ==> OnRing(lists[q], where[t := place], Ready(q)))
    {
      NotOnOther(lists[q], where, Ready(q), t);
      if t !in where {
        OnRingElsewhere(lists[q], where, Ready(q), t, place);
      }
    }
  }

  /** No list has become shorter. */
  ghost predicate Grown(lists: seq<Rings.Ring<Id>>, lists': seq<Rings.Ring<Id>>) {
    |lists| == |lists'| && forall p :: 0 <= p < |lists| ==> |lists[p].nodes| <= |lists'[p].nodes|
  }

  lemma GrownNot(lists: seq<Rings.Ring<Id>>)
    ensures Grown(lists, lists)
  {
  }

  lemma GrownAt(lists: seq<Rings.Ring<Id>>, lists': seq<Rings.Ring<Id>>, p: nat)
    requires Grown(lists, lists') && p < |lists|
    ensures p < |lists'| && |lists[p].nodes| <= |lists'[p].nodes|
  {
  }

  lemma GrownOn(a: seq<Rings.Ring<Id>>, b: seq<Rings.Ring<Id>>, c: seq<Rings.Ring<Id>>)
    requires Grown(a, b) && Grown(b, c)
    ensures Grown(a, c)
  {
  }

  lemma ReadyGrows(lists: seq<Rings.Ring<Id>>, place: Place, t: Id, p: nat)
    requires !place.Ready? && p < |lists|
    ensures Grown(lists, Readied(lists, place, t, p))
  {
  }

  /** prvAddTaskToReadyList */
  lemma ReadyAdd(lists: seq<Rings.Ring<Id>>, where: map<Id, Place>, top: nat, t: Id, p: nat)
    requires ReadyLists(lists, where, top) && t !in where && p < |lists|
    ensures ReadyLists(lists[p := Rings.InsertEnd(lists[p], t)], where[t := Ready(p)], if p > top then p else top)
  {
    hide OnRing, Rings.InsertEnd;
    forall q | 0 <= q < |lists|
      ensures OnRing(lists[p := Rings.InsertEnd(lists[p], t)][q], where[t := Ready(p)], Ready(q))
    {
      if q == p {
        OnRingInsert(lists[q], where, Ready(q), t);
      } else {
        OnRingElsewhere(lists[q], where, Ready(q), t, Ready(p));
      }
    }
  }

  /** A list that is kept in some order takes a new item anywhere. */
  lemma OnListInsert<P>(list: seq<Id>, where: map<Id, P>, place: P, t: Id, p: nat)
    requires OnList(list, where, place) && t !in where && p <= |list|
    ensures OnList(list[..p] + [t] + list[p..], where[t := place], place)
  {
    var r := list[..p] + [t] + list[p..];
    assert list == list[..p] + list[p..];
    forall u ensures u in r <==> u in list || u == t {
    }
  }

  /** The event lists of the queues, one for each number in use. */
  ghost predicate EventLists(lists: map<nat, seq<Id>>, where: map<Id, EventPlace>) {
    && (forall e :: e in lists ==> OnList(lists[e], where, Event(e)))
    && (forall t :: t in where && where[t].Event? ==> where[t].list in lists)
  }

  lemma EventRemove(lists: map<nat, seq<Id>>, where: map<Id, EventPlace>, t: Id, e: nat)
    requires EventLists(lists, where) && t in where && where[t] == Event(e)
    ensures e in lists && EventLists(lists[e := Without(lists[e], t)], where - {t})
  {
    forall f | f in lists ensures OnList(lists[e := Without(lists[e], t)][f], where - {t}, Event(f)) {
      OnListRemove(lists[f], where, Event(f), t);
      WithoutMembers(lists[f], t);
    }
  }

  lemma EventUnlinks(lists: map<nat, seq<Id>>, where: map<Id, EventPlace>, t: Id)
    requires EventLists(lists, where)
    ensures t in where && where[t].Event? ==>
      && where[t].list in lists
      && var after := lists[where[t].list := Without(lists[where[t].list], t)];
         forall f :: f in lists ==> Unlinked(lists[f], after[f], t)
    ensures !(t in where && where[t].Event?) ==> forall f :: f in lists ==> Unlinked(lists[f], lists[f], t)
  {
    hide Unlinked;
    forall f | f in lists && (t in where ==> where[t] != Event(f)) ensures Unlinked(lists[f], lists[f], t) {
      NotListed(lists[f], where, Event(f), t);
    }
    if t in where && where[t].Event? {
      WithoutUnlinks(lists[where[t].list], t);
    }
  }

  lemma NotListed<P>(list: seq<Id>, where: map<Id, P>, place: P, t: Id)
    requires OnList(list, where, place) && (t in where ==> where[t] != place)
    ensures Unlinked(list, list, t)
  {
  }

  lemma EventElsewhere(lists: map<nat, seq<Id>>, where: map<Id, EventPlace>, t: Id)
    requires EventLists(lists, where) && (t in where ==> !where[t].Event?)
    ensures EventLists(lists, where - {t})
    ensures t !in where ==> EventLists(lists, where[t := PendingReady])
  {
    forall f | f in lists
      ensures OnList(lists[f], where - {t}, Event(f))
      ensures (t !in where ==> OnList(lists[f], where[t := PendingReady], Event(f)))
    {
      OnListRemove(lists[f], where, Event(f), t);
      WithoutMembers(lists[f], t);
      if t !in where {
        OnListElsewhere(lists[f], where, Event(f), t, PendingReady);
      }
    }
  }

  lemma EventAdd(lists: map<nat, seq<Id>>, where: map<Id, EventPlace>, t: Id, e: nat, p: nat)
    requires EventLists(lists, where) && t !in where && e in lists && p <= |lists[e]|
    ensures EventLists(lists[e := lists[e][..p] + [t] + lists[e][p..]], where[t := Event(e)])
  {
    forall f | f in lists
      ensures OnList(lists[e := lists[e][..p] + [t] + lists[e][p..]][f], where[t := Event(e)], Event(f))
    {
      if f == e {
        OnListInsert(lists[f], where, Event(f), t, p);
      } else {
        OnListElsewhere(lists[f], where, Event(f), t, Event(e));
      }
    }
  }

  /** listGET_OWNER_OF_NEXT_ENTRY on a ready list that has a task */
  lemma ReadyNext(lists: seq<Rings.Ring<Id>>, where: map<Id, Place>, top: nat, p: nat)
    requires ReadyLists(lists, where, top) && p < |lists| && lists[p].nodes != []
    ensures var next := Rings.Next(lists[p]);
      && 1 <= next.index <= |next.nodes|
      && Rings.Current(next) in where && where[Rings.Current(next)] == Ready(p)
      && ReadyLists(lists[p := next], where, top)
  {
    var next := Rings.Next(lists[p]);
    assert OnRing(lists[p], where, Ready(p));
    assert Rings.Current(next) in lists[p].nodes;
  }

  /** When no list above `p` has a task, `p` can serve as uxTopReadyPriority. */
  lemma ReadyTop(lists: seq<Rings.Ring<Id>>, where: map<Id, Place>, top: nat, p: nat)
    requires ReadyLists(lists, where, top) && p <= top
    requires forall q :: p < q <= top ==> lists[q].nodes == []
    ensures ReadyLists(lists, where, p)
  {
    forall t | t in where && where[t].Ready? ensures where[t].priority <= p {
      assert OnRing(lists[where[t].priority], where, where[t]);
      assert t in lists[where[t].priority].nodes;
    }
  }
}
