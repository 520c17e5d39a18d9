/**
 Counting the tasks by the lists they are on.
 */
module Census {
  import opened Ticks
  import opened Lists
  import Rings
  import opened TaskLists
  import opened WakeList
  import opened Delays

  ghost function Total(lists: seq<Rings.Ring<Id>>): nat {
    if lists == [] then 0 else Total(lists[..|lists| - 1]) + |lists[|lists| - 1].nodes|
  }

  ghost function Members(list: seq<Id>): set<Id> {
    set t | t in list
  }

  lemma {:induction false} MembersCount(list: seq<Id>)
    requires forall i, j :: 0 <= i < j < |list| ==> list[i] != list[j]
    ensures |Members(list)| == |list|
  {
    if list != [] {
      var rest := list[1..];
      assert list == [list[0]] + rest;
      MembersCount(rest);
      assert Members(list) == {list[0]} + Members(rest);
    }
  }

  lemma {:induction false} OwnersCount(s: seq<Item>)
    requires Distinct(s)
    ensures |Owners(s)| == |s|
  {
    if s != [] {
      var rest := s[1..];
      assert s == [s[0]] + rest;
      OwnersCount(rest);
      assert Owners(s) == {s[0].owner} + Owners(rest);
    }
  }

  ghost function ReadyBelow(where: map<Id, Place>, p: nat): set<Id> {
    set t | t in where && where[t].Ready? && where[t].priority < p
  }

  lemma {:induction false} ReadyCount(lists: seq<Rings.Ring<Id>>, where: map<Id, Place>)
    requires forall p :: 0 <= p < |lists| ==> OnRing(lists[p], where, Ready(p))
    ensures |ReadyBelow(where, |lists|)| == Total(lists)
  {
    if lists != [] {
      var n := |lists| - 1;
      ReadyCount(lists[..n], where);
      assert OnRing(lists[n], where, Ready(n));
      MembersCount(lists[n].nodes);
      assert ReadyBelow(where, n + 1) == ReadyBelow(where, n) + Members(lists[n].nodes);
    } else {
      assert ReadyBelow(where, 0) == {};
    }
  }

  lemma DelayedCount(current: seq<Item>, overflow: seq<Item>, where: map<Id, Place>, due: map<Id, nat>, base: nat)
    requires Linked(current, overflow, where, due, base)
    ensures |due.Keys| == |current| + |overflow|
  {
    hide Owners, Sorted;
    OwnersCount(current);
    OwnersCount(overflow);
    OwnersOf(current, due, base);
    OwnersOf(overflow, due, base + WRAP);
    assert Owners(current) !! Owners(overflow);
    assert due.Keys == Owners(current) + Owners(overflow);
  }

  /** A list holds the tasks whose wake times lie in its epoch. */
  lemma OwnersOf(s: seq<Item>, due: map<Id, nat>, from: nat)
    requires Holds(s, from, due)
    ensures forall t :: t in Owners(s) <==> t in due && from <= due[t] < from + WRAP
  {
    hide Sorted, Distinct;
    forall t ensures t in Owners(s) <==> t in due && from <= due[t] < from + WRAP {
      if t in due && from <= due[t] < from + WRAP {
        assert Item(due[t] - from, t) in s;
      }
    }
  }

  /** Each task is on exactly one list: the lengths of the lists add up to the number of tasks. */
  lemma ListsPartitionTasks(ready: seq<Rings.Ring<Id>>, current: seq<Item>, overflow: seq<Item>, suspended: seq<Id>,
                            termination: seq<Id>, where: map<Id, Place>, due: map<Id, nat>, base: nat, top: nat)
    requires ReadyLists(ready, where, top) && Linked(current, overflow, where, due, base)
    requires OnList(suspended, where, Suspended) && OnList(termination, where, Termination)
    ensures Total(ready) + |current| + |overflow| + |suspended| + |termination| == |where|
  {
    hide ReadyLists, Linked, OnList, Total, Members;
    ReadyMembers(ready, where, top);
    TimedMembers(current, overflow, where, due, base);
    OnListMembers(suspended, where, Suspended);
    OnListMembers(termination, where, Termination);
    CountFour(where.Keys, ReadyBelow(where, |ready|), due.Keys, Members(suspended), Members(termination));
    assert |where.Keys| == |where|;
  }

  lemma OnListMembers(list: seq<Id>, where: map<Id, Place>, place: Place)
    requires OnList(list, where, place)
    ensures |Members(list)| == |list| && forall t :: t in Members(list) <==> t in where && where[t] == place
  {
    MembersCount(list);
  }

  lemma ReadyMembers(ready: seq<Rings.Ring<Id>>, where: map<Id, Place>, top: nat)
    requires ReadyLists(ready, where, top)
    ensures |ReadyBelow(where, |ready|)| == Total(ready)
    ensures forall t :: t in ReadyBelow(where, |ready|) <==> t in where && where[t].Ready?
  {
    ReadyCount(ready, where);
  }

  lemma TimedMembers(current: seq<Item>, overflow: seq<Item>, where: map<Id, Place>, due: map<Id, nat>, base: nat)
    requires Linked(current, overflow, where, due, base)
    ensures |due.Keys| == |current| + |overflow| && forall t :: t in due.Keys <==> t in where && where[t].Timed?
  {
    hide Holds;
    DelayedCount(current, overflow, where, due, base);
  }

  lemma CountFour(all: set<Id>, a: set<Id>, b: set<Id>, c: set<Id>, d: set<Id>)
    requires forall t :: t in all <==> t in a || t in b || t in c || t in d
    requires forall t :: t in a ==> t !in b && t !in c && t !in d
    requires forall t :: t in b ==> t !in c && t !in d
    requires forall t :: t in c ==> t !in d
    ensures |all| == |a| + |b| + |c| + |d|
  {
    assert a !! b && a + b !! c && a + b + c !! d;
    assert all == a + b + c + d;
  }
}
