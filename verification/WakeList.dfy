/**
 A list ordered by 32-bit times, read in unbounded time: the items are the entries of `due` whose time lies
 in the epoch that starts at `from`. The timer lists and the delayed task lists are used in this way.
 */
module WakeList {
  import opened Ticks
  import opened Lists

  ghost predicate Holds(s: seq<Item>, from: nat, due: map<Id, nat>) {
    && Sorted(s) && Distinct(s)
    && (forall x :: x in s ==> x.owner in due && due[x.owner] == from + x.value)
    && (forall t :: t in due && from <= due[t] < from + WRAP ==> Item(due[t] - from, t) in s)
  }

  /** The predicate only looks at the members of the list and at its order. */
  lemma HoldsByMembers(s: seq<Item>, r: seq<Item>, from: nat, due: map<Id, nat>, due': map<Id, nat>, t: Id)
    requires Holds(s, from, due) && Sorted(r) && Distinct(r)
    requires due - {t} == due' - {t}
    requires forall x: Item :: x.owner != t ==> (x in r <==> x in s)
    requires forall x: Item :: x.owner == t ==> (x in r <==> t in due' && due'[t] == from + x.value)
    ensures Holds(r, from, due')
  {
    forall u | u in due' && from <= due'[u] < from + WRAP ensures Item(due'[u] - from, u) in r {
      assert u != t ==> u in due - {t};
    }
    forall x | x in r ensures x.owner in due' && due'[x.owner] == from + x.value {
      assert x.owner != t ==> x.owner in due' - {t};
    }
  }

  lemma HoldsRemove(s: seq<Item>, from: nat, due: map<Id, nat>, t: Id)
    requires Holds(s, from, due)
    ensures Holds(Remove(s, t), from, due - {t})
  {
    RemoveMembers(s, t);
    RemoveOrder(s, t);
    HoldsByMembers(s, Remove(s, t), from, due, due - {t}, t);
  }

  lemma HoldsOrder(s: seq<Item>, from: nat, due: map<Id, nat>)
    requires Holds(s, from, due)
    ensures Sorted(s) && Distinct(s)
    ensures Owners(s) <= due.Keys
  {
  }

  lemma HoldsInsert(s: seq<Item>, from: nat, due: map<Id, nat>, x: Item)
    requires Holds(s, from, due) && x.owner !in due
    ensures Holds(Insert(s, x), from, due[x.owner := from + x.value])
  {
    hide Insert, Sorted, Distinct;
    HoldsOrder(s, from, due);
    InsertMembers(s, x);
    InsertSorted(s, x);
    InsertDistinct(s, x);
    HoldsByMembers(s, Insert(s, x), from, due, due[x.owner := from + x.value], x.owner);
  }

  lemma HoldsElsewhere(s: seq<Item>, from: nat, due: map<Id, nat>, t: Id, time: nat)
    requires Holds(s, from, due) && t !in due && !(from <= time < from + WRAP)
    ensures Holds(s, from, due[t := time])
  {
  }

  lemma HoldsMember(s: seq<Item>, from: nat, due: map<Id, nat>, x: Item)
    requires Holds(s, from, due) && x in s
    ensures x.owner in due && due[x.owner] == from + x.value
  {
  }

  /** The head of the list is the earliest entry from `from` on. */
  lemma HoldsHead(s: seq<Item>, from: nat, due: map<Id, nat>)
    requires Holds(s, from, due) && s != []
    ensures s[0].owner in due && due[s[0].owner] == from + s[0].value
    ensures forall t :: t in due && from <= due[t] ==> from + s[0].value <= due[t]
    ensures forall x :: x in s ==> s[0].value <= x.value
    ensures Remove(s, s[0].owner) == s[1..]
  {
    assert s[0] in s;
    forall t | t in due && from <= due[t] < from + WRAP ensures from + s[0].value <= due[t] {
      var i :| 0 <= i < |s| && s[i] == Item(due[t] - from, t);
    }
  }

  lemma HoldsNot(s: seq<Item>, from: nat, due: map<Id, nat>, t: Id)
    requires Holds(s, from, due) && (t in due ==> !(from <= due[t] < from + WRAP))
    ensures Remove(s, t) == s
  {
    assert forall i :: 0 <= i < |s| ==> s[i] in s;
  }

  lemma HoldsFind(s: seq<Item>, from: nat, due: map<Id, nat>, t: Id)
    requires Holds(s, from, due)
    ensures Find(s, t) < |s| <==> t in due && from <= due[t] < from + WRAP
  {
    if Find(s, t) < |s| {
      assert s[Find(s, t)] in s;
    }
  }

  lemma HoldsNothing(from: nat, due: map<Id, nat>)
    requires forall t :: t in due ==> !(from <= due[t] < from + WRAP)
    ensures Holds([], from, due)
  {
  }

  lemma HoldsEmpty(from: nat, due: map<Id, nat>)
    requires Holds([], from, due)
    ensures forall t :: t in due ==> !(from <= due[t] < from + WRAP)
  {
  }
}
