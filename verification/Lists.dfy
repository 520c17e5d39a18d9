/**
 The kernel lists of list.c as values: a list is the sequence of its items from the entry after the
 end marker. RingList.dfy shows that the linked rings of list.c behave this way.
 */
module Lists {
  import opened Ticks

  /** Names a task or a timer: the owner of a list item. */
  type Id = nat

  datatype Item = Item(value: Tick, owner: Id)

  ghost predicate Sorted(s: seq<Item>) {
    forall i, j :: 0 <= i < j < |s| ==> s[i].value <= s[j].value
  }

  ghost predicate Distinct(s: seq<Item>) {
    forall i, j :: 0 <= i < j < |s| ==> s[i].owner != s[j].owner
  }

  ghost function Owners(s: seq<Item>): set<Id> {
    set x | x in s :: x.owner
  }

  /** Where vListInsert puts a new item: behind the leading items whose value is not larger. */
  function Position(s: seq<Item>, value: Tick): (p: nat)
    ensures p <= |s|
    ensures forall i :: 0 <= i < p ==> s[i].value <= value
    ensures p < |s| ==> value < s[p].value
  {
    if s != [] && s[0].value <= value then 1 + Position(s[1..], value) else 0
  }

  function Insert(s: seq<Item>, item: Item): seq<Item> {
    var p := Position(s, item.value);
    s[..p] + [item] + s[p..]
  }

  /** The index of the item owned by `owner`, or the length when there is none. */
  function Find(s: seq<Item>, owner: Id): (i: nat)
    ensures i <= |s|
    ensures i < |s| ==> s[i].owner == owner
    ensures forall j :: 0 <= j < i ==> s[j].owner != owner
  {
    if s == [] || s[0].owner == owner then 0 else 1 + Find(s[1..], owner)
  }

  function Remove(s: seq<Item>, owner: Id): seq<Item> {
    var i := Find(s, owner);
    if i < |s| then s[..i] + s[i + 1..] else s
  }

  lemma InsertMembers(s: seq<Item>, item: Item)
    ensures forall x :: x in Insert(s, item) <==> x in s || x == item
    ensures Owners(Insert(s, item)) == Owners(s) + {item.owner}
  {
    var p := Position(s, item.value);
    assert s == s[..p] + s[p..];
    forall x ensures x in Insert(s, item) <==> x in s || x == item {
    }
  }

  lemma InsertSorted(s: seq<Item>, item: Item)
    requires Sorted(s)
    ensures Sorted(Insert(s, item))
  {
  }

  lemma InsertDistinct(s: seq<Item>, item: Item)
    requires Distinct(s) && item.owner !in Owners(s)
    ensures Distinct(Insert(s, item))
  {
    forall i | 0 <= i < |s| ensures s[i].owner != item.owner {
      assert s[i] in s;
    }
  }

  lemma RemoveMembers(s: seq<Item>, owner: Id)
    requires Distinct(s)
    ensures forall x :: x in Remove(s, owner) <==> x in s && x.owner != owner
  {
    var i, r := Find(s, owner), Remove(s, owner);
    if i < |s| {
      forall x | x in s && x.owner != owner ensures x in r {
        var k :| 0 <= k < |s| && s[k] == x;
        assert x == r[if k < i then k else k - 1];
      }
      forall k | 0 <= k < |r| ensures r[k] in s && r[k].owner != owner {
        assert r[k] == s[if k < i then k else k + 1];
      }
    }
  }

  lemma RemoveOrder(s: seq<Item>, owner: Id)
    ensures Distinct(s) ==> Distinct(Remove(s, owner))
    ensures Sorted(s) ==> Sorted(Remove(s, owner))
  {
  }
}
