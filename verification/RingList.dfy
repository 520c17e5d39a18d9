/**
 The doubly linked lists of list.c. Each method is proved against the operations on values of Rings.dfy and, for the
 lists ordered by value, of Lists.dfy.
 */
module RingList {
  import opened Ticks
  import opened Lists
  import Rings
  import Sequences

  class ListItem {
    var xItemValue: Tick
    var pxNext: ListItem
    var pxPrevious: ListItem
    var pvContainer: List?
    const pvOwner: Id

    /** vListInitialiseItem */
    constructor (owner: Id, value: Tick)
      ensures pvContainer == null && pvOwner == owner && xItemValue == value
    {
      pvOwner, xItemValue, pvContainer := owner, value, null;
      pxNext, pxPrevious := this, this;
    }
  }

  class List {
    var uxNumberOfItems: nat
    var pxIndex: ListItem
    const xListEnd: ListItem

    /** The items from the one behind the end marker on, and the position of pxIndex */
    ghost var nodes: seq<ListItem>
    ghost var position: nat

    /** The ring with its end marker */
    ghost function Ring(): seq<ListItem>
      reads `nodes
    {
      [xListEnd] + nodes
    }

    ghost predicate Valid()
      reads this, xListEnd, nodes
    {
      && Closed(Ring()) && xListEnd.xItemValue == MAX_DELAY
      && (forall x :: x in nodes ==> x.pvContainer == this)
      && uxNumberOfItems == |nodes| && position <= |nodes| && pxIndex == Ring()[position]
    }

    /** The list as a value: the items, with the place of the walking index */
    ghost function State(): Rings.Ring<ListItem>
      reads this
    {
      Rings.Ring(nodes, position)
    }

    /** vListInitialise */
    constructor ()
      ensures Valid() && State() == Rings.Ring([], 0) && fresh(xListEnd)
    {
      xListEnd := new ListItem(0, MAX_DELAY);
      uxNumberOfItems, nodes, position := 0, [], 0;
      pxIndex := xListEnd;
      new;
      xListEnd.pxNext, xListEnd.pxPrevious := xListEnd, xListEnd;
    }

    /** The end of both insertions: the item is linked in behind place `p` of the ring, and counted. */
    method LinkAt(item: ListItem, ghost p: nat, before: ListItem, after: ListItem)
      requires Valid() && item != xListEnd && item !in nodes && p <= |nodes|
      requires before == Ring()[p] && after == Behind(Ring(), p)
      modifies `uxNumberOfItems, `nodes, `position, item`pxNext, item`pxPrevious, item`pvContainer
      modifies before`pxNext, after`pxPrevious
      ensures Valid() && nodes == old(nodes)[..p] + [item] + old(nodes)[p..]
      ensures position == if old(position) > p then old(position) + 1 else old(position)
    {
      hide Closed;
      ghost var ring := Ring();
      LinkBetween(ring, p, before, item, after);
      item.pvContainer := this;
      uxNumberOfItems := uxNumberOfItems + 1;
      nodes, position := nodes[..p] + [item] + nodes[p..], if position > p then position + 1 else position;
      assert Ring() == ring[..p + 1] + [item] + ring[p + 1..];
    }

    /** vListInsertEnd */
    method InsertEnd(item: ListItem)
      requires Valid() && item != xListEnd && item !in nodes
      modifies `uxNumberOfItems, `nodes, `position, item`pxNext, item`pxPrevious, item`pvContainer
      modifies xListEnd`pxNext, xListEnd`pxPrevious, nodes`pxNext, nodes`pxPrevious
      ensures Valid() && State() == Rings.InsertEnd(old(State()), item)
    {
      hide Closed;
      ghost var p := if position == 0 then |nodes| else position - 1;
      Neighbours(Ring(), position);
      Neighbours(Ring(), p);
      LinkAt(item, p, pxIndex.pxPrevious, pxIndex);
    }

    /** The items with their values, as a list ordered by value has them */
    ghost function Items(): seq<Item>
      reads `nodes, nodes`xItemValue
    {
      ItemsOf(nodes)
    }

    /** The search of vListInsert, which only portMAX_DELAY may skip: the end marker stops it. */
    method FindPlace(value: Tick) returns (place: ListItem, ghost p: nat)
      requires Valid()
      ensures p <= |nodes| && place == Ring()[p] && place.pxNext == Behind(Ring(), p)
      ensures p == Lists.Position(Items(), value)
    {
      hide Closed;
      place, p := xListEnd, 0;
      Neighbours(Ring(), 0);
      if value == MAX_DELAY {
        place, p := xListEnd.pxPrevious, |nodes|;
        Neighbours(Ring(), p);
      } else {
        while place.pxNext.xItemValue <= value
          invariant p <= |nodes| && place == Ring()[p] && place.pxNext == Behind(Ring(), p)
          invariant forall i :: 0 <= i < p ==> nodes[i].xItemValue <= value
          decreases |nodes| - p
        {
          place, p := place.pxNext, p + 1;
          Neighbours(Ring(), p);
        }
      }
      PositionIs(Items(), value, p);
    }

    /** vListInsert: behind all items whose value is not larger */
    method Insert(item: ListItem)
      requires Valid() && item != xListEnd && item !in nodes
      modifies `uxNumberOfItems, `nodes, `position, item`pxNext, item`pxPrevious, item`pvContainer
      modifies xListEnd`pxNext, xListEnd`pxPrevious, nodes`pxNext, nodes`pxPrevious
      ensures Valid() && Items() == Lists.Insert(old(Items()), Item(item.xItemValue, item.pvOwner))
      ensures var p := Lists.Position(old(Items()), item.xItemValue);
        p <= |old(nodes)| && nodes == old(nodes)[..p] + [item] + old(nodes)[p..]
    {
      hide Closed, ItemsOf, Lists.Position;
      var place;
      ghost var p;
      place, p := FindPlace(item.xItemValue);
      ghost var before := Items();
      LinkAt(item, p, place, place.pxNext);
      assert forall i :: p < i < |nodes| ==> nodes[i] == old(nodes)[i - 1];
      ItemsInserted(before, Items(), Item(item.xItemValue, item.pvOwner), p);
    }

    /** The links of uxListRemove, and the step back of an index that was at the item */
    method Unhook(item: ListItem, ghost ring: seq<ListItem>, ghost p: nat, ghost q: nat,
                  ghost before: ListItem, ghost after: ListItem, ghost left: seq<ListItem>)
      requires 0 < p < |ring| && left == ring[..p] + ring[p + 1..]
      requires Closed(ring) && 0 < p < |ring| && q < |ring| && item == ring[p] && pxIndex == ring[q]
      requires before == ring[p - 1] && after == Behind(ring, p)
      modifies `pxIndex, before`pxNext, after`pxPrevious
      ensures Closed(left) && pxIndex == left[if q >= p then q - 1 else q]
    {
      hide Closed;
      RemoveFacts(ring, p, q);
      Unlink(ring, p, item.pxPrevious, item.pxNext);
      if pxIndex == item {
        pxIndex := item.pxPrevious;
      }
    }

    /** The item at place `i` leaves; `rest` are the others. */
    method RemoveAt(item: ListItem, ghost i: nat, ghost rest: seq<ListItem>, ghost before: ListItem,
                    ghost after: ListItem)
      requires Valid() && i < |nodes| && item == nodes[i] && |rest| == |nodes| - 1
      requires forall x :: x in rest ==> x in nodes && x != item
      requires [xListEnd] + rest == Ring()[..i + 1] + Ring()[i + 2..]
      requires before == Ring()[i] && after == Behind(Ring(), i + 1)
      modifies this, item`pvContainer, before`pxNext, after`pxPrevious
      ensures Valid() && nodes == rest && position == (if old(position) > i then old(position) - 1 else old(position))
      ensures item.pvContainer == null
    {
      hide Closed, Behind;
      Unhook(item, Ring(), i + 1, position, before, after, [xListEnd] + rest);
      item.pvContainer := null;
      uxNumberOfItems := uxNumberOfItems - 1;
      nodes, position := rest, if position > i then position - 1 else position;
    }

    /** uxListRemove on an item of this list */
    method Remove(item: ListItem) returns (left: nat)
      requires Valid() && item in nodes
      modifies this, item`pvContainer
      modifies xListEnd`pxNext, xListEnd`pxPrevious, nodes`pxNext, nodes`pxPrevious
      ensures Valid() && State() == Rings.Remove(old(State()), item) && left == |nodes|
      ensures item.pvContainer == null
    {
      hide Closed, Rings.Remove, Behind;
      ghost var i, ring := Sequences.IndexOf(nodes, item), Ring();
      RemoveIs(nodes, position, item);
      OthersStay(ring, nodes, i);
      RingWithout(xListEnd, nodes, i);
      InRing(xListEnd, nodes, i);
      RemoveAt(item, i, nodes[..i] + nodes[i + 1..], ring[i], Behind(ring, i + 1));
      left := uxNumberOfItems;
    }

    /** listGET_OWNER_OF_NEXT_ENTRY on a list that is not empty */
    method NextEntry() returns (owner: Id)
      requires Valid() && nodes != []
      modifies `pxIndex, `position
      ensures Valid() && State() == Rings.Next(old(State())) && 1 <= position <= |nodes|
      ensures owner == Rings.Current(State()).pvOwner
    {
      hide Closed;
      ghost var ring := Ring();
      Neighbours(ring, position);
      Neighbours(ring, 0);
      pxIndex := pxIndex.pxNext;
      EndOnlyFirst(ring);
      if pxIndex == xListEnd {
        pxIndex := pxIndex.pxNext;
      }
      position := if position >= |nodes| then 1 else position + 1;
      owner := pxIndex.pvOwner;
    }
  }

  ghost function ItemsOf(nodes: seq<ListItem>): (s: seq<Item>)
    reads nodes`xItemValue
    ensures |s| == |nodes| && forall i :: 0 <= i < |nodes| ==> s[i] == Item(nodes[i].xItemValue, nodes[i].pvOwner)
  {
    if nodes == [] then [] else [Item(nodes[0].xItemValue, nodes[0].pvOwner)] + ItemsOf(nodes[1..])
  }

  lemma ItemsInserted(before: seq<Item>, after: seq<Item>, x: Item, p: nat)
    requires p <= |before| && |after| == |before| + 1 && after[p] == x
    requires forall i :: 0 <= i < p ==> after[i] == before[i]
    requires forall i :: p < i < |after| ==> after[i] == before[i - 1]
    ensures after == before[..p] + [x] + before[p..]
  {
  }

  lemma PositionIs(s: seq<Item>, value: Tick, p: nat)
    requires p <= |s| && (forall i :: 0 <= i < p ==> s[i].value <= value) && (p < |s| ==> value < s[p].value)
    ensures Lists.Position(s, value) == p
  {
    var q := Lists.Position(s, value);
    assert !(q < p);
  }

  lemma InSequence(s: seq<ListItem>, x: ListItem)
    requires x in s
    ensures Sequences.IndexOf(s, x) < |s|
  {
    if s[0] != x {
      InSequence(s[1..], x);
    }
  }

  lemma OnlyThere(ring: seq<ListItem>, p: nat, q: nat)
    requires Closed(ring) && p < |ring| && q < |ring|
    ensures ring[p] == ring[q] <==> p == q
  {
  }

  lemma InRing(end: ListItem, nodes: seq<ListItem>, i: nat)
    requires i < |nodes|
    ensures var ring := [end] + nodes;
      && ring[i + 1] == nodes[i] && (ring[i] == end || ring[i] in nodes)
      && (Behind(ring, i + 1) == end || Behind(ring, i + 1) in nodes)
  {
  }

  lemma RingWithout(end: ListItem, nodes: seq<ListItem>, i: nat)
    requires i < |nodes|
    ensures [end] + (nodes[..i] + nodes[i + 1..]) == ([end] + nodes)[..i + 1] + ([end] + nodes)[i + 2..]
  {
  }

  lemma RemoveIs(nodes: seq<ListItem>, position: nat, item: ListItem)
    requires item in nodes
    ensures var i := Sequences.IndexOf(nodes, item);
      && i < |nodes|
      && Rings.Remove(Rings.Ring(nodes, position), item) ==
         Rings.Ring(nodes[..i] + nodes[i + 1..], if position > i then position - 1 else position)
  {
    InSequence(nodes, item);
  }

  lemma RemoveFacts(ring: seq<ListItem>, p: nat, q: nat)
    requires Closed(ring) && 0 < p < |ring| && q < |ring|
    ensures ring[p].pxPrevious == ring[p - 1] != ring[p] && ring[p].pxNext == Behind(ring, p) != ring[p]
    ensures ring[p] == ring[q] <==> p == q
    ensures var r := ring[..p] + ring[p + 1..];
      r[if q >= p then q - 1 else q] == if q == p then ring[p - 1] else ring[q]
  {
    hide Linked;
    Neighbours(ring, p);
  }

  lemma OthersStay(ring: seq<ListItem>, nodes: seq<ListItem>, i: nat)
    requires Closed(ring) && i < |nodes| && |ring| == |nodes| + 1 && ring[1..] == nodes
    ensures forall x :: x in nodes[..i] + nodes[i + 1..] ==> x in nodes && x != nodes[i]
  {
    var rest := nodes[..i] + nodes[i + 1..];
    forall j | 0 <= j < |rest| ensures rest[j] in nodes && rest[j] != nodes[i] {
      var k := if j < i then j else j + 1;
      assert rest[j] == nodes[k] == ring[k + 1] && ring[i + 1] == nodes[i];
    }
  }

  lemma EndOnlyFirst(ring: seq<ListItem>)
    requires Closed(ring)
    ensures forall i :: 0 < i < |ring| ==> ring[i] != ring[0]
  {
  }

  ghost predicate Linked(a: ListItem, b: ListItem)
    reads a`pxNext, b`pxPrevious
  {
    a.pxNext == b && b.pxPrevious == a
  }

  /** Each item is linked to the next and back, all round, and none comes twice. */
  ghost predicate Closed(ring: seq<ListItem>)
    reads ring`pxNext, ring`pxPrevious
  {
    && ring != [] && Linked(ring[|ring| - 1], ring[0])
    && (forall i, j :: 0 <= i < j < |ring| ==> ring[i] != ring[j])
    && (forall i :: 0 < i < |ring| ==> Linked(ring[i - 1], ring[i]))
  }

  ghost function Behind(ring: seq<ListItem>, p: nat): ListItem
    requires p < |ring|
  {
    if p + 1 < |ring| then ring[p + 1] else ring[0]
  }

  /** The links of one new item between two neighbours; the ring gains it at that place. */
  method LinkBetween(ghost ring: seq<ListItem>, ghost p: nat, before: ListItem, item: ListItem, after: ListItem)
    requires Closed(ring) && p < |ring| && before == ring[p] && after == Behind(ring, p) && item !in ring
    modifies item`pxNext, item`pxPrevious, before`pxNext, after`pxPrevious
    ensures Closed(ring[..p + 1] + [item] + ring[p + 1..])
  {
    item.pxNext := after;
    item.pxPrevious := before;
    before.pxNext := item;
    after.pxPrevious := item;
    ghost var r := ring[..p + 1] + [item] + ring[p + 1..];
    assert forall i :: 0 <= i <= p ==> r[i] == ring[i];
    assert forall i :: p + 1 < i < |r| ==> r[i] == ring[i - 1];
    forall i | 0 < i < |r| ensures Linked(r[i - 1], r[i]) {
      if i <= p {
        assert Linked(ring[i - 1], ring[i]);
      } else if i > p + 2 {
        assert Linked(ring[i - 2], ring[i - 1]);
      }
    }
  }

  /** The neighbours of an item are linked to each other; the ring loses it. */
  method Unlink(ghost ring: seq<ListItem>, ghost p: nat, before: ListItem, after: ListItem)
    requires Closed(ring) && 0 < p < |ring| && before == ring[p - 1] && after == Behind(ring, p)
    modifies before`pxNext, after`pxPrevious
    ensures Closed(ring[..p] + ring[p + 1..])
  {
    after.pxPrevious := before;
    before.pxNext := after;
    ghost var r := ring[..p] + ring[p + 1..];
    assert forall i :: 0 <= i < p ==> r[i] == ring[i];
    assert forall i :: p <= i < |r| ==> r[i] == ring[i + 1];
    forall i | 0 < i < |r| ensures Linked(r[i - 1], r[i]) {
      if i < p {
        assert Linked(ring[i - 1], ring[i]);
      } else if i > p {
        assert Linked(ring[i], ring[i + 1]);
      }
    }
  }

  lemma Neighbours(ring: seq<ListItem>, p: nat)
    requires Closed(ring) && p < |ring|
    ensures ring[p].pxNext == Behind(ring, p) && Behind(ring, p).pxPrevious == ring[p]
    ensures ring[p].pxPrevious == if p == 0 then ring[|ring| - 1] else ring[p - 1]
  {
    if p + 1 < |ring| {
      assert Linked(ring[p + 1 - 1], ring[p + 1]);
    }
    if p > 0 {
      assert Linked(ring[p - 1], ring[p]);
    }
  }
}
