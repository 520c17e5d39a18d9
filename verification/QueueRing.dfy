/**
 The storage area of queue.c as a value: a ring of slots of uxItemSize bytes each, read as a deque.
 */
module QueueRing {
  import opened Arithmetic
  import opened Bytes

  type Item = seq<byte>

  /** The bytes of slot `k`; a queue with items of size zero (a semaphore) has empty slots. */
  function Slot(bytes: seq<byte>, size: nat, k: nat): Item
    requires (k + 1) * size <= |bytes|
  {
    SlotBounds(size, k);
    bytes[k * size..(k + 1) * size]
  }

  lemma SlotBounds(size: nat, k: nat)
    ensures 0 <= k * size <= (k + 1) * size == k * size + size
  {
  }

  lemma SlotFits(size: nat, k: nat, length: nat)
    requires k < length
    ensures (k + 1) * size <= length * size
  {
    assert length * size == (k + 1) * size + (length - k - 1) * size;
  }

  /**
   The items lie one after the other from the slot behind `r`, the slot that was read last; pcWriteTo is the slot
   behind the last item.
   */
  ghost predicate Stores(bytes: seq<byte>, size: nat, length: nat, writeTo: nat, readFrom: nat, r: nat,
                         items: seq<Item>) {
    && |bytes| == length * size && |items| <= length && r < length
    && readFrom == r * size && writeTo == Around(r + 1 + |items|, length) * size
    && forall i :: 0 <= i < |items| ==> HasSlot(bytes, size, Around(r + 1 + i, length), items[i])
  }

  ghost predicate HasSlot(bytes: seq<byte>, size: nat, k: nat, item: Item) {
    (k + 1) * size <= |bytes| && Slot(bytes, size, k) == item
  }

  function Around(k: nat, length: nat): (r: nat)
    requires 0 < length
    ensures r < length
  {
    k % length
  }

  lemma AroundNext(k: nat, length: nat)
    requires 0 < length
    ensures Around(k + 1, length) == if Around(k, length) + 1 == length then 0 else Around(k, length) + 1
    ensures k < length ==> Around(k, length) == k
    ensures Around(k + length, length) == Around(k, length)
  {
    hide Around;
    var q := Turns(k, length);
    var r := Around(k, length);
    Spread(q, 1, length);
    if r + 1 == length {
      AroundIs(k + 1, q + 1, 0, length);
    } else {
      AroundIs(k + 1, q, r + 1, length);
    }
    AroundIs(k + length, q + 1, r, length);
    if k < length {
      AroundIs(k, 0, k, length);
    }
  }

  lemma Turns(k: nat, length: nat) returns (q: nat)
    requires 0 < length
    ensures k == q * length + Around(k, length)
  {
    q := k / length;
  }

  lemma AroundIs(k: nat, q: nat, r: nat, length: nat)
    requires r < length && k == q * length + r
    ensures Around(k, length) == r
  {
    Divides(q, r, length);
  }

  /** Distinct places of a window no longer than the ring are distinct slots. */
  lemma AroundDistinct(a: nat, b: nat, length: nat)
    requires a < b < a + length
    ensures Around(a, length) != Around(b, length)
  {
    var q, r := a / length, a % length;
    assert a == q * length + r;
    if r + (b - a) < length {
      Divides(q, r + (b - a), length);
    } else {
      assert b == (q + 1) * length + (r + (b - a) - length);
      Divides(q + 1, r + (b - a) - length, length);
    }
  }

  /** memcpy to the start of slot `k` */
  function Written(bytes: seq<byte>, size: nat, k: nat, item: Item): seq<byte>
    requires (k + 1) * size <= |bytes|
  {
    SlotBounds(size, k);
    bytes[..k * size] + item + bytes[k * size + size..]
  }

  lemma WrittenSlots(bytes: seq<byte>, size: nat, length: nat, k: nat, item: Item, j: nat)
    requires |bytes| == length * size && k < length && j < length && |item| == size
    requires (k + 1) * size <= |bytes|
    ensures |Written(bytes, size, k, item)| == |bytes|
    ensures HasSlot(Written(bytes, size, k, item), size, k, item)
    ensures forall x :: j != k && HasSlot(bytes, size, j, x) ==> HasSlot(Written(bytes, size, k, item), size, j, x)
  {
    SlotBounds(size, k);
    SlotFits(size, j, length);
    SlotBounds(size, j);
    var w := Written(bytes, size, k, item);
    assert w[k * size..(k + 1) * size] == item;
    if j < k {
      SlotFits(size, j, k);
      assert w[j * size..(j + 1) * size] == bytes[j * size..(j + 1) * size];
    } else if j > k {
      SlotFits(size, k, j);
      assert w[j * size..(j + 1) * size] == bytes[j * size..(j + 1) * size];
    }
  }

  /** A pointer moved on by the item size, with the wrap at pcTail; a queue without storage does not move it. */
  function Forward(pointer: nat, size: nat, tail: nat): nat {
    if size == 0 then pointer else if pointer + size >= tail then 0 else pointer + size
  }

  /** A pointer moved back by the item size, with the wrap at pcHead. */
  function Backward(pointer: nat, size: nat, tail: nat): nat
    requires size <= tail
  {
    if size == 0 then pointer else if pointer < size then tail - size else pointer - size
  }

  lemma Moves(size: nat, length: nat, k: nat)
    requires k < length
    ensures size <= length * size
    ensures Forward(k * size, size, length * size) == (if k + 1 == length then 0 else k + 1) * size
    ensures Backward(k * size, size, length * size) == (if k == 0 then length - 1 else k - 1) * size
  {
    SlotFits(size, k, length);
    SlotFits(size, 0, length);
    SlotBounds(size, k);
    SlotBounds(size, length - 1);
    if k + 1 < length {
      SlotFits(size, k + 1, length);
    }
    if k > 0 {
      SlotBounds(size, k - 1);
    }
  }

  /** prvCopyDataToQueue, to the back */
  lemma StoreBack(bytes: seq<byte>, size: nat, length: nat, writeTo: nat, readFrom: nat, r: nat, items: seq<Item>,
                  item: Item)
    requires Stores(bytes, size, length, writeTo, readFrom, r, items) && |items| < length && |item| == size
    ensures var k := Around(r + 1 + |items|, length);
      && writeTo == k * size && (k + 1) * size <= |bytes|
      && Stores(Written(bytes, size, k, item), size, length, (if k + 1 == length then 0 else k + 1) * size, readFrom, r,
                items + [item])
  {
    var k := Around(r + 1 + |items|, length);
    SlotFits(size, k, length);
    AroundNext(r + 1 + |items|, length);
    var after := items + [item];
    assert r + 1 + |after| == r + 1 + |items| + 1;
    forall i | 0 <= i < |after|
      ensures HasSlot(Written(bytes, size, k, item), size, Around(r + 1 + i, length), after[i])
    {
      WrittenSlots(bytes, size, length, k, item, Around(r + 1 + i, length));
      if i < |items| {
        AroundDistinct(r + 1 + i, r + 1 + |items|, length);
        assert HasSlot(bytes, size, Around(r + 1 + i, length), items[i]);
      }
    }
    WrittenSlots(bytes, size, length, k, item, k);
  }

  /** prvCopyDataToQueue, to the front: `kept` is what stays, nothing when the one item of the queue is overwritten. */
  lemma StoreFront(bytes: seq<byte>, size: nat, length: nat, writeTo: nat, readFrom: nat, r: nat, items: seq<Item>,
                   kept: seq<Item>, item: Item)
    requires Stores(bytes, size, length, writeTo, readFrom, r, items) && |item| == size
    requires (kept == items && |items| < length) || (kept == [] && length == 1)
    ensures (r + 1) * size <= |bytes|
    ensures var r' := if r == 0 then length - 1 else r - 1;
      Stores(Written(bytes, size, r, item), size, length, writeTo, r' * size, r', [item] + kept)
  {
    SlotFits(size, r, length);
    var r', after := if r == 0 then length - 1 else r - 1, [item] + kept;
    if r == 0 {
      AroundNext(0, length);
      AroundNext(1 + |kept|, length);
    }
    AroundNext(r, length);
    AroundNext(r + 1, length);
    forall i | 0 <= i < |after|
      ensures HasSlot(Written(bytes, size, r, item), size, Around(r' + 1 + i, length), after[i])
    {
      AroundNext(r + i, length);
      assert Around(r' + 1 + i, length) == Around(r + i, length);
      WrittenSlots(bytes, size, length, r, item, Around(r + i, length));
      if i > 0 {
        AroundDistinct(r, r + i, length);
        assert HasSlot(bytes, size, Around(r + 1 + (i - 1), length), items[i - 1]);
      }
    }
    WrittenSlots(bytes, size, length, r, item, r);
    assert Around(r' + 1 + |after|, length) == Around(r + 1 + |items|, length) by {
      AroundNext(r + 1 + |kept|, length);
      if kept != items && |items| == 1 {
        assert length == 1;
      }
    }
  }

  /** prvCopyDataFromQueue steps to the first item; dropping that item is all that receiving it takes. */
  lemma TakeFront(bytes: seq<byte>, size: nat, length: nat, writeTo: nat, readFrom: nat, r: nat, items: seq<Item>)
    requires Stores(bytes, size, length, writeTo, readFrom, r, items) && items != []
    ensures var r' := if r + 1 == length then 0 else r + 1;
      HasSlot(bytes, size, r', items[0]) && Stores(bytes, size, length, writeTo, r' * size, r', items[1..])
  {
    var r' := if r + 1 == length then 0 else r + 1;
    AroundNext(r, length);
    assert r' == Around(r + 1, length);
    assert HasSlot(bytes, size, Around(r + 1 + 0, length), items[0]);
    forall i | 0 <= i < |items[1..]| ensures HasSlot(bytes, size, Around(r' + 1 + i, length), items[1..][i]) {
      AroundNext(1 + i, length);
      assert Around(r' + 1 + i, length) == Around(r + 1 + (i + 1), length);
      assert HasSlot(bytes, size, Around(r + 1 + (i + 1), length), items[i + 1]);
    }
    AroundNext(|items|, length);
    assert Around(r' + 1 + |items[1..]|, length) == Around(r + 1 + |items|, length);
  }

  lemma StoresNothing(bytes: seq<byte>, size: nat, length: nat)
    requires 0 < length && |bytes| == length * size
    ensures Stores(bytes, size, length, 0, (length - 1) * size, length - 1, [])
  {
    AroundNext(length - 1, length);
  }

  // The same in terms of the pointers

  lemma PutBack(bytes: seq<byte>, size: nat, length: nat, writeTo: nat, readFrom: nat, r: nat, items: seq<Item>,
                item: Item)
    requires Stores(bytes, size, length, writeTo, readFrom, r, items) && |items| < length && |item| == size
    ensures writeTo + size <= |bytes|
    ensures Stores(Splice(bytes, writeTo, item), size, length, Forward(writeTo, size, |bytes|), readFrom, r,
                   items + [item])
  {
    hide Stores;
    StoreBack(bytes, size, length, writeTo, readFrom, r, items, item);
    StoresBounds(bytes, size, length, writeTo, readFrom, r, items);
    var k := Around(r + 1 + |items|, length);
    SlotBounds(size, k);
    Moves(size, length, k);
  }

  lemma PutFront(bytes: seq<byte>, size: nat, length: nat, writeTo: nat, readFrom: nat, r: nat, items: seq<Item>,
                 kept: seq<Item>, item: Item)
    requires Stores(bytes, size, length, writeTo, readFrom, r, items) && |item| == size
    requires (kept == items && |items| < length) || (kept == [] && length == 1)
    ensures readFrom + size <= |bytes|
    ensures var r' := if r == 0 then length - 1 else r - 1;
      Stores(Splice(bytes, readFrom, item), size, length, writeTo, Backward(readFrom, size, |bytes|), r', [item] + kept)
  {
    hide Stores;
    StoreFront(bytes, size, length, writeTo, readFrom, r, items, kept, item);
    StoresBounds(bytes, size, length, writeTo, readFrom, r, items);
    SlotBounds(size, r);
    Moves(size, length, r);
  }

  lemma TakeNext(bytes: seq<byte>, size: nat, length: nat, writeTo: nat, readFrom: nat, r: nat, items: seq<Item>)
    requires Stores(bytes, size, length, writeTo, readFrom, r, items) && items != []
    ensures var r', next := if r + 1 == length then 0 else r + 1, Forward(readFrom, size, |bytes|);
      && next + size <= |bytes| && bytes[next..next + size] == items[0]
      && Stores(bytes, size, length, writeTo, next, r', items[1..])
  {
    hide Stores;
    TakeFront(bytes, size, length, writeTo, readFrom, r, items);
    StoresBounds(bytes, size, length, writeTo, readFrom, r, items);
    SlotBounds(size, if r + 1 == length then 0 else r + 1);
    Moves(size, length, r);
  }

  lemma StoresBounds(bytes: seq<byte>, size: nat, length: nat, writeTo: nat, readFrom: nat, r: nat, items: seq<Item>)
    requires Stores(bytes, size, length, writeTo, readFrom, r, items)
    ensures |bytes| == length * size && r < length && readFrom == r * size && |items| <= length
  {
  }
}
