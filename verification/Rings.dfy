/**
 A kernel list with its walking index as a value: the items from the entry behind the end marker on, and the position
 of pxIndex, which is zero at the end marker and `k` at the k-th item.
 */
module Rings {
  import opened Sequences

  datatype Ring<T> = Ring(nodes: seq<T>, index: nat)

  ghost predicate InRange<T>(r: Ring<T>) {
    r.index <= |r.nodes|
  }

  /** vListInsertEnd: in front of pxIndex */
  function InsertEnd<T>(r: Ring<T>, x: T): Ring<T> {
    if r.index == 0 || r.index > |r.nodes| then Ring(r.nodes + [x], r.index)
    else Ring(r.nodes[..r.index - 1] + [x] + r.nodes[r.index - 1..], r.index + 1)
  }

  /** uxListRemove: an index at the item moves to the one before it. */
  function Remove<T(==)>(r: Ring<T>, x: T): Ring<T> {
    var i := IndexOf(r.nodes, x);
    if i == |r.nodes| then r
    else Ring(r.nodes[..i] + r.nodes[i + 1..], if r.index > i then r.index - 1 else r.index)
  }

  /** listGET_OWNER_OF_NEXT_ENTRY: the index moves on and skips the end marker. */
  function Next<T>(r: Ring<T>): Ring<T> {
    Ring(r.nodes, if r.index >= |r.nodes| then 1 else r.index + 1)
  }

  /** The item pxIndex has moved to */
  function Current<T>(r: Ring<T>): T
    requires 1 <= r.index <= |r.nodes|
  {
    r.nodes[r.index - 1]
  }

  function Advance<T>(r: Ring<T>, k: nat): Ring<T> {
    if k == 0 then r else Next(Advance(r, k - 1))
  }

  /** The items in the order in which they will be taken next; the one taken last comes last again. */
  function Upcoming<T>(r: Ring<T>): seq<T>
    requires r.index <= |r.nodes|
  {
    r.nodes[r.index..] + r.nodes[..r.index]
  }

  /** The same from the item that pxIndex is at */
  function Rotation<T>(r: Ring<T>): seq<T>
    requires r.index <= |r.nodes|
  {
    if r.index == 0 then r.nodes else r.nodes[r.index - 1..] + r.nodes[..r.index - 1]
  }

  /** Going round takes each item once, in the order announced, and comes back to where it was. */
  lemma {:induction false} RoundRobin<T>(r: Ring<T>, k: nat)
    requires InRange(r) && 1 <= k <= |r.nodes|
    ensures var a := Advance(r, k);
      && a.nodes == r.nodes && a.index == (if r.index + k <= |r.nodes| then r.index + k else r.index + k - |r.nodes|)
      && 1 <= a.index <= |r.nodes| && Current(a) == Upcoming(r)[k - 1]
    ensures r.index != 0 ==> Advance(r, |r.nodes|) == r
  {
    Steps(r, k);
    Steps(r, |r.nodes|);
  }

  lemma {:induction false} Steps<T>(r: Ring<T>, k: nat)
    requires InRange(r) && 1 <= k <= |r.nodes|
    ensures Advance(r, k) ==
            Ring(r.nodes, if r.index + k <= |r.nodes| then r.index + k else r.index + k - |r.nodes|)
  {
    if k > 1 {
      Steps(r, k - 1);
    } else {
      assert Advance(r, 0) == r;
    }
  }

  /** A new item comes last, counted from the item that was taken last. */
  lemma InsertedLast<T>(r: Ring<T>, x: T)
    requires InRange(r)
    ensures InRange(InsertEnd(r, x)) && Rotation(InsertEnd(r, x)) == Rotation(r) + [x]
  {
  }

  /** No other item loses or changes its turn when one is removed: the coming turns are the same without that one. */
  lemma RemovedKeepsTurns<T>(r: Ring<T>, x: T) returns (before: seq<T>, after: seq<T>)
    requires InRange(r) && IndexOf(r.nodes, x) < |r.nodes|
    ensures InRange(Remove(r, x))
    ensures Upcoming(r) == before + [x] + after && Upcoming(Remove(r, x)) == before + after
  {
    hide Upcoming;
    var i := IndexOf(r.nodes, x);
    if i < r.index {
      var a, b, c := r.nodes[..i], r.nodes[i + 1..r.index], r.nodes[r.index..];
      before, after := c + a, b;
      PartsBefore(r.nodes, i, r.index);
      TurnsOfParts(a, x, b, c);
    } else {
      var a, b, c := r.nodes[..r.index], r.nodes[r.index..i], r.nodes[i + 1..];
      before, after := b, c + a;
      PartsBehind(r.nodes, r.index, i);
      TurnsOfRest(a, b, x, c);
    }
  }

  lemma PartsBefore<T>(s: seq<T>, i: nat, k: nat)
    requires i < k <= |s|
    ensures s == (s[..i] + [s[i]] + s[i + 1..k]) + s[k..]
    ensures s[..i] + s[i + 1..] == (s[..i] + s[i + 1..k]) + s[k..]
  {
  }

  lemma PartsBehind<T>(s: seq<T>, k: nat, i: nat)
    requires k <= i < |s|
    ensures s == s[..k] + (s[k..i] + [s[i]] + s[i + 1..])
    ensures s[..i] + s[i + 1..] == s[..k] + (s[k..i] + s[i + 1..])
  {
  }

  lemma TurnsOfParts<T>(a: seq<T>, x: T, b: seq<T>, c: seq<T>)
    ensures Upcoming(Ring((a + [x] + b) + c, |a| + 1 + |b|)) == (c + a) + [x] + b
    ensures Upcoming(Ring((a + b) + c, |a| + |b|)) == (c + a) + b
  {
  }

  lemma TurnsOfRest<T>(a: seq<T>, b: seq<T>, x: T, c: seq<T>)
    ensures Upcoming(Ring(a + (b + [x] + c), |a|)) == b + [x] + (c + a)
    ensures Upcoming(Ring(a + (b + c), |a|)) == b + (c + a)
  {
  }
}
