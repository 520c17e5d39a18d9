/**
 The bits of an event group and the control bits that event_groups.c keeps beside them in a task's event list item.
 */
module EventBits {
  import Lists

  type Id = Lists.Id

  /** EventBits_t, with configUSE_16_BIT_TICKS == 0 */
  type Bits = bv32

  const CLEAR_EVENTS_ON_EXIT_BIT: Bits := 0x0100_0000
  const UNBLOCKED_DUE_TO_BIT_SET: Bits := 0x0200_0000
  const WAIT_FOR_ALL_BITS: Bits := 0x0400_0000
  const CONTROL_BYTES: Bits := 0xff00_0000

  /** taskEVENT_LIST_ITEM_VALUE_IN_USE */
  const VALUE_IN_USE: Bits := 0x8000_0000

  /** A task on xTasksWaitingForBits and the value of its event list item. */
  datatype Waiter = Waiter(task: Id, value: Bits)

  /** Only the lower 24 bits are event bits. */
  predicate Plain(bits: Bits) {
    bits & CONTROL_BYTES == 0
  }

  function EventBitsOf(value: Bits): Bits {
    value & !CONTROL_BYTES
  }

  /** prvTestWaitCondition */
  predicate TestWaitCondition(current: Bits, waitFor: Bits, all: bool) {
    if all then current & waitFor == waitFor else current & waitFor != 0
  }

  predicate WaitsForAll(value: Bits) {
    value & WAIT_FOR_ALL_BITS != 0
  }

  predicate ClearsOnExit(value: Bits) {
    value & CLEAR_EVENTS_ON_EXIT_BIT != 0
  }

  predicate Unblocked(value: Bits) {
    value & UNBLOCKED_DUE_TO_BIT_SET != 0
  }

  predicate Satisfied(value: Bits, current: Bits) {
    TestWaitCondition(current, EventBitsOf(value), WaitsForAll(value))
  }

  /** What vTaskPlaceOnUnorderedEventList stores in the event list item. */
  function WaitValue(waitFor: Bits, clearOnExit: bool, all: bool): Bits {
    waitFor | (if clearOnExit then CLEAR_EVENTS_ON_EXIT_BIT else 0)
    | (if all then WAIT_FOR_ALL_BITS else 0) | VALUE_IN_USE
  }

  /** What vTaskRemoveFromUnorderedEventList stores there when bits were set. */
  function Snapshot(current: Bits): Bits {
    current | UNBLOCKED_DUE_TO_BIT_SET | VALUE_IN_USE
  }

  /** What a task waits for: that no bit is missing of those it waits for, or that they are not all missing. */
  lemma WaitConditionMeans(current: Bits, waitFor: Bits, all: bool)
    ensures TestWaitCondition(current, waitFor, all) <==>
            if all then Without(waitFor, current) == 0 else !Avoids(current, waitFor)
  {
    if all {
      MissingNone(current, waitFor);
    }
  }

  lemma MissingNone(current: Bits, waitFor: Bits)
    ensures current & waitFor == waitFor ==> Without(waitFor, current) == 0
    ensures Without(waitFor, current) == 0 ==> current & waitFor == waitFor
  {
  }

  /** Bits are plain exactly if they lie in the lower three bytes. */
  lemma PlainIsBelow(bits: Bits)
    ensures Plain(bits) <==> bits < 0x0100_0000
    ensures EventBitsOf(bits) < 0x0100_0000 && bits - EventBitsOf(bits) == bits & 0xff00_0000
  {
  }

  /** Event bits and control bits do not get in each other's way. */
  lemma WaitValueRoundTrip(waitFor: Bits, clearOnExit: bool, all: bool)
    requires Plain(waitFor)
    ensures var v := WaitValue(waitFor, clearOnExit, all);
      && EventBitsOf(v) == waitFor && (ClearsOnExit(v) <==> clearOnExit) && (WaitsForAll(v) <==> all) && !Unblocked(v)
  {
  }

  lemma SnapshotRoundTrip(current: Bits)
    requires Plain(current)
    ensures EventBitsOf(Snapshot(current)) == current && Unblocked(Snapshot(current))
  {
  }

  /** No condition that does not hold comes to hold when bits are cleared. */
  lemma ClearingSatisfiesNothing(value: Bits, current: Bits, clear: Bits)
    ensures Satisfied(value, Without(current, clear)) ==> Satisfied(value, current)
  {
  }

  lemma PlainKept(a: Bits, b: Bits)
    requires Plain(a)
    ensures Plain(b) ==> Plain(Or(a, b))
    ensures Plain(Without(a, b))
  {
  }

  // The waiters whose condition holds, those whose condition does not, and what the former clear

  function Released(list: seq<Waiter>, current: Bits): seq<Waiter> {
    if list == [] then []
    else (if Satisfied(list[0].value, current) then [list[0]] else []) + Released(list[1..], current)
  }

  function Kept(list: seq<Waiter>, current: Bits): seq<Waiter> {
    if list == [] then []
    else (if Satisfied(list[0].value, current) then [] else [list[0]]) + Kept(list[1..], current)
  }

  lemma NothingLeft(list: seq<Waiter>, current: Bits)
    requires list == []
    ensures Released(list, current) == [] && Kept(list, current) == [] && ToClear(list, current) == 0
  {
  }

  function Or(a: Bits, b: Bits): Bits {
    a | b
  }

  function Without(bits: Bits, clear: Bits): Bits {
    bits & !clear
  }

  /** No bit of `mask` is among the bits. */
  predicate Avoids(bits: Bits, mask: Bits) {
    bits & mask == 0
  }

  /** What one waiter clears */
  function Clearing(value: Bits, current: Bits): Bits {
    if Satisfied(value, current) && ClearsOnExit(value) then EventBitsOf(value) else 0
  }

  function ToClear(list: seq<Waiter>, current: Bits): Bits {
    if list == [] then 0 else Or(Clearing(list[0].value, current), ToClear(list[1..], current))
  }

  ghost predicate DistinctTasks(list: seq<Waiter>) {
    forall i, j :: 0 <= i < j < |list| ==> list[i].task != list[j].task
  }

  lemma {:induction false} Members(list: seq<Waiter>, current: Bits)
    ensures forall w :: w in Released(list, current) <==> w in list && Satisfied(w.value, current)
    ensures forall w :: w in Kept(list, current) <==> w in list && !Satisfied(w.value, current)
  {
    hide Satisfied;
    if list != [] {
      Members(list[1..], current);
      assert list == [list[0]] + list[1..];
    }
  }

  lemma {:induction false} KeptDistinct(list: seq<Waiter>, current: Bits)
    requires DistinctTasks(list)
    ensures DistinctTasks(Kept(list, current))
  {
    hide Satisfied;
    if list != [] {
      assert list == [list[0]] + list[1..];
      KeptDistinct(list[1..], current);
      Members(list[1..], current);
      forall w | w in Kept(list[1..], current) ensures w.task != list[0].task {
        var i :| 0 <= i < |list[1..]| && list[1..][i] == w;
        assert list[i + 1] == w;
      }
    }
  }

  /** The waiters that stay keep their order: of any two, the one that was first still is. */
  lemma {:induction false} KeptOrder(list: seq<Waiter>, current: Bits, i: nat, j: nat)
    requires i < j < |list| && !Satisfied(list[i].value, current) && !Satisfied(list[j].value, current)
    ensures exists a, b :: 0 <= a < b < |Kept(list, current)| && Kept(list, current)[a] == list[i]
                           && Kept(list, current)[b] == list[j]
  {
    hide Satisfied;
    var rest, first := Kept(list[1..], current), if Satisfied(list[0].value, current) then [] else [list[0]];
    assert Kept(list, current) == first + rest;
    if i == 0 {
      Members(list[1..], current);
      assert list[1..][j - 1] == list[j];
      var b :| 0 <= b < |rest| && rest[b] == list[j];
      assert (first + rest)[0] == list[i] && (first + rest)[b + 1] == list[j];
    } else {
      KeptOrder(list[1..], current, i - 1, j - 1);
      var a, b :| 0 <= a < b < |rest| && rest[a] == list[1..][i - 1] && rest[b] == list[1..][j - 1];
      assert (first + rest)[a + |first|] == list[i] && (first + rest)[b + |first|] == list[j];
    }
  }

  /** Exactly the bits of released waiters that clear on exit are cleared; `mask` is any selection of bits. */
  lemma {:induction false} ToClearIsUnion(list: seq<Waiter>, current: Bits, mask: Bits)
    ensures Avoids(ToClear(list, current), mask) <==> forall w :: w in list ==> Avoids(Clearing(w.value, current), mask)
  {
    hide Clearing, Or, Avoids;
    if list == [] {
      NothingInZero(mask);
    } else {
      ToClearIsUnion(list[1..], current, mask);
      assert list == [list[0]] + list[1..];
      OrAvoids(Clearing(list[0].value, current), ToClear(list[1..], current), mask);
    }
  }

  lemma NothingInZero(mask: Bits)
    ensures Avoids(0, mask)
  {
  }

  lemma OrAvoids(a: Bits, b: Bits, mask: Bits)
    ensures Avoids(Or(a, b), mask) <==> Avoids(a, mask) && Avoids(b, mask)
  {
    hide Avoids, Or;
    OrAvoidsParts(a, b, mask);
    PartsAvoid(a, b, mask);
  }

  lemma OrAvoidsParts(a: Bits, b: Bits, mask: Bits)
    ensures Avoids(Or(a, b), mask) ==> Avoids(a, mask)
    ensures Avoids(Or(a, b), mask) ==> Avoids(b, mask)
  {
  }

  lemma PartsAvoid(a: Bits, b: Bits, mask: Bits)
    ensures Avoids(a, mask) && Avoids(b, mask) ==> Avoids(Or(a, b), mask)
  {
  }

  lemma Splits(list: seq<Waiter>, i: nat, current: Bits)
    requires i < |list|
    ensures Kept(list[i..], current) ==
      (if Satisfied(list[i].value, current) then [] else [list[i]]) + Kept(list[i + 1..], current)
    ensures Released(list[i..], current) ==
      (if Satisfied(list[i].value, current) then [list[i]] else []) + Released(list[i + 1..], current)
    ensures ToClear(list[i..], current) ==
      Or(Clearing(list[i].value, current), ToClear(list[i + 1..], current))
  {
    hide Satisfied, Clearing, Or;
    assert list[i..][0] == list[i] && list[i..][1..] == list[i + 1..];
  }
}
