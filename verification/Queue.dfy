/**
 The queues of queue.c: each method is a critical section, or code that runs with interrupts masked.
 */
module Queue {
  import opened Bytes
  import opened QueueRing
  import opened QueueHistory
  import opened QueueWakeups
  import opened QueueProtocol

  datatype Position = ToBack | ToFront | ToOverwrite

  function OpOf(x: QueueRing.Item, position: Position): Op<QueueRing.Item> {
    match position
    case ToBack => Back(x)
    case ToFront => Front(x)
    case ToOverwrite => Overwrite(x)
  }

  class Queue {
    const uxLength: nat
    const uxItemSize: nat
    const storage: array<byte>
    var pcWriteTo: nat
    var pcReadFrom: nat
    var uxMessagesWaiting: nat
    var cRxLock: int
    var cTxLock: int
    var xTasksWaitingToSend: seq<Id>
    var xTasksWaitingToReceive: seq<Id>

    /** The slot read last, the contents as a deque, and the operations that led to them. */
    ghost var readSlot: nat
    ghost var items: seq<QueueRing.Item>
    ghost var history: seq<Op<QueueRing.Item>>

    /** The tasks taken off the event lists that have not run since, and the task that has the queue locked. */
    ghost var senders: set<Id>
    ghost var receivers: set<Id>
    ghost var phase: Phase

    ghost predicate Stored()
      reads `pcWriteTo, `pcReadFrom, `uxMessagesWaiting, `readSlot, `items, `history, storage
    {
      && 0 < uxLength && uxMessagesWaiting == |items| && items == Replay(history)
      && Stores(storage[..], uxItemSize, uxLength, pcWriteTo, pcReadFrom, readSlot, items)
    }

    ghost function Receivers(): Side
      reads `xTasksWaitingToReceive, `receivers, `cTxLock
    {
      Side(xTasksWaitingToReceive, receivers, cTxLock)
    }

    ghost function Senders(): Side
      reads `xTasksWaitingToSend, `senders, `cRxLock
    {
      Side(xTasksWaitingToSend, senders, cRxLock)
    }

    ghost predicate Valid()
      reads this, storage
    {
      && Stored()
      && Protocol(Receivers(), Senders(), uxMessagesWaiting, uxLength - uxMessagesWaiting, phase)
    }

    /** The task is running a call of its own: it waits on neither list and no other task has the queue locked. */
    ghost predicate Calls(t: Id)
      reads `phase, `xTasksWaitingToReceive, `xTasksWaitingToSend
    {
      phase.Free? && t !in xTasksWaitingToReceive && t !in xTasksWaitingToSend
    }

    constructor (length: nat, itemSize: nat)
      requires 0 < length
      ensures Valid() && items == [] && history == [] && uxLength == length && uxItemSize == itemSize && fresh(storage)
      ensures phase == Free && senders == {} && receivers == {}
      ensures xTasksWaitingToReceive == [] && xTasksWaitingToSend == []
    {
      uxLength, uxItemSize := length, itemSize;
      storage := new byte[length * itemSize](_ => 0);
      pcWriteTo, pcReadFrom, uxMessagesWaiting := 0, (length - 1) * itemSize, 0;
      cRxLock, cTxLock := UNLOCKED, UNLOCKED;
      xTasksWaitingToSend, xTasksWaitingToReceive := [], [];
      readSlot, items, history, senders, receivers, phase := length - 1, [], [], {}, {}, Free;
      new;
      StoresNothing(storage[..], itemSize, length);
    }

    /** To overwrite what a full queue without storage holds is counted as one message more than there can be. */
    ghost predicate Overcounts(position: Position)
      reads `uxMessagesWaiting
    {
      position.ToOverwrite? && uxItemSize == 0 && uxMessagesWaiting == uxLength
    }

    /** prvCopyDataToQueue for a queue or a semaphore */
    method CopyDataToQueue(x: QueueRing.Item, position: Position)
      requires Stored() && |x| == uxItemSize
      requires uxMessagesWaiting < uxLength || position.ToOverwrite?
      requires position.ToOverwrite? ==> uxLength == 1
      modifies storage, `pcWriteTo, `pcReadFrom, `uxMessagesWaiting, `readSlot, `items, `history
      ensures Stored() <==> !old(Overcounts(position))
      ensures Stored() ==> items == Apply(old(items), OpOf(x, position))
      ensures Stored() ==> history == old(history) + [OpOf(x, position)]
      ensures !Stored() ==>
        items == old(items) && history == old(history) && uxMessagesWaiting == old(uxMessagesWaiting) + 1
    {
      hide Stores, Replay, Splice;
      var messagesWaiting := uxMessagesWaiting;
      ghost var before, over := storage[..], Overcounts(position);
      ReplayNext(history, OpOf(x, position));
      StoresBounds(before, uxItemSize, uxLength, pcWriteTo, pcReadFrom, readSlot, items);
      if position.ToBack? {
        PutBack(before, uxItemSize, uxLength, pcWriteTo, pcReadFrom, readSlot, items, x);
        if uxItemSize == 0 {
          SpliceNothing(before, pcWriteTo);
        } else {
          Memcpy(storage, pcWriteTo, x);
          pcWriteTo := pcWriteTo + uxItemSize;
          if pcWriteTo >= storage.Length {
            pcWriteTo := 0;
          }
        }
      } else {
        ghost var kept := if position.ToOverwrite? then [] else items;
        PutFront(before, uxItemSize, uxLength, pcWriteTo, pcReadFrom, readSlot, items, kept, x);
        assert Apply(items, OpOf(x, position)) == [x] + kept;
        if uxItemSize == 0 {
          SpliceNothing(before, pcReadFrom);
        } else {
          Memcpy(storage, pcReadFrom, x);
          if pcReadFrom < uxItemSize {
            pcReadFrom := storage.Length - uxItemSize;
          } else {
            pcReadFrom := pcReadFrom - uxItemSize;
          }
          if position.ToOverwrite? && messagesWaiting > 0 {
            messagesWaiting := messagesWaiting - 1;
          }
        }
        readSlot := if readSlot == 0 then uxLength - 1 else readSlot - 1;
      }
      uxMessagesWaiting := messagesWaiting + 1;
      if !over {
        items, history := Apply(items, OpOf(x, position)), history + [OpOf(x, position)];
      }
    }

    /** prvCopyDataFromQueue: the first item, at the place the read pointer moves to */
    method CopyDataFromQueue() returns (buffer: QueueRing.Item)
      requires Stored() && items != []
      modifies `pcReadFrom
      ensures buffer == items[0] && pcReadFrom == Forward(old(pcReadFrom), uxItemSize, storage.Length)
    {
      hide Stores, Replay;
      TakeNext(storage[..], uxItemSize, uxLength, pcWriteTo, pcReadFrom, readSlot, items);
      StoresBounds(storage[..], uxItemSize, uxLength, pcWriteTo, pcReadFrom, readSlot, items);
      buffer := [];
      if uxItemSize != 0 {
        pcReadFrom := pcReadFrom + uxItemSize;
        if pcReadFrom >= storage.Length {
          pcReadFrom := 0;
        }
        buffer := storage[pcReadFrom..pcReadFrom + uxItemSize];
      }
    }

    /** The first item is taken, as a receiving task or interrupt does. */
    method Remove() returns (buffer: QueueRing.Item)
      requires Stored() && items != []
      modifies `pcReadFrom, `uxMessagesWaiting, `readSlot, `items, `history
      ensures Stored() && buffer == old(items)[0] && items == old(items)[1..] && history == old(history) + [Take]
    {
      hide Stores, Replay;
      ReplayNext(history, Take);
      TakeNext(storage[..], uxItemSize, uxLength, pcWriteTo, pcReadFrom, readSlot, items);
      buffer := CopyDataFromQueue();
      uxMessagesWaiting := uxMessagesWaiting - 1;
      readSlot := if readSlot + 1 == uxLength then 0 else readSlot + 1;
      items, history := items[1..], history + [Take];
    }

    /** The first item is copied and the read pointer set back. */
    method Peek() returns (buffer: QueueRing.Item)
      requires Stored() && items != []
      modifies `pcReadFrom
      ensures Stored() && buffer == items[0] && pcReadFrom == old(pcReadFrom)
    {
      hide Stores, Replay;
      var originalReadPosition := pcReadFrom;
      buffer := CopyDataFromQueue();
      pcReadFrom := originalReadPosition;
    }

    /**
     xQueueGenericReset of a queue in use: it is emptied, and one waiting sender is woken. No wake-up is lost if and
     only if no other sender waits, or as many are on their way as there is room for.
     */
    method Reset()
      requires Valid() && phase.Free?
      modifies `pcWriteTo, `pcReadFrom, `uxMessagesWaiting, `readSlot, `items, `history, `cRxLock, `cTxLock
      modifies `xTasksWaitingToSend, `senders
      ensures Stored() && items == [] && history == old(history) + [Clear]
      ensures Receivers() == old(Receivers()) && Senders() == WakeOne(old(Senders()))
      ensures Valid() <==> xTasksWaitingToSend == [] || uxLength <= |senders|
    {
      hide Protocol, WakeOne;
      Counts();
      Unlocked(Receivers(), Senders(), uxMessagesWaiting, uxLength - uxMessagesWaiting);
      Resets(Receivers(), Senders(), uxMessagesWaiting, uxLength - uxMessagesWaiting);
      Empty();
      cRxLock, cTxLock := UNLOCKED, UNLOCKED;
      WakeSender();
    }

    method Empty()
      requires Stored()
      modifies `pcWriteTo, `pcReadFrom, `uxMessagesWaiting, `readSlot, `items, `history
      ensures Stored() && items == [] && history == old(history) + [Clear] && uxMessagesWaiting == 0
    {
      hide Stores, Replay;
      ReplayNext(history, Clear);
      StoresBounds(storage[..], uxItemSize, uxLength, pcWriteTo, pcReadFrom, readSlot, items);
      StoresNothing(storage[..], uxItemSize, uxLength);
      pcWriteTo, pcReadFrom, uxMessagesWaiting := 0, (uxLength - 1) * uxItemSize, 0;
      readSlot, items, history := uxLength - 1, [], history + [Clear];
    }

    /** xTaskRemoveFromEventList for the list of waiting receivers, when it is not empty */
    method WakeReceiver()
      modifies `xTasksWaitingToReceive, `receivers
      ensures Receivers() == WakeOne(old(Receivers()))
    {
      if xTasksWaitingToReceive != [] {
        receivers := receivers + {xTasksWaitingToReceive[0]};
        xTasksWaitingToReceive := xTasksWaitingToReceive[1..];
      }
    }

    method WakeSender()
      modifies `xTasksWaitingToSend, `senders
      ensures Senders() == WakeOne(old(Senders()))
    {
      if xTasksWaitingToSend != [] {
        senders := senders + {xTasksWaitingToSend[0]};
        xTasksWaitingToSend := xTasksWaitingToSend[1..];
      }
    }

    /** The critical section of xQueueGenericSend */
    method Send(t: Id, x: QueueRing.Item, position: Position) returns (sent: bool)
      requires Valid() && Calls(t) && t !in receivers && |x| == uxItemSize
      requires position.ToOverwrite? ==> uxLength == 1
      modifies storage, `pcWriteTo, `pcReadFrom, `uxMessagesWaiting, `readSlot, `items, `history
      modifies `xTasksWaitingToReceive, `receivers, `senders
      ensures Valid() <==> !old(Overcounts(position))
      ensures sent <==> old(uxMessagesWaiting) < uxLength || position.ToOverwrite?
      ensures Valid() ==>
        && items == (if sent then Apply(old(items), OpOf(x, position)) else old(items))
        && history == if sent then old(history) + [OpOf(x, position)] else old(history)
      ensures Senders() == Retried(old(Senders()), t)
      ensures Receivers() == if sent then WakeOne(old(Receivers())) else old(Receivers())
    {
      hide Stored, Protocol, WakeOne;
      Counts();
      sent := uxMessagesWaiting < uxLength || position.ToOverwrite?;
      if sent {
        TaskPuts(Receivers(), Senders(), uxMessagesWaiting, uxLength - uxMessagesWaiting, t,
                 if uxMessagesWaiting < uxLength then 1 else 0);
        CopyDataToQueue(x, position);
        if Stored() {
          Counts();
        }
        WakeReceiver();
      } else {
        TaskFails(Receivers(), Senders(), uxMessagesWaiting, 0, t);
      }
      senders := senders - {t};
    }

    lemma Counts()
      requires Stored()
      ensures uxMessagesWaiting == |items| <= uxLength
    {
      hide Replay;
    }

    /** The critical section of xQueueGenericReceive on a queue or a semaphore */
    method Receive(t: Id, xJustPeeking: bool) returns (received: bool, buffer: QueueRing.Item)
      requires Valid() && Calls(t) && t !in senders
      modifies `pcReadFrom, `uxMessagesWaiting, `readSlot, `items, `history
      modifies `xTasksWaitingToReceive, `xTasksWaitingToSend, `receivers, `senders
      ensures Valid() && (received <==> old(items) != []) && (received ==> buffer == old(items)[0])
      ensures items == (if received && !xJustPeeking then old(items)[1..] else old(items))
      ensures history == if received && !xJustPeeking then old(history) + [Take] else old(history)
      ensures Receivers() == if received && xJustPeeking then WakeOne(Retried(old(Receivers()), t))
                             else Retried(old(Receivers()), t)
      ensures Senders() == if received && !xJustPeeking then WakeOne(old(Senders())) else old(Senders())
    {
      hide Stored, Protocol, WakeOne;
      Counts();
      received, buffer := uxMessagesWaiting > 0, [];
      ghost var r, s := Receivers(), Senders();
      receivers := receivers - {t};
      if received {
        if !xJustPeeking {
          TaskTakes(r, s, uxMessagesWaiting, uxLength - uxMessagesWaiting, t);
          buffer := Remove();
          Counts();
          WakeSender();
        } else {
          TaskPeeks(r, s, uxMessagesWaiting, uxLength - uxMessagesWaiting, t);
          buffer := Peek();
          WakeReceiver();
        }
      } else {
        TaskFails(r, s, 0, uxLength - uxMessagesWaiting, t);
      }
    }

    /** xQueueGenericSendFromISR and xQueueGiveFromISR */
    method SendFromISR(x: QueueRing.Item, position: Position) returns (sent: bool)
      requires Valid() && |x| == uxItemSize
      requires position.ToOverwrite? ==> uxLength == 1
      modifies storage, `pcWriteTo, `pcReadFrom, `uxMessagesWaiting, `readSlot, `items, `history
      modifies `xTasksWaitingToReceive, `receivers, `cTxLock
      ensures sent <==> old(uxMessagesWaiting) < uxLength || position.ToOverwrite?
      ensures Valid() <==> !old(Overcounts(position)) && (!sent || old(cTxLock) < 127)
      ensures Stored() <==> !old(Overcounts(position))
      ensures Stored() ==> items == if sent then Apply(old(items), OpOf(x, position)) else old(items)
      ensures Stored() ==> history == if sent then old(history) + [OpOf(x, position)] else old(history)
      ensures Receivers() == if sent then Post(old(Receivers())) else old(Receivers())
    {
      hide Stored, Protocol, WakeOne;
      Counts();
      sent := uxMessagesWaiting < uxLength || position.ToOverwrite?;
      if sent {
        InterruptPuts(Receivers(), Senders(), uxMessagesWaiting, uxLength - uxMessagesWaiting, phase,
                      if uxMessagesWaiting < uxLength then 1 else 0);
        CopyDataToQueue(x, position);
        if Stored() {
          Counts();
        }
        if cTxLock == UNLOCKED {
          WakeReceiver();
        } else {
          cTxLock := Int8(cTxLock + 1);
        }
      }
    }

    /** xQueueReceiveFromISR */
    method ReceiveFromISR() returns (received: bool, buffer: QueueRing.Item)
      requires Valid()
      modifies `pcReadFrom, `uxMessagesWaiting, `readSlot, `items, `history
      modifies `xTasksWaitingToSend, `senders, `cRxLock
      ensures received <==> old(items) != []
      ensures Valid() <==> !received || old(cRxLock) < 127
      ensures received ==> buffer == old(items)[0]
      ensures Stored() && items == if received then old(items)[1..] else old(items)
      ensures history == if received then old(history) + [Take] else old(history)
      ensures Senders() == if received then Post(old(Senders())) else old(Senders())
    {
      hide Stored, Protocol, WakeOne;
      Counts();
      received, buffer := uxMessagesWaiting > 0, [];
      if received {
        InterruptTakes(Receivers(), Senders(), uxMessagesWaiting, uxLength - uxMessagesWaiting, phase);
        buffer := Remove();
        Counts();
        if cRxLock == UNLOCKED {
          WakeSender();
        } else {
          cRxLock := Int8(cRxLock + 1);
        }
      }
    }

    /** prvLockQueue, by a task whose attempt has failed */
    method LockQueue(t: Id)
      requires Valid() && Calls(t) && t !in senders && t !in receivers
      modifies `cRxLock, `cTxLock, `phase
      ensures Valid() && phase == Locked(t)
    {
      hide Stored, Wakeful;
      Locks(Receivers(), Senders(), uxMessagesWaiting, uxLength - uxMessagesWaiting, t);
      if cRxLock == UNLOCKED {
        cRxLock := LOCKED_UNMODIFIED;
      }
      if cTxLock == UNLOCKED {
        cTxLock := LOCKED_UNMODIFIED;
      }
      phase := Locked(t);
    }

    /** prvIsQueueEmpty */
    method IsQueueEmpty() returns (r: bool)
      requires Valid() && phase.Locked?
      modifies `phase
      ensures Valid() && (r <==> items == []) && phase == if r then SawEmpty(old(phase).t) else old(phase)
    {
      hide Stored, Protocol;
      Counts();
      Saw(Receivers(), Senders(), uxMessagesWaiting, uxLength - uxMessagesWaiting, phase.t);
      r := uxMessagesWaiting == 0;
      phase := if r then SawEmpty(phase.t) else phase;
    }

    /** prvIsQueueFull */
    method IsQueueFull() returns (r: bool)
      requires Valid() && phase.Locked?
      modifies `phase
      ensures Valid() && (r <==> |items| == uxLength) && phase == if r then SawFull(old(phase).t) else old(phase)
    {
      hide Stored, Protocol;
      Counts();
      Saw(Receivers(), Senders(), uxMessagesWaiting, uxLength - uxMessagesWaiting, phase.t);
      r := uxMessagesWaiting == uxLength;
      phase := if r then SawFull(phase.t) else phase;
    }

    /** vTaskPlaceOnEventList; messages or free slots may have come since the task looked */
    method PlaceOnEventList(t: Id, receiver: bool, p: nat)
      requires Valid() && phase == if receiver then SawEmpty(t) else SawFull(t)
      requires p <= if receiver then |xTasksWaitingToReceive| else |xTasksWaitingToSend|
      modifies `xTasksWaitingToReceive, `xTasksWaitingToSend, `phase
      ensures Valid() && phase == Placed(t)
      ensures xTasksWaitingToReceive ==
        if receiver then old(xTasksWaitingToReceive)[..p] + [t] + old(xTasksWaitingToReceive)[p..]
        else old(xTasksWaitingToReceive)
      ensures xTasksWaitingToSend ==
        if receiver then old(xTasksWaitingToSend)
        else old(xTasksWaitingToSend)[..p] + [t] + old(xTasksWaitingToSend)[p..]
    {
      hide Stored, Protocol;
      Places(Receivers(), Senders(), uxMessagesWaiting, uxLength - uxMessagesWaiting, phase, p);
      if receiver {
        xTasksWaitingToReceive := xTasksWaitingToReceive[..p] + [t] + xTasksWaitingToReceive[p..];
      } else {
        xTasksWaitingToSend := xTasksWaitingToSend[..p] + [t] + xTasksWaitingToSend[p..];
      }
      phase := Placed(t);
    }

    /** The first critical section of prvUnlockQueue: a receiver is woken for each message that came. */
    method UnlockTx()
      requires Valid() && !phase.Free? && !phase.TxDone?
      modifies `cTxLock, `xTasksWaitingToReceive, `receivers, `phase
      ensures Valid() && phase == TxDone(old(phase).t) && Receivers() == Drained(old(Receivers()))
    {
      hide Stored, Protocol, WakeOne;
      UnlocksTx(Receivers(), Senders(), uxMessagesWaiting, uxLength - uxMessagesWaiting, phase);
      var txLock := cTxLock;
      while txLock > LOCKED_UNMODIFIED
        invariant phase == old(phase) && cTxLock == old(cTxLock)
        invariant Drained(Receivers().(lock := txLock)) == Drained(old(Receivers()))
      {
        if xTasksWaitingToReceive == [] {
          break;
        }
        ghost var was := Receivers().(lock := txLock);
        WakeReceiver();
        WakeOneLock(was, cTxLock);
        txLock := txLock - 1;
      }
      cTxLock := UNLOCKED;
      phase := TxDone(phase.t);
    }

    /** The second critical section of prvUnlockQueue */
    method UnlockRx()
      requires Valid() && phase.TxDone?
      modifies `cRxLock, `xTasksWaitingToSend, `senders, `phase
      ensures Valid() && phase == Free && Senders() == Drained(old(Senders()))
    {
      hide Stored, Protocol, WakeOne;
      UnlocksRx(Receivers(), Senders(), uxMessagesWaiting, uxLength - uxMessagesWaiting, phase.t);
      var rxLock := cRxLock;
      while rxLock > LOCKED_UNMODIFIED
        invariant phase == old(phase) && cRxLock == old(cRxLock)
        invariant Drained(Senders().(lock := rxLock)) == Drained(old(Senders()))
      {
        if xTasksWaitingToSend == [] {
          break;
        }
        ghost var was := Senders().(lock := rxLock);
        WakeSender();
        WakeOneLock(was, cRxLock);
        rxLock := rxLock - 1;
      }
      cRxLock := UNLOCKED;
      phase := Free;
    }

    /** The block time of a waiting task ends. */
    method TimeOut(receiver: bool, p: nat)
      requires Valid() && phase.Free? && p < if receiver then |xTasksWaitingToReceive| else |xTasksWaitingToSend|
      modifies `xTasksWaitingToReceive, `xTasksWaitingToSend
      ensures Valid()
      ensures receiver ==>
        xTasksWaitingToReceive == old(xTasksWaitingToReceive)[..p] + old(xTasksWaitingToReceive)[p + 1..]
      ensures !receiver ==> xTasksWaitingToSend == old(xTasksWaitingToSend)[..p] + old(xTasksWaitingToSend)[p + 1..]
    {
      hide Stored, Protocol;
      TimesOut(Receivers(), Senders(), uxMessagesWaiting, uxLength - uxMessagesWaiting, p);
      if receiver {
        xTasksWaitingToReceive := xTasksWaitingToReceive[..p] + xTasksWaitingToReceive[p + 1..];
      } else {
        xTasksWaitingToSend := xTasksWaitingToSend[..p] + xTasksWaitingToSend[p + 1..];
      }
    }
  }
}
