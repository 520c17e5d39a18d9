# A model of the FreeRTOS kernel, FreeRTOS+FAT and the MQTT codec

The repository is an MQTT 3.1.1 client that runs on FreeRTOS V9 and FreeRTOS+FAT. This project models the parts of it
in which bounded arithmetic meets mutable linked state, and proves what they promise. Classes hold the fields that the
source updates in place, and each method is one function of the source, one critical section of it, or one loop; ghost
fields say what the 32-bit data mean in unbounded time, as a deque, or as a set of chains.

| modules | source | what is proved |
|---|---|---|
| `RingList`, `Rings`, `Lists` | list.c | the linked rings refine sequences: ordered insertion, and fair turns around a walking index |
| `Kernel`, `KernelState`, `TaskLists`, `WakeList`, `Delays`, `Timeline`, `Census` | tasks.c | exact wake-up across tick overflow over every run, the partition of tasks onto lists, the best task running, mutex accounts |
| `TimerDaemon`, `TimerState`, `TimerRoute` | timers.c | one callback per period without drift, also while catching up and across list switches |
| `Queue`, `QueueRing`, `QueueHistory`, `QueueWakeups`, `QueueProtocol` | queue.c | the byte buffer refines a deque, and no wake-up is lost in any interleaving of tasks and interrupts |
| `EventGroups`, `EventBits`, `Rendezvous` | event_groups.c | setting bits releases exactly the satisfied waiters; a rendezvous of any number of tasks |
| `FatLock` | ff_locking.c | mutual exclusion for any number of tasks |
| `FatTable`, `FatChains`, `FatBytes`, `FatFree` | ff_fat.c, ff_ioman.c | the allocation table stays a set of disjoint chains, and exactly when hint and free count are right |
| `LongNames`, `DirEntries`, `HashBits`, `HashCache` | ff_dir.c | long names read back, files created, moved and removed with all others as they were, and no short name in use ever missed |
| `MqttSize`, `MqttPublish`, `MqttConnect` | src/mqtt.c | round trips against sections 2.2, 3.1 and 3.3 of MQTT 3.1.1 |

The small modules `Arithmetic`, `Bytes`, `Options`, `Sequences` and `Ticks` serve the others.

The configuration is that of the FreeRTOS example: 32-bit ticks, preemption with time slicing, mutexes and timers on,
queue sets off, INCLUDE_vTaskSuspend on, FAT12 off, plain 8-bit names, all copies of the FAT written, a hash cache of 64
directories with CRC16. Tasks are selected by the generic macro. The port layer is not part of this model.

Interleavings are modelled as follows: the methods of `Queue`, `EventGroup` and `IOManager` are single atomic steps,
their preconditions say only where in the protocol the calling task is, and each keeps an invariant that speaks of all
tasks. So whatever order the steps of tasks and interrupts come in, the invariant holds after each of them.
`Scheduler` and `Daemon` keep their invariants in the same way from call to call.

## What the code does not keep

Where a promise fails, the code is modelled as it is and the exact condition is proved.

- vTaskDelayUntil decides rightly for a last wake time less than a wrap ago; for an older one it takes the age modulo
  2^32, which is right exactly if that has reached the period (`Delays.ShouldDelayAtAnyAge`). The same holds for timer
  commands (`TimerRoute.RouteAtAnyAge`).
- vTaskPrioritySet gives the event list item of a task the value of its new own priority. That is the value for the
  priority it runs at if and only if this is not an inherited one or is the same (`PrioritySet`); a task for which it is
  not may wait behind others of less priority, until it inherits or loses a priority (`HighestPriorityFirst`).
- Deleting a task that holds a mutex leaves the mutex with a holder that does not exist; with no other task do the
  accounts of mutexes go wrong (`KernelState.AccountedDelete`).
- A queue's lock count is an int8_t: the 128th message that interrupts send while the queue is locked makes it
  negative, and wake-ups are lost (`QueueWakeups.CountWraps`, `Queue.SendFromISR`).
- Resetting a queue frees all its slots and wakes one sender: the others wait on a queue with room, unless every slot is
  claimed by a sender woken before (`Queue.Reset`, `QueueProtocol.Resets`).
- Overwriting a full queue of items of size zero counts one message more than its length (`CopyDataToQueue`).
- FF_UnlinkClusterChain without truncation, given a cluster that is not the first of its chain, leaves an entry that
  leads to a free cluster (`FatChains.UnlinkOnlyFromTheStart`). Given cluster zero it reports an error and yet adds one
  to the free cluster count, and given a free cluster it makes a right count wrong (`UnlinkClusterChain`).
- FF_FindFreeCluster does not notice a hint beyond the table; the hint 0xFFFFFFFF of an FSINFO sector that knows
  none is such a hint (`Search`, `FindFreeCluster`). The hint that a claim leaves is sound exactly if the one it began
  with was (`FatFree.ClaimHint`), so that of a stale FSINFO sector hides the free clusters below it: for mounting see
  `FindFree`, for unlinking with no hint known `UnlinkClusterChain`.
- Once the free count has come down to zero, unlinking asks the FSINFO sector for it, which may not know yet
  (`UnlinkClusterChain`). FF_CountFreeClusters counts up to two entries behind the last usable cluster (`EntriesCounted`).
- A long name of exactly 250 characters is stored, but does not leave room for its terminating zero when it is read
  (`LongNames.Directory.StoreAndFind`, `FullName`).
- FF_Move marks the old entry and leaves its hash in the table of the directory: a name that is gone is still reported.
  The table stays exact if and only if another live entry has the same hash; no name in use is ever missed (`MoveEntry`,
  `MarkedCovers`).
- The number of a new short entry is cut to 16 bits: one at 65535 is written where no search looks for it, and one
  behind that over the entry whose number is less by 65536 (`WriteDirent`).
- A name that fits 8.3 and was not checked before, as in FF_Move, is looked for by FF_FindEntryInDir, which knows a
  file with a long name by that only, so that a short name may come twice: names that are unique in a directory stay
  so if and only if the one settled on was not taken (`CreateDirent`, `DirEntries.AddedUnique`). A name that needs a
  tail is never taken (`FindShortName`).
- The hash tables leave out volume labels, the scan without a table does not (`ScanEntries`).
- decode_fixed_header tells an invalid QoS or type by a size of zero only; encode_publish passes dup and retain in
  swapped places; the bits of the first byte are in the order of the code's own bit fields and not that of section 2.2
  (`MqttPublish`).
- A PUBLISH message with an empty topic or payload is sent but not decoded (`PublishThenRead`). encode_publish compares
  the size of its buffer with that of the header only and writes the whole message; `PublishWithin` says exactly when
  that stays in the buffer.
- CONNECT breaks the rules on the flags for a password without a user name ([MQTT-3.1.2-22]) and for permanent_will
  without a will ([MQTT-3.1.2-11]), and only then (`ConnectConforms`). It writes before it checks the space: a client
  identifier of 19 characters in a buffer of 20 bytes is written up to byte 36 and then refused
  (`NineteenCharacters`); `WritesWithin` says exactly when all that is written stays in the buffer. The check itself
  counts the characters twice and the five bytes of the fixed header not at all, so that a message that does not fit
  can pass exactly if the strings can be written at all and have fewer than five characters (`SpaceCheck`); the size
  returned is cut to 16 bits (`ConnectFill`).

## Model

| member | source | states |
|---|---|---|
| RingList.List.constructor | FreeRTOS_example/FreeRTOS/Source/list.c:79-101 | an empty ring is closed on its end marker, whose value is portMAX_DELAY |
| RingList.List.InsertEnd | FreeRTOS_example/FreeRTOS/Source/list.c:116-142 | the linked ring stays closed, back-linked and counted, and becomes the ring with the item in front of pxIndex |
| RingList.List.FindPlace | FreeRTOS_example/FreeRTOS/Source/list.c:145-190 | the search ends for every value, portMAX_DELAY included, behind all items whose value is not larger |
| RingList.List.Insert | FreeRTOS_example/FreeRTOS/Source/list.c:145-209 | the linked ring stays closed and counted; its items are those of a stable insertion ordered by value |
| RingList.List.Remove | FreeRTOS_example/FreeRTOS/Source/list.c:212-238 | the linked ring stays closed and counted without the item; an index at the item steps back to its predecessor; the number left is returned |
| RingList.List.NextEntry | FreeRTOS_example/FreeRTOS/Source/include/list.h:318-330 | the walking index moves to the next item, past the end marker, and its owner is returned |
| Rings.RoundRobin | FreeRTOS_example/FreeRTOS/Source/include/list.h:318-330 | going round a list takes each item once, in the announced order, and comes back to where it was |
| Rings.InsertedLast | FreeRTOS_example/FreeRTOS/Source/list.c:116-142 | an item inserted at the end comes last, counted from the item taken last |
| Rings.RemovedKeepsTurns | FreeRTOS_example/FreeRTOS/Source/list.c:212-238 | removing an item makes no other item lose or change its turn |
| Kernel.Scheduler.constructor | FreeRTOS_example/FreeRTOS/Source/tasks.c:3325-3354 | the kernel with its first task satisfies the whole invariant |
| Kernel.Scheduler.AddNewTask | FreeRTOS_example/FreeRTOS/Source/tasks.c:963-1043 | a new task is ready, the last in turn at its priority, and no other task is touched; before the scheduler runs it becomes the current one exactly if no task chosen before has a higher priority, afterwards a yield is asked for exactly if its priority is above that of the running task |
| Kernel.Scheduler.StartScheduler | FreeRTOS_example/FreeRTOS/Source/tasks.c:1881-1901 | the tick count is zero and xNextTaskUnblockTime is portMAX_DELAY, as no task is delayed yet; the invariant is kept |
| Kernel.Scheduler.Delete | FreeRTOS_example/FreeRTOS/Source/tasks.c:1048-1133 | the running task goes to the termination list only; any other task ceases to exist and no other task is touched |
| Kernel.Scheduler.CleanUpOne | FreeRTOS_example/FreeRTOS/Source/tasks.c:3357-3398 | the idle task frees the first task waiting for termination, the count of tasks goes down, and no other task is touched |
| Kernel.Scheduler.OnOneList | FreeRTOS_example/FreeRTOS/Source/tasks.c:239-263 | in every reachable state a task's state item is on exactly one of the ready, delayed, overflow, suspended and termination lists, a ready one on that of its priority; its event item is on at most one list, and only while it is blocked or suspended |
| Kernel.Scheduler.TaskCount | FreeRTOS_example/FreeRTOS/Source/tasks.c:963-1043 | uxCurrentNumberOfTasks is the total length of the state lists |
| Census.ListsPartitionTasks | FreeRTOS_example/FreeRTOS/Source/tasks.c:3325-3354 | lists that hold the tasks by their places have lengths that add up to the number of tasks |
| Kernel.Scheduler.AddTaskToReadyList | FreeRTOS_example/FreeRTOS/Source/tasks.c:259-263 | the task is on the ready list of its priority, behind those to be taken next, and uxTopReadyPriority stays an upper bound |
| Kernel.Scheduler.ResetNextTaskUnblockTime | FreeRTOS_example/FreeRTOS/Source/tasks.c:3627-3648 | xNextTaskUnblockTime is not later than any wake time, on either list, and is one of them unless none lies in this epoch |
| Kernel.Scheduler.SwitchDelayedLists | FreeRTOS_example/FreeRTOS/Source/tasks.c:239-251 | the current list is empty when the lists are switched, as the assertion there demands, and every wake time lies in the new epoch or the next |
| Delays.LinkedSwitch | FreeRTOS_example/FreeRTOS/Source/tasks.c:239-251 | if no wake time can be reached by the wrapping tick, the current delayed list is empty and the overflow list is that of the new epoch |
| Kernel.Scheduler.StepTickCount | FreeRTOS_example/FreeRTOS/Source/tasks.c:2513-2529 | unbounded time goes on by one, through the wrap of the 32-bit count |
| Kernel.Scheduler.UnblockExpired | FreeRTOS_example/FreeRTOS/Source/tasks.c:2531-2611 | the loop readies exactly the tasks whose wake time has been reached, and asks for a switch exactly if one has at least the priority of the running task |
| Kernel.Scheduler.MoveToReadyList | FreeRTOS_example/FreeRTOS/Source/tasks.c:2566-2599 | the task leaves its list, and its event list if it is on one, for the last turn on the ready list of its priority; those that go on waiting stay in order |
| Kernel.Scheduler.IncrementTick | FreeRTOS_example/FreeRTOS/Source/tasks.c:2502-2671 | a tick wakes exactly the tasks whose time has come, whatever wraps lie between, and while the scheduler is suspended it is only counted; a switch is asked for exactly if a yield is pending, a task of at least the running priority was woken, or the running one shares its priority |
| Timeline.WokenExactlyOnTime | FreeRTOS_example/FreeRTOS/Source/tasks.c:2502-2671 | over any run, in which a step may be a tick, several pended ticks at once or anything that does not touch the task: a task that starts to wait for n > 0 ticks is blocked in every state before start + n and ready in every state from then on |
| Kernel.Scheduler.SuspendAll | FreeRTOS_example/FreeRTOS/Source/tasks.c:1947-1954 | suspending nests and keeps the invariant |
| Kernel.Scheduler.DrainPendingReady | FreeRTOS_example/FreeRTOS/Source/tasks.c:2044-2077 | every task readied while the scheduler was suspended, and no other, becomes ready, in their order the last in turn on the list of its priority; a yield is noted exactly if one has at least the priority of the running task |
| Kernel.Scheduler.UnwindPendedTicks | FreeRTOS_example/FreeRTOS/Source/tasks.c:2079-2104 | each pended tick is processed: time catches up by exactly their number and exactly the tasks due by then are woken; a yield is noted exactly if one of them has at least the priority of the running task, or that shares its priority and a tick was pended |
| Kernel.Scheduler.ResumeAll | FreeRTOS_example/FreeRTOS/Source/tasks.c:2020-2127 | no tick and no wake-up is lost by suspending the scheduler: pending tasks become ready, and the tasks whose wake time the pended ticks have reached; the result asks for a yield exactly if one was pending, a task readied or woken has at least the priority of the running one, or ticks were pended and the running task shares its priority |
| Kernel.Scheduler.AddCurrentTaskToDelayedList | FreeRTOS_example/FreeRTOS/Source/tasks.c:4684-4793 | the running task blocks until now + n in unbounded time, or is suspended for portMAX_DELAY where that means for ever |
| Delays.LinkedAdd | FreeRTOS_example/FreeRTOS/Source/tasks.c:4684-4793 | by the 32-bit comparison of wake time and tick count the task goes on the list of the epoch its unbounded wake time lies in |
| Delays.PendingAdd | FreeRTOS_example/FreeRTOS/Source/tasks.c:4684-4793 | the invariant behind the list switch survives a new wait if and only if the wait is not one of zero ticks begun at tick 0xFFFFFFFF |
| Delays.ShouldDelayExact | FreeRTOS_example/FreeRTOS/Source/tasks.c:1140-1218 | the 32-bit decision of vTaskDelayUntil is right for every last wake time less than a wrap ago; for one of any age it compares the age cut to 32 bits |
| Delays.ShouldDelayAtAnyAge | FreeRTOS_example/FreeRTOS/Source/tasks.c:1140-1218 | for a last wake time of any age the decision is right if and only if the age is below a wrap or, cut to 32 bits, has reached the period |
| Delays.DelayedAWrapLate | FreeRTOS_example/FreeRTOS/Source/tasks.c:1140-1218 | a last wake time exactly one wrap ago with a period of one tick: the task is delayed though the period is over |
| Kernel.Scheduler.TaskDelay | FreeRTOS_example/FreeRTOS/Source/tasks.c:1224-1263 | a delay of n ticks lasts until exactly n ticks later, counting the ticks that come before the scheduler is resumed; a delay of zero only yields; for every other task it is one step of a run as in Timeline.WokenExactlyOnTime |
| Kernel.Scheduler.TaskDelayUntil | FreeRTOS_example/FreeRTOS/Source/tasks.c:1140-1218 | the task waits until exactly one period after its last wake time or goes on at once, and its wake time advances by the period in either case; for every other task it is one step of a run |
| Kernel.Scheduler.InsertEvent | FreeRTOS_example/FreeRTOS/Source/tasks.c:2823-2837 | a waiting task is listed behind those of the same or a higher priority; an event list in that order stays so |
| Kernel.Scheduler.RemoveEventItem | FreeRTOS_example/FreeRTOS/Source/list.c:212-238 | whoever leaves an event list, the tasks that go on waiting keep their order, and an event list in order of priority stays so |
| Kernel.Scheduler.FitsAlready | FreeRTOS_example/FreeRTOS/Source/tasks.c:3710-3722 | in every reachable state a task whose event list item value is not in use has the value configMAX_PRIORITIES minus its priority, unless its own priority was set while it ran at an inherited one: then it may be that of its own priority |
| Kernel.Scheduler.HighestPriorityFirst | FreeRTOS_example/FreeRTOS/Source/tasks.c:2897-2962 | while no waiting task's priority changes, the task readied is one of the highest priority waiting, unless the own priority of a waiting task was set while it ran at an inherited one |
| Kernel.Scheduler.PlaceOnEventList | FreeRTOS_example/FreeRTOS/Source/tasks.c:2823-2837 | the running task waits on one event list, with its exact end of the block time or without end, and no other task is touched |
| Kernel.Scheduler.RemoveFromEventList | FreeRTOS_example/FreeRTOS/Source/tasks.c:2897-2962 | the first waiting task becomes ready, the last in turn at its priority, or pending ready with the scheduler suspended; the others go on waiting in their order, and an event list in order of priority stays so; the result compares its priority with that of the running task |
| Kernel.Scheduler.Suspend | FreeRTOS_example/FreeRTOS/Source/tasks.c:1566-1650 | whatever the task was doing or waiting for, it is on the suspended list and waits for nothing |
| Kernel.Scheduler.IsTaskSuspended | FreeRTOS_example/FreeRTOS/Source/tasks.c:1656-1698 | a task is suspended exactly if it is on the suspended list, on no event list and not pending ready; so one that waits for ever is not, and one resumed from an interrupt is not |
| Kernel.Scheduler.Resume | FreeRTOS_example/FreeRTOS/Source/tasks.c:1702-1750 | exactly a suspended task that is not the running one becomes ready, the last in turn at its priority |
| Kernel.Scheduler.ResumeFromISR | FreeRTOS_example/FreeRTOS/Source/tasks.c:1756-1810 | exactly a suspended task becomes ready, or pending ready with the scheduler suspended; a yield is asked for exactly if it became ready at a priority of at least that of the running task |
| Kernel.Scheduler.FindTopPriority | FreeRTOS_example/FreeRTOS/Source/tasks.c:174-189 | the search loop ends while any task is ready, before its assertion at priority zero, at the highest list with a task |
| Kernel.Scheduler.SwitchContext | FreeRTOS_example/FreeRTOS/Source/tasks.c:2764-2820 | the task selected is ready, no ready task has a higher priority, and it is the next in turn on its list |
| Kernel.Scheduler.PrioritySet | FreeRTOS_example/FreeRTOS/Source/tasks.c:1402-1559 | the base priority is set and the one in use only if it is not inherited; a ready task moves to the last turn on the list of its priority; a yield is asked for exactly if the running task lowers its own base priority or another is raised to at least that of the running one; an event list item value not in use becomes configMAX_PRIORITIES minus the new priority, which is right for the priority in use if and only if that was not inherited or is the same |
| Kernel.Scheduler.PriorityInherit | FreeRTOS_example/FreeRTOS/Source/tasks.c:3698-3757 | the holder of the mutex runs at no lower priority than the waiting task, on the list of that priority if it is ready, and if it is raised its event list item value, unless in use, is configMAX_PRIORITIES minus that priority |
| Kernel.Scheduler.MutexTake | FreeRTOS_example/FreeRTOS/Source/queue.c:1290-1318 | an available mutex gets the running task as its holder, whose count goes up; one that is held is left alone |
| Kernel.Scheduler.MutexGive | FreeRTOS_example/FreeRTOS/Source/tasks.c:3764-3838 | the holder gives the mutex back and with its last one returns to its base priority, the last in turn there; it yields exactly if it lost an inherited priority |
| Kernel.Scheduler.MutexBlock | FreeRTOS_example/FreeRTOS/Source/queue.c:1402-1433 | while a task waits for a mutex the holder runs at no lower priority, and no other task is touched |
| KernelState.AccountedTake | FreeRTOS_example/FreeRTOS/Source/tasks.c:4170-4182 | taking keeps the accounts: each task's count is the number of mutexes it holds, a mutex is available exactly without a holder, and a task with none runs at its base priority |
| KernelState.AccountedGive | FreeRTOS_example/FreeRTOS/Source/tasks.c:3764-3838 | giving back keeps the accounts, and the holder did hold a mutex |
| KernelState.AccountedDelete | FreeRTOS_example/FreeRTOS/Source/tasks.c:1048-1133 | freeing a task keeps the accounts if and only if it holds no mutex |
| Kernel.Scheduler.AccountsHold | FreeRTOS_example/FreeRTOS/Source/tasks.c:3764-3838 | the accounts of mutexes hold in every reachable state |
| TimerRoute.RouteExact | FreeRTOS_example/FreeRTOS/Source/timers.c:683-721 | for a command less than a wrap old the 32-bit comparisons say: expired, this epoch or the next, exactly as unbounded time does |
| TimerRoute.RouteOnLists | FreeRTOS_example/FreeRTOS/Source/timers.c:683-721 | the expiry time cut to 32 bits is the right item value on the list chosen |
| TimerRoute.RouteAtAnyAge | FreeRTOS_example/FreeRTOS/Source/timers.c:683-721 | for a command of any age the decision is right if and only if the age is below a wrap or, cut to 32 bits, has reached the period |
| TimerRoute.RouteAWrapLate | FreeRTOS_example/FreeRTOS/Source/timers.c:683-721 | a command exactly one wrap old with a period of one tick: the timer is not taken for expired |
| TimerState.OneCallPerPeriod | FreeRTOS_example/FreeRTOS/Source/timers.c:498-535 | the callbacks of a followed auto-reload timer since its start are those for start + period, start + 2 period and so on, in order, at most one for each period passed, and exactly one for each if and only if its next expiry lies in the future, which is when it is listed for: no drift |
| TimerState.OneCallPerPeriodInEveryRun | FreeRTOS_example/FreeRTOS/Source/timers.c:538-571 | over any run of steps with no other command for the timer, in every state: its callbacks since the start are those for the ends of its first periods, floor((now - start) / period) of them whenever its next expiry lies in the future |
| TimerState.NotCalledInAnyRun | FreeRTOS_example/FreeRTOS/Source/timers.c:814-819 | over any run of steps in which no command is sent for it, a timer that is on no list and in no command, as after a stop, is never called and never listed again |
| TimerDaemon.Daemon.constructor | FreeRTOS_example/FreeRTOS/Source/timers.c:930-978 | the empty lists and queue satisfy the invariant |
| TimerDaemon.Daemon.InsertTimerInActiveList | FreeRTOS_example/FreeRTOS/Source/timers.c:683-721 | a timer is to be processed at once exactly if it has expired in unbounded time; otherwise it goes on the list of the epoch of its expiry |
| TimerDaemon.Daemon.CallHead | FreeRTOS_example/FreeRTOS/Source/timers.c:892-898 | the head timer of the current list is taken off and called once, for its own expiry time |
| TimerDaemon.Daemon.RunHead | FreeRTOS_example/FreeRTOS/Source/timers.c:883-922 | one pass runs the earliest expiry left, and the timer is listed again exactly if its next expiry lies in the same epoch, or else a start command is sent; what is left of the epoch shrinks |
| TimerDaemon.Daemon.SwitchTimerLists | FreeRTOS_example/FreeRTOS/Source/timers.c:871-927 | the switch ends; the callbacks run are exactly the expiries left in the finished epoch, each timer as often as it expires there, in time order; the current list is then the former overflow list |
| TimerDaemon.Daemon.SampleTimeNow | FreeRTOS_example/FreeRTOS/Source/timers.c:660-680 | the lists are switched exactly if the count has wrapped since the last sample, with exactly the callbacks of that switch and otherwise none |
| TimerDaemon.Daemon.GetNextExpireTime | FreeRTOS_example/FreeRTOS/Source/timers.c:634-657 | the time found is not later than any expiry |
| TimerDaemon.Daemon.ProcessExpiredTimer | FreeRTOS_example/FreeRTOS/Source/timers.c:498-535 | exactly one callback runs, that of the head timer for its own expiry time; a one-shot timer is then on no list and no command is sent for it, any other is listed for one period later, or sent a start if that has passed too |
| TimerDaemon.Daemon.ProcessTimerOrBlockTask | FreeRTOS_example/FreeRTOS/Source/timers.c:574-631 | the callbacks run are exactly those of a switch, or that of the head timer if it has expired, or none; the daemon blocks only when nothing has expired, until the next expiry of the epoch or its end, and with an empty queue every followed timer has then had exactly one callback for each period passed |
| TimerDaemon.Daemon.Started | FreeRTOS_example/FreeRTOS/Source/timers.c:772-799 | a start runs the callback at once exactly if the period has passed already, and then sends another start for its end unless the timer runs once only; otherwise it lists the timer for start + period; started by its only command, the timer is followed from the start time |
| TimerDaemon.Daemon.PeriodChanged | FreeRTOS_example/FreeRTOS/Source/timers.c:807-826 | a new period runs from the present time and is listed for its end, never already expired, and the timer is followed from now |
| TimerDaemon.Daemon.ReceiveCommand | FreeRTOS_example/FreeRTOS/Source/timers.c:736-866 | one command is obeyed, and without a switch of the lists what becomes of lists and commands is said exactly: the callbacks run are those of a switch and that of a start whose period has passed, no settings change but by a change of period, which takes effect, a timer started by its only command is followed from the time of that command, and one stopped or deleted by its only command is on no list and in no command; no timer that was on no list and in no command is called or listed |
| TimerDaemon.Daemon.Obey | FreeRTOS_example/FreeRTOS/Source/timers.c:770-865 | by the kind of the command: exactly a start whose period has passed runs a callback; a change of period is the only one that changes settings, and lists the timer for the end of its new period; a stop or delete leaves lists and commands as they are with the timer off its list |
| TimerDaemon.Daemon.ProcessReceivedCommands | FreeRTOS_example/FreeRTOS/Source/timers.c:724-868 | catching up ends with an empty queue; followed timers are still followed with the same start and settings and have lost no call; every timer that is started by its only command is followed from the time of that command, one that gets a new period by it is followed with that, and one that is stopped or deleted by it is on no list, unless it was listed when the lists were switched and the command was not the first |
| TimerDaemon.Daemon.TimerGenericCommand | FreeRTOS_example/FreeRTOS/Source/timers.c:417-457 | the command is queued as it is; a start for a timer that is on no list and in no command makes it followed from now on, any other command ends that, and no other timer is affected |
| TimerDaemon.Daemon.Wait | FreeRTOS_example/FreeRTOS/Source/timers.c:605-623 | while the daemon is blocked commands are queued in their order, a change of period with the period it brings, and time goes on; a timer that none is for is not affected, and nothing is a wrap overdue when the daemon wakes |
| TimerDaemon.Daemon.TimerTaskPass | FreeRTOS_example/FreeRTOS/Source/timers.c:538-571 | when the daemon blocks on an empty queue every followed timer has had exactly one callback for each period passed; it wakes to the commands that come meanwhile or after any time below a wrap, and the pass drains the queue; timers that no command was for stay followed, and each has had one callback for each period unless its next expiry is still to be run; one that was on no list stays so and is not called |
| TimerDaemon.Daemon.StartThenPass | FreeRTOS_example/FreeRTOS/Source/timers.c:417-457 | from the command to the daemon: a dormant auto-reload timer that is started now is followed from now, and after the next pass of the daemon its callbacks are the first ones of its schedule |
| QueueRing.PutBack | FreeRTOS_example/FreeRTOS/Source/queue.c:1744-1760 | writing at pcWriteTo and moving it on with the wrap at pcTail appends the item to the deque in the ring of slots |
| QueueRing.PutFront | FreeRTOS_example/FreeRTOS/Source/queue.c:1762-1797 | writing at pcReadFrom and moving it back with the wrap at pcHead puts the item in front, or replaces the one item of a queue of length one |
| QueueRing.TakeNext | FreeRTOS_example/FreeRTOS/Source/queue.c:1802-1817 | moving pcReadFrom on finds the first item of the deque and leaves the others |
| Queue.Queue.constructor | FreeRTOS_example/FreeRTOS/Source/queue.c:279-330 | a new queue is empty and satisfies the invariant |
| Queue.Queue.CopyDataToQueue | FreeRTOS_example/FreeRTOS/Source/queue.c:1723-1799 | the bytes written in place refine the deque operation: to the back, to the front, or overwriting; only overwriting a full queue of items of size zero counts one message too many |
| Queue.Queue.CopyDataFromQueue | FreeRTOS_example/FreeRTOS/Source/queue.c:1802-1817 | the bytes copied out are the first item |
| Queue.Queue.Peek | FreeRTOS_example/FreeRTOS/Source/queue.c:1294-1342 | peeking returns the first item and leaves the contents and the read pointer as they were |
| Queue.Queue.Remove | FreeRTOS_example/FreeRTOS/Source/queue.c:1294-1303 | receiving returns the first item and leaves the rest |
| Queue.Queue.Reset | FreeRTOS_example/FreeRTOS/Source/queue.c:279-329 | resetting empties the queue and wakes one sender; no wake-up is lost if and only if no sender still waits or every slot is claimed by a woken one |
| Queue.Queue.Send | FreeRTOS_example/FreeRTOS/Source/queue.c:768-900 | the item is put exactly if there is room or it overwrites, one receiver is woken for it, and no wake-up is lost; the invariant fails exactly if a full queue of items of size zero is overwritten |
| Queue.Queue.Receive | FreeRTOS_example/FreeRTOS/Source/queue.c:1284-1391 | the first item is received exactly if there is one; taking wakes a sender, peeking passes the wake-up on to another receiver |
| Queue.Queue.SendFromISR | FreeRTOS_example/FreeRTOS/Source/queue.c:947-1095 | the item is put, and is in the history of the queue, exactly if there is room or it overwrites; the invariant survives if and only if the lock count is below 127 and no full queue of items of size zero is overwritten |
| Queue.Queue.ReceiveFromISR | FreeRTOS_example/FreeRTOS/Source/queue.c:1460-1548 | the first item is received, and its removal is in the history, exactly if there is one; the wake-up claim survives if and only if the lock count is below 127 |
| Queue.Queue.LockQueue | FreeRTOS_example/FreeRTOS/Source/queue.c:264-276 | locking starts both counts and keeps the claim |
| Queue.Queue.IsQueueEmpty | FreeRTOS_example/FreeRTOS/Source/queue.c:1940-1958 | the look taken with the queue locked is right, and what it saw covers every message that comes before the task is listed |
| Queue.Queue.IsQueueFull | FreeRTOS_example/FreeRTOS/Source/queue.c:1979-1997 | the same for free slots |
| Queue.Queue.PlaceOnEventList | FreeRTOS_example/FreeRTOS/Source/queue.c:1402-1433 | a task may be listed though messages came after it looked: the lock count covers them |
| Queue.Queue.UnlockTx | FreeRTOS_example/FreeRTOS/Source/queue.c:1820-1906 | for each message that came while the queue was locked one receiver is woken, in order |
| Queue.Queue.UnlockRx | FreeRTOS_example/FreeRTOS/Source/queue.c:1908-1937 | the same for free slots and senders |
| Queue.Queue.TimeOut | FreeRTOS_example/FreeRTOS/Source/tasks.c:2573-2589 | a block time that ends takes one task off a list and loses no wake-up of another |
| QueueHistory.FirstInFirstOut | FreeRTOS_example/FreeRTOS/Source/queue.c:1723-1817 | over any run with sends to the back, the items are received in the order sent, the rest still waiting |
| QueueHistory.FrontIsNext | FreeRTOS_example/FreeRTOS/Source/queue.c:1762-1797 | after any run the next receiver gets an item that is sent to the front, and the others are left as they were |
| QueueHistory.LastInFirstOut | FreeRTOS_example/FreeRTOS/Source/queue.c:1762-1797 | over any run with sends to the front only, the items stand in the reverse order of sending |
| QueueHistory.Mailbox | FreeRTOS_example/FreeRTOS/Source/queue.c:1768-1791 | over any run of overwriting and receiving, the queue holds the item written last until it is received, and the items received are exactly those that no other took the place of |
| QueueHistory.Conservation | FreeRTOS_example/FreeRTOS/Source/queue.c:1723-1817 | over any run without overwriting, each item sent is received once or still waits, and nothing else is received |
| QueueWakeups.PostKeeps | FreeRTOS_example/FreeRTOS/Source/queue.c:993-1082 | an interrupt that adds one keeps the wake-up claim while the lock count is below 127 |
| QueueWakeups.CountWraps | FreeRTOS_example/FreeRTOS/Source/queue.c:1077-1082 | at a lock count of 127 one more message makes the count negative and unlocking wakes no one: a wake-up is lost exactly if there are more messages than tasks on their way |
| QueueWakeups.DrainedWakes | FreeRTOS_example/FreeRTOS/Source/queue.c:1820-1937 | unlocking wakes as many tasks as messages came, or all that wait, from the head of the list |
| QueueWakeups.DrainedKeeps | FreeRTOS_example/FreeRTOS/Source/queue.c:1820-1937 | unlocking keeps the wake-up claim |
| QueueWakeups.PassedOn | FreeRTOS_example/FreeRTOS/Source/queue.c:1336-1362 | a task that only looked passes its wake-up on |
| QueueProtocol.Quiescent | FreeRTOS_example/FreeRTOS/Source/queue.c:1263-1457 | between calls with no woken task still to retry, receivers wait only on an empty queue and senders only on a full one |
| QueueProtocol.InterruptPuts | FreeRTOS_example/FreeRTOS/Source/queue.c:947-1095 | an interrupt at any point of the protocol keeps it if and only if the lock count is below 127 |
| QueueProtocol.InterruptTakes | FreeRTOS_example/FreeRTOS/Source/queue.c:1460-1548 | the same for an interrupt that receives |
| QueueProtocol.Resets | FreeRTOS_example/FreeRTOS/Source/queue.c:307-322 | waking one sender for all the slots that become free keeps the protocol if and only if no sender waits any more or the slots are all claimed |
| EventBits.WaitValueRoundTrip | FreeRTOS_example/FreeRTOS/Source/event_groups.c:89-104 | event bits and control bits share the list item value without disturbing each other |
| EventBits.SnapshotRoundTrip | FreeRTOS_example/FreeRTOS/Source/event_groups.c:89-104 | the bits handed to a released task are read back as they were, marked as set |
| EventBits.ClearingSatisfiesNothing | FreeRTOS_example/FreeRTOS/Source/event_groups.c:472-496 | clearing bits satisfies no condition that did not hold |
| EventBits.WaitConditionMeans | FreeRTOS_example/FreeRTOS/Source/event_groups.c:683-712 | the condition for all bits holds exactly if none that is waited for is missing, and that for any bit exactly if they are not all missing |
| EventBits.PlainIsBelow | FreeRTOS_example/FreeRTOS/Source/event_groups.c:98-102 | the event bits are those of values below 2^24, and the rest of a value are its control bits |
| EventBits.Members | FreeRTOS_example/FreeRTOS/Source/event_groups.c:563-612 | the waiters released are exactly those satisfied, those kept exactly the others |
| EventBits.KeptOrder | FreeRTOS_example/FreeRTOS/Source/event_groups.c:563-612 | the waiters that stay keep their order |
| EventBits.ToClearIsUnion | FreeRTOS_example/FreeRTOS/Source/event_groups.c:586-612 | the bits cleared are exactly the union of those of released waiters that clear on exit |
| EventGroups.SettledAfterSet | FreeRTOS_example/FreeRTOS/Source/event_groups.c:530-621 | after bits have been set no listed waiter has a condition that holds |
| EventGroups.TruthfulAfterSet | FreeRTOS_example/FreeRTOS/Source/event_groups.c:530-621 | every released waiter finds bits that satisfy what it waited for |
| EventGroups.EventGroup.ReleaseSatisfied | FreeRTOS_example/FreeRTOS/Source/event_groups.c:553-612 | the loop that unlinks as it goes releases exactly the satisfied waiters and hands each the same snapshot |
| EventGroups.EventGroup.SetEventBits | FreeRTOS_example/FreeRTOS/Source/event_groups.c:530-621 | setting bits releases exactly the waiters for all bits of which none is missing and the waiters for any bit of which one is there, each with the same snapshot; it keeps the rest in order, and clears the union of the clear-on-exit bits of those released |
| EventGroups.EventGroup.ClearEventBits | FreeRTOS_example/FreeRTOS/Source/event_groups.c:472-496 | the bits are cleared and the former value returned; no waiter becomes releasable |
| EventGroups.EventGroup.WaitBits | FreeRTOS_example/FreeRTOS/Source/event_groups.c:324-409 | the task goes on exactly if no bit is missing when it waits for all, or one is there when it waits for any, clearing bits if asked, and blocks otherwise if it may |
| EventGroups.EventGroup.Sync | FreeRTOS_example/FreeRTOS/Source/event_groups.c:208-265 | the task's bits are set and it goes on exactly if no bit it waits for is missing then, which it then clears; otherwise it waits |
| EventGroups.EventGroup.TimeOut | FreeRTOS_example/FreeRTOS/Source/tasks.c:2573-2589 | a task whose block time ends leaves the list, with nothing else changed |
| EventGroups.EventGroup.Finish | FreeRTOS_example/FreeRTOS/Source/event_groups.c:421-469 | a task released by bits returns bits that satisfy its condition; one that timed out looks once more at the group and clears only if it is satisfied |
| Rendezvous.AllOrNone | FreeRTOS_example/FreeRTOS/Source/event_groups.c:208-321 | the waiters of a rendezvous are released together or not at all |
| Rendezvous.EveryoneWaits | FreeRTOS_example/FreeRTOS/Source/event_groups.c:208-321 | as long as a bit is missing everyone who arrives waits and no bit is lost |
| Rendezvous.LastArrivalReleasesAll | FreeRTOS_example/FreeRTOS/Source/event_groups.c:208-321 | over any number of arrivals, the first after which no bit is missing releases every task, each with the complete bits, and leaves the bits clear |
| Rendezvous.EveryoneWaitsAmongOthers | FreeRTOS_example/FreeRTOS/Source/event_groups.c:208-321 | whoever else waits, as long as nobody else clears bits of the rendezvous: until these are complete everyone who arrives waits and none of them is lost |
| Rendezvous.LastArrivalAmongOthers | FreeRTOS_example/FreeRTOS/Source/event_groups.c:208-321 | whoever else waits, as long as nobody else clears bits of the rendezvous: the arrival that completes them releases everyone, all with the same complete bits, leaves them clear, and only waiters of other kinds stay |
| FatLock.IOManager.constructor | FreeRTOS_example/FreeRTOS-Plus/Source/FreeRTOS-Plus-FAT/ff_locking.c:119-136 | all three bits are set: nobody is inside |
| FatLock.IOManager.WaitForBit | FreeRTOS_example/FreeRTOS-Plus/Source/FreeRTOS-Plus-FAT/ff_locking.c:217-225 | a task waits exactly if some task is inside, and waiting takes no lock |
| FatLock.IOManager.TryLockFAT | FreeRTOS_example/FreeRTOS-Plus/Source/FreeRTOS-Plus-FAT/ff_locking.c:211-239 | in any interleaving the test and clear succeeds exactly if no task is inside, so at most one is |
| FatLock.IOManager.TakeHandle | FreeRTOS_example/FreeRTOS-Plus/Source/FreeRTOS-Plus-FAT/ff_locking.c:231-237 | the handle names the task that cleared the bit |
| FatLock.IOManager.DropHandle | FreeRTOS_example/FreeRTOS-Plus/Source/FreeRTOS-Plus-FAT/ff_locking.c:242-247 | the bit is still clear, as the assertion there demands, when the owner gives up the handle |
| FatLock.IOManager.ReleaseFAT | FreeRTOS_example/FreeRTOS-Plus/Source/FreeRTOS-Plus-FAT/ff_locking.c:242-247 | the bit is set, no task is inside, and every task waiting for it is released |
| FatLock.IOManager.HasLock | FreeRTOS_example/FreeRTOS-Plus/Source/FreeRTOS-Plus-FAT/ff_locking.c:174-195 | the answer is yes exactly for the task that owns the lock |
| FatLock.IOManager.TryLockDirectory | FreeRTOS_example/FreeRTOS-Plus/Source/FreeRTOS-Plus-FAT/ff_locking.c:139-164 | the directory lock excludes in the same way |
| FatLock.IOManager.UnlockDirectory | FreeRTOS_example/FreeRTOS-Plus/Source/FreeRTOS-Plus-FAT/ff_locking.c:167-171 | the directory lock is free and its waiters are released |
| FatLock.IOManager.BufferWait | FreeRTOS_example/FreeRTOS-Plus/Source/FreeRTOS-Plus-FAT/ff_locking.c:250-272 | the call blocks exactly if no buffer has been announced and it may block; the announcement is consumed exactly if there is one, and no lock bit is disturbed |
| FatLock.IOManager.BufferResume | FreeRTOS_example/FreeRTOS-Plus/Source/FreeRTOS-Plus-FAT/ff_locking.c:250-272 | a task released by the announcement reports success and finds the bits cleared already; one that timed out looks once more, and succeeds and consumes exactly if the bit is set by now |
| FatLock.IOManager.BufferProceed | FreeRTOS_example/FreeRTOS-Plus/Source/FreeRTOS-Plus-FAT/ff_locking.c:275-279 | announcing a buffer disturbs no lock bit |
| FatLock.IOManager.TimeOut | FreeRTOS_example/FreeRTOS-Plus/Source/FreeRTOS-Plus-FAT/ff_locking.c:221-225 | a block time that ends disturbs no lock bit |
| FatLock.IOManager.NobodyWaitsForAFreeLock | FreeRTOS_example/FreeRTOS-Plus/Source/FreeRTOS-Plus-FAT/ff_locking.c:211-247 | a task waits for a lock only while some task is inside it |
| FatLock.SetLockBits | FreeRTOS_example/FreeRTOS-Plus/Source/FreeRTOS-Plus-FAT/ff_locking.c:242-279 | setting bits for waiting tasks changes no lock bit but those set |
| FatBytes.DecodeEncode | FreeRTOS_example/FreeRTOS-Plus/Source/FreeRTOS-Plus-FAT/ff_fat.c:824-949 | an entry written is read back as the part of the value that its format holds |
| FatBytes.EncodeBytes | FreeRTOS_example/FreeRTOS-Plus/Source/FreeRTOS-Plus-FAT/ff_memory.c:110-135 | the lowest byte comes first, and of four bytes the last holds four bits |
| FatBytes.PutNext | FreeRTOS_example/FreeRTOS-Plus/Source/FreeRTOS-Plus-FAT/ff_fat.c:880-925 | a copy is written with all other bytes, in it and in the other copies, as they were |
| FatBytes.PutCopy | FreeRTOS_example/FreeRTOS-Plus/Source/FreeRTOS-Plus-FAT/ff_fat.c:824-949 | a write to one copy of the table changes that entry there and no other |
| FatBytes.WriteNext | FreeRTOS_example/FreeRTOS-Plus/Source/FreeRTOS-Plus-FAT/ff_fat.c:824-949 | writing copy after copy leaves the copies written equal and the others as they were |
| FatChains.Follow | FreeRTOS_example/FreeRTOS-Plus/Source/FreeRTOS-Plus-FAT/ff_fat.c:613-665 | in a well-formed table each entry leads to the next cluster of its chain, and end marks stand exactly at the ends |
| FatChains.EndMarks | FreeRTOS_example/FreeRTOS-Plus/Source/FreeRTOS-Plus-FAT/ff_fat.c:700-735 | the eight highest values that an entry can hold are end marks, and zero counts as one; the highest is written, and the next below them marks a bad cluster |
| FatChains.ClaimKeeps | FreeRTOS_example/FreeRTOS-Plus/Source/FreeRTOS-Plus-FAT/ff_fat.c:1011-1162 | claiming a free cluster keeps the table a set of disjoint acyclic chains |
| FatChains.JoinKeeps | FreeRTOS_example/FreeRTOS-Plus/Source/FreeRTOS-Plus-FAT/ff_dir.c:2596-2666 | linking a claimed cluster behind a chain keeps the table well-formed |
| FatChains.TruncateKeeps | FreeRTOS_example/FreeRTOS-Plus/Source/FreeRTOS-Plus-FAT/ff_fat.c:1243-1325 | truncating behind any cluster of a chain keeps the table well-formed, with every other chain as it was |
| FatChains.UnlinkKeeps | FreeRTOS_example/FreeRTOS-Plus/Source/FreeRTOS-Plus-FAT/ff_fat.c:1243-1325 | unlinking a chain from its first cluster keeps the table well-formed |
| FatChains.UnlinkOnlyFromTheStart | FreeRTOS_example/FreeRTOS-Plus/Source/FreeRTOS-Plus-FAT/ff_fat.c:1243-1325 | unlinking without truncation leaves any set of chains at all if and only if it began at the first cluster |
| FatChains.LoneKeeps | FreeRTOS_example/FreeRTOS-Plus/Source/FreeRTOS-Plus-FAT/ff_fat.c:1262-1295 | overwriting the entry of a free or bad cluster leaves it free or makes it a chain of its own, and the table well-formed |
| FatFree.ClaimHint | FreeRTOS_example/FreeRTOS-Plus/Source/FreeRTOS-Plus-FAT/ff_fat.c:1011-1162 | after a claim the new hint has no free cluster below it if and only if the start of the search had none |
| FatFree.UnlinkHint | FreeRTOS_example/FreeRTOS-Plus/Source/FreeRTOS-Plus-FAT/ff_fat.c:1243-1325 | lowering the hint to the least cluster freed keeps a sound hint sound, and makes any hint sound exactly if none lay free below the lowered one |
| FatFree.HintBehind | FreeRTOS_example/FreeRTOS-Plus/Source/FreeRTOS-Plus-FAT/ff_fat.c:1011-1162 | the first free cluster behind a start is a sound hint exactly if the start was |
| FatFree.ZeroUpdate | FreeRTOS_example/FreeRTOS-Plus/Source/FreeRTOS-Plus-FAT/ff_fat.c:1359-1509 | overwriting one entry changes the number of zero entries by exactly what that entry gains or loses |
| FatFree.UnlinkStep | FreeRTOS_example/FreeRTOS-Plus/Source/FreeRTOS-Plus-FAT/ff_fat.c:1267-1295 | each round of unlinking reads the next cluster before its entry is gone and frees exactly one entry, or none at the place of truncation |
| FatTable.Partition.FindFree | FreeRTOS_example/FreeRTOS-Plus/Source/FreeRTOS-Plus-FAT/ff_fat.c:1011-1162 | (as called at the end of FF_Mount, ff_ioman.c lines 1501-1528) after mounting the hint is sound if and only if nothing was found or no free cluster lies before the start of the search, and the count right if and only if the FSINFO record is not trusted or right |
| FatTable.Partition.GetFATEntry | FreeRTOS_example/FreeRTOS-Plus/Source/FreeRTOS-Plus-FAT/ff_fat.c:406-545 | the entry is the number in its two or four bytes, the lowest first, and of four without the upper four bits; a cluster outside the table is an error |
| FatTable.Partition.PutFATEntry | FreeRTOS_example/FreeRTOS-Plus/Source/FreeRTOS-Plus-FAT/ff_fat.c:824-949 | in every copy of the table the two or four bytes of the entry get the number, the lowest byte first, and no other byte changes; clusters 0 and outside the table are errors that change nothing |
| FatTable.Partition.Search | FreeRTOS_example/FreeRTOS-Plus/Source/FreeRTOS-Plus-FAT/ff_fat.c:1066-1136 | from a start in the table the first free cluster is found, or none exactly if there is none; a start behind the table is taken for free exactly beyond the last sector |
| FatTable.Partition.ClaimFreeCluster | FreeRTOS_example/FreeRTOS-Plus/Source/FreeRTOS-Plus-FAT/ff_fat.c:1011-1162 | the first free cluster from the start on becomes a chain of its own, the number of free entries goes down by one, and errors change no entry |
| FatTable.Partition.FindFreeCluster | FreeRTOS_example/FreeRTOS-Plus/Source/FreeRTOS-Plus-FAT/ff_fat.c:1011-1162 | without a claim the same search; a hint far behind the table is returned as if it were a free cluster, and what is found is a sound hint exactly if the start was |
| FatTable.Partition.CountFreeClusters | FreeRTOS_example/FreeRTOS-Plus/Source/FreeRTOS-Plus-FAT/ff_fat.c:1359-1509 | the count is the FSINFO record if that is trusted, and otherwise the number of zero entries that its loops reach |
| FatTable.Partition.IncreaseFreeClusters | FreeRTOS_example/FreeRTOS-Plus/Source/FreeRTOS-Plus-FAT/ff_fat.c:1314-1322 | (ff_ioman.c lines 1666-1746) the recorded count goes up, or is made anew if it was zero; a hint of zero is searched for anew, sound exactly if its start was; a valid FSINFO sector gets both |
| FatTable.Partition.DecreaseFreeClusters | FreeRTOS_example/FreeRTOS-Plus/Source/FreeRTOS-Plus-FAT/ff_fat.c:1182-1185 | (ff_ioman.c lines 1749-1808) the recorded count goes down in 32 bits, or is made anew if it was zero; hint and FSINFO sector likewise |
| FatTable.Partition.CreateClusterChain | FreeRTOS_example/FreeRTOS-Plus/Source/FreeRTOS-Plus-FAT/ff_fat.c:1171-1189 | whatever the hint, a new chain of one cluster that was free, every other chain unchanged and a right count still right; the hint left is sound exactly if the start of the search was; it fails exactly if no free cluster lies behind that start |
| FatTable.Partition.TraverseFAT | FreeRTOS_example/FreeRTOS-Plus/Source/FreeRTOS-Plus-FAT/ff_fat.c:613-665 | the cluster `count` places on, or the last of the chain; from a free cluster it does not move, nor from a reserved one whose entry is an end mark, from a bad one it finds the bad mark or an error, and outside the table it is an error |
| FatTable.Partition.FindEndOfChain | FreeRTOS_example/FreeRTOS-Plus/Source/FreeRTOS-Plus-FAT/ff_fat.c:668-687 | the last cluster of the chain; a free cluster is its own end, and so is zero and cluster one with an end mark; a bad one and one outside the table are errors unless the number is an end mark |
| FatTable.Partition.GetChainLength | FreeRTOS_example/FreeRTOS-Plus/Source/FreeRTOS-Plus-FAT/ff_fat.c:1192-1226 | the number of clusters from the given one to the end of its chain; one for a free cluster and for cluster one with an end mark, none for zero, a bad cluster or one outside the table |
| FatTable.Partition.UnlinkLoop | FreeRTOS_example/FreeRTOS-Plus/Source/FreeRTOS-Plus-FAT/ff_fat.c:1262-1295 | the loop frees exactly the rest of the chain and reports the number and the least of its clusters; outside the table it fails at once and changes nothing; the entry of a free or bad cluster is overwritten and counted, with an error exactly for a bad one |
| FatTable.Partition.ReleaseChain | FreeRTOS_example/FreeRTOS-Plus/Source/FreeRTOS-Plus-FAT/ff_fat.c:1262-1303 | after the loop the hint is lowered to the least cluster freed if that lies below it; it is sound exactly if no cluster below it was free before |
| FatTable.Partition.UnlinkClusterChain | FreeRTOS_example/FreeRTOS-Plus/Source/FreeRTOS-Plus-FAT/ff_fat.c:1243-1325 | the chain ends at the given cluster or is gone and all others are unchanged; a sound hint stays sound, and with no hint the one searched for anew is sound exactly if the start of that search was; a right count stays right exactly unless a stale FSINFO record is asked for it; clusters outside the table are errors that change no entry; a free or bad cluster becomes free or a chain of its own, with a right count wrong afterwards exactly for a free one |
| FatTable.Partition.AppendCluster | FreeRTOS_example/FreeRTOS-Plus/Source/FreeRTOS-Plus-FAT/ff_dir.c:2596-2650 | the chain gains one cluster that was free, and no other chain changes |
| FatTable.Partition.ExtendDirectory | FreeRTOS_example/FreeRTOS-Plus/Source/FreeRTOS-Plus-FAT/ff_dir.c:2596-2666 | whatever the hint, a directory gains one cluster at its end with the count kept right; it fails exactly for the root of a FAT16 partition, with a count of zero, or with no free cluster behind the start of the search |
| LongNames.CreateLFNEntry | FreeRTOS_example/FreeRTOS-Plus/Source/FreeRTOS-Plus-FAT/ff_dir.c:2344-2422 | an entry holds one piece of thirteen characters at its three places, ended by a zero and filled with ones |
| LongNames.CreateChkSum | FreeRTOS_example/FreeRTOS-Plus/Source/FreeRTOS-Plus-FAT/ff_dir.c:175-187 | the checksum is the rotate-and-add sum of the eleven bytes |
| LongNames.RotateBits | FreeRTOS_example/FreeRTOS-Plus/Source/FreeRTOS-Plus-FAT/ff_dir.c:175-187 | before a byte is added the sum is rotated: each bit moves one place down and the lowest becomes the highest |
| LongNames.CStringIs | FreeRTOS_example/FreeRTOS-Plus/Source/FreeRTOS-Plus-FAT/ff_dir.c:1409-1445 | a buffer that holds a name and a zero reads as that name |
| LongNames.Directory.CreateLFNs | FreeRTOS_example/FreeRTOS-Plus/Source/FreeRTOS-Plus-FAT/ff_dir.c:2428-2592 | a name of up to 250 characters is stored in its pieces, the last first and marked; longer ones are refused, and no other entry changes |
| LongNames.Directory.PopulateLongDirent | FreeRTOS_example/FreeRTOS-Plus/Source/FreeRTOS-Plus-FAT/ff_dir.c:1278-1469 | reading stays within pcFileName whatever the entries hold, fails exactly if the directory ends before the short entry, and takes the long name exactly if the checksum is that of the short one; a stored name is read back as a terminated string if and only if it is shorter than 250 |
| LongNames.Directory.StoreAndFind | FreeRTOS_example/FreeRTOS-Plus/Source/FreeRTOS-Plus-FAT/ff_dir.c:2428-2592 | storing and reading a name gives it back, multiples of 13 included, if and only if it is shorter than 250 |
| LongNames.Directory.FullName | FreeRTOS_example/FreeRTOS-Plus/Source/FreeRTOS-Plus-FAT/ff_dir.c:1278-1469 | a name of 250 characters fills the buffer with no zero behind it |
| HashBits.SetExactly | FreeRTOS_example/FreeRTOS-Plus/Source/FreeRTOS-Plus-FAT/ff_dir.c:3331-3374 | setting the bit of a hash sets that hash and no other |
| HashBits.PlacesApart | FreeRTOS_example/FreeRTOS-Plus/Source/FreeRTOS-Plus-FAT/ff_dir.c:3356-3374 | different hashes have different bits |
| DirEntries.ProcessShortName | FreeRTOS_example/FreeRTOS-Plus/Source/FreeRTOS-Plus-FAT/ff_dir.c:856-883 | the name without its padding, and the extension behind a dot if there is one |
| DirEntries.LiveBytes | FreeRTOS_example/FreeRTOS-Plus/Source/FreeRTOS-Plus-FAT/ff_dir.c:856-883 | by its bytes an entry is a file unless 0xE5 marks it as deleted, a zero ended the directory, or bit 3 of its attributes says label or long name |
| DirEntries.LongPartWritten | FreeRTOS_example/FreeRTOS-Plus/Source/FreeRTOS-Plus-FAT/ff_dir.c:2543-2578 | an entry of a long name written into free room changes nothing of what the directory contains |
| DirEntries.Extended | FreeRTOS_example/FreeRTOS-Plus/Source/FreeRTOS-Plus-FAT/ff_dir.c:2596-2666 | a cluster of zeros at the end changes nothing of what a directory contains |
| DirEntries.AddedUnique | FreeRTOS_example/FreeRTOS-Plus/Source/FreeRTOS-Plus-FAT/ff_dir.c:2756-2776 | after a file is added no two have the same short name if and only if that was so before and its name was not taken |
| HashCache.StillCovers | FreeRTOS_example/FreeRTOS-Plus/Source/FreeRTOS-Plus-FAT/ff_dir.c:2841-2860 | an entry that is written and hashed leaves a table that misses no name of the directory, and an exact one exact if it is written into free room where searches look |
| HashCache.MarkedCovers | FreeRTOS_example/FreeRTOS-Plus/Source/FreeRTOS-Plus-FAT/ff_file.c:949-969 | marking an entry as deleted without giving up the table leaves one that misses no name, and that is still exact if and only if another live entry has the same hash |
| HashCache.HashedDirectories.CheckDirentHash | FreeRTOS_example/FreeRTOS-Plus/Source/FreeRTOS-Plus-FAT/ff_dir.c:3397-3419 | not found only if no live name has the hash, no table exactly if there is none for the directory; found by an exact table only if a live name has the hash |
| HashCache.HashedDirectories.Victim | FreeRTOS_example/FreeRTOS-Plus/Source/FreeRTOS-Plus-FAT/ff_dir.c:3205-3221 | of the tables without handles the first with the most misses is replaced |
| HashCache.HashedDirectories.HashEntries | FreeRTOS_example/FreeRTOS-Plus/Source/FreeRTOS-Plus-FAT/ff_dir.c:3230-3292 | after hashing, the table has exactly the hashes of the live names |
| HashCache.HashedDirectories.HashDir | FreeRTOS_example/FreeRTOS-Plus/Source/FreeRTOS-Plus-FAT/ff_dir.c:3194-3301 | an exact table is made for the directory, in the place of the victim, unless every table is in use; the others keep what they have |
| HashCache.HashedDirectories.UnHashDir | FreeRTOS_example/FreeRTOS-Plus/Source/FreeRTOS-Plus-FAT/ff_dir.c:3309-3322 | the directory has no table any more and the others keep theirs |
| HashCache.HashedDirectories.ShortNameExists | FreeRTOS_example/FreeRTOS-Plus/Source/FreeRTOS-Plus-FAT/ff_dir.c:191-280 | a name in use is always reported, whatever moves went before; the answer is exactly whether the table has its hash or, without a table, the scan finds the name; with an exact table it is exactly whether its hash is in use |
| HashCache.HashedDirectories.ScanEntries | FreeRTOS_example/FreeRTOS-Plus/Source/FreeRTOS-Plus-FAT/ff_dir.c:228-277 | without a table the entries are compared, volume labels included |
| HashCache.HashedDirectories.FindFreeDirent | FreeRTOS_example/FreeRTOS-Plus/Source/FreeRTOS-Plus-FAT/ff_dir.c:1865-1968 | the place found is that of the first run of deleted entries that is long enough, or the end of the directory if there is none; it is free for as many entries as are needed, as far as the directory reaches, and no end mark lies before it; the directory grows by exactly one cluster if what is left is too short; it fails only at the end of a directory that cannot grow or is of the longest size |
| HashCache.HashedDirectories.PushParts | FreeRTOS_example/FreeRTOS-Plus/Source/FreeRTOS-Plus-FAT/ff_dir.c:2543-2578 | the entries of a long name are written one by one as far as the directory reaches; what it contains and every hash table stay as they were |
| HashCache.HashedDirectories.CreateLFNs | FreeRTOS_example/FreeRTOS-Plus/Source/FreeRTOS-Plus-FAT/ff_dir.c:2428-2592 | the name stands in the entries found for it; a name of more than 250 characters is refused, and no other entry changes |
| HashCache.HashedDirectories.PutDirent | FreeRTOS_example/FreeRTOS-Plus/Source/FreeRTOS-Plus-FAT/ff_dir.c:2817-2860 | the short entry is written and hashed: no table misses a name, and exact tables stay exact if it lies in free room where searches look |
| HashCache.HashedDirectories.WriteDirent | FreeRTOS_example/FreeRTOS-Plus/Source/FreeRTOS-Plus-FAT/ff_dir.c:2786-2866 | the long name stands in front of its short entry and exactly this file is added, provided that its number is below 65535; at 65536 and above the number is cut and another entry overwritten |
| HashCache.HashedDirectories.CreateDirent | FreeRTOS_example/FreeRTOS-Plus/Source/FreeRTOS-Plus-FAT/ff_dir.c:2701-2876 | from the choice of the short name to its hash: below number 65535 exactly one file is added, at the end of the directory too, its long name in front of it; a name that does not fit 8.3 gets a short name not in use, and short names stay unique if and only if the one settled on was not taken; no table misses a name and exact ones stay exact; an error leaves what the directory contains as it was |
| HashCache.HashedDirectories.PlaceDirent | FreeRTOS_example/FreeRTOS-Plus/Source/FreeRTOS-Plus-FAT/ff_dir.c:2773-2866 | once the short name is settled: the entries go to the first place that is free for them, below number 65535 exactly one file is added with its long name in front of it, and the directory grows by one cluster exactly if they do not fit in it |
| HashCache.HashedDirectories.AddDirentHash | FreeRTOS_example/FreeRTOS-Plus/Source/FreeRTOS-Plus-FAT/ff_dir.c:3379-3392 | the hash goes into the table of that directory only; a table stays exact if the hash is that of a name in its directory, and misses no name in any case |
| HashCache.HashedDirectories.RmLFNs | FreeRTOS_example/FreeRTOS-Plus/Source/FreeRTOS-Plus-FAT/ff_dir.c:3154-3190 | exactly the entries of long names in front of a short entry are marked, back to the first entry that is none, so what the directory contains stays the same |
| HashCache.HashedDirectories.MarkEntry | FreeRTOS_example/FreeRTOS-Plus/Source/FreeRTOS-Plus-FAT/ff_file.c:953-961 | exactly this entry is gone: its first byte is 0xE5, its cluster zero, and its other bytes are as they were; an exact table stays so if and only if another live entry has the same hash |
| HashCache.HashedDirectories.RemoveEntry | FreeRTOS_example/FreeRTOS-Plus/Source/FreeRTOS-Plus-FAT/ff_file.c:741-760 | a deleted file leaves its directory, every entry of the long name in front of it is deleted, and no other file is touched; the directory gives up its table, so no table has a hash that is gone |
| HashCache.HashedDirectories.MoveEntry | FreeRTOS_example/FreeRTOS-Plus/Source/FreeRTOS-Plus-FAT/ff_file.c:931-977 | a move takes the entry and the long name in front of it away and adds exactly one file to the target directory, its long name in front of it, also within one directory; an error leaves what every directory contains as it was; no table misses a name afterwards, and an exact table of the old directory stays so if and only if it has none or another live entry has the same hash |
| HashCache.HashedDirectories.RemoveDirectory | FreeRTOS_example/FreeRTOS-Plus/Source/FreeRTOS-Plus-FAT/ff_file.c:604-637 | a removed directory has no table that a later directory could inherit |
| HashCache.HashedDirectories.NewDirectory | FreeRTOS_example/FreeRTOS-Plus/Source/FreeRTOS-Plus-FAT/ff_dir.c:3072-3099 | a new directory has no table, whatever directory its cluster belonged to before |
| HashCache.HashedDirectories.ShortNameFound | FreeRTOS_example/FreeRTOS-Plus/Source/FreeRTOS-Plus-FAT/ff_dir.c:566-577 | found exactly if some file of the directory has these eleven bytes |
| HashCache.HashedDirectories.FindTail | FreeRTOS_example/FreeRTOS-Plus/Source/FreeRTOS-Plus-FAT/ff_dir.c:2265-2336 | the search for a tail ends; the name settled on is that of the first try that is not said to exist, and so not in use in the directory: the name given if that is allowed, then with the numbers 1 to 4 behind a tilde, then with the four digits of a hash that is hashed again for each try; it fails exactly if the last try is said to exist too |
| HashCache.HashedDirectories.FindShortName | FreeRTOS_example/FreeRTOS-Plus/Source/FreeRTOS-Plus-FAT/ff_dir.c:2265-2336 | a name that fits 8.3 is kept as it is, exactly unless the check found it; any other gets that of the first try for a tail that is not said to exist, which is not in use in the directory |
| MqttSize.SizeBytesComplete | src/mqtt.c:350-373 | the length field is complete and its value is the size, for every size |
| MqttSize.Shortest | src/mqtt.c:350-373 | no length field with that value is shorter |
| MqttSize.FourBytes | src/mqtt.c:375-421 | four bytes are enough exactly for sizes below 2^28 |
| MqttSize.SetSize | src/mqtt.c:350-373 | the buffer gets exactly the shortest length field behind the first byte |
| MqttSize.GetSize | src/mqtt.c:375-421 | the field read is complete and the size its value; it is refused exactly if it does not end within four bytes |
| MqttPublish.EncodeFixedHeader | src/mqtt.c:431-475 | the header is written exactly if QoS, type and size are valid, and it stays within five bytes exactly for sizes below 2^28; what an invalid QoS or type leaves in the first byte is said exactly |
| MqttPublish.DecodeFixedHeader | src/mqtt.c:477-547 | a valid header is decoded to what encodes to it; an invalid QoS or type gives all fields zero |
| MqttPublish.EncodePublish | src/mqtt.c:557-638 | the message sent is, byte by byte, that of section 3.3: topic length, topic, packet identifier for QoS 1 and 2 and payload behind the fixed header, with the retain and dup given in swapped places; it is sent exactly if the buffer is larger than the header and the size valid, and nothing behind its end is written |
| MqttPublish.PublishWithin | src/mqtt.c:557-638 | the message written stays in the buffer if and only if this is longer than topic and payload by three bytes, two more with a packet identifier, and the length field |
| MqttPublish.DecodePublish | src/mqtt.c:648-753 | topic and payload are cut out where section 3.3 puts them, and accepted exactly if neither is empty and both lie in the message |
| MqttPublish.PublishThenRead | src/mqtt.c:557-753 | decoding what was encoded gives back QoS, topic and payload, if and only if neither topic nor payload is empty |
| MqttConnect.PayloadRead | src/mqtt.c:1078-1171 | the section 3.1.3 parser recovers exactly the strings and flags written |
| MqttConnect.ConnectRead | src/mqtt.c:1173-1255 | the section 3.1 parser recovers the whole packet |
| MqttConnect.ConnectConforms | src/mqtt.c:979-1025 | what is written obeys the rules on the flags if and only if a password comes with a user name and permanent_will with a will |
| MqttConnect.FillAParam | src/mqtt.c:1027-1075 | one string goes behind its 16-bit length, unless it is empty or takes up the space left |
| MqttConnect.FillParameters | src/mqtt.c:1078-1171 | the payload is exactly the strings present, in the order of section 3.1.3, unless the space runs out |
| MqttConnect.ConnectFill | src/mqtt.c:1173-1255 | the message delimited in the buffer parses back to the packet, and has name and level of the protocol, flags and keep alive time in their bytes; the rest of the space given is zero; it is accepted exactly if the strings are usable and twice their characters with the headers fit; nothing behind the end of what is placed is written |
| MqttConnect.SpaceCheck | src/mqtt.c:1173-1255 | every space in which a message is accepted has room for it if and only if no message passes for these strings or they have five characters or more |
| MqttConnect.WritesWithin | src/mqtt.c:1027-1171 | what is written before the check stays in the buffer if and only if the headers and every run of first strings whose characters are fewer than the space fit in it with two bytes for each string |
| MqttConnect.NineteenCharacters | src/mqtt.c:1027-1255 | a client identifier of 19 characters and a buffer of 20 bytes: written up to byte 36, and then refused |

## Left out

- Port layer, context switch and yield themselves, stacks, allocation, MPU, trace and run-time statistics, co-routines,
  queue registry and queue sets, tickless idle: hardware, unseen code or disabled options.
- Task notifications, xTaskAbortDelay, recursive mutexes, vTaskSetTimeOutState and xTaskCheckForTimeOut: not needed for
  the properties above.
- The contents of callbacks, and how long they take: time passes only where a method has a parameter `elapsed` or `ticks`.
- The width of uxPendedTicks and of xNumOfOverflows: both are unbounded here.
- The length of the timer command queue: commands never overflow it, as the source asserts for those of the daemon itself.
- vTaskSuspend, vTaskDelete and the other calls before the scheduler runs: only the creation of tasks is modelled there.
- TimerState.OneCallPerPeriod: speaks of a timer followed since a start with no other command under way; a late reload
  sends a start of its own, which a stop queued before it does not undo.
- TimerDaemon.Daemon.ProcessReceivedCommands: the daemon is not held up for as long as a wrap, which is `Timely`: the
  tick count was sampled, every listed expiry fell and every command was sent less than a wrap before. No other task
  sends a command while the daemon catches up.
- Kernel.Scheduler.Delete: another task that holds a mutex is not deleted, for KernelState.AccountedDelete shows that
  the accounts would fail.
- Kernel.Scheduler.CleanUpOne: the same, and the idle task is not the task it frees.
- Kernel.Scheduler.HighestPriorityFirst: vTaskPriorityInherit and vTaskPrioritySet rewrite the value of an event list
  item in place, so the order of an event list is claimed only while no waiting task's priority changes. The values that
  event groups use are not those of tasks on these lists.
- Kernel.Scheduler.PlaceOnEventList: the task leaves its ready list before its event list item is linked, the other way
  round than in the source, which does both where nothing else can run.
- Kernel.Scheduler.MutexBlock: excludes the wait of zero ticks at tick 0xFFFFFFFF, as AddCurrentTaskToDelayedList does.
- Kernel.Scheduler.AddCurrentTaskToDelayedList: excludes the wait of zero ticks at tick 0xFFFFFFFF, for which
  Delays.PendingAdd shows that the invariant fails. No caller in tasks.c, queue.c, event_groups.c and timers.c
  begins one: delays, queues, event groups and notifications return or skip on zero, and the timer daemon waits zero
  ticks only at tick 0.
- Kernel.Scheduler.TaskDelayUntil: the exact claim is for a last wake time less than a wrap ago; Delays.ShouldDelayExact
  has every age.
- Kernel.Scheduler.MutexGive: only the holder gives a mutex back, as the assertion in xTaskPriorityDisinherit demands.
- The ready and event lists of the scheduler are values; RingList.List shows that the linked rings behave that way.
- FatLock.IOManager.Resume: the ten seconds of a locking loop are any number of ticks.
- Sector buffers, the disk driver and I/O errors: the sectors are a faithful store with equal major and minor block size.
- Bad sectors and clusters numbered from ulNumClusters on, which the source keeps out of use in the same way;
  FF_ClearCluster, reading and writing of file data.
- FatTable.Partition.UnlinkClusterChain: the reserved cluster one, whose entry would be overwritten, is not given.
- FatTable.Partition.UnlinkLoop: the same.
- FatTable.Partition.GetChainLength: from cluster one only if its entry is an end mark, as the walk need not end otherwise.
- FatTable.Partition.TraverseFAT: says of the reserved clusters only what follows if their entries are end marks.
- FatTable.Partition.Mount: how a table that is not well-formed behaves.
- FAT12, UTF-8 and UTF-16 names.
- LongNames.Directory.PopulateLongDirent: says only of names stored before what is read; with a checksum that does not
  match, the short name is taken instead and `isLong` is false.
- LongNames.Directory.CreateLFNs: the search for room in the directory is a parameter.
- HashCache.HashedDirectories.FindShortName: what FF_FindEntryInDir finds by comparing long names is a parameter, and so
  is the short name that FF_CreateShortName makes of a long one.
- HashCache.HashedDirectories.ExtendDirectory: whether a cluster is found is a parameter; FatTable.Partition says when.
- CRC16 is a parameter: everything about the hash cache holds for any hash.
- MQTT: reading messages of 2^28 bytes and more (MqttSize.FourBytes says that their size does not fit), subscribe, ping,
  acknowledgements, the waiting loops, NULL pointers.
- MqttPublish.EncodePublish: the sizes of topic and message add up to less than 2^32.
- MqttPublish.DecodeFixedHeader: the same as for MqttSize.GetSize.
- MqttSize.GetSize: the input has a length field that ends in it, or six bytes: the source is not told the input's length.
