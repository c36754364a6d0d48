# MicroOS kernel core in Dafny

A model of the core of MicroOS, a cooperative scheduler for microcontrollers. It covers:

- **The task table.** Ten task slots, each with a period, a sleep count and a last-run time. There are task operations to add, suspend, resume, delete, put to sleep and wake a task.
- **The tick interrupt handler.** It advances the 32-bit tick counter and counts the delays down.
- **One round of the scheduler loop.** It dispatches pending events, then visits the task slots in ascending id order and calls every task that is due.
- **The delay pool** (`MicroOS_OSdelay*`). Ten delay descriptors sit on a free list and an active list, threaded through one static array.
- **The event registry** (`MicroOS_*Event*`). It is a second pool of ten descriptors, with register, delete, trigger, suspend, resume and dispatch.
- **The guard macros and the tick/millisecond conversions** of `MicroOS_Common.h`.

The C source updates static structures in place, so each stateful part is a class:

- `Delays.DelayPool` and `Events.EventPool` each keep their descriptors in an `array`, with the `next` pointers as an `array<int>` of indices (`-1` for NULL). The free and active lists are ghost sequences of node indices, head first.
- `Kernel.MicroOS` holds the task array, the counters and the two pools.

The list algebra the two pools share lives once, in module `Pool`, over generic sequences: `IndexOf`, `Unlinked` and the lemmas about linking, acquiring and releasing nodes. The few helpers that read a record's id (`Ids`, `Position`, `Lookup`, `Without`) are written once per record type: the two records have different fields, and Dafny has no field projection shared by two datatypes without a trait. The list walks and the link surgery (`Find`, `TakeFree`, `Splice`, `UnlinkAt`) are methods of each pool class. They work on that class's own `next` array, heads and ghost lists, just as the C code has separate `free_list`/`active_list` and `OSEvent` statics. Sharing them would need a separate links object inside each pool, with its own footprint, and the model keeps each pool's frame in one object instead.

Every method is proved against a function on values:

- the active list as a sequence of records, for the pools;
- the `Tasks.Table` value, for the task table.

The properties of those functions are proved as lemmas. The pool invariant proves several things on every reachable state:

- The two lists partition the array.
- Each list is linked exactly by `next`.
- No id has two active descriptors.
- The event counter equals the length of the active list.

C integer widths are explicit:

- `u8` and `u32` are subset types.
- `TickCount++` wraps modulo 2^32 (`Types.Inc`).
- `now - since` is the modular difference (`Types.Elapsed`).
- `TaskNum--` is the 8-bit decrement (`Tasks.Dec8`).

Callback pointers and user-data pointers are plain numbers (`Ptr`, with `NULL` = 0). A callback invocation is recorded as a `Call` value in a ghost trace that a dispatch or scheduler round returns.

Some behaviour of the code as written is proved as stated:

- `TaskNum` counts successful `MicroOS_AddTask` calls, including overwrites of a used slot.
- `MicroOS_DeleteTask` lowers it only for a running task. So add, suspend, delete on a free slot leaves the slots as they were, with `TaskNum` one higher (`Tasks.SuspendedDeleteKeepsCount`).
- Eleven such cycles make `MicroOS_AddTask` refuse every task, although every slot is free (`Tasks.CountLeak`).
- In every reachable state `TaskNum` stays between the number of used slots and 11, so the decrement never wraps (`Tasks.Inv`, `Tasks.DeleteTaskSpec`).

The code's behaviour at these edges:

- `MicroOS_OSdelay` has no check on its tick count. A delay started with 0 ticks stays active and never reads "done" (`Delays.CountdownExact`).
- Trigger, suspend and resume of an id that is not registered return `MICROOS_ERROR`, as the doc comments at include/MicroOS.h:55, 63 and 71 say.
- Registering an event with a NULL callback returns `MICROOS_ERROR` through `MICROOS_CHECK_PTR` (src/MicroOS.c:321).
- The record fields follow what `MicroOS.c` reads and writes: a boolean `IsTriggered` flag on events, and `ms`/`IsTimeout` on delays. `MicroOS_types.h` instead declares a `TriggerCount` counter, and it does not declare the descriptor typedefs that `MicroOS.c` uses.

## Model

| member | source | states |
|---|---|---|
| Common.CheckPtr | include/MicroOS_Common.h:27-34 | the guard returns exactly for a NULL pointer, and then with Error |
| Common.CheckErr | include/MicroOS_Common.h:37-45 | the guard returns exactly for a status other than Ok, and passes that status on unchanged |
| Common.CheckId | include/MicroOS_Common.h:48-55 | the guard returns InvalidParam exactly for an id at or above the table size; falling through means the id indexes the table |
| Common.CheckErrRelays | include/MicroOS_Common.h:37-45 | a guard whose return status is never Ok survives conversion to a status and MIROOS_CHECK_ERR unchanged |
| Common.TicksToMsAt | include/MicroOS_Common.h:21 | the division is done first: above 1000 Hz every tick count converts to 0 ms, at or below 1000 Hz to at least as many ms; if the rate divides 1000 the conversion is exact (ms × rate = ticks × 1000) |
| Common.MsToTicksAt | include/MicroOS_Common.h:24 | the division is done first: below 1000 Hz every duration converts to 0 ticks, at or above 1000 Hz to at least as many ticks; if 1000 divides the rate the conversion is exact (ticks × 1000 = ms × rate) |
| Common.RoundTripOnlyAt1000 | include/MicroOS_Common.h:21-24 | converting ms to ticks and back returns the same positive duration if and only if the rate is 1000 Hz |
| Common.ConfiguredRoundTrip | include/MicroOS_Common.h:21-24 | at the configured 1000 Hz both conversions are the identity, in both orders |
| Types.Elapsed | src/MicroOS.c:77-84 | the uint32_t difference is the number of ticks from `since` forward to `now`, modulo 2^32 |
| Types.Inc | src/MicroOS.c:98 | TickCount++ wraps from 2^32-1 to 0 and otherwise adds one |
| Types.ElapsedAfter | src/MicroOS.c:77 | after `d` ticks, however the counter wrapped, the unsigned difference is exactly `d` |
| Types.IncNIsModularAdd | src/MicroOS.c:98 | `d` increments reach the start value plus `d` modulo 2^32 |
| Pool.ThreadedLinks | src/MicroOS.c:201-212 | pool initialisation threads all nodes, in index order, into the free list, and leaves the active list empty |
| Pool.InitLinked | src/MicroOS.c:203-209 | linking node i to i+1 and the last to NULL makes one list of all nodes that partitions the pool with an empty active list |
| Pool.Acquire | src/MicroOS.c:236-244 | popping the free head and pushing it on the active head keeps both lists linked and the pool partitioned |
| Pool.Release | src/MicroOS.c:286-296 | unlinking an active node and pushing it on the free head keeps both lists linked, the others in order, and the pool partitioned |
| Pool.PartitionCovers | src/MicroOS.c:233-234 | every node is on one of the two lists, so an empty free list means the whole pool is active |
| Pool.UnlinkedIndexOf | src/MicroOS.c:284-302 | unlinking the k-th element of a repeat-free list removes it, keeps the list repeat-free and moves each later element up one place |
| Delays.Armed | src/MicroOS.c:215-247 | OSdelay as a function of the active list: rewrite the id's descriptor in place, else Busy when the pool is used up, else push a new descriptor on the head (properties in ArmedSpec) |
| Delays.TickOne | src/MicroOS.c:267-275 | one descriptor per tick: a positive count drops by one and sets the timeout flag on reaching 0; a zero count is left alone (properties in CountdownExact) |
| Delays.CountedDown | src/MicroOS.c:263-278 | OSdelay_Tick: every active descriptor ticked once, none removed (properties in CountedDownSpec) |
| Delays.TimedOut | src/MicroOS.c:250-260 | OSdelayDone: the timeout flag of the id's descriptor, false when the id is not active |
| Delays.Removed | src/MicroOS.c:280-303 | OSdelay_Remove: the id's descriptor unlinked, the others in order (properties in RemovedIsWithout, RemovedSpec) |
| Delays.ArmedSpec | src/MicroOS.c:215-247 | OSdelay returns Busy exactly when the id is not active and the pool is exhausted, and then changes nothing; otherwise the id's descriptor holds the full count and no timeout, a new one only if none existed, and every other id is untouched |
| Delays.ArmedKeepsUnique | src/MicroOS.c:215-247 | OSdelay never gives an id a second active descriptor |
| Delays.CountedDownSpec | src/MicroOS.c:263-278 | a tick keeps every descriptor under its id and ticks each one once |
| Delays.CountedDownKeepsUnique | src/MicroOS.c:263-278 | a tick neither drops nor merges descriptors |
| Delays.CountdownExact | src/MicroOS.c:263-278 | a delay started with t ticks reads not done for n < t ticks and done from tick t on; started with 0 it never reads done |
| Delays.ThreeTickDelay | src/MicroOS.c:215-278 | OSdelay(id, 3) followed by three ticks reads false, false, true |
| Delays.RemovedIsWithout | src/MicroOS.c:280-303 | removal drops exactly the descriptor of the id and keeps the others in order |
| Delays.RemovedSpec | src/MicroOS.c:280-303 | after removal the id is inactive and reads not done, every other id is untouched, and the list is one shorter exactly when the id was active |
| Delays.DelayPool.constructor | src/MicroOS.c:201-212 | an empty active list, and every node on the free list in index order |
| Delays.DelayPool.Find | src/MicroOS.c:217-230 | the scan stops at the id's descriptor, or reports that the id is not active; changes nothing |
| Delays.DelayPool.Start | src/MicroOS.c:215-247 | status and new active list are those of Armed; a new descriptor is the old free head pushed on the active head; the pool invariant is kept |
| Delays.DelayPool.IsDone | src/MicroOS.c:250-260 | returns the timed-out flag of the id's descriptor, false when there is none, and changes nothing |
| Delays.DelayPool.Tick | src/MicroOS.c:263-278 | the active list becomes CountedDown of the old one; both lists keep their nodes |
| Delays.DelayPool.TickWalk | src/MicroOS.c:265-277 | the walk over the linked active list ticks every descriptor exactly once |
| Delays.DelayPool.Remove | src/MicroOS.c:280-303 | the active list becomes Removed of the old one; a removed node is zeroed and becomes the free head |
| Delays.DelayPool.UnlinkAt | src/MicroOS.c:286-296 | the k-th active node is unlinked, cleared and pushed on the free list; the others keep their order |
| Events.Registered | src/MicroOS.c:319-355 | RegisterEvent: Error for NULL, rewrite the id's descriptor in place, else Busy when the pool is used up, else push a new running, untriggered descriptor on the head (properties in RegisteredSpec) |
| Events.Triggered | src/MicroOS.c:383-396 | TriggerEvent: set the triggered flag of the id's descriptor, Error when none (properties in FlagOpsSpec) |
| Events.Suspended | src/MicroOS.c:398-411 | SuspendEvent: clear the run flag of the id's descriptor, Error when none (properties in FlagOpsSpec) |
| Events.Resumed | src/MicroOS.c:413-426 | ResumeEvent: set the run flag of the id's descriptor, Error when none (properties in FlagOpsSpec) |
| Events.Deleted | src/MicroOS.c:357-381 | DeleteEvent: the id's descriptor unlinked, the others in order (properties in DeletedIsWithout, DeletedSpec) |
| Events.Consumed | src/MicroOS.c:434-438 | one descriptor after the dispatch walk: a ready one loses its trigger, any other is untouched |
| Events.Dispatched | src/MicroOS.c:428-442 | the active list after DispatchAllEvents (properties in DispatchedSpec) |
| Events.Fired | src/MicroOS.c:428-442 | the callbacks of DispatchAllEvents, in list order (properties in FiredSound, FiredComplete, FiredOnce) |
| Events.LastFired | src/MicroOS.c:436 | CurrentEventId after DispatchAllEvents (properties in LastFiredIsLast) |
| Events.RegisteredSpec | src/MicroOS.c:319-355 | Error exactly for a NULL callback; Busy exactly for a new id with the pool full; both change nothing; on success the id's descriptor is running, used, not triggered, with the new callback and user data, and other ids are untouched |
| Events.RegisteredKeepsInvariant | src/MicroOS.c:319-355 | registering keeps ids unique and every active descriptor used |
| Events.FlagOpsSpec | src/MicroOS.c:383-426 | trigger, suspend and resume return Error exactly when the id is not registered, and then change nothing; otherwise each sets its one flag of that id's descriptor and nothing else |
| Events.FlagOpsKeepInvariant | src/MicroOS.c:383-426 | the three flag operations keep ids unique and descriptors used |
| Events.TriggerSurvivesSuspension | src/MicroOS.c:383-426 | a trigger while suspended is recorded and not lost; resuming makes the event ready |
| Events.DeletedIsWithout | src/MicroOS.c:357-381 | deletion drops exactly the id's descriptor and keeps the others in order |
| Events.DeletedSpec | src/MicroOS.c:357-381 | after deletion the id is unregistered, other ids are untouched, the invariant holds, and the list is one shorter exactly when the id was registered |
| Events.FiredSound | src/MicroOS.c:428-442 | every callback of a dispatch pass belongs to a descriptor that is running, triggered and used |
| Events.FiredComplete | src/MicroOS.c:428-442 | every running, triggered, used descriptor is called back |
| Events.FiredOnce | src/MicroOS.c:428-442 | with ids unique, every ready descriptor is called back exactly once in a pass: its call occurs once in the trace |
| Events.SuspendTriggerResumeDispatch | src/MicroOS.c:383-442 | register, suspend, trigger, resume: the next dispatch calls the callback exactly once with its user data and consumes the trigger, leaving the registry as registration left it, so a second pass calls nothing |
| Events.FiredAppend | src/MicroOS.c:430-441 | the callbacks of a list are those of its first part followed by those of the rest, so dispatch runs in list order |
| Events.LastFiredIsLast | src/MicroOS.c:434-436 | CurrentEventId after dispatch is the id of the last callback, or unchanged when none fired |
| Events.DispatchedSpec | src/MicroOS.c:428-442 | dispatch clears the triggered flag of exactly the descriptors it calls and nothing else, so a second pass calls nothing |
| Events.DispatchedKeepsInvariant | src/MicroOS.c:428-442 | dispatch keeps the registry invariant |
| Events.Exhaustion | src/MicroOS.c:337-340 | registering n+1 new ids into a registry with room for n succeeds n times and then returns Busy |
| Events.NewestFiresFirst | src/MicroOS.c:351-352 | ids 1, 2, 3 registered in that order and all triggered are called back 3, 2, 1 |
| Events.EventPool.constructor | src/MicroOS.c:305-316 | an empty registry with every node free in index order |
| Events.EventPool.Find | src/MicroOS.c:322-334 | the scan stops at the id's descriptor, or reports that the id is not registered; changes nothing |
| Events.EventPool.Register | src/MicroOS.c:319-355 | status and new active list are those of Registered; EventNum follows the active list |
| Events.EventPool.Delete | src/MicroOS.c:357-381 | the active list becomes Deleted of the old one, and EventNum drops with it |
| Events.EventPool.Trigger | src/MicroOS.c:383-396 | status and new list are those of Triggered |
| Events.EventPool.Suspend | src/MicroOS.c:398-411 | status and new list are those of Suspended |
| Events.EventPool.Resume | src/MicroOS.c:413-426 | status and new list are those of Resumed |
| Events.EventPool.DispatchAll | src/MicroOS.c:428-442 | the list becomes Dispatched of the old one, the callbacks are Fired of it, in list order, and CurrentEventId is the last id fired |
| Events.EventPool.Visit | src/MicroOS.c:434-438 | one ready descriptor is recorded as current, called back and has its trigger cleared |
| Tasks.Initial | src/MicroOS.c:23-34 | after initialisation all ten slots are zero, and TaskNum and TickCount are 0 |
| Tasks.InitialInv | src/MicroOS.c:23-34 | the initial table satisfies the table invariant |
| Tasks.VisitedSpec | src/MicroOS.c:71-89 | a visit calls the task exactly when it is used, running, not still asleep and a period has elapsed; a call stamps LastRunTime with the tick and ends any sleep; a task still asleep is untouched; nothing else changes |
| Tasks.AtMostOncePerPeriod | src/MicroOS.c:84-88 | after a call at `now` the next call comes only a whole period later; with a non-zero period a second visit at the same tick calls nothing |
| Tasks.VisitedTwice | src/MicroOS.c:84-88 | a second visit at the same tick calls only a task that was just called and has period 0 |
| Tasks.SleepThenVisit | src/MicroOS.c:77-84 | a task put to sleep for `ticks` is called iff both `ticks` and its period have elapsed since it went to sleep; before the sleep is over it is untouched |
| Tasks.WokenThenVisit | src/MicroOS.c:168-182 | a task woken early is called on its period again, counted from its last stamp |
| Tasks.AddedThenVisit | src/MicroOS.c:36-55 | a newly added task is first called once TickCount reaches its period |
| Tasks.SleepExample | src/MicroOS.c:77-88 | period 100, sleep 50 at tick 10: asleep at 59, woken but not called at 60, not called at 109, called at 110 |
| Tasks.AddTask | src/MicroOS.c:36-55 | AddTask on the table value: id check, NULL check, TaskNum check, then fill the slot and count it (properties in AddTaskSpec) |
| Tasks.SuspendTask | src/MicroOS.c:104-115 | SuspendTask on the table value: id check, NotInitialized for an unused slot, else clear the run flag (properties in FlagOpsSpec) |
| Tasks.ResumeTask | src/MicroOS.c:117-128 | ResumeTask on the table value: id check, NotInitialized for an unused slot, else set the run flag (properties in FlagOpsSpec) |
| Tasks.DeleteTask | src/MicroOS.c:130-144 | DeleteTask on the table value: id check, the 8-bit decrement for a running task, then the slot zeroed (properties in DeleteTaskSpec) |
| Tasks.SleepTask | src/MicroOS.c:146-166 | SleepTask on the table value: id check, zero-tick check, NotInitialized for an unused slot, else sleep from the current tick (properties in SleepTaskSpec) |
| Tasks.WakeupTask | src/MicroOS.c:168-182 | WakeupTask on the table value: id check, NotInitialized for an unused slot, else clear the sleep (properties in FlagOpsSpec) |
| Tasks.Visited | src/MicroOS.c:71-89 | one iteration of the scheduler's task loop on one slot: the slot afterwards and whether the function is called (properties in VisitedSpec) |
| Tasks.Due | src/MicroOS.c:71-84 | the independent condition under which the loop calls a task: used, running, sleep over, period elapsed |
| Tasks.PassTasks | src/MicroOS.c:69-90 | the slots after one pass of the task loop, each visited once |
| Tasks.PassCalls | src/MicroOS.c:69-90 | the task calls of one pass, in ascending id (properties in PassCallsSound, PassCallsComplete) |
| Tasks.PassCurrent | src/MicroOS.c:86 | CurrentTaskId after one pass (properties in PassCurrentSpec) |
| Tasks.IdCheckedFirst | src/MicroOS.c:36-182 | every task operation returns InvalidParam for an out-of-range id before any other check, and changes nothing |
| Tasks.AddTaskSpec | src/MicroOS.c:36-55 | Error exactly for a NULL function or TaskNum above 10; on success the slot is filled and running, overwriting a used one but keeping its SleepTicks, TaskNum goes up by one, and the other slots and counters are untouched |
| Tasks.FlagOpsSpec | src/MicroOS.c:104-182 | suspend, resume and wake-up return NotInitialized exactly for an unused slot and otherwise change only their flag(s) of that slot |
| Tasks.SleepTaskSpec | src/MicroOS.c:146-166 | a zero tick count gives InvalidParam even on an unused slot; only then does an unused slot give NotInitialized; on success the slot sleeps from the current tick and nothing else in the table changes |
| Tasks.DeleteTaskSpec | src/MicroOS.c:130-144 | always Ok for an id in range, used or not; the slot is zeroed, TaskNum drops by one exactly when the task was running, and nothing else in the table changes |
| Tasks.Dec8 | src/MicroOS.c:138 | the uint8_t decrement subtracts one from a positive count |
| Tasks.OpsKeepInv | src/MicroOS.c:36-182 | every task operation keeps the table invariant: unused slots are zero and used slots ≤ TaskNum ≤ 11 |
| Tasks.Ticked | src/MicroOS.c:94-102 | the tick handler advances TickCount by one modulo 2^32 and changes nothing else in the table |
| Tasks.TickedNSpec | src/MicroOS.c:98 | n ticks advance TickCount by n modulo 2^32 |
| Tasks.DelayStatus | src/MicroOS.c:184-198 | MicroOS_delay refuses a zero tick count with InvalidParam and otherwise returns Ok |
| Tasks.BusyWaitEnds | src/MicroOS.c:193-196 | the busy wait keeps waiting for exactly the first `ticks` tick interrupts, across a wrap of the counter |
| Tasks.SuspendedDeleteKeepsCount | src/MicroOS.c:130-144 | add, suspend, delete on a free slot leaves the slots as they were and TaskNum one higher |
| Tasks.CountLeak | src/MicroOS.c:42-43 | eleven add-suspend-delete cycles from the initial table leave every slot free, yet AddTask then returns Error |
| Tasks.PassCallsSound | src/MicroOS.c:69-90 | every call of a scheduler pass goes to a due slot with that slot's function and user data, in strictly ascending id order |
| Tasks.PassCallsComplete | src/MicroOS.c:69-90 | every due slot is called by the pass |
| Tasks.PassCurrentSpec | src/MicroOS.c:86 | CurrentTaskId after a pass is the highest due slot, or unchanged when none is due |
| Tasks.PassKeepsInv | src/MicroOS.c:69-90 | a scheduler pass keeps the table invariant |
| Kernel.MicroOS.constructor | src/MicroOS.c:23-34 | the initial table, an empty delay pool and an empty event registry |
| Kernel.MicroOS.AddTask | src/MicroOS.c:36-55 | status and new table are those of Tasks.AddTask; the invariant is kept |
| Kernel.MicroOS.SuspendTask | src/MicroOS.c:104-115 | status and new table are those of Tasks.SuspendTask |
| Kernel.MicroOS.ResumeTask | src/MicroOS.c:117-128 | status and new table are those of Tasks.ResumeTask |
| Kernel.MicroOS.DeleteTask | src/MicroOS.c:130-144 | status and new table are those of Tasks.DeleteTask |
| Kernel.MicroOS.SleepTask | src/MicroOS.c:146-166 | status and new table are those of Tasks.SleepTask |
| Kernel.MicroOS.WakeupTask | src/MicroOS.c:168-182 | status and new table are those of Tasks.WakeupTask |
| Kernel.MicroOS.TickHandler | src/MicroOS.c:94-102 | TickCount advances modulo 2^32, then every active delay counts down once; returns Ok |
| Kernel.MicroOS.SchedulerRound | src/MicroOS.c:60-91 | one round dispatches events first and then visits the tasks: the callbacks are the event callbacks followed by the task calls in ascending id |
| Kernel.MicroOS.Pass | src/MicroOS.c:69-90 | the loop leaves every slot as one visit at the current tick leaves it, with the calls and CurrentTaskId of the pass |
| Kernel.MicroOS.Visit | src/MicroOS.c:71-89 | one slot is visited as Tasks.Visited says, and a called task becomes the current task |

## Left out

- `MicroOS_delay` itself: its loop spins until an interrupt advances TickCount, and the model has no interrupts. The model keeps its status and its loop condition (`Tasks.DelayStatus`, `Tasks.Waiting`, `Tasks.BusyWaitEnds`).
- The endless `while (1)` of `MicroOS_StartScheduler`: the model is one round of it (`Kernel.MicroOS.SchedulerRound`).
- The `MicroOS_handle == NULL` checks: the handle is the constant address of a static object and is never NULL.
- Interrupt concurrency and `volatile`: the tick handler runs between calls, never inside one. Within a scheduler round TickCount is therefore constant, whereas the code rereads it for every slot.
- What callbacks do: a task or event function is recorded as a call, and its effect on the kernel (re-entry) is not modelled.
- A second call of `MicroOS_Init`: the instance is built once, by the constructor, from the zeroed static image.
- Common.TicksToMsAt: does not model the 32-bit overflow of the multiplication, because the arguments are unbounded naturals.
- Common.MsToTicksAt: does not model the 32-bit overflow of the multiplication, because the arguments are unbounded naturals.
- The C pointers are array indices. Address arithmetic and the node's own `memset` of its `next` field are not modelled, because the field is overwritten immediately afterwards.
