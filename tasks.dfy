/** The task table: one slot per task id, what each task operation does to the table, and
    what one pass of the scheduler's task loop does to each slot. */
module Tasks {
  import opened Types
  import opened Common

  /** MicroOS_Task_Sub_t: one slot of the task table. */
  datatype Task = Task(used: bool, running: bool, sleeping: bool, sleepTicks: u32,
                       period: u32, lastRunTime: u32, fn: Ptr, userdata: Ptr)

  /** A zeroed slot: the static initial image, and what MicroOS_DeleteTask leaves. */
  const Unused := Task(false, false, false, 0, 0, 0, NULL, NULL)

  /** MicroOS_Task_t: the task table and the scheduler's counters. */
  datatype Table = Table(tasks: seq<Task>, tickCount: u32, maxTasks: u32, currentTaskId: u8, taskNum: u8)

  /** The table as MicroOS_Init leaves the zero-initialised static instance. */
  function Initial(): (s: Table)
    ensures |s.tasks| == TASK_SIZE && s.taskNum == 0 && s.tickCount == 0
    ensures forall i | 0 <= i < TASK_SIZE :: s.tasks[i] == Unused
  {
    Table(seq(TASK_SIZE, _ => Unused), 0, TASK_SIZE, 0, 0)
  }

  /** How many slots are in use. */
  function UsedCount(ts: seq<Task>): nat
  {
    if ts == [] then 0 else UsedCount(ts[..|ts| - 1]) + (if ts[|ts| - 1].used then 1 else 0)
  }

  /** What every reachable table satisfies: a slot not in use is all zero (so it neither
      runs nor sleeps), and TaskNum is an upper bound on the used slots that AddTask never
      lets past TASK_SIZE + 1. */
  ghost predicate Inv(s: Table)
  {
    && |s.tasks| == TASK_SIZE
    && s.maxTasks == TASK_SIZE
    && (forall i | 0 <= i < TASK_SIZE :: s.tasks[i].used || s.tasks[i] == Unused)
    && UsedCount(s.tasks) <= s.taskNum <= TASK_SIZE + 1
  }

  lemma InitialInv()
    ensures Inv(Initial())
  {
    UsedCountNone(Initial().tasks);
  }

  lemma {:induction false} UsedCountNone(ts: seq<Task>)
    requires forall i | 0 <= i < |ts| :: !ts[i].used
    ensures UsedCount(ts) == 0
  {
    if ts != [] {
      UsedCountNone(ts[..|ts| - 1]);
    }
  }

  // ---------------------------------------------------------------------------------------
  // Slot transitions

  /** The slot as MicroOS_AddTask fills it; SleepTicks keeps whatever it held. */
  function Added(t: Task, fn: Ptr, userdata: Ptr, period: u32): Task
  {
    t.(used := true, running := true, sleeping := false, period := period, lastRunTime := 0,
       fn := fn, userdata := userdata)
  }

  /** The slot as MicroOS_SleepTask leaves it at tick `now`. */
  function Slept(t: Task, ticks: u32, now: u32): Task
  {
    t.(sleeping := true, sleepTicks := ticks, lastRunTime := now)
  }

  /** The slot as MicroOS_WakeupTask leaves it, and as the scheduler leaves a task whose
      sleep has run out. */
  function Woken(t: Task): Task
  {
    t.(sleeping := false, sleepTicks := 0)
  }

  /** One visit of the scheduler's task loop to a slot at tick `now`: the slot afterwards,
      and whether the task function is called. */
  function Visited(t: Task, now: u32): (Task, bool)
  {
    if !t.used || !t.running then (t, false)
    else
      var t1 := if t.sleeping && Elapsed(now, t.lastRunTime) >= t.sleepTicks then Woken(t) else t;
      if t1.sleeping then (t1, false)
      else if Elapsed(now, t1.lastRunTime) >= t1.period then (t1.(lastRunTime := now), true)
      else (t1, false)
  }

  /** A task is due at `now` when it is used and running, not still asleep, and a whole
      period has passed since it last ran (or was put to sleep). */
  predicate Due(t: Task, now: u32)
  {
    && t.used && t.running
    && (t.sleeping ==> Elapsed(now, t.lastRunTime) >= t.sleepTicks)
    && Elapsed(now, t.lastRunTime) >= t.period
  }

  /** A visit calls the task exactly when it is due; a call stamps the slot with `now`; a
      task still asleep is left as it was; nothing but the sleep state and the stamp changes. */
  lemma VisitedSpec(t: Task, now: u32)
    ensures var (t', fired) := Visited(t, now);
      && (fired <==> Due(t, now))
      && (fired ==> t'.lastRunTime == now && !t'.sleeping)
      && (!fired ==> t'.lastRunTime == t.lastRunTime)
      && (t'.sleeping ==> t' == t)
      && (!fired ==> t' == t || t' == Woken(t))
      && (fired ==> t' == t.(lastRunTime := now) || t' == Woken(t).(lastRunTime := now))
      && t'.used == t.used && t'.running == t.running && t'.period == t.period
      && t'.fn == t.fn && t'.userdata == t.userdata
  {
  }

  /** A task that was called at `now` is called again at `later` only once a whole period
      has passed; with a non-zero period, a second visit at the same tick calls nothing. */
  lemma AtMostOncePerPeriod(t: Task, now: u32, later: u32)
    requires Visited(t, now).1
    ensures Visited(Visited(t, now).0, later).1 ==> Elapsed(later, now) >= t.period
    ensures t.period > 0 ==> !Visited(Visited(t, now).0, now).1
  {
    var t' := Visited(t, now).0;
    VisitedSpec(t, now);
    VisitedSpec(t', later);
    assert Elapsed(now, now) == 0;
  }

  /** A second visit at the same tick calls only tasks that were called by the first and
      have period 0. */
  lemma VisitedTwice(t: Task, now: u32)
    ensures Visited(Visited(t, now).0, now).1 ==> Visited(t, now).1 && t.period == 0
  {
    var t' := Visited(t, now).0;
    VisitedSpec(t, now);
    VisitedSpec(t', now);
    assert Elapsed(now, now) == 0;
  }

  /** A task put to sleep at `since` for `ticks` is next called at the first visit at least
      `ticks` and at least one period after `since`; until its sleep is over it stays
      untouched. */
  lemma SleepThenVisit(t: Task, ticks: u32, since: u32, now: u32)
    requires t.used && t.running
    ensures var t' := Slept(t, ticks, since);
      && (Visited(t', now).1 <==> Elapsed(now, since) >= ticks && Elapsed(now, since) >= t.period)
      && (Elapsed(now, since) < ticks ==> Visited(t', now).0 == t')
      && (Elapsed(now, since) >= ticks && Elapsed(now, since) < t.period ==>
            Visited(t', now).0 == Woken(t'))
  {
  }

  /** A task woken early runs on its period again, counted from when it went to sleep. */
  lemma WokenThenVisit(t: Task, now: u32)
    requires t.used && t.running
    ensures Visited(Woken(t), now).1 <==> Elapsed(now, t.lastRunTime) >= t.period
  {
  }

  /** A freshly added task is first called once TickCount (read as an unsigned number of
      ticks since 0) reaches its period. */
  lemma AddedThenVisit(t: Task, fn: Ptr, userdata: Ptr, period: u32, now: u32)
    ensures Visited(Added(t, fn, userdata, period), now).1 <==> now >= period
  {
    assert Elapsed(now, 0) == now;
  }

  /** The timing example: a task with period 100 is added, and at tick 10 it is put to
      sleep for 50 ticks. At tick 59 it is still asleep; at tick 60 it wakes but is not
      called; at tick 109 it is still not called; at tick 110 it is. */
  lemma SleepExample(fn: Ptr, userdata: Ptr)
    ensures var t := Slept(Added(Unused, fn, userdata, 100), 50, 10);
      && Visited(t, 59) == (t, false)
      && Visited(t, 60) == (Woken(t), false)
      && Visited(Woken(t), 109) == (Woken(t), false)
      && Visited(Woken(t), 110) == (Woken(t).(lastRunTime := 110), true)
  {
    var t := Slept(Added(Unused, fn, userdata, 100), 50, 10);
    assert Elapsed(59, 10) == 49;
    assert Elapsed(60, 10) == 50;
    assert Elapsed(109, 10) == 99;
    assert Elapsed(110, 10) == 100;
  }

  // ---------------------------------------------------------------------------------------
  // Task operations on the table

  /** MicroOS_AddTask: the id is checked first, then the function pointer, then TaskNum;
      a used slot is overwritten, and TaskNum counts every successful call. */
  function AddTask(s: Table, id: u8, fn: Ptr, userdata: Ptr, period: u32): (Status, Table)
    requires |s.tasks| == TASK_SIZE && s.taskNum <= TASK_SIZE + 1
  {
    var g := CheckId(id);
    if g.Return? then (g.status, s)
    else
      var h := CheckPtr(fn);
      if h.Return? then (h.status, s)
      else if s.taskNum > TASK_SIZE then (Error, s)
      else (Ok, s.(taskNum := s.taskNum + 1, tasks := s.tasks[id := Added(s.tasks[id], fn, userdata, period)]))
  }

  /** MicroOS_SuspendTask. */
  function SuspendTask(s: Table, id: u8): (Status, Table)
    requires |s.tasks| == TASK_SIZE
  {
    var g := CheckId(id);
    if g.Return? then (g.status, s)
    else if !s.tasks[id].used then (NotInitialized, s)
    else (Ok, s.(tasks := s.tasks[id := s.tasks[id].(running := false)]))
  }

  /** MicroOS_ResumeTask. */
  function ResumeTask(s: Table, id: u8): (Status, Table)
    requires |s.tasks| == TASK_SIZE
  {
    var g := CheckId(id);
    if g.Return? then (g.status, s)
    else if !s.tasks[id].used then (NotInitialized, s)
    else (Ok, s.(tasks := s.tasks[id := s.tasks[id].(running := true)]))
  }

  /** `TaskNum--` on uint8_t. */
  function Dec8(x: u8): (r: u8)
    ensures x > 0 ==> r == x - 1
  {
    if x == 0 then 0xFF else x - 1
  }

  /** MicroOS_DeleteTask: no check that the slot is used; TaskNum drops only for a running
      task; the slot is zeroed either way. */
  function DeleteTask(s: Table, id: u8): (Status, Table)
    requires |s.tasks| == TASK_SIZE
  {
    var g := CheckId(id);
    if g.Return? then (g.status, s)
    else
      var n := if s.tasks[id].running then Dec8(s.taskNum) else s.taskNum;
      (Ok, s.(taskNum := n, tasks := s.tasks[id := Unused]))
  }

  /** MicroOS_SleepTask: a zero tick count is refused before the slot is looked at. */
  function SleepTask(s: Table, id: u8, ticks: u32): (Status, Table)
    requires |s.tasks| == TASK_SIZE
  {
    var g := CheckId(id);
    if g.Return? then (g.status, s)
    else if ticks == 0 then (InvalidParam, s)
    else if !s.tasks[id].used then (NotInitialized, s)
    else (Ok, s.(tasks := s.tasks[id := Slept(s.tasks[id], ticks, s.tickCount)]))
  }

  /** MicroOS_WakeupTask. */
  function WakeupTask(s: Table, id: u8): (Status, Table)
    requires |s.tasks| == TASK_SIZE
  {
    var g := CheckId(id);
    if g.Return? then (g.status, s)
    else if !s.tasks[id].used then (NotInitialized, s)
    else (Ok, s.(tasks := s.tasks[id := Woken(s.tasks[id])]))
  }

  /** Every task operation checks the id first: an id outside the table is refused with
      InvalidParam, whatever the other arguments, and nothing changes. */
  lemma IdCheckedFirst(s: Table, id: u8, fn: Ptr, userdata: Ptr, period: u32, ticks: u32)
    requires |s.tasks| == TASK_SIZE && s.taskNum <= TASK_SIZE + 1 && id >= TASK_SIZE
    ensures AddTask(s, id, fn, userdata, period) == (InvalidParam, s)
    ensures SuspendTask(s, id) == (InvalidParam, s) && ResumeTask(s, id) == (InvalidParam, s)
    ensures DeleteTask(s, id) == (InvalidParam, s) && WakeupTask(s, id) == (InvalidParam, s)
    ensures SleepTask(s, id, ticks) == (InvalidParam, s)
  {
  }

  /** AddTask fails with Error exactly for a NULL function or a TaskNum above TASK_SIZE;
      on success it fills slot `id` (overwriting a used one), counts one more task and
      leaves every other slot alone. */
  lemma AddTaskSpec(s: Table, id: u8, fn: Ptr, userdata: Ptr, period: u32)
    requires Inv(s)
    ensures var (st, s') := AddTask(s, id, fn, userdata, period);
      && (st == InvalidParam <==> id >= TASK_SIZE)
      && (st == Error <==> id < TASK_SIZE && (fn == NULL || s.taskNum > TASK_SIZE))
      && (st == Ok || st == InvalidParam || st == Error)
      && (st != Ok ==> s' == s)
      && (st == Ok ==>
            && s'.taskNum == s.taskNum + 1
            && s'.tasks[id].used && s'.tasks[id].running && !s'.tasks[id].sleeping
            && s'.tasks[id].fn == fn && s'.tasks[id].userdata == userdata
            && s'.tasks[id].period == period && s'.tasks[id].lastRunTime == 0
            && s'.tasks[id].sleepTicks == s.tasks[id].sleepTicks
            && (forall i | 0 <= i < TASK_SIZE && i != id :: s'.tasks[i] == s.tasks[i])
            && s'.tickCount == s.tickCount && s'.currentTaskId == s.currentTaskId
            && s'.maxTasks == s.maxTasks)
  {
  }

  /** Suspend, resume and wake-up refuse an unused slot with NotInitialized; otherwise they
      change one flag of slot `id` (wake-up also clears the sleep count) and nothing else. */
  lemma FlagOpsSpec(s: Table, id: u8)
    requires Inv(s) && id < TASK_SIZE
    ensures var (st, s') := SuspendTask(s, id);
      && (st == NotInitialized <==> !s.tasks[id].used) && (st != NotInitialized ==> st == Ok)
      && (st != Ok ==> s' == s)
      && (st == Ok ==> s' == s.(tasks := s.tasks[id := s.tasks[id].(running := false)]))
    ensures var (st, s') := ResumeTask(s, id);
      && (st == NotInitialized <==> !s.tasks[id].used) && (st != NotInitialized ==> st == Ok)
      && (st != Ok ==> s' == s)
      && (st == Ok ==> s' == s.(tasks := s.tasks[id := s.tasks[id].(running := true)]))
    ensures var (st, s') := WakeupTask(s, id);
      && (st == NotInitialized <==> !s.tasks[id].used) && (st != NotInitialized ==> st == Ok)
      && (st != Ok ==> s' == s)
      && (st == Ok ==> s' == s.(tasks := s.tasks[id := Woken(s.tasks[id])]))
      && (st == Ok ==> !s'.tasks[id].sleeping && s'.tasks[id].sleepTicks == 0
                       && s'.tasks[id].lastRunTime == s.tasks[id].lastRunTime)
  {
  }

  /** SleepTask refuses a zero tick count with InvalidParam even on an unused slot, and
      only then an unused slot with NotInitialized; on success the slot sleeps from the
      current tick. */
  lemma SleepTaskSpec(s: Table, id: u8, ticks: u32)
    requires Inv(s) && id < TASK_SIZE
    ensures var (st, s') := SleepTask(s, id, ticks);
      && (st == InvalidParam <==> ticks == 0)
      && (st == NotInitialized <==> ticks > 0 && !s.tasks[id].used)
      && (st != Ok ==> s' == s)
      && (st == Ok ==>
            && s'.tasks[id].sleeping && s'.tasks[id].sleepTicks == ticks
            && s'.tasks[id].lastRunTime == s.tickCount
            && s'.tasks[id].running == s.tasks[id].running
            && s'.tasks[id].period == s.tasks[id].period
            && (forall i | 0 <= i < TASK_SIZE && i != id :: s'.tasks[i] == s.tasks[i]))
      && (st == Ok ==> s' == s.(tasks := s.tasks[id := Slept(s.tasks[id], ticks, s.tickCount)]))
  {
  }

  /** DeleteTask always succeeds for an id in range, zeroes the slot, and lowers TaskNum by
      one exactly when the task was running (which, in a reachable table, never wraps). */
  lemma DeleteTaskSpec(s: Table, id: u8)
    requires Inv(s) && id < TASK_SIZE
    ensures var (st, s') := DeleteTask(s, id);
      && st == Ok && s'.tasks[id] == Unused
      && s'.taskNum == (if s.tasks[id].running then s.taskNum - 1 else s.taskNum)
      && (forall i | 0 <= i < TASK_SIZE && i != id :: s'.tasks[i] == s.tasks[i])
      && s' == s.(tasks := s.tasks[id := Unused],
                  taskNum := if s.tasks[id].running then Dec8(s.taskNum) else s.taskNum)
  {
    if s.tasks[id].running {
      UsedCountPositive(s.tasks, id);
    }
  }

  lemma {:induction false} UsedCountPositive(ts: seq<Task>, i: int)
    requires 0 <= i < |ts| && ts[i].used
    ensures UsedCount(ts) >= 1
  {
    if i < |ts| - 1 {
      UsedCountPositive(ts[..|ts| - 1], i);
    }
  }

  /** Overwriting one slot changes the count of used slots by the change at that slot. */
  lemma {:induction false} UsedCountUpdate(ts: seq<Task>, i: int, t: Task)
    requires 0 <= i < |ts|
    ensures UsedCount(ts[i := t]) ==
              UsedCount(ts) - (if ts[i].used then 1 else 0) + (if t.used then 1 else 0)
  {
    var n := |ts| - 1;
    assert ts[i := t][..n] == if i < n then ts[..n][i := t] else ts[..n];
    if i < n {
      UsedCountUpdate(ts[..n], i, t);
    }
  }

  /** Every task operation keeps the table invariant. */
  lemma OpsKeepInv(s: Table, id: u8, fn: Ptr, userdata: Ptr, period: u32, ticks: u32)
    requires Inv(s)
    ensures Inv(AddTask(s, id, fn, userdata, period).1)
    ensures Inv(SuspendTask(s, id).1) && Inv(ResumeTask(s, id).1) && Inv(WakeupTask(s, id).1)
    ensures Inv(DeleteTask(s, id).1) && Inv(SleepTask(s, id, ticks).1)
  {
    if id < TASK_SIZE {
      var t := s.tasks[id];
      if AddTask(s, id, fn, userdata, period).0 == Ok {
        UsedSlotWritten(s, id, Added(t, fn, userdata, period), s.taskNum + 1);
      }
      if t.used {
        UsedSlotWritten(s, id, t.(running := false), s.taskNum);
        UsedSlotWritten(s, id, t.(running := true), s.taskNum);
        UsedSlotWritten(s, id, Woken(t), s.taskNum);
        UsedSlotWritten(s, id, Slept(t, ticks, s.tickCount), s.taskNum);
      }
      DeleteKeepsInv(s, id);
    }
  }

  /** Writing a used record into a slot keeps the invariant as long as TaskNum follows. */
  lemma UsedSlotWritten(s: Table, id: int, t: Task, n: u8)
    requires Inv(s) && 0 <= id < TASK_SIZE && t.used
    requires n <= TASK_SIZE + 1 && n >= s.taskNum + (if s.tasks[id].used then 0 else 1)
    ensures Inv(s.(tasks := s.tasks[id := t], taskNum := n))
  {
    UsedCountUpdate(s.tasks, id, t);
  }

  lemma DeleteKeepsInv(s: Table, id: int)
    requires Inv(s) && 0 <= id < TASK_SIZE
    ensures Inv(DeleteTask(s, id).1)
  {
    UsedCountUpdate(s.tasks, id, Unused);
    if s.tasks[id].running {
      UsedCountPositive(s.tasks, id);
    }
  }

  /** MicroOS_TickHandler on the table: TickCount advances by one modulo 2^32. */
  function Ticked(s: Table): (s': Table)
    ensures s'.tickCount == (s.tickCount + 1) % WORD
    ensures s' == s.(tickCount := s'.tickCount)
  {
    s.(tickCount := Inc(s.tickCount))
  }

  /** After `n` ticks, TickCount is the old value plus `n` modulo 2^32. */
  function TickedN(s: Table, n: nat): Table
  {
    if n == 0 then s else Ticked(TickedN(s, n - 1))
  }

  lemma {:induction false} TickedNSpec(s: Table, n: nat)
    ensures TickedN(s, n) == s.(tickCount := IncN(s.tickCount, n))
    ensures TickedN(s, n).tickCount == (s.tickCount + n) % WORD
  {
    if n > 0 {
      TickedNSpec(s, n - 1);
    }
    IncNIsModularAdd(s.tickCount, n);
  }

  /** MicroOS_delay's status: a zero tick count is refused, any other returns Ok once the
      wait is over. */
  function DelayStatus(ticks: u32): (st: Status)
    ensures st == InvalidParam <==> ticks == 0
    ensures st != InvalidParam ==> st == Ok
  {
    if ticks == 0 then InvalidParam else Ok
  }

  /** MicroOS_delay's loop condition: still waiting at `now` for `ticks` ticks that started
      at `start`. */
  predicate Waiting(start: u32, now: u32, ticks: u32)
  {
    Elapsed(now, start) < ticks
  }

  /** The busy wait in MicroOS_delay spins through exactly `ticks` tick interrupts, also
      when TickCount wraps around in between. */
  lemma BusyWaitEnds(s: Table, ticks: u32, n: nat)
    requires n < WORD
    ensures Waiting(s.tickCount, TickedN(s, n).tickCount, ticks) <==> n < ticks
  {
    TickedNSpec(s, n);
    ElapsedAfter(s.tickCount, n);
  }

  /** Add, suspend, delete of task 0. */
  function Cycle(s: Table, fn: Ptr, userdata: Ptr, period: u32): Table
    requires |s.tasks| == TASK_SIZE && s.taskNum <= TASK_SIZE + 1
  {
    var s1 := AddTask(s, 0, fn, userdata, period).1;
    var s2 := SuspendTask(s1, 0).1;
    DeleteTask(s2, 0).1
  }

  /** An add-suspend-delete cycle on an unused slot leaves the slots as they were, but
      TaskNum one higher, because DeleteTask only counts down for a running task. */
  lemma SuspendedDeleteKeepsCount(s: Table, fn: Ptr, userdata: Ptr, period: u32)
    requires Inv(s) && fn != NULL && s.taskNum <= TASK_SIZE && !s.tasks[0].used
    ensures Cycle(s, fn, userdata, period).tasks == s.tasks
    ensures Cycle(s, fn, userdata, period).taskNum == s.taskNum + 1
    ensures Inv(Cycle(s, fn, userdata, period))
  {
    var s1 := AddTask(s, 0, fn, userdata, period).1;
    OpsKeepInv(s, 0, fn, userdata, period, 0);
    OpsKeepInv(s1, 0, fn, userdata, period, 0);
    var s2 := SuspendTask(s1, 0).1;
    OpsKeepInv(s2, 0, fn, userdata, period, 0);
    assert s.tasks[0 := Unused] == s.tasks;
  }

  /** `n` add-suspend-delete cycles on task 0. */
  function Cycled(s: Table, n: nat, fn: Ptr, userdata: Ptr, period: u32): Table
    requires Inv(s) && s.taskNum + n <= TASK_SIZE + 1 && fn != NULL && !s.tasks[0].used
    decreases n
  {
    if n == 0 then s
    else
      SuspendedDeleteKeepsCount(s, fn, userdata, period);
      Cycled(Cycle(s, fn, userdata, period), n - 1, fn, userdata, period)
  }

  lemma {:induction false} CycledSpec(s: Table, n: nat, fn: Ptr, userdata: Ptr, period: u32)
    requires Inv(s) && s.taskNum + n <= TASK_SIZE + 1 && fn != NULL && !s.tasks[0].used
    ensures Cycled(s, n, fn, userdata, period).tasks == s.tasks
    ensures Cycled(s, n, fn, userdata, period).taskNum == s.taskNum + n
    decreases n
  {
    if n > 0 {
      SuspendedDeleteKeepsCount(s, fn, userdata, period);
      CycledSpec(Cycle(s, fn, userdata, period), n - 1, fn, userdata, period);
    }
  }

  /** Consequently, eleven such cycles from the initial table leave every slot unused and
      AddTask refusing every further task with Error. */
  lemma CountLeak(fn: Ptr, userdata: Ptr, period: u32, id: u8)
    requires fn != NULL && id < TASK_SIZE
    ensures (InitialInv(); var s := Cycled(Initial(), TASK_SIZE + 1, fn, userdata, period);
      && s.tasks == Initial().tasks && s.taskNum == TASK_SIZE + 1
      && AddTask(s, id, fn, userdata, period).0 == Error)
  {
    InitialInv();
    CycledSpec(Initial(), TASK_SIZE + 1, fn, userdata, period);
  }

  // ---------------------------------------------------------------------------------------
  // One pass of the scheduler's task loop

  /** The slots after one pass at tick `now`. */
  function PassTasks(ts: seq<Task>, now: u32): (r: seq<Task>)
    ensures |r| == |ts| && forall i | 0 <= i < |ts| :: r[i] == Visited(ts[i], now).0
  {
    seq(|ts|, i requires 0 <= i < |ts| => Visited(ts[i], now).0)
  }

  function CallOf(ts: seq<Task>, i: int): Call
    requires 0 <= i < |ts| <= TASK_SIZE
  {
    TaskCall(i, ts[i].fn, ts[i].userdata)
  }

  /** The task functions one pass calls, in the order the loop visits the slots. */
  function PassCalls(ts: seq<Task>, now: u32): seq<Call>
    requires |ts| <= TASK_SIZE
  {
    if ts == [] then []
    else
      var n := |ts| - 1;
      PassCalls(ts[..n], now) + (if Due(ts[n], now) then [CallOf(ts, n)] else [])
  }

  /** CurrentTaskId after one pass: the last slot called, or `current` if none was. */
  function PassCurrent(ts: seq<Task>, now: u32, current: u8): u8
    requires |ts| <= TASK_SIZE
  {
    if ts == [] then current
    else
      var n := |ts| - 1;
      if Due(ts[n], now) then n else PassCurrent(ts[..n], now, current)
  }

  /** Going one slot further in the pass appends that slot's call, if it is due. */
  lemma PassStep(ts: seq<Task>, k: int, now: u32, current: u8)
    requires 0 <= k < |ts| <= TASK_SIZE
    ensures PassCalls(ts[..k + 1], now) ==
              PassCalls(ts[..k], now) + (if Due(ts[k], now) then [CallOf(ts, k)] else [])
    ensures PassCurrent(ts[..k + 1], now, current) ==
              if Due(ts[k], now) then k else PassCurrent(ts[..k], now, current)
  {
    assert ts[..k + 1][..k] == ts[..k];
  }

  /** Every call of a pass is to a due slot, with that slot's function and user data, and
      the calls go in strictly ascending id order. */
  lemma {:induction false} PassCallsSound(ts: seq<Task>, now: u32)
    requires |ts| <= TASK_SIZE
    ensures forall j | 0 <= j < |PassCalls(ts, now)| ::
              var c := PassCalls(ts, now)[j];
              c.TaskCall? && 0 <= c.id < |ts| && Due(ts[c.id], now) && c == CallOf(ts, c.id)
    ensures forall j, l | 0 <= j < l < |PassCalls(ts, now)| ::
              PassCalls(ts, now)[j].id < PassCalls(ts, now)[l].id
  {
    if ts != [] {
      var n := |ts| - 1;
      var pre := ts[..n];
      PassCallsSound(pre, now);
      var cs := PassCalls(pre, now);
      assert forall j | 0 <= j < |cs| :: cs[j] == CallOf(ts, cs[j].id) by {
        forall j | 0 <= j < |cs| ensures cs[j] == CallOf(ts, cs[j].id) {
          assert pre[cs[j].id] == ts[cs[j].id];
        }
      }
    }
  }

  /** Every due slot is called by the pass. */
  lemma {:induction false} PassCallsComplete(ts: seq<Task>, now: u32, i: int)
    requires 0 <= i < |ts| <= TASK_SIZE && Due(ts[i], now)
    ensures CallOf(ts, i) in PassCalls(ts, now)
  {
    var n := |ts| - 1;
    if i < n {
      var pre := ts[..n];
      PassCallsComplete(pre, now, i);
      assert CallOf(pre, i) == CallOf(ts, i);
    }
  }

  /** CurrentTaskId names the highest due slot, and is left alone when no slot is due. */
  lemma {:induction false} PassCurrentSpec(ts: seq<Task>, now: u32, current: u8)
    requires |ts| <= TASK_SIZE
    ensures var r := PassCurrent(ts, now, current);
      && ((exists i | 0 <= i < |ts| :: Due(ts[i], now)) ==>
            0 <= r < |ts| && Due(ts[r], now) && forall i | r < i < |ts| :: !Due(ts[i], now))
      && ((forall i | 0 <= i < |ts| :: !Due(ts[i], now)) ==> r == current)
  {
    if ts != [] {
      var n := |ts| - 1;
      var pre := ts[..n];
      PassCurrentSpec(pre, now, current);
      if !Due(ts[n], now) {
        assert forall i | 0 <= i < n :: pre[i] == ts[i];
      }
    }
  }

  /** A pass keeps the table invariant. */
  lemma {:induction false} PassKeepsInv(s: Table)
    requires Inv(s)
    ensures Inv(s.(tasks := PassTasks(s.tasks, s.tickCount)))
  {
    PassKeepsUsedCount(s.tasks, s.tickCount);
  }

  lemma {:induction false} PassKeepsUsedCount(ts: seq<Task>, now: u32)
    ensures UsedCount(PassTasks(ts, now)) == UsedCount(ts)
  {
    if ts != [] {
      var n := |ts| - 1;
      PassKeepsUsedCount(ts[..n], now);
      assert PassTasks(ts, now)[..n] == PassTasks(ts[..n], now);
    }
  }
}
