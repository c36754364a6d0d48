/** The MicroOS instance: the task table and tick counter together with the delay pool and
    the event registry, the task API, the tick interrupt handler and one round of the
    scheduler loop. */
module Kernel {
  import opened Types
  import opened Common
  import opened Tasks
  import Delays
  import Events

  /** The zero-initialised task table, delay pool and event registry. */
  method NewParts() returns (t: array<Task>, d: Delays.DelayPool, e: Events.EventPool)
    ensures fresh(t) && t.Length == TASK_SIZE && t[..] == Initial().tasks
    ensures d.Valid() && e.Valid() && fresh(d.Repr) && fresh(e.Repr) && d.Repr !! e.Repr
    ensures t !in d.Repr && t !in e.Repr
    ensures d.Entries() == [] && e.Entries() == []
  {
    t := new Task[TASK_SIZE](_ => Unused);
    assert t[..] == Initial().tasks;
    d := new Delays.DelayPool();
    e := new Events.EventPool();
  }

  class MicroOS {
    var tasks: array<Task>
    var tickCount: u32
    var maxTasks: u32
    var currentTaskId: u8
    var taskNum: u8
    var delays: Delays.DelayPool
    var events: Events.EventPool

    ghost var Repr: set<object>

    /** The instance as the value it stands for. */
    ghost function State(): Table
      reads this, tasks
    {
      Table(tasks[..], tickCount, maxTasks, currentTaskId, taskNum)
    }

    ghost predicate Valid()
      reads this, Repr
    {
      && this in Repr && tasks in Repr && delays in Repr && events in Repr
      && Repr == {this, tasks} + delays.Repr + events.Repr
      && this !in delays.Repr && this !in events.Repr
      && tasks !in delays.Repr && tasks !in events.Repr
      && delays.Repr !! events.Repr
      && delays.Valid() && events.Valid()
      && Inv(State())
    }

    /** The zeroed static instance after MicroOS_Init. */
    constructor ()
      ensures Valid() && fresh(Repr)
      ensures State() == Initial()
      ensures delays.Entries() == [] && events.Entries() == []
    {
      var t, d, e := NewParts();
      tasks := t;
      tickCount := 0;
      maxTasks := TASK_SIZE;
      currentTaskId := 0;
      taskNum := 0;
      delays := d;
      events := e;
      Repr := {this, t} + d.Repr + e.Repr;
      new;
      InitialInv();
    }

    /** MicroOS_AddTask. */
    method AddTask(id: u8, fn: Ptr, userdata: Ptr, period: u32) returns (st: Status)
      requires Valid()
      modifies tasks, this`taskNum
      ensures Valid()
      ensures (st, State()) == Tasks.AddTask(old(State()), id, fn, userdata, period)
    {
      var g := CheckId(id);
      if g.Return? {
        return g.status;
      }
      var h := CheckPtr(fn);
      if h.Return? {
        return h.status;
      }
      if taskNum > TASK_SIZE {
        return Error;
      }
      UsedSlotWritten(State(), id, Added(tasks[id], fn, userdata, period), taskNum + 1);
      Store(id, Added(tasks[id], fn, userdata, period), taskNum + 1);
      st := Ok;
    }

    /** MicroOS_SuspendTask. */
    method SuspendTask(id: u8) returns (st: Status)
      requires Valid()
      modifies tasks
      ensures Valid()
      ensures (st, State()) == Tasks.SuspendTask(old(State()), id)
    {
      var g := CheckId(id);
      if g.Return? {
        return g.status;
      }
      if !tasks[id].used {
        return NotInitialized;
      }
      UsedSlotWritten(State(), id, tasks[id].(running := false), taskNum);
      StoreSlot(id, tasks[id].(running := false));
      st := Ok;
    }

    /** MicroOS_ResumeTask. */
    method ResumeTask(id: u8) returns (st: Status)
      requires Valid()
      modifies tasks
      ensures Valid()
      ensures (st, State()) == Tasks.ResumeTask(old(State()), id)
    {
      var g := CheckId(id);
      if g.Return? {
        return g.status;
      }
      if !tasks[id].used {
        return NotInitialized;
      }
      UsedSlotWritten(State(), id, tasks[id].(running := true), taskNum);
      StoreSlot(id, tasks[id].(running := true));
      st := Ok;
    }

    /** MicroOS_DeleteTask. */
    method DeleteTask(id: u8) returns (st: Status)
      requires Valid()
      modifies tasks, this`taskNum
      ensures Valid()
      ensures (st, State()) == Tasks.DeleteTask(old(State()), id)
    {
      var g := CheckId(id);
      if g.Return? {
        return g.status;
      }
      DeleteKeepsInv(State(), id);
      var n := taskNum;
      if tasks[id].running {
        n := Dec8(taskNum);
      }
      Store(id, Unused, n);
      st := Ok;
    }

    /** MicroOS_SleepTask. */
    method SleepTask(id: u8, ticks: u32) returns (st: Status)
      requires Valid()
      modifies tasks
      ensures Valid()
      ensures (st, State()) == Tasks.SleepTask(old(State()), id, ticks)
    {
      var g := CheckId(id);
      if g.Return? {
        return g.status;
      }
      if ticks == 0 {
        return InvalidParam;
      }
      if !tasks[id].used {
        return NotInitialized;
      }
      UsedSlotWritten(State(), id, Slept(tasks[id], ticks, tickCount), taskNum);
      StoreSlot(id, Slept(tasks[id], ticks, tickCount));
      st := Ok;
    }

    /** MicroOS_WakeupTask. */
    method WakeupTask(id: u8) returns (st: Status)
      requires Valid()
      modifies tasks
      ensures Valid()
      ensures (st, State()) == Tasks.WakeupTask(old(State()), id)
    {
      var g := CheckId(id);
      if g.Return? {
        return g.status;
      }
      if !tasks[id].used {
        return NotInitialized;
      }
      UsedSlotWritten(State(), id, Woken(tasks[id]), taskNum);
      StoreSlot(id, Woken(tasks[id]));
      st := Ok;
    }

    /** Writes slot `id` and TaskNum together, into a table that keeps the invariant. */
    method Store(id: int, t: Task, n: u8)
      requires Valid() && 0 <= id < TASK_SIZE
      requires Inv(State().(tasks := tasks[..][id := t], taskNum := n))
      modifies tasks, this`taskNum
      ensures Valid()
      ensures State() == old(State()).(tasks := old(tasks[..])[id := t], taskNum := n)
    {
      tasks[id] := t;
      taskNum := n;
    }

    /** Writes slot `id`, into a table that keeps the invariant. */
    method StoreSlot(id: int, t: Task)
      requires Valid() && 0 <= id < TASK_SIZE
      requires Inv(State().(tasks := tasks[..][id := t]))
      modifies tasks
      ensures Valid()
      ensures State() == old(State()).(tasks := old(tasks[..])[id := t])
    {
      tasks[id] := t;
    }

    /** MicroOS_TickHandler: TickCount advances by one (wrapping at 2^32), then every armed
        delay counts down one tick; the task table and the event registry are untouched. */
    method TickHandler() returns (st: Status)
      requires Valid()
      modifies this`tickCount, delays.Repr
      ensures Valid() && st == Ok
      ensures State() == Ticked(old(State()))
      ensures delays.Entries() == Delays.CountedDown(old(delays.Entries()))
    {
      tickCount := Inc(tickCount);
      delays.Tick();
      st := Ok;
    }

    /** One round of MicroOS_StartScheduler's loop: every ready event is dispatched, then
        every task slot is visited in ascending id order at the current tick. */
    method SchedulerRound() returns (ghost calls: seq<Call>)
      requires Valid()
      modifies tasks, this`currentTaskId, events.Repr
      ensures Valid()
      ensures events.Entries() == Events.Dispatched(old(events.Entries()))
      ensures events.currentEventId == Events.LastFired(old(events.Entries()), old(events.currentEventId))
      ensures tasks[..] == PassTasks(old(tasks[..]), tickCount)
      ensures currentTaskId == PassCurrent(old(tasks[..]), tickCount, old(currentTaskId))
      ensures calls == Events.Fired(old(events.Entries())) + PassCalls(old(tasks[..]), tickCount)
    {
      var eventCalls := events.DispatchAll();
      var taskCalls := RunTasks();
      calls := eventCalls + taskCalls;
    }

    /** The task loop of one scheduler round. */
    method RunTasks() returns (ghost calls: seq<Call>)
      requires Valid()
      modifies tasks, this`currentTaskId
      ensures Valid()
      ensures tasks[..] == PassTasks(old(tasks[..]), tickCount)
      ensures currentTaskId == PassCurrent(old(tasks[..]), tickCount, old(currentTaskId))
      ensures calls == PassCalls(old(tasks[..]), tickCount)
    {
      PassKeepsInv(State());
      calls := Pass();
    }

    method Pass() returns (ghost calls: seq<Call>)
      requires tasks.Length == TASK_SIZE
      modifies tasks, this`currentTaskId
      ensures tasks[..] == PassTasks(old(tasks[..]), tickCount)
      ensures currentTaskId == PassCurrent(old(tasks[..]), tickCount, old(currentTaskId))
      ensures calls == PassCalls(old(tasks[..]), tickCount)
    {
      ghost var T := tasks[..];
      ghost var current := currentTaskId;
      calls := [];
      var i := 0;
      while i < TASK_SIZE
        invariant 0 <= i <= TASK_SIZE
        invariant forall j | 0 <= j < i :: tasks[j] == Visited(T[j], tickCount).0
        invariant forall j | i <= j < TASK_SIZE :: tasks[j] == T[j]
        invariant calls == PassCalls(T[..i], tickCount)
        invariant currentTaskId == PassCurrent(T[..i], tickCount, current)
      {
        PassStep(T, i, tickCount, current);
        VisitedSpec(T[i], tickCount);
        var fired := Visit(i);
        if fired {
          calls := calls + [TaskCall(i, tasks[i].fn, tasks[i].userdata)];
        }
        i := i + 1;
      }
      assert T[..i] == T;
      assert tasks[..] == PassTasks(T, tickCount);
    }

    /** One slot of the task loop: a used, running task whose sleep has run out is woken;
        a task not asleep whose period has passed is called and stamped with the tick. */
    method Visit(i: int) returns (fired: bool)
      requires 0 <= i < TASK_SIZE == tasks.Length
      modifies tasks, this`currentTaskId
      ensures tasks[..] == old(tasks[..])[i := Visited(old(tasks[i]), tickCount).0]
      ensures fired == Visited(old(tasks[i]), tickCount).1
      ensures currentTaskId == if fired then i else old(currentTaskId)
    {
      fired := false;
      if tasks[i].used && tasks[i].running {
        var now := tickCount;
        if tasks[i].sleeping && Elapsed(now, tasks[i].lastRunTime) >= tasks[i].sleepTicks {
          tasks[i] := Woken(tasks[i]);
        }
        if !tasks[i].sleeping && Elapsed(now, tasks[i].lastRunTime) >= tasks[i].period {
          currentTaskId := i;
          tasks[i] := tasks[i].(lastRunTime := now);
          fired := true;
        }
      }
    }
  }
}
