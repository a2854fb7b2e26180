/**
 PlcScheduler_t and the functions of core/plc/plc_scheduler.c, as they run on one thread. The
 interleaved form of the pending queue is module PendingQueue; the laws of the release
 arithmetic that RunTasks implements are in module Release.
 */
module Scheduling {
  import opened Release
  import opened RingWindow
  import opened Words

  const MAX_TASKS: nat := 32
  const PENDING_CAPACITY: nat := 32

  /** What plc_scheduler_add_task_internal accepts. */
  predicate Runnable(task: PlcTask) {
    task.fn != 0 && task.period != 0
  }

  /** The task list after handing it `pending` one by one; what is not runnable or does not fit is dropped. */
  function AddAll(tasks: seq<PlcTask>, pending: seq<PlcTask>): (r: seq<PlcTask>)
    requires |tasks| <= MAX_TASKS
    ensures tasks <= r && |r| <= MAX_TASKS
    decreases |pending|
  {
    if pending == [] then tasks
    else if Runnable(pending[0]) && |tasks| < MAX_TASKS then
      AddAll(tasks + [pending[0].(lastRun := 0)], pending[1..])
    else AddAll(tasks, pending[1..])
  }

  lemma AddNothing(tasks: seq<PlcTask>)
    requires |tasks| <= MAX_TASKS
    ensures AddAll(tasks, []) == tasks
  {
  }

  lemma NothingBetween(index: u32)
    ensures Sub32(index, index) == 0
  {
  }

  lemma {:induction false} AddAllSplit(tasks: seq<PlcTask>, a: seq<PlcTask>, b: seq<PlcTask>)
    requires |tasks| <= MAX_TASKS
    ensures AddAll(tasks, a + b) == AddAll(AddAll(tasks, a), b)
    decreases |a|
  {
    if a == [] {
      assert a + b == b;
    } else {
      assert (a + b)[0] == a[0] && (a + b)[1..] == a[1..] + b;
      if Runnable(a[0]) && |tasks| < MAX_TASKS {
        AddAllSplit(tasks + [a[0].(lastRun := 0)], a[1..], b);
      } else {
        AddAllSplit(tasks, a[1..], b);
      }
    }
  }

  /** Those that plc_scheduler_add_task_internal does not refuse, as it stores them. */
  ghost function Accepted(pending: seq<PlcTask>): seq<PlcTask> {
    if pending == [] then []
    else if pending[0].fn != 0 && pending[0].period != 0 then [pending[0].(lastRun := 0)] + Accepted(pending[1..])
    else Accepted(pending[1..])
  }

  /** Draining appends the accepted tasks in order, as many as fit 32. */
  lemma {:induction false} AddAllIs(tasks: seq<PlcTask>, pending: seq<PlcTask>)
    requires |tasks| <= 32
    ensures AddAll(tasks, pending) == tasks + Accepted(pending)[..Min(|Accepted(pending)|, 32 - |tasks|)]
    decreases |pending|
  {
    if pending != [] {
      if Runnable(pending[0]) && |tasks| < MAX_TASKS {
        var first := [pending[0].(lastRun := 0)];
        AddAllIs(tasks + first, pending[1..]);
        var rest := Accepted(pending[1..]);
        assert (first + rest)[..Min(|rest| + 1, 32 - |tasks|)] == first + rest[..Min(|rest|, 31 - |tasks|)];
        assert tasks + first + rest[..Min(|rest|, 31 - |tasks|)] == tasks + (first + rest[..Min(|rest|, 31 - |tasks|)]);
      } else {
        AddAllIs(tasks, pending[1..]);
      }
    }
  }

  /** Adding pending tasks never disturbs the ones already scheduled, and new ones start with last_run_ms 0. */
  lemma {:induction false} AddAllAppendsRunnable(tasks: seq<PlcTask>, pending: seq<PlcTask>)
    requires |tasks| <= MAX_TASKS
    ensures forall i :: |tasks| <= i < |AddAll(tasks, pending)| ==>
        Runnable(AddAll(tasks, pending)[i]) && AddAll(tasks, pending)[i].lastRun == 0
    ensures (forall i :: 0 <= i < |pending| ==> Runnable(pending[i])) ==>
        |AddAll(tasks, pending)| == Min(|tasks| + |pending|, MAX_TASKS)
    decreases |pending|
  {
    if pending != [] {
      if Runnable(pending[0]) && |tasks| < MAX_TASKS {
        AddAllAppendsRunnable(tasks + [pending[0].(lastRun := 0)], pending[1..]);
      } else {
        AddAllAppendsRunnable(tasks, pending[1..]);
      }
    }
  }

  /** What the task loop does to one task, spelled out: who is released, who runs at which level, the new last_run_ms. */
  ghost predicate TaskTurn(was: PlcTask, start: nat, now: nat, level: Health, task: PlcTask, released: bool, ran: bool) {
    && (released <==> now >= start + was.phase && now - was.lastRun >= was.period)
    && (ran <==> released && (level != HealthFault || was.policy == AlwaysRun))
    && task == was.(lastRun := task.lastRun)
    && (!released ==> task.lastRun == was.lastRun)
    && (released ==> task.lastRun <= now < task.lastRun + task.period && (task.lastRun - was.lastRun) % task.period == 0)
  }

  class PlcScheduler {
    const baseCycle: u32
    const tasks: array<PlcTask>
    const pendingTasks: array<PlcTask>
    const pendingReady: array<bool>
    var taskCount: nat
    var pendingWrite: u32
    var pendingRead: u32
    var running: bool
    var health: Health

    ghost predicate Shaped()
      reads this
    {
      && baseCycle > 0
      && tasks.Length == MAX_TASKS && taskCount <= MAX_TASKS
      && pendingTasks.Length == PENDING_CAPACITY && pendingReady.Length == PENDING_CAPACITY
      && tasks != pendingTasks
      && Sub32(pendingWrite, pendingRead) <= PENDING_CAPACITY
    }

    /** The ready flags mark exactly the cells between the two indices. */
    ghost predicate Valid()
      reads this, tasks, pendingReady
    {
      && Shaped()
      && (forall i :: 0 <= i < taskCount ==> Runnable(tasks[i]))
      && (forall i :: 0 <= i < Sub32(pendingWrite, pendingRead) ==>
            pendingReady[Slot(Add32(pendingRead, i), PENDING_CAPACITY)])
    }

    ghost function Tasks(): (ts: seq<PlcTask>)
      requires Shaped()
      reads this, tasks
      ensures |ts| <= MAX_TASKS
    {
      tasks[..taskCount]
    }

    ghost function Pending(): seq<PlcTask>
      requires Shaped()
      reads this, pendingTasks
    {
      View(pendingTasks[..], PENDING_CAPACITY, pendingRead, pendingWrite)
    }

    constructor (base: u32, none: PlcTask)
      requires base > 0
      ensures Valid() && baseCycle == base && Tasks() == [] && Pending() == []
      ensures !running && health == HealthOk
    {
      baseCycle := base;
      tasks := new PlcTask[MAX_TASKS](_ => none);
      pendingTasks := new PlcTask[PENDING_CAPACITY](_ => none);
      pendingReady := new bool[PENDING_CAPACITY](_ => false);
      taskCount := 0;
      pendingWrite, pendingRead := 0, 0;
      running := false;
      health := HealthOk;
    }

    /** plc_scheduler_add_task_internal */
    method AddTaskInternal(task: PlcTask) returns (rc: int)
      requires Valid()
      modifies this`taskCount, tasks
      ensures Valid()
      ensures rc == if task.fn != 0 && task.period != 0 && |old(Tasks())| < 32 then 0 else -1
      ensures Tasks() == if rc == 0 then old(Tasks()) + [task.(lastRun := 0)] else old(Tasks())
      ensures Tasks() == AddAll(old(Tasks()), [task])
    {
      if task.fn == 0 || task.period == 0 {
        return -1;
      }
      if taskCount >= MAX_TASKS {
        return -1;
      }
      tasks[taskCount] := task.(lastRun := 0);
      taskCount := taskCount + 1;
      assert Tasks() == old(Tasks()) + [task.(lastRun := 0)];
      rc := 0;
    }

    /** plc_scheduler_add_task: only before the thread runs. */
    method AddTask(task: PlcTask) returns (rc: int)
      requires Valid()
      modifies this`taskCount, tasks
      ensures Valid()
      ensures rc == if !running && task.fn != 0 && task.period != 0 && |old(Tasks())| < 32 then 0 else -1
      ensures Tasks() == if rc == 0 then old(Tasks()) + [task.(lastRun := 0)] else old(Tasks())
    {
      if running {
        return -1;
      }
      rc := AddTaskInternal(task);
    }

    /** plc_scheduler_queue_task; undisturbed, the compare-and-swap succeeds the first time. */
    method QueueTask(task: PlcTask) returns (rc: int)
      requires Valid()
      modifies this`pendingWrite, pendingTasks, pendingReady
      ensures Valid()
      ensures rc == if |old(Pending())| < 32 then 0 else -1
      ensures Pending() == if rc == 0 then old(Pending()) + [task] else old(Pending())
      ensures rc == 0 ==> pendingWrite == Add32(old(pendingWrite), 1)
    {
      var readIndex := pendingRead;
      var writeIndex := pendingWrite;
      if Sub32(writeIndex, readIndex) >= PENDING_CAPACITY {
        return -1;
      }
      pendingWrite := Add32(writeIndex, 1);
      var slot := Slot(writeIndex, PENDING_CAPACITY);
      pendingTasks[slot] := task;
      pendingReady[slot] := true;
      rc := 0;
      ViewAfterPush(old(pendingTasks[..]), PENDING_CAPACITY, readIndex, writeIndex, task);
      assert pendingTasks[..] == old(pendingTasks[..])[slot := task];
      WindowOf(readIndex, writeIndex);
    }

    /** plc_scheduler_add_task_runtime */
    method AddTaskRuntime(task: PlcTask) returns (rc: int)
      requires Valid()
      modifies this`taskCount, this`pendingWrite, tasks, pendingTasks, pendingReady
      ensures Valid()
      ensures rc == if task.fn != 0 && task.period != 0 && (if running then |old(Pending())| < 32 else |old(Tasks())| < 32)
                    then 0 else -1
      ensures Tasks() == if !running && rc == 0 then old(Tasks()) + [task.(lastRun := 0)] else old(Tasks())
      ensures Pending() == if running && rc == 0 then old(Pending()) + [task] else old(Pending())
    {
      if task.fn == 0 || task.period == 0 {
        return -1;
      }
      if !running {
        rc := AddTask(task);
        return;
      }
      rc := QueueTask(task);
    }

    /**
     plc_scheduler_drain_pending. When the write index is not below the read index, everything pending
     goes to the task list in order. When it is (the write index alone has wrapped), nothing moves.
     */
    method DrainPending()
      requires Valid()
      modifies this`taskCount, this`pendingRead, tasks, pendingReady
      ensures Valid()
      ensures old(pendingRead) <= pendingWrite ==>
          Pending() == [] && Tasks() == AddAll(old(Tasks()), old(Pending()))
      ensures old(pendingRead) <= pendingWrite ==>
          var accepted := Accepted(old(Pending()));
          Tasks() == old(Tasks()) + accepted[..Min(|accepted|, 32 - |old(Tasks())|)]
      ensures old(pendingRead) > pendingWrite ==>
          Pending() == old(Pending()) && Tasks() == old(Tasks()) && pendingRead == old(pendingRead)
    {
      hide AddAll, Slot, Add32, Sub32;
      ghost var pending, was := Pending(), Tasks();
      var readIndex := pendingRead;
      var writeIndex := pendingWrite;
      ghost var n := 0;
      AddNothing(was);
      AddAllIs(was, pending);
      assert pending[..0] == [];
      while readIndex < writeIndex
        invariant Valid() && readIndex == pendingRead && writeIndex == pendingWrite
        invariant old(pendingRead) <= writeIndex ==> readIndex <= writeIndex
        invariant old(pendingRead) > writeIndex ==> readIndex == old(pendingRead) && n == 0
        invariant n <= |pending| && Pending() == pending[n..]
        invariant Tasks() == AddAll(was, pending[..n])
        decreases writeIndex as int - readIndex as int
      {
        HeadOfView(pendingTasks[..], PENDING_CAPACITY, readIndex, writeIndex);
        var slot := Slot(readIndex, PENDING_CAPACITY);
        if !pendingReady[slot] {
          break;
        }
        var task := pendingTasks[slot];
        NextReady(readIndex, writeIndex);
        pendingReady[slot] := false;
        pendingRead := Add32(readIndex, 1);
        readIndex := readIndex + 1;
        assert Pending() == pending[n + 1..];
        var _ := AddTaskInternal(task);
        AddAllSplit(was, pending[..n], [task]);
        assert pending[..n] + [task] == pending[..n + 1];
        n := n + 1;
      }
      if old(pendingRead) <= writeIndex {
        NothingBetween(writeIndex);
        assert Pending() == [];
        assert pending[..n] == pending;
      }
    }

    /** The start of plc_scheduler_thread: every task is armed one period before its first release. */
    method ArmTasks(start: nat)
      requires Valid()
      modifies tasks
      ensures Valid()
      ensures |Tasks()| == |old(Tasks())|
      ensures forall i :: 0 <= i < |Tasks()| ==> Tasks()[i] == Armed(old(Tasks())[i], start)
      ensures forall i :: 0 <= i < |Tasks()| ==>
          var was := old(Tasks())[i];
          Tasks()[i] == was.(lastRun := Max(start + was.phase - was.period, 0) % 0x1_0000_0000)
    {
      var i := 0;
      while i < taskCount
        invariant 0 <= i <= taskCount && Valid()
        invariant forall k :: 0 <= k < i ==> tasks[k] == Armed(old(tasks[k]), start)
        invariant forall k :: i <= k < taskCount ==> tasks[k] == old(tasks[k])
      {
        var phaseStart := start + tasks[i].phase;
        if tasks[i].period > 0 {
          if phaseStart >= tasks[i].period {
            phaseStart := phaseStart - tasks[i].period;
          } else {
            phaseStart := 0;
          }
        }
        tasks[i] := tasks[i].(lastRun := Index(phaseStart));
        i := i + 1;
      }
      forall k | 0 <= k < taskCount
        ensures Armed(old(tasks[k]), start).lastRun
             == Max(start + old(tasks[k]).phase - old(tasks[k]).period, 0) % 0x1_0000_0000
      {
        ArmedAt(old(tasks[k]), start);
      }
    }

    /**
     The task loop of one cycle: each due task catches up, and runs unless the health level forbids it.
     `released` and `ran` report, per task, what happened.
     */
    method RunTasks(start: nat, now: nat) returns (released: seq<bool>, ran: seq<bool>)
      requires Valid() && now < U32
      requires forall i :: 0 <= i < |Tasks()| ==> InTime(Tasks()[i], start, now)
      modifies tasks
      ensures Valid()
      ensures |Tasks()| == |old(Tasks())| == |released| == |ran|
      ensures forall i :: 0 <= i < |Tasks()| ==>
          && Outcome(Tasks()[i], released[i], ran[i]) == TickTask(old(Tasks())[i], start, Tick(now, health))
          && TaskTurn(old(Tasks())[i], start, now, health, Tasks()[i], released[i], ran[i])
    {
      released, ran := [], [];
      var i := 0;
      while i < taskCount
        invariant 0 <= i <= taskCount && Valid() && |released| == |ran| == i
        invariant forall k :: 0 <= k < i ==>
            Outcome(tasks[k], released[k], ran[k]) == TickTask(old(Tasks())[k], start, Tick(now, health))
        invariant forall k :: i <= k < taskCount ==> tasks[k] == old(Tasks())[k]
      {
        var task := tasks[i];
        assert task == old(Tasks())[i];
        var taskStart := start + task.phase;
        var allowRun := true;
        var due := now >= taskStart && now - task.lastRun >= task.period;
        if due {
          var last := task.lastRun;
          last := CatchUp(last, now, task.period);
          tasks[i] := task.(lastRun := last);
          if health == HealthFault {
            allowRun := task.policy == AlwaysRun;
          }
        }
        released := released + [due];
        ran := ran + [due && allowRun];
        i := i + 1;
      }
      forall k | 0 <= k < taskCount
        ensures TaskTurn(old(Tasks())[k], start, now, health, tasks[k], released[k], ran[k])
      {
        TickMeans(old(Tasks())[k], start, Tick(now, health));
      }
    }

    /**
     One turn of the thread at a clock reading that has reached the next tick: drain, the cycle-begin callback that sets
     the health level, the tasks (those just drained included), and the next tick.
     */
    method RunCycle(start: nat, nextTick: nat, now: nat, level: Health) returns (next: nat, released: seq<bool>, ran: seq<bool>)
      requires Valid() && nextTick <= now < U32 && pendingRead <= pendingWrite
      requires forall i :: 0 <= i < |Tasks()| ==> InTime(Tasks()[i], start, now)
      modifies this`taskCount, this`pendingRead, this`health, tasks, pendingReady
      ensures Valid() && Pending() == [] && health == level
      ensures next == NextTick(baseCycle, nextTick, now)
      ensures next == if now <= nextTick + baseCycle + 5 * baseCycle % 0x1_0000_0000 then nextTick + baseCycle else now + baseCycle
      ensures var all := AddAll(old(Tasks()), old(Pending()));
        && |Tasks()| == |all| == |released| == |ran|
        && forall i :: 0 <= i < |all| ==>
            && Runnable(all[i]) && InTime(all[i], start, now)
            && Outcome(Tasks()[i], released[i], ran[i]) == TickTask(all[i], start, Tick(now, level))
            && TaskTurn(all[i], start, now, level, Tasks()[i], released[i], ran[i])
    {
      ghost var before := Tasks();
      ghost var all := AddAll(Tasks(), Pending());
      AddAllAppendsRunnable(Tasks(), Pending());
      DrainPending();
      forall i | 0 <= i < |all| ensures Runnable(all[i]) && InTime(all[i], start, now) {
        if i < |before| {
          assert all[i] == before[i];
        }
      }
      health := level;
      hide AddAll, TickTask, TaskTurn;
      released, ran := RunTasks(start, now);
      next := nextTick + baseCycle;
      if now > next && now - next > Index(5 * baseCycle) {
        next := now + baseCycle;
      }
    }
  }

  /** The inner while loop: add whole periods until less than one is left. */
  method CatchUp(from: u32, now: nat, period: u32) returns (last: u32)
    requires period > 0 && from <= now < U32
    ensures last == CaughtUp(from, now, period)
  {
    last := from;
    ghost var turns := 0;
    while now - last >= period
      invariant from <= last <= now && last == from + turns * period
      decreases now - last
    {
      assert (turns + 1) * period == turns * period + period;
      last := Add32(last, period);
      turns := turns + 1;
    }
    FloorIs(now - from, period, turns);
  }

  lemma HeadOfView<T>(storage: seq<T>, capacity: nat, read: u32, write: u32)
    requires 0 < capacity == |storage| < U32 && U32 % capacity == 0
    requires read < write && Sub32(write, read) <= capacity
    ensures Add32(read, 1) == read + 1 && Sub32(write, read) > 0 && Add32(read, 0) == read
    ensures View(storage, capacity, read, write)[0] == storage[Slot(read, capacity)]
    ensures View(storage, capacity, Add32(read, 1), write) == View(storage, capacity, read, write)[1..]
    ensures Sub32(write, Add32(read, 1)) == Sub32(write, read) - 1
  {
    ViewAfterPop(storage, capacity, read, write);
  }

  /** Releasing the head cell leaves the ready flags of the rest of the window alone. */
  lemma NextReady(read: u32, write: u32)
    requires read < write && Sub32(write, read) <= PENDING_CAPACITY
    ensures forall i :: 0 <= i < Sub32(write, read) - 1 ==>
        && Add32(Add32(read, 1), i) == Add32(read, i + 1)
        && Slot(Add32(Add32(read, 1), i), PENDING_CAPACITY) != Slot(read, PENDING_CAPACITY)
  {
    WindowShrinks(read, write);
    assert Add32(read, 0) == read;
    forall j | 0 < j < Sub32(write, read)
      ensures Slot(Add32(read, j), PENDING_CAPACITY) != Slot(read, PENDING_CAPACITY)
    {
      WindowSlot(read, 0, j, PENDING_CAPACITY);
    }
  }
}
