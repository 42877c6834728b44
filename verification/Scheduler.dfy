/** scheduler.c: the static task table and its counters, updated in place. */
module Schedulers {
  import opened SchedulerModel

  class Scheduler {
    const tasks: array<Task>
    var taskCount: nat
    var currentIndex: nat
    var totalTicks: nat
    var nextTaskId: nat
    var sliceProgress: nat

    /** `scheduler_init`. */
    constructor ()
      ensures Inv() && View() == Sched([], 0, 0, 0) && nextTaskId == 1 && fresh(tasks)
    {
      tasks := new Task[8](_ => Task(0, "", Unused, 0, 0));
      taskCount, currentIndex, totalTicks, nextTaskId, sliceProgress := 0, 0, 0, 1, 0;
    }

    predicate Shaped()
      reads this
    {
      tasks.Length == MAX_TASKS && taskCount <= MAX_TASKS
    }

    ghost function View(): Sched
      requires Shaped()
      reads this, tasks
    {
      Sched(tasks[..taskCount], currentIndex, sliceProgress, totalTicks)
    }

    ghost predicate Inv()
      reads this, tasks
    {
      Shaped() && Valid(View())
    }

    method RunnableCountNow() returns (count: nat)
      requires Shaped()
      ensures count == RunnableCount(View().tasks)
    {
      count := 0;
      var i := 0;
      while i < taskCount
        invariant 0 <= i <= taskCount && count == RunnableCount(tasks[..i])
      {
        assert tasks[..i + 1][..i] == tasks[..i];
        if tasks[i].state.Runnable? {
          count := count + 1;
        }
        i := i + 1;
      }
    }

    static method NextIndex(i: nat, n: nat) returns (j: nat)
      requires i < n
      ensures j == Next(i, n)
    {
      NextIsMod(i, n);
      j := (i + 1) % n;
    }

    method AdvanceToNextRunnable()
      requires Shaped() && (taskCount > 0 ==> currentIndex < taskCount)
      modifies this`currentIndex, this`sliceProgress
      ensures taskCount == 0 ==> View() == old(View())
      ensures taskCount > 0 ==> View() == Advance(old(View()))
    {
      if taskCount == 0 {
        return;
      }
      ghost var s := View();
      var step := 0;
      while step < taskCount
        invariant 0 <= step <= taskCount && currentIndex < taskCount
        invariant sliceProgress == old(sliceProgress)
        invariant NextRunnable(s.tasks, s.current, taskCount)
                  == NextRunnable(s.tasks, currentIndex, taskCount - step)
        invariant step == taskCount ==> !s.tasks[currentIndex].state.Runnable?
      {
        currentIndex := NextIndex(currentIndex, taskCount);
        if tasks[currentIndex].state.Runnable? {
          sliceProgress := 0;
          return;
        }
        step := step + 1;
      }
    }

    /** Returns the new task's id, or -1 when the table is full. */
    method RegisterTask(name: string, timeSliceTicks: nat) returns (r: int)
      requires Inv()
      modifies this, tasks
      ensures Inv() && View() == Register(old(View()), old(nextTaskId), name, timeSliceTicks)
      ensures if old(taskCount) == 8 then r == -1 && nextTaskId == old(nextTaskId) && taskCount == 8
              else r == old(nextTaskId) && nextTaskId == old(nextTaskId) + 1 && taskCount == old(taskCount) + 1
      ensures forall i :: 0 <= i < old(taskCount) ==> tasks[i] == old(tasks[i])
      ensures r >= 0 ==> var t := tasks[old(taskCount)];
                         && t.id == r && t.name == name && t.state == Runnable && t.ticksSeen == 0
                         && t.slice == if timeSliceTicks == 0 then 1 else timeSliceTicks
      ensures currentIndex == old(currentIndex) && sliceProgress == old(sliceProgress) && totalTicks == old(totalTicks)
    {
      if taskCount >= MAX_TASKS {
        return -1;
      }
      var slice := if timeSliceTicks == 0 then 1 else timeSliceTicks;
      RegisterKeepsValid(View(), nextTaskId, name, timeSliceTicks);
      tasks[taskCount] := Task(nextTaskId, name, Runnable, 0, slice);
      nextTaskId := nextTaskId + 1;
      assert tasks[..taskCount + 1] == tasks[..taskCount] + [tasks[taskCount]];
      taskCount := taskCount + 1;
      return tasks[taskCount - 1].id;
    }

    method OnTimerTick()
      requires Inv()
      modifies this`totalTicks, this`currentIndex, this`sliceProgress, tasks
      ensures Inv() && View() == Tick(old(View()))
      ensures forall i :: taskCount <= i < MAX_TASKS ==> tasks[i] == old(tasks[i])
    {
      ghost var s := View();
      TickEffect(s);
      if SomeRunnable(s.tasks) {
        ChargedIsRunnable(s);
      }
      totalTicks := totalTicks + 1;
      var n := RunnableCountNow();
      CountIsPositive(s.tasks);
      if taskCount == 0 || n == 0 {
        return;
      }
      assert View() == s.(total := s.total + 1);
      if !tasks[currentIndex].state.Runnable? {
        AdvanceToNextRunnable();
      }
      ChargeCurrent();
    }

    /** The accounting half of the tick: one tick for the current task, then its slice may end. */
    method ChargeCurrent()
      requires Inv() && taskCount > 0 && tasks[currentIndex].state.Runnable?
      modifies this`currentIndex, this`sliceProgress, tasks
      ensures Shaped()
      ensures View() == Settle(Charge(old(View())))
      ensures forall i :: taskCount <= i < MAX_TASKS ==> tasks[i] == old(tasks[i])
    {
      ghost var s2 := View();
      tasks[currentIndex] := tasks[currentIndex].(ticksSeen := tasks[currentIndex].ticksSeen + 1);
      sliceProgress := sliceProgress + 1;
      assert View() == Charge(s2);
      if sliceProgress >= tasks[currentIndex].slice {
        AdvanceToNextRunnable();
      }
    }

    method CopyTasks(max: nat) returns (out: seq<Task>)
      requires Shaped()
      ensures out == View().tasks[..if taskCount < max then taskCount else max]
    {
      var count := if taskCount < max then taskCount else max;
      out := [];
      var i := 0;
      while i < count
        invariant 0 <= i <= count && out == tasks[..i]
      {
        out := out + [tasks[i]];
        i := i + 1;
      }
    }
  }
}
