/** The round-robin policy of scheduler.c on values: what one timer tick does. */
module SchedulerModel {

  const MAX_TASKS := 8

  datatype TaskState = Unused | Runnable | Blocked

  datatype Task = Task(id: nat, name: string, state: TaskState, ticksSeen: nat, slice: nat)

  /** The registered tasks, the cursor, and the ticks counted so far. */
  datatype Sched = Sched(tasks: seq<Task>, current: nat, progress: nat, total: nat)

  /** The cursor points at a registered task whose slice is not used up. */
  predicate Valid(s: Sched) {
    && |s.tasks| <= MAX_TASKS
    && (forall i :: 0 <= i < |s.tasks| ==> s.tasks[i].slice >= 1)
    && (if s.tasks == [] then s.current == 0 && s.progress == 0
        else s.current < |s.tasks| && s.progress < s.tasks[s.current].slice)
  }

  predicate SomeRunnable(tasks: seq<Task>) {
    exists i :: 0 <= i < |tasks| && tasks[i].state.Runnable?
  }

  function RunnableCount(tasks: seq<Task>): nat {
    if tasks == [] then 0
    else RunnableCount(tasks[..|tasks| - 1]) + if tasks[|tasks| - 1].state.Runnable? then 1 else 0
  }

  lemma {:induction false} CountIsPositive(tasks: seq<Task>)
    ensures RunnableCount(tasks) > 0 <==> SomeRunnable(tasks)
    decreases |tasks|
  {
    if tasks == [] {
    } else {
      var front := tasks[..|tasks| - 1];
      CountIsPositive(front);
      assert forall i :: 0 <= i < |front| ==> front[i] == tasks[i];
    }
  }

  /** The places of the runnable tasks. */
  function RunnablePlaces(tasks: seq<Task>): set<nat> {
    set i: nat | i < |tasks| && tasks[i].state.Runnable?
  }

  /** The count is the number of such places. */
  lemma {:induction false} CountIsCardinality(tasks: seq<Task>)
    ensures RunnableCount(tasks) == |RunnablePlaces(tasks)|
    decreases |tasks|
  {
    if tasks == [] {
      assert RunnablePlaces(tasks) == {};
    } else {
      var last := |tasks| - 1;
      var front := tasks[..last];
      CountIsCardinality(front);
      assert RunnablePlaces(tasks) == RunnablePlaces(front) + if tasks[last].state.Runnable? then {last} else {};
    }
  }

  /** The index after `i`, going round. */
  function Next(i: nat, n: nat): (j: nat)
    requires i < n
    ensures j < n
  {
    if i + 1 == n then 0 else i + 1
  }

  lemma NextIsMod(i: nat, n: nat)
    requires i < n
    ensures (i + 1) % n == Next(i, n)
  {
  }

  /** Steps from `i` on to `j`; a whole round when they are equal. */
  function Gap(i: nat, j: nat, n: nat): (g: nat)
    requires i < n && j < n
    ensures 1 <= g <= n
  {
    if i < j then j - i else n - i + j
  }

  /** The first runnable task after `i`, going round; `i` itself is looked at last. */
  function NextRunnable(tasks: seq<Task>, i: nat, steps: nat): (j: nat)
    requires i < |tasks|
    ensures j < |tasks|
    decreases steps
  {
    if steps == 0 then i
    else if tasks[Next(i, |tasks|)].state.Runnable? then Next(i, |tasks|)
    else NextRunnable(tasks, Next(i, |tasks|), steps - 1)
  }

  function Advance(s: Sched): Sched
    requires s.tasks != [] && s.current < |s.tasks|
  {
    var j := NextRunnable(s.tasks, s.current, |s.tasks|);
    s.(current := j, progress := if s.tasks[j].state.Runnable? then 0 else s.progress)
  }

  function Charge(s: Sched): Sched
    requires s.current < |s.tasks|
  {
    var t := s.tasks[s.current];
    s.(tasks := s.tasks[s.current := t.(ticksSeen := t.ticksSeen + 1)], progress := s.progress + 1)
  }

  /** The cursor on a runnable task. */
  function Chosen(s: Sched): Sched
    requires s.current < |s.tasks|
  {
    if s.tasks[s.current].state.Runnable? then s else Advance(s)
  }

  /** Moves on when the slice is used up. */
  function Settle(s: Sched): Sched
    requires s.current < |s.tasks|
  {
    if s.progress >= s.tasks[s.current].slice then Advance(s) else s
  }

  /** `scheduler_on_timer_tick`. */
  function Tick(s: Sched): Sched
    requires Valid(s)
  {
    var s1 := s.(total := s.total + 1);
    if s.tasks == [] || !SomeRunnable(s.tasks) then s1
    else Settle(Charge(Chosen(s1)))
  }

  /** The task a tick charges, or none. */
  function Charged(s: Sched): (r: int)
    requires Valid(s)
    ensures -1 <= r < |s.tasks|
  {
    if s.tasks == [] || !SomeRunnable(s.tasks) then -1
    else if s.tasks[s.current].state.Runnable? then s.current
    else NextRunnable(s.tasks, s.current, |s.tasks|)
  }

  /** A search long enough to reach a runnable task stops at the first runnable one. */
  lemma {:induction false} NextRunnableFinds(tasks: seq<Task>, i: nat, steps: nat, w: nat)
    requires i < |tasks| && w < |tasks| && tasks[w].state.Runnable? && Gap(i, w, |tasks|) <= steps
    ensures var j := NextRunnable(tasks, i, steps);
            tasks[j].state.Runnable? && Gap(i, j, |tasks|) <= Gap(i, w, |tasks|)
    decreases steps
  {
    var k := Next(i, |tasks|);
    if !tasks[k].state.Runnable? {
      NextRunnableFinds(tasks, k, steps - 1, w);
    }
  }

  /** Moving on from a runnable task starts a fresh slice. */
  lemma AdvanceFresh(s: Sched, w: nat)
    requires s.current < |s.tasks| && w < |s.tasks| && s.tasks[w].state.Runnable?
    ensures Advance(s).progress == 0 && s.tasks[Advance(s).current].state.Runnable?
    ensures Advance(s).tasks == s.tasks && Advance(s).total == s.total
  {
    NextRunnableFinds(s.tasks, s.current, |s.tasks|, w);
  }

  /** Charging the cursor's task and moving on when its slice is used up. */
  lemma ChargeEffect(s: Sched)
    requires Valid(s) && s.tasks != [] && s.tasks[s.current].state.Runnable?
    ensures var u := Settle(Charge(s));
            Valid(u) && u.tasks == Charge(s).tasks && u.total == s.total
  {
    AdvanceFresh(Charge(s), s.current);
  }

  lemma ChargedIsRunnable(s: Sched)
    requires Valid(s) && SomeRunnable(s.tasks)
    ensures var s2 := Chosen(s.(total := s.total + 1));
            && Valid(s2) && s2.tasks == s.tasks && s2.total == s.total + 1
            && s2.current == Charged(s) && s.tasks[s2.current].state.Runnable?
  {
    var w :| 0 <= w < |s.tasks| && s.tasks[w].state.Runnable?;
    AdvanceFresh(s.(total := s.total + 1), w);
  }

  /** With a runnable task, a tick charges one and perhaps moves on behind it. */
  lemma TickIsCharge(s: Sched)
    requires Valid(s) && SomeRunnable(s.tasks)
    ensures Charged(s) >= 0 && s.tasks[Charged(s)].state.Runnable?
    ensures Valid(Tick(s)) && Tick(s).total == s.total + 1
    ensures var c := s.tasks[Charged(s)]; Tick(s).tasks == s.tasks[Charged(s) := c.(ticksSeen := c.ticksSeen + 1)]
  {
    ChargedIsRunnable(s);
    ChargeEffect(Chosen(s.(total := s.total + 1)));
  }

  /** The tick's effect, task by task: one task is charged, or none when all are blocked. */
  lemma TickEffect(s: Sched)
    requires Valid(s)
    ensures Valid(Tick(s)) && Tick(s).total == s.total + 1 && |Tick(s).tasks| == |s.tasks|
    ensures forall i :: 0 <= i < |s.tasks| ==>
              Tick(s).tasks[i] == s.tasks[i].(ticksSeen := s.tasks[i].ticksSeen + if i == Charged(s) then 1 else 0)
    ensures Charged(s) >= 0 <==> SomeRunnable(s.tasks)
    ensures Charged(s) >= 0 ==> s.tasks[Charged(s)].state.Runnable?
  {
    if SomeRunnable(s.tasks) {
      TickIsCharge(s);
    }
  }

  // ----- Registration and blocking -----

  /** `scheduler_register_task`; a full table refuses. */
  function Register(s: Sched, id: nat, name: string, slice: nat): Sched {
    if |s.tasks| >= MAX_TASKS then s
    else s.(tasks := s.tasks + [Task(id, name, Runnable, 0, if slice == 0 then 1 else slice)])
  }

  /** Whoever blocks or wakes tasks; the scheduler itself never does. */
  function WithStates(s: Sched, states: seq<TaskState>): (r: Sched)
    requires |states| == |s.tasks|
    ensures |r.tasks| == |s.tasks|
  {
    s.(tasks := seq(|s.tasks|, i requires 0 <= i < |s.tasks| => s.tasks[i].(state := states[i])))
  }

  lemma RegisterKeepsValid(s: Sched, id: nat, name: string, slice: nat)
    requires Valid(s)
    ensures Valid(Register(s, id, name, slice))
  {
  }
}
