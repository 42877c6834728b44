/** Fairness, bounded waiting and tick conservation of the round-robin scheduler. */
module SchedulerTheorems {
  import opened SchedulerModel

  /** Sum of the slices of the first `i` tasks. */
  function Start(tasks: seq<Task>, i: nat): nat
    requires i <= |tasks|
  {
    if i == 0 then 0 else Start(tasks, i - 1) + tasks[i - 1].slice
  }

  function Period(tasks: seq<Task>): nat {
    Start(tasks, |tasks|)
  }

  lemma {:induction false} StartMonotone(tasks: seq<Task>, i: nat, j: nat)
    requires i <= j <= |tasks|
    ensures Start(tasks, i) <= Start(tasks, j)
    decreases j
  {
    if i < j {
      StartMonotone(tasks, i, j - 1);
    }
  }

  lemma {:induction false} StartSame(t: seq<Task>, u: seq<Task>, i: nat)
    requires |t| == |u| && i <= |t| && forall k :: 0 <= k < |t| ==> t[k].slice == u[k].slice
    ensures Start(t, i) == Start(u, i)
  {
    if i == 0 {
    } else {
      StartSame(t, u, i - 1);
    }
  }

  // ----- Runs -----

  datatype Event = TimerTick | SetStates(states: seq<TaskState>) | NewTask(id: nat, name: string, slice: nat)

  function Step(s: Sched, e: Event): (r: Sched)
    requires Valid(s)
    ensures Valid(r)
  {
    match e
    case TimerTick => TickEffect(s); Tick(s)
    case SetStates(states) => if |states| == |s.tasks| then WithStates(s, states) else s
    case NewTask(id, name, slice) => Register(s, id, name, slice)
  }

  function Run(s: Sched, es: seq<Event>): (r: Sched)
    requires Valid(s)
    ensures Valid(r)
    decreases |es|
  {
    if es == [] then s else Run(Step(s, es[0]), es[1..])
  }

  // ----- Exact fairness -----

  predicate AllRunnable(s: Sched) {
    s.tasks != [] && forall i :: 0 <= i < |s.tasks| ==> s.tasks[i].state.Runnable?
  }

  function Ticks(s: Sched, n: nat): (r: Sched)
    requires Valid(s)
    ensures Valid(r)
  {
    if n == 0 then s
    else
      TickEffect(Ticks(s, n - 1));
      Tick(Ticks(s, n - 1))
  }

  /** Place of the cursor in the period: slices already passed plus progress in the current one. */
  function Place(s: Sched): nat
    requires Valid(s) && s.tasks != []
  {
    Start(s.tasks, s.current) + s.progress
  }

  /** How much of task `i`'s slice lies before place `r` of the period. */
  function Part(tasks: seq<Task>, i: nat, r: nat): nat
    requires i < |tasks|
  {
    if r <= Start(tasks, i) then 0
    else if r <= Start(tasks, i) + tasks[i].slice then r - Start(tasks, i)
    else tasks[i].slice
  }

  lemma PlaceInPeriod(s: Sched)
    requires Valid(s) && s.tasks != []
    ensures Place(s) < Period(s.tasks)
  {
    StartMonotone(s.tasks, s.current + 1, |s.tasks|);
  }

  /** Where the cursor goes when every task is runnable: on in its slice, or to the next task. */
  lemma TickMoves(s: Sched)
    requires Valid(s) && AllRunnable(s)
    ensures Charged(s) == s.current
    ensures var t := Tick(s);
            if s.progress + 1 < s.tasks[s.current].slice then t.current == s.current && t.progress == s.progress + 1
            else t.current == Next(s.current, |s.tasks|) && t.progress == 0
  {
    var t, i := Charge(s.(total := s.total + 1)), Next(s.current, |s.tasks|);
    assert s.tasks[s.current].state.Runnable? && s.tasks[i].state.Runnable?;
    assert t.tasks[i].state.Runnable? && NextRunnable(t.tasks, t.current, |t.tasks|) == i;
  }

  /** The place behind the cursor's is the next task's first, or the period's end. */
  lemma PlaceMoves(s: Sched)
    requires Valid(s) && s.tasks != []
    ensures Place(s) + 1 == Start(s.tasks, s.current + 1) <==> s.progress + 1 == s.tasks[s.current].slice
    ensures Start(s.tasks, 0) == 0
    ensures Place(s) + 1 == Period(s.tasks)
            <==> s.current + 1 == |s.tasks| && s.progress + 1 == s.tasks[s.current].slice
  {
    if s.current + 1 < |s.tasks| {
      StartMonotone(s.tasks, s.current + 2, |s.tasks|);
    }
  }

  /** A tick moves one place on, round the period, and charges the task that owns the place. */
  lemma RunnableTick(s: Sched)
    requires Valid(s) && AllRunnable(s)
    ensures var t := Tick(s);
            && Valid(t) && AllRunnable(t) && Period(t.tasks) == Period(s.tasks) && Charged(s) == s.current
            && (forall i :: 0 <= i < |s.tasks| ==> t.tasks[i].slice == s.tasks[i].slice)
            && Place(t) == if Place(s) + 1 == Period(s.tasks) then 0 else Place(s) + 1
  {
    TickEffect(s);
    TickMoves(s);
    StartSame(s.tasks, Tick(s).tasks, |s.tasks|);
    StartSame(s.tasks, Tick(s).tasks, Tick(s).current);
    PlaceMoves(s);
  }

  /** `q` rounds of `m`. */
  function Rounds(q: nat, m: nat): nat {
    if q == 0 then 0 else Rounds(q - 1, m) + m
  }

  lemma {:induction false} RoundsIsProduct(q: nat, m: nat)
    ensures Rounds(q, m) == q * m
  {
    if q == 0 {
    } else {
      RoundsIsProduct(q - 1, m);
    }
  }

  /** `n` ticks lead from `s` to `t`: `q` whole rounds, and task `i` charged for them and for its parts. */
  predicate Lap(s: Sched, t: Sched, n: nat, i: nat, q: nat)
    requires Valid(s) && AllRunnable(s) && i < |s.tasks|
  {
    && Valid(t) && AllRunnable(t) && |t.tasks| == |s.tasks| && Period(t.tasks) == Period(s.tasks)
    && (forall k :: 0 <= k < |s.tasks| ==> t.tasks[k].slice == s.tasks[k].slice)
    && Place(s) + n == Rounds(q, Period(s.tasks)) + Place(t)
    && t.tasks[i].ticksSeen + Part(s.tasks, i, Place(s))
       == s.tasks[i].ticksSeen + Rounds(q, s.tasks[i].slice) + Part(s.tasks, i, Place(t))
  }

  /** Charges add up over any number of ticks. */
  lemma {:induction false} ChargesAfter(s: Sched, n: nat, i: nat) returns (q: nat)
    requires Valid(s) && AllRunnable(s) && i < |s.tasks|
    ensures Lap(s, Ticks(s, n), n, i, q)
    decreases n
  {
    if n == 0 {
      q := 0;
    } else {
      var q0 := ChargesAfter(s, n - 1, i);
      q := LapNext(s, Ticks(s, n - 1), n - 1, i, q0);
    }
  }

  lemma LapNext(s: Sched, u: Sched, n: nat, i: nat, q0: nat) returns (q: nat)
    requires Valid(s) && AllRunnable(s) && i < |s.tasks| && Lap(s, u, n, i, q0)
    ensures Lap(s, Tick(u), n + 1, i, q)
  {
    RunnableTick(u);
    TickEffect(u);
    PartStep(s, u, i);
    q := if Place(u) + 1 == Period(s.tasks) then q0 + 1 else q0;
    assert Rounds(q0 + 1, Period(s.tasks)) == Rounds(q0, Period(s.tasks)) + Period(s.tasks);
    assert Rounds(q0 + 1, s.tasks[i].slice) == Rounds(q0, s.tasks[i].slice) + s.tasks[i].slice;
  }

  lemma PartStep(s: Sched, u: Sched, i: nat)
    requires Valid(u) && u.tasks != [] && |s.tasks| == |u.tasks| && i < |s.tasks|
    requires forall k :: 0 <= k < |s.tasks| ==> u.tasks[k].slice == s.tasks[k].slice
    ensures Part(s.tasks, i, 0) == 0 && Part(s.tasks, i, Period(s.tasks)) == s.tasks[i].slice
    ensures Part(s.tasks, i, Place(u) + 1) == Part(s.tasks, i, Place(u)) + if i == u.current then 1 else 0
  {
    StartMonotone(s.tasks, i + 1, |s.tasks|);
    StartSame(s.tasks, u.tasks, u.current);
    if i < u.current {
      StartMonotone(s.tasks, i + 1, u.current);
    } else if u.current < i {
      StartMonotone(s.tasks, u.current + 1, i);
    }
  }

  lemma SamePlace(s: Sched, t: Sched)
    requires Valid(s) && Valid(t) && s.tasks != [] && |s.tasks| == |t.tasks| && Place(s) == Place(t)
    requires forall k :: 0 <= k < |s.tasks| ==> t.tasks[k].slice == s.tasks[k].slice
    ensures s.current == t.current && s.progress == t.progress
  {
    StartSame(s.tasks, t.tasks, t.current);
    if s.current < t.current {
      StartMonotone(s.tasks, s.current + 1, t.current);
    } else if t.current < s.current {
      StartMonotone(s.tasks, t.current + 1, s.current);
    }
  }

  lemma RoundsAtLeast(q: nat, p: nat)
    ensures q == 1 ==> Rounds(q, p) == p
    ensures q >= 2 ==> Rounds(q, p) >= p + p
  {
    if q >= 2 {
      assert Rounds(q, p) == Rounds(q - 2, p) + p + p;
    } else if q == 1 {
      assert Rounds(1, p) == Rounds(0, p) + p;
    }
  }

  /** A window of `n` places from `a` to `b`, with `k` whole periods in `n`, passes `k` or `k + 1` rounds. */
  lemma {:induction false} RoundsInWindow(a: nat, n: nat, q: nat, b: nat, p: nat, k: nat)
    requires a < p && b < p && a + n == Rounds(q, p) + b
    requires Rounds(k, p) <= n < Rounds(k, p) + p
    ensures (q == k && a <= b) || (q == k + 1 && b < a)
    decreases q
  {
    if q == 0 || k == 0 {
      RoundsAtLeast(q, p);
    } else {
      RoundsInWindow(a, n - p, q - 1, b, p, k - 1);
    }
  }

  lemma WholePeriods(n: nat, p: nat, k: nat)
    requires p > 0 && k == n / p
    ensures Rounds(k, p) <= n < Rounds(k, p) + p
  {
    RoundsIsProduct(k, p);
  }

  /** Between `k` and `k + 1` slices. */
  predicate FairShare(got: int, k: nat, slice: nat) {
    k * slice <= got <= (k + 1) * slice
  }

  lemma PeriodPositive(s: Sched)
    requires Valid(s) && s.tasks != []
    ensures Period(s.tasks) > 0
  {
    PlaceInPeriod(s);
  }

  /** Over any window of `n` ticks, each task gets between floor(n/S) and floor(n/S)+1 of its slices. */
  lemma FairOverAnyWindow(s: Sched, n: nat, i: nat, k: nat)
    requires Valid(s) && AllRunnable(s) && i < |s.tasks|
    requires Period(s.tasks) > 0 ==> k == n / Period(s.tasks)
    ensures i < |Ticks(s, n).tasks|
    ensures FairShare(Ticks(s, n).tasks[i].ticksSeen - s.tasks[i].ticksSeen, k, s.tasks[i].slice)
  {
    PeriodPositive(s);
    WholePeriods(n, Period(s.tasks), k);
    var q := ChargesAfter(s, n, i);
    LapIsFair(s, Ticks(s, n), n, i, q, k);
  }

  lemma LapIsFair(s: Sched, t: Sched, n: nat, i: nat, q: nat, k: nat)
    requires Valid(s) && AllRunnable(s) && i < |s.tasks| && Lap(s, t, n, i, q)
    requires Rounds(k, Period(s.tasks)) <= n < Rounds(k, Period(s.tasks)) + Period(s.tasks)
    ensures FairShare(t.tasks[i].ticksSeen - s.tasks[i].ticksSeen, k, s.tasks[i].slice)
  {
    PlaceInPeriod(s);
    PlaceInPeriod(t);
    RoundsInWindow(Place(s), n, q, Place(t), Period(s.tasks), k);
    PartMonotone(s.tasks, i, Place(s), Place(t));
    RoundsIsProduct(k, s.tasks[i].slice);
    RoundsIsProduct(k + 1, s.tasks[i].slice);
  }

  lemma PartMonotone(tasks: seq<Task>, i: nat, a: nat, b: nat)
    requires i < |tasks|
    ensures a <= b ==> Part(tasks, i, a) <= Part(tasks, i, b)
    ensures b <= a ==> Part(tasks, i, b) <= Part(tasks, i, a)
    ensures Part(tasks, i, a) <= tasks[i].slice && Part(tasks, i, b) <= tasks[i].slice
  {
  }

  /** Any S consecutive ticks charge every task exactly its slice and bring the cursor back. */
  lemma FairOverOnePeriod(s: Sched, i: nat)
    requires Valid(s) && AllRunnable(s) && i < |s.tasks|
    ensures var t := Ticks(s, Period(s.tasks));
            && |t.tasks| == |s.tasks|
            && t.tasks[i].ticksSeen == s.tasks[i].ticksSeen + s.tasks[i].slice
            && t.current == s.current && t.progress == s.progress
  {
    var q := ChargesAfter(s, Period(s.tasks), i);
    LapIsExact(s, Ticks(s, Period(s.tasks)), i, q);
  }

  lemma LapIsExact(s: Sched, t: Sched, i: nat, q: nat)
    requires Valid(s) && AllRunnable(s) && i < |s.tasks| && Lap(s, t, Period(s.tasks), i, q)
    ensures t.tasks[i].ticksSeen == s.tasks[i].ticksSeen + s.tasks[i].slice
    ensures t.current == s.current && t.progress == s.progress
  {
    PlaceInPeriod(s);
    PlaceInPeriod(t);
    OneRound(Place(s), q, Place(t), Period(s.tasks));
    assert Rounds(1, s.tasks[i].slice) == Rounds(0, s.tasks[i].slice) + s.tasks[i].slice;
    SamePlace(s, t);
  }

  lemma OneRound(a: nat, q: nat, b: nat, p: nat)
    requires a < p && b < p && a + p == Rounds(q, p) + b
    ensures q == 1 && a == b
  {
    RoundsAtLeast(q, p);
  }

  // ----- Bounded waiting -----

  /** Slices between the cursor's task and `w`, going round; 0 at `w` itself. */
  function Ahead(tasks: seq<Task>, c: nat, w: nat): int
    requires c < |tasks| && w < |tasks|
  {
    Start(tasks, w) - Start(tasks, c) + if c <= w then 0 else Period(tasks)
  }

  /** Ticks other tasks may still get before `w`'s turn. */
  function Wait(s: Sched, w: nat): int
    requires Valid(s) && w < |s.tasks|
  {
    if s.current == w then 0 else Ahead(s.tasks, s.current, w) - s.progress
  }

  lemma AheadBound(tasks: seq<Task>, c: nat, w: nat)
    requires c < |tasks| && w < |tasks| && c != w
    ensures tasks[c].slice <= Ahead(tasks, c, w) <= Period(tasks) - tasks[w].slice
  {
    StartMonotone(tasks, w + 1, |tasks|);
    StartMonotone(tasks, c + 1, |tasks|);
    if c < w {
      StartMonotone(tasks, c + 1, w);
    } else {
      StartMonotone(tasks, w + 1, c);
    }
  }

  /** Skipping from `c` to a task on the way to `w` leaves at least `c`'s slice behind. */
  lemma AheadSkips(tasks: seq<Task>, c: nat, j: nat, w: nat)
    requires c < |tasks| && w < |tasks| && j < |tasks| && c != w
    requires Gap(c, j, |tasks|) <= Gap(c, w, |tasks|)
    ensures Ahead(tasks, j, w) + tasks[c].slice <= Ahead(tasks, c, w)
  {
    StartMonotone(tasks, c + 1, |tasks|);
    if c < j {
      StartMonotone(tasks, c + 1, j);
    }
  }

  lemma {:induction false} NextRunnableSame(t: seq<Task>, u: seq<Task>, i: nat, steps: nat)
    requires |t| == |u| && i < |t| && forall k :: 0 <= k < |t| ==> t[k].state == u[k].state
    ensures NextRunnable(t, i, steps) == NextRunnable(u, i, steps)
    decreases steps
  {
    if steps > 0 && !t[Next(i, |t|)].state.Runnable? {
      NextRunnableSame(t, u, Next(i, |t|), steps - 1);
    }
  }

  /** Moving on from a charged task `c`, or staying within its slice, shortens the wait for `w`. */
  lemma ChargeShortensWait(s: Sched, w: nat)
    requires Valid(s) && w < |s.tasks| && s.tasks[w].state.Runnable?
    requires s.current != w && s.tasks[s.current].state.Runnable?
    ensures var u := Settle(Charge(s));
            Valid(u) && |u.tasks| == |s.tasks| && 0 <= Wait(u, w) < Wait(s, w)
  {
    var t := Charge(s);
    ChargeEffect(s);
    NextRunnableFinds(t.tasks, t.current, |t.tasks|, w);
    SameStarts(s.tasks, t.tasks);
    AheadBound(s.tasks, s.current, w);
    var d := Advance(t).current;
    AheadSkips(s.tasks, s.current, d, w);
    if d != w {
      AheadBound(s.tasks, d, w);
    }
  }

  lemma SameStarts(t: seq<Task>, u: seq<Task>)
    requires |t| == |u| && forall k :: 0 <= k < |t| ==> t[k].slice == u[k].slice
    ensures forall k :: 0 <= k <= |t| ==> Start(t, k) == Start(u, k)
  {
    forall k | 0 <= k <= |t| ensures Start(t, k) == Start(u, k) {
      StartSame(t, u, k);
    }
  }

  /** Skipping blocked tasks does not lengthen the wait. */
  lemma ChosenIsCloser(s: Sched, w: nat) returns (u: Sched)
    requires Valid(s) && w < |s.tasks| && s.tasks[w].state.Runnable?
    ensures Valid(u) && u.tasks == s.tasks && u.tasks[u.current].state.Runnable? && u.current == Charged(s)
    ensures Tick(s) == Settle(Charge(u)) && (u.current != w ==> Wait(u, w) <= Wait(s, w))
  {
    u := Chosen(s.(total := s.total + 1));
    if !s.tasks[s.current].state.Runnable? {
      NextRunnableFinds(s.tasks, s.current, |s.tasks|, w);
      AheadSkips(s.tasks, s.current, Advance(s).current, w);
    }
  }

  /** A tick that charges another task brings `w` strictly closer to its turn. */
  lemma TickBringsCloser(s: Sched, w: nat)
    requires Valid(s) && w < |s.tasks| && s.tasks[w].state.Runnable? && Charged(s) != w
    ensures Valid(Tick(s)) && |Tick(s).tasks| == |s.tasks| && 0 <= Wait(Tick(s), w) < Wait(s, w)
  {
    var u := ChosenIsCloser(s, w);
    ChargeShortensWait(u, w);
  }

  /** How many ticks a run has. */
  function TickCount(es: seq<Event>): nat {
    if es == [] then 0 else (if es[0].TimerTick? then 1 else 0) + TickCount(es[1..])
  }

  /** Whoever blocks, wakes and registers tasks leaves `w` runnable at every tick of the run. */
  predicate RunnableAtTicks(s: Sched, es: seq<Event>, w: nat)
    requires Valid(s) && w < |s.tasks|
    decreases |es|
  {
    es != [] ==>
      && (es[0].TimerTick? ==> s.tasks[w].state.Runnable?)
      && (TasksStay(s, es[0]); RunnableAtTicks(Step(s, es[0]), es[1..], w))
  }

  /** Some tick of the run charges `w`. */
  predicate ChargedIn(s: Sched, es: seq<Event>, w: nat)
    requires Valid(s)
    decreases |es|
  {
    es != [] && ((es[0].TimerTick? && Charged(s) == w) || ChargedIn(Step(s, es[0]), es[1..], w))
  }

  lemma TasksStay(s: Sched, e: Event)
    requires Valid(s)
    ensures |s.tasks| <= |Step(s, e).tasks|
    ensures forall i :: 0 <= i < |s.tasks| ==> Step(s, e).tasks[i].slice == s.tasks[i].slice
  {
    if e.TimerTick? {
      TickEffect(s);
    }
  }

  lemma {:induction false} StartPrefix(t: seq<Task>, u: seq<Task>, i: nat)
    requires i <= |t| && t <= u
    ensures Start(t, i) == Start(u, i)
  {
    if i == 0 {
    } else {
      StartPrefix(t, u, i - 1);
    }
  }

  /** A registration lengthens the wait by the new slice, or not at all when `w` comes before it. */
  lemma NewTaskLengthensWait(s: Sched, x: Task, w: nat)
    requires Valid(s) && w < |s.tasks| < MAX_TASKS && x.slice >= 1
    ensures var t := s.(tasks := s.tasks + [x]);
            && Valid(t) && Period(t.tasks) == Period(s.tasks) + x.slice
            && Wait(t, w) == Wait(s, w) + if s.current > w then x.slice else 0
  {
    var u := s.tasks + [x];
    StartPrefix(s.tasks, u, |s.tasks|);
    StartPrefix(s.tasks, u, w);
    StartPrefix(s.tasks, u, s.current);
  }

  lemma StatesKeepWait(s: Sched, states: seq<TaskState>, w: nat)
    requires Valid(s) && w < |s.tasks| == |states|
    ensures var t := WithStates(s, states);
            Valid(t) && Period(t.tasks) == Period(s.tasks) && Wait(t, w) == Wait(s, w)
  {
    SameStarts(s.tasks, WithStates(s, states).tasks);
  }

  /** A tick takes one from the wait, unless it charges `w`, and a new task adds at most its slice. */
  lemma StepShortensWait(s: Sched, e: Event, w: nat)
    requires Valid(s) && w < |s.tasks|
    requires e.TimerTick? ==> s.tasks[w].state.Runnable? && Charged(s) != w
    ensures var t := Step(s, e);
            && w < |t.tasks|
            && Wait(t, w) + TickCount([e]) <= Wait(s, w) + Period(t.tasks) - Period(s.tasks)
  {
    TasksStay(s, e);
    match e {
      case TimerTick =>
        TickEffect(s);
        SameStarts(s.tasks, Tick(s).tasks);
        TickBringsCloser(s, w);
      case SetStates(states) =>
        if |states| == |s.tasks| {
          StatesKeepWait(s, states, w);
        }
      case NewTask(id, name, slice) =>
        if |s.tasks| < MAX_TASKS {
          NewTaskLengthensWait(s, Task(id, name, Runnable, 0, if slice == 0 then 1 else slice), w);
        }
    }
  }

  /**
   * However tasks block, wake and register between the ticks, a task kept runnable is charged before more
   * ticks have gone to others than its wait and the slices registered on the way.
   */
  lemma {:induction false} BoundedWaiting(s: Sched, es: seq<Event>, w: nat)
    requires Valid(s) && w < |s.tasks| && RunnableAtTicks(s, es, w)
    requires TickCount(es) > Wait(s, w) + Period(Run(s, es).tasks) - Period(s.tasks)
    ensures ChargedIn(s, es, w)
    decreases |es|
  {
    WaitBound(s, w);
    if es == [] {
    } else if es[0].TimerTick? && Charged(s) == w {
    } else {
      StepShortensWait(s, es[0], w);
      BoundedWaiting(Step(s, es[0]), es[1..], w);
    }
  }

  lemma WaitBound(s: Sched, w: nat)
    requires Valid(s) && w < |s.tasks|
    ensures 0 <= Wait(s, w) <= Period(s.tasks) - s.tasks[w].slice
  {
    if s.current != w {
      AheadBound(s.tasks, s.current, w);
    } else {
      StartMonotone(s.tasks, w + 1, |s.tasks|);
    }
  }

  /** The documented bound: the slices of all other tasks, counting those registered on the way, plus one. */
  lemma ChargedWithinOthersSlices(s: Sched, es: seq<Event>, w: nat)
    requires Valid(s) && w < |s.tasks| && RunnableAtTicks(s, es, w)
    requires TickCount(es) == Period(Run(s, es).tasks) - s.tasks[w].slice + 1
    ensures ChargedIn(s, es, w)
  {
    WaitBound(s, w);
    BoundedWaiting(s, es, w);
  }

  // ----- Conservation -----

  function Seen(tasks: seq<Task>): nat {
    if tasks == [] then 0 else Seen(tasks[..|tasks| - 1]) + tasks[|tasks| - 1].ticksSeen
  }

  /** Ticks of the run that found no runnable task. */
  function Idle(s: Sched, es: seq<Event>): nat
    requires Valid(s)
    decreases |es|
  {
    if es == [] then 0
    else (if es[0].TimerTick? && Charged(s) < 0 then 1 else 0) + Idle(Step(s, es[0]), es[1..])
  }

  lemma {:induction false} SeenSame(t: seq<Task>, u: seq<Task>)
    requires |t| == |u| && forall k :: 0 <= k < |t| ==> t[k].ticksSeen == u[k].ticksSeen
    ensures Seen(t) == Seen(u)
    decreases |t|
  {
    if t == [] {
    } else {
      SeenSame(t[..|t| - 1], u[..|u| - 1]);
    }
  }

  lemma {:induction false} SeenPlusOne(t: seq<Task>, u: seq<Task>, c: nat)
    requires |t| == |u| && c < |t|
    requires forall k :: 0 <= k < |t| ==> u[k].ticksSeen == t[k].ticksSeen + if k == c then 1 else 0
    ensures Seen(u) == Seen(t) + 1
    decreases |t|
  {
    if c == |t| - 1 {
      SeenSame(t[..|t| - 1], u[..|u| - 1]);
    } else {
      SeenPlusOne(t[..|t| - 1], u[..|u| - 1], c);
    }
  }

  /** No tick is lost or charged twice: what the total gains is what tasks gain plus the idle ticks. */
  lemma {:induction false} TicksAreConserved(s: Sched, es: seq<Event>)
    requires Valid(s)
    ensures Run(s, es).total - s.total == Seen(Run(s, es).tasks) - Seen(s.tasks) + Idle(s, es)
    decreases |es|
  {
    if es == [] {
    } else {
      var t := Step(s, es[0]);
      match es[0] {
        case TimerTick =>
          TickEffect(s);
          if Charged(s) >= 0 {
            SeenPlusOne(s.tasks, t.tasks, Charged(s));
          } else {
            SeenSame(s.tasks, t.tasks);
          }
        case SetStates(_) => SeenSame(s.tasks, t.tasks);
        case NewTask(_, _, _) =>
          if |s.tasks| < MAX_TASKS {
            assert t.tasks[..|t.tasks| - 1] == s.tasks;
          }
      }
      TicksAreConserved(t, es[1..]);
    }
  }
}
