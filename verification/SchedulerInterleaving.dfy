/**
 * Registration against the timer interrupt: `scheduler_register_task` fills the slot behind the
 * registered tasks and publishes it last, and a tick may fire between any two of its stores.
 */
module SchedulerInterleaving {
  import opened SchedulerModel
  import opened SchedulerTheorems

  /** The scheduler's memory: all eight slots, also the ones behind `count`. */
  datatype Mem = Mem(raw: seq<Task>, count: nat, current: nat, progress: nat, total: nat, nextId: nat)

  /** What the tick handler can see. */
  function View(m: Mem): Sched
    requires m.count <= |m.raw|
  {
    Sched(m.raw[..m.count], m.current, m.progress, m.total)
  }

  /** The memory and the registering code: its arguments, the id it takes, and its next store. */
  datatype State = State(mem: Mem, pc: nat, id: nat, name: string, slice: nat)

  const PUBLISHED := 8
  const REFUSED := 9

  /** The slot being filled holds what the stores so far have put there. */
  predicate Prepared(x: State) {
    var m := x.mem;
    && x.pc <= REFUSED && |m.raw| == MAX_TASKS && m.count <= MAX_TASKS && Valid(View(m))
    && (x.pc <= 2 ==> m.nextId == x.id)
    && (x.pc == REFUSED ==> m.count == MAX_TASKS)
    && (1 <= x.pc < PUBLISHED ==>
          && m.count < MAX_TASKS
          && var t := m.raw[m.count];
          && (2 <= x.pc ==> t.id == x.id) && (4 <= x.pc ==> t.name == x.name) && (5 <= x.pc ==> t.state.Runnable?)
          && (6 <= x.pc ==> t.ticksSeen == 0) && (7 <= x.pc ==> t.slice == if x.slice == 0 then 1 else x.slice))
  }

  type Machine = x: State | Prepared(x)
    witness State(Mem(seq(8, _ => Task(0, "", Unused, 0, 0)), 0, 0, 0, 0, 1), 0, 1, "", 0)

  function Seen(x: Machine): (s: Sched)
    ensures Valid(s)
  {
    View(x.mem)
  }

  /** The timer interrupt: the handler writes the registered slots and the counters. */
  function TickAct(x: Machine): (y: Machine)
    ensures y.pc == x.pc && Seen(y) == Tick(Seen(x))
    ensures y.id == x.id && y.name == x.name && y.slice == x.slice
  {
    TickEffect(Seen(x));
    var s, m := Tick(Seen(x)), x.mem;
    var n := m.(raw := s.tasks + m.raw[m.count..], current := s.current, progress := s.progress, total := s.total);
    assert n.raw[..n.count] == s.tasks;
    x.(mem := n)
  }

  /** The next store of `scheduler_register_task`; the last one publishes the slot. */
  function StoreAct(x: Machine): (y: Machine)
    ensures Seen(y) == if x.pc == 7 then Register(Seen(x), x.id, x.name, x.slice) else Seen(x)
    ensures y.pc == PUBLISHED <==> x.pc == 7 || x.pc == PUBLISHED
    ensures y.id == x.id && y.name == x.name && y.slice == x.slice
  {
    var y := Stored(x);
    assert x.pc == 7 ==> y.mem.raw[..y.mem.count] == x.mem.raw[..x.mem.count] + [x.mem.raw[x.mem.count]];
    assert x.pc != 7 ==> y.mem.raw[..y.mem.count] == x.mem.raw[..x.mem.count];
    y
  }

  function Stored(x: Machine): State {
    var m := x.mem;
    match x.pc
    case 0 => x.(pc := if m.count >= MAX_TASKS then REFUSED else 1)
    case 1 => x.(pc := 2, mem := m.(raw := m.raw[m.count := m.raw[m.count].(id := m.nextId)]))
    case 2 => x.(pc := 3, mem := m.(nextId := m.nextId + 1))
    case 3 => x.(pc := 4, mem := m.(raw := m.raw[m.count := m.raw[m.count].(name := x.name)]))
    case 4 => x.(pc := 5, mem := m.(raw := m.raw[m.count := m.raw[m.count].(state := Runnable)]))
    case 5 => x.(pc := 6, mem := m.(raw := m.raw[m.count := m.raw[m.count].(ticksSeen := 0)]))
    case 6 =>
      x.(pc := 7, mem := m.(raw := m.raw[m.count := m.raw[m.count].(slice := if x.slice == 0 then 1 else x.slice)]))
    case 7 => x.(pc := PUBLISHED, mem := m.(count := m.count + 1))
    case _ => x
  }

  /** An interleaving: `true` is a timer tick, `false` the next store of the registration. */
  function Play(x: Machine, acts: seq<bool>): Machine
    decreases |acts|
  {
    if acts == [] then x else Play(if acts[0] then TickAct(x) else StoreAct(x), acts[1..])
  }

  /** The same interleaving with a registration that happens in one step, at the publishing store. */
  function PlayAtomically(s: Sched, pc: nat, acts: seq<bool>, x: Machine): (r: Sched)
    requires Valid(s)
    ensures Valid(r)
    decreases |acts|
  {
    if acts == [] then s
    else if acts[0] then
      TickEffect(s);
      PlayAtomically(Tick(s), pc, acts[1..], x)
    else
      RegisterKeepsValid(s, x.id, x.name, x.slice);
      PlayAtomically(if pc == 7 then Register(s, x.id, x.name, x.slice) else s, NextPc(s, pc), acts[1..], x)
  }

  function NextPc(s: Sched, pc: nat): nat {
    if pc == 0 then (if |s.tasks| >= MAX_TASKS then REFUSED else 1) else if pc < PUBLISHED then pc + 1 else pc
  }

  lemma StorePc(x: Machine)
    ensures StoreAct(x).pc == NextPc(Seen(x), x.pc)
  {
  }

  lemma TickFirst(x: Machine, y: Machine, acts: seq<bool>)
    requires acts != [] && acts[0] && y == TickAct(x)
    requires Seen(Play(y, acts[1..])) == PlayAtomically(Seen(y), y.pc, acts[1..], x)
    ensures Seen(Play(x, acts)) == PlayAtomically(Seen(x), x.pc, acts, x)
  {
  }

  lemma StoreFirst(x: Machine, y: Machine, acts: seq<bool>)
    requires acts != [] && !acts[0] && y == StoreAct(x) && y.pc == NextPc(Seen(x), x.pc)
    requires Seen(Play(y, acts[1..])) == PlayAtomically(Seen(y), y.pc, acts[1..], x)
    ensures Seen(Play(x, acts)) == PlayAtomically(Seen(x), x.pc, acts, x)
  {
  }

  /**
   * Wherever the ticks fire, the tick handler never sees a half-registered task: the scheduler's state
   * is the one an atomic registration at the publishing store would give.
   */
  lemma {:induction false} RegistrationIsAtomic(x: Machine, acts: seq<bool>)
    ensures Seen(Play(x, acts)) == PlayAtomically(Seen(x), x.pc, acts, x)
    decreases |acts|
  {
    if acts == [] {
    } else {
      var y := if acts[0] then TickAct(x) else StoreAct(x);
      RegistrationIsAtomic(y, acts[1..]);
      SameArguments(Seen(y), y.pc, acts[1..], x, y);
      if acts[0] {
        TickFirst(x, y, acts);
      } else {
        StorePc(x);
        StoreFirst(x, y, acts);
      }
    }
  }

  lemma {:induction false} SameArguments(s: Sched, pc: nat, acts: seq<bool>, x: Machine, y: Machine)
    requires Valid(s) && y.id == x.id && y.name == x.name && y.slice == x.slice
    ensures PlayAtomically(s, pc, acts, x) == PlayAtomically(s, pc, acts, y)
    decreases |acts|
  {
    if acts == [] {
    } else if acts[0] {
      TickEffect(s);
      SameArguments(Tick(s), pc, acts[1..], x, y);
    } else {
      RegisterKeepsValid(s, x.id, x.name, x.slice);
      SameArguments(if pc == 7 then Register(s, x.id, x.name, x.slice) else s, NextPc(s, pc), acts[1..], x, y);
    }
  }
}
