/** The keyboard ring of keyboard.c under interrupts: the handler may run between any two reads of the reader. */
module KeyboardModel {

  /** One slot stays empty, so that a full ring differs from an empty one. */
  const CAPACITY := 127

  datatype RawRing = Ring(buf: seq<char>, head: nat, tail: nat)

  type Ring = r: RawRing | |r.buf| == 128 && r.head < 128 && r.tail < 128
    witness Ring(seq(128, _ => '\0'), 0, 0)

  /** The buffered characters, oldest first. */
  function Contents(r: Ring): (s: string)
    ensures |s| <= CAPACITY && (s == [] <==> r.head == r.tail)
  {
    if r.tail <= r.head then r.buf[r.tail..r.head] else r.buf[r.tail..] + r.buf[..r.head]
  }

  /** `keyboard_buffer_push`. */
  function Push(r: Ring, c: char): Ring {
    var next := (r.head + 1) % 128;
    if next == r.tail then r else r.(buf := r.buf[r.head := c], head := next)
  }

  /** The reader's last store. */
  function Advance(r: Ring): Ring {
    r.(tail := (r.tail + 1) % 128)
  }

  /** A push appends, unless 127 characters are waiting: then it changes nothing. */
  lemma PushAppends(r: Ring, c: char)
    ensures Contents(Push(r, c)) == if |Contents(r)| < CAPACITY then Contents(r) + [c] else Contents(r)
    ensures |Contents(r)| == CAPACITY <==> Push(r, c) == r
    ensures Push(r, c).tail == r.tail
  {
    var p := Push(r, c);
    if (r.head + 1) % 128 != r.tail {
      if r.tail <= r.head {
        assert p.buf[r.tail..r.head] == r.buf[r.tail..r.head];
      } else {
        assert p.buf[r.tail..] == r.buf[r.tail..] && p.buf[..r.head] == r.buf[..r.head];
      }
      assert p.head != r.head;
    }
  }

  /** Advancing the tail drops the oldest character. */
  lemma AdvanceDrops(r: Ring)
    requires Contents(r) != []
    ensures Contents(r) == [r.buf[r.tail]] + Contents(Advance(r))
  {
    if r.tail <= r.head {
      assert Advance(r).tail == r.tail + 1;
    } else if r.tail == 127 {
      assert Advance(r).tail == 0;
    } else {
      assert Advance(r).tail == r.tail + 1;
      assert r.buf[r.tail..] == [r.buf[r.tail]] + r.buf[r.tail + 1..];
    }
  }

  // ----- Interleavings -----

  /** Where `keyboard_getchar` stands: each read or write of a shared variable is one step. */
  datatype Pc =
    | Idle
    | HeadRead(h: nat)
    | NotEmpty
    | TailRead(t: nat)
    | CharRead(c: char)
    | TailReadAgain(c: char, t: nat)

  /** The ring, the reader, and what has happened: characters taken in and handed out. */
  datatype System = System(ring: Ring, pc: Pc, accepted: string, delivered: string)

  /** The handler runs to completion: interrupts stay off inside it. */
  function Interrupt(x: System, c: char): System {
    var r := Push(x.ring, c);
    x.(ring := r, accepted := if r == x.ring then x.accepted else x.accepted + [c])
  }

  /** The reader's next step. */
  function Step(x: System): System
    requires x.pc.TailRead? ==> x.pc.t < 128
  {
    match x.pc
    case Idle => x.(pc := HeadRead(x.ring.head))
    case HeadRead(h) => x.(pc := if h == x.ring.tail then Idle else NotEmpty)
    case NotEmpty => x.(pc := TailRead(x.ring.tail))
    case TailRead(t) => x.(pc := CharRead(x.ring.buf[t]))
    case CharRead(c) => x.(pc := TailReadAgain(c, x.ring.tail))
    case TailReadAgain(c, t) =>
      x.(pc := Idle, ring := x.ring.(tail := (t + 1) % 128), delivered := x.delivered + [c])
  }

  /** Nothing is lost, doubled or reordered, and what the reader holds is still the oldest character. */
  predicate Fifo(x: System) {
    && x.accepted == x.delivered + Contents(x.ring)
    && match x.pc
       case Idle => true
       case HeadRead(h) => h < 128 && (h != x.ring.tail ==> Contents(x.ring) != [])
       case NotEmpty => Contents(x.ring) != []
       case TailRead(t) => Contents(x.ring) != [] && t == x.ring.tail
       case CharRead(c) => Contents(x.ring) != [] && c == Contents(x.ring)[0]
       case TailReadAgain(c, t) => Contents(x.ring) != [] && c == Contents(x.ring)[0] && t == x.ring.tail
  }

  /** The character is taken in exactly when fewer than 127 are undelivered. */
  lemma InterruptKeepsFifo(x: System, c: char)
    requires Fifo(x)
    ensures Fifo(Interrupt(x, c))
    ensures Interrupt(x, c).accepted
            == if |x.accepted| - |x.delivered| < CAPACITY then x.accepted + [c] else x.accepted
    ensures Interrupt(x, c).delivered == x.delivered
  {
    PushAppends(x.ring, c);
    var s, r := Contents(x.ring), Contents(Interrupt(x, c).ring);
    assert s != [] ==> r != [] && r[0] == s[0];
    assert x.delivered + (s + [c]) == x.delivered + s + [c];
  }

  /** The reader's last store hands out the oldest character. */
  lemma StoreKeepsFifo(x: System)
    requires Fifo(x) && x.pc.TailReadAgain?
    ensures Fifo(Step(x)) && Step(x).accepted == x.accepted
    ensures Contents(x.ring) != [] && Step(x).delivered == x.delivered + [Contents(x.ring)[0]]
    ensures Contents(Step(x).ring) == Contents(x.ring)[1..]
  {
    AdvanceDrops(x.ring);
    assert Step(x).ring == Advance(x.ring);
    assert x.delivered + Contents(x.ring) == x.delivered + [x.pc.c] + Contents(Advance(x.ring));
  }

  /** Every other step of the reader only reads. */
  lemma ReadKeepsFifo(x: System)
    requires Fifo(x) && !x.pc.TailReadAgain?
    ensures Fifo(Step(x)) && Step(x).accepted == x.accepted && Step(x).delivered == x.delivered
    ensures Step(x).ring == x.ring
  {
    if x.pc.TailRead? || x.pc.CharRead? {
      AdvanceDrops(x.ring);
    }
  }

  lemma StepKeepsFifo(x: System)
    requires Fifo(x)
    ensures Fifo(Step(x)) && Step(x).accepted == x.accepted
  {
    if x.pc.TailReadAgain? {
      StoreKeepsFifo(x);
    } else {
      ReadKeepsFifo(x);
    }
  }

  /** An event is a typed character or a step of the reader. */
  datatype Event = Typed(c: char) | Reader

  function After(x: System, e: Event): System
    requires Fifo(x)
  {
    if e.Typed? then Interrupt(x, e.c) else Step(x)
  }

  lemma AfterKeepsFifo(x: System, e: Event)
    requires Fifo(x)
    ensures Fifo(After(x, e))
  {
    if e.Typed? {
      InterruptKeepsFifo(x, e.c);
    } else {
      StepKeepsFifo(x);
    }
  }

  function Run(x: System, es: seq<Event>): (y: System)
    requires Fifo(x)
    ensures Fifo(y)
    decreases |es|
  {
    if es == [] then x
    else
      AfterKeepsFifo(x, es[0]);
      Run(After(x, es[0]), es[1..])
  }

  const START := System(Ring(seq(128, _ => '\0'), 0, 0), Idle, "", "")

  /** The queue users have in mind: at most 127 characters, first in, first out. */
  datatype Queue = Queue(waiting: string, accepted: string, delivered: string)

  /** A typed character joins the queue if there is room; a delivery takes the first one. */
  function QueueEvent(q: Queue, e: Event, delivers: bool): Queue {
    if e.Typed? then
      if |q.waiting| < CAPACITY then q.(waiting := q.waiting + [e.c], accepted := q.accepted + [e.c]) else q
    else if delivers && q.waiting != [] then
      q.(waiting := q.waiting[1..], delivered := q.delivered + [q.waiting[0]])
    else q
  }

  function Abstract(x: System): Queue {
    Queue(Contents(x.ring), x.accepted, x.delivered)
  }

  /** Every event of every interleaving is a queue event; only the reader's last store delivers. */
  lemma EventRefinesQueue(x: System, e: Event)
    requires Fifo(x)
    ensures Abstract(After(x, e)) == QueueEvent(Abstract(x), e, x.pc.TailReadAgain?)
  {
    if e.Typed? {
      PushAppends(x.ring, e.c);
    } else if x.pc.TailReadAgain? {
      StoreKeepsFifo(x);
    } else {
      ReadKeepsFifo(x);
    }
  }

  /** The queue's view of a run: the same events, with the deliveries marked. */
  function QueueRun(x: System, es: seq<Event>, q: Queue): Queue
    requires Fifo(x)
    decreases |es|
  {
    if es == [] then q
    else
      AfterKeepsFifo(x, es[0]);
      QueueRun(After(x, es[0]), es[1..], QueueEvent(q, es[0], x.pc.TailReadAgain?))
  }

  /** So a whole run, interrupted anywhere, does to the ring what it does to the queue. */
  lemma {:induction false} RunRefinesQueue(x: System, es: seq<Event>)
    requires Fifo(x)
    ensures Abstract(Run(x, es)) == QueueRun(x, es, Abstract(x))
    decreases |es|
  {
    if es != [] {
      EventRefinesQueue(x, es[0]);
      AfterKeepsFifo(x, es[0]);
      RunRefinesQueue(After(x, es[0]), es[1..]);
    }
  }

  /** The handler moves neither the reader nor the tail. */
  lemma {:induction false} TypingLeavesReader(x: System, typed: seq<Event>)
    requires Fifo(x) && forall i :: 0 <= i < |typed| ==> typed[i].Typed?
    ensures Run(x, typed).pc == x.pc && Run(x, typed).ring.tail == x.ring.tail
    decreases |typed|
  {
    if typed != [] {
      AfterKeepsFifo(x, typed[0]);
      PushAppends(x.ring, typed[0].c);
      TypingLeavesReader(After(x, typed[0]), typed[1..]);
    }
  }

  /**
   * After any run that leaves the reader idle, let it go on: it reads the head, the handler may fire any number
   * of times, and it compares with the tail: it answers -1 exactly if the ring was empty when it read the head.
   */
  lemma EmptyAnswerIsTrue(before: seq<Event>, typed: seq<Event>)
    requires Run(START, before).pc.Idle?
    requires forall i :: 0 <= i < |typed| ==> typed[i].Typed?
    ensures var x, y := Run(START, before), Run(Run(START, before), [Reader] + typed);
            y.pc.HeadRead? && (Step(y).pc.Idle? <==> Contents(x.ring) == "")
  {
    var x := Run(START, before);
    StepKeepsFifo(x);
    assert ([Reader] + typed)[1..] == typed;
    TypingLeavesReader(Step(x), typed);
  }

  /** From an empty keyboard on, whatever the interleaving: what came in is what went out and what still waits. */
  lemma NothingLostOrDoubled(es: seq<Event>)
    ensures var x := Run(START, es); x.accepted == x.delivered + Contents(x.ring)
  {
    assert Fifo(Run(START, es));
  }

  // ----- Scancodes -----

  /** The characters of the make codes, without and with shift; keys beyond the tables type nothing. */
  datatype Layout = Layout(plain: string, shifted: string)

  /** The US layout, row by row of the keyboard. */
  function US(): Layout {
    Layout(PlainRow(0) + PlainRow(1) + PlainRow(2) + PlainRow(3),
           ShiftedRow(0) + ShiftedRow(1) + ShiftedRow(2) + ShiftedRow(3))
  }

  function PlainRow(k: nat): string {
    if k == 0 then "\0\U{1b}1234567890-=\U{8}"
    else if k == 1 then "\tqwertyuiop[]\n\0"
    else if k == 2 then "asdfghjkl;'`\0\\"
    else "zxcvbnm,./\0*\0 "
  }

  function ShiftedRow(k: nat): string {
    if k == 0 then "\0\U{1b}!@#$%^&*()_+\U{8}"
    else if k == 1 then "\tQWERTYUIOP{}\n\0"
    else if k == 2 then "ASDFGHJKL:\"~\0|"
    else "ZXCVBNM<>?\0*\0 "
  }

  type Scancode = n: int | 0 <= n < 256

  function Lookup(table: string, key: nat): char {
    if key < |table| then table[key] else '\0'
  }

  function IsShift(s: Scancode): bool {
    s % 128 == 0x2A || s % 128 == 0x36
  }

  /** The character a scancode produces under a shift state, or NUL. */
  function Translate(l: Layout, s: Scancode, shift: bool): char {
    if IsShift(s) || s >= 128 then '\0' else Lookup(if shift then l.shifted else l.plain, s)
  }

  /** Shift is down exactly when the last shift scancode was a press. */
  function ShiftAfter(ss: seq<Scancode>): bool {
    if ss == [] then false
    else if IsShift(ss[|ss| - 1]) then ss[|ss| - 1] < 128
    else ShiftAfter(ss[..|ss| - 1])
  }

  /** A shift key was pressed, and no shift key was pressed or released since. */
  predicate ShiftHeld(ss: seq<Scancode>) {
    exists i :: 0 <= i < |ss| && ss[i] in [0x2A, 0x36]
                && forall j :: i < j < |ss| ==> ss[j] !in [0x2A, 0x36, 0xAA, 0xB6]
  }

  lemma {:induction false} ShiftAfterIsHeld(ss: seq<Scancode>)
    ensures ShiftAfter(ss) <==> ShiftHeld(ss)
    decreases |ss|
  {
    if ss != [] {
      var front, last := ss[..|ss| - 1], ss[|ss| - 1];
      ShiftAfterIsHeld(front);
      if IsShift(last) {
        assert last in [0x2A, 0x36, 0xAA, 0xB6];
      } else if ShiftHeld(front) {
        var i :| 0 <= i < |front| && front[i] in [0x2A, 0x36]
                 && forall j :: i < j < |front| ==> front[j] !in [0x2A, 0x36, 0xAA, 0xB6];
        assert ss[i] == front[i] && forall j :: i < j < |ss| ==> ss[j] !in [0x2A, 0x36, 0xAA, 0xB6];
      }
    }
  }

  /** What one more scancode types after a history. */
  function Types(l: Layout, ss: seq<Scancode>, s: Scancode): string {
    var c := Translate(l, s, ShiftAfter(ss));
    if c == '\0' then "" else [c]
  }

  /**
   * A release, a shift key and a key beyond the table type nothing; any other key types its place in the plain table,
   * or in the shifted one while a shift key is held, unless that is NUL.
   */
  lemma TypesFromTable(l: Layout, ss: seq<Scancode>, s: Scancode)
    ensures s >= 128 || s in [0x2A, 0x36] ==> Types(l, ss, s) == ""
    ensures var table := if ShiftHeld(ss) then l.shifted else l.plain;
            s < 128 && s !in [0x2A, 0x36] ==>
              Types(l, ss, s) == if s < |table| && table[s] != '\0' then [table[s]] else ""
  {
    ShiftAfterIsHeld(ss);
  }

  /** The key A alone, and behind a pressed shift key. */
  lemma KeyA()
    ensures Types(US(), [], 0x1E) == "a" && Types(US(), [0x2A], 0x1E) == "A" && Types(US(), [0x2A, 0xAA], 0x1E) == "a"
  {
    KeyInRow(2, 0);
    assert [0x2A, 0xAA][..1] == [0x2A] && [0x2A][..0] == [];
  }

  /** Make code of the first key of a row. */
  function RowStart(k: nat): nat {
    if k == 0 then 0 else if k == 1 then 15 else if k == 2 then 30 else 44
  }

  lemma RowLengths()
    ensures |PlainRow(0)| == |ShiftedRow(0)| == |PlainRow(1)| == |ShiftedRow(1)| == 15
    ensures |PlainRow(2)| == |ShiftedRow(2)| == |PlainRow(3)| == |ShiftedRow(3)| == 14
  {
  }

  lemma InRows(a: string, b: string, c: string, d: string, i: nat)
    requires |a| == |b| == 15 && |c| == |d| == 14
    ensures i < 15 ==> (a + b + c + d)[i] == a[i] && (a + b + c + d)[15 + i] == b[i]
    ensures i < 14 ==> (a + b + c + d)[30 + i] == c[i] && (a + b + c + d)[44 + i] == d[i]
  {
  }

  lemma KeyInRow(k: nat, i: nat)
    requires k < 4 && i < |PlainRow(k)|
    ensures |PlainRow(k)| == |ShiftedRow(k)| && |US().plain| == |US().shifted| == 58 && RowStart(k) + i < 58
    ensures US().plain[RowStart(k) + i] == PlainRow(k)[i] && US().shifted[RowStart(k) + i] == ShiftedRow(k)[i]
  {
    RowLengths();
    var a, b, c, d := PlainRow(0), PlainRow(1), PlainRow(2), PlainRow(3);
    InRows(a, b, c, d, i);
    var e, f, g, h := ShiftedRow(0), ShiftedRow(1), ShiftedRow(2), ShiftedRow(3);
    InRows(e, f, g, h, i);
  }

  /** Letters and capitals go together, 32 apart. */
  predicate Capital(c: char, d: char) {
    ('a' <= c <= 'z' <==> 'A' <= d <= 'Z') && ('a' <= c <= 'z' ==> d as int == c as int - 32)
  }

  /** On the US layout shift turns each letter into its capital. */
  lemma ShiftCapitalises(k: nat, i: nat)
    requires k < 4 && i < |PlainRow(k)|
    ensures RowStart(k) + i < |US().plain| == |US().shifted|
    ensures Capital(US().plain[RowStart(k) + i], US().shifted[RowStart(k) + i])
  {
    KeyInRow(k, i);
    RowCapitalises(k, i);
  }

  lemma RowCapitalises(k: nat, i: nat)
    requires k < 4 && i < |PlainRow(k)| == |ShiftedRow(k)|
    ensures Capital(PlainRow(k)[i], ShiftedRow(k)[i])
  {
    if k == 0 {
      FirstRow(i);
    } else if k == 1 {
      SecondRow(i);
    } else if k == 2 {
      ThirdRow(i);
    } else {
      FourthRow(i);
    }
  }

  lemma FirstRow(i: nat)
    requires i < |PlainRow(0)| == |ShiftedRow(0)|
    ensures Capital(PlainRow(0)[i], ShiftedRow(0)[i])
  {
  }

  lemma SecondRow(i: nat)
    requires i < |PlainRow(1)| == |ShiftedRow(1)|
    ensures Capital(PlainRow(1)[i], ShiftedRow(1)[i])
  {
  }

  lemma ThirdRow(i: nat)
    requires i < |PlainRow(2)| == |ShiftedRow(2)|
    ensures Capital(PlainRow(2)[i], ShiftedRow(2)[i])
  {
  }

  lemma FourthRow(i: nat)
    requires i < |PlainRow(3)| == |ShiftedRow(3)|
    ensures Capital(PlainRow(3)[i], ShiftedRow(3)[i])
  {
  }

  /** The characters typed by a sequence of scancodes. */
  function TypedBy(l: Layout, ss: seq<Scancode>): string {
    if ss == [] then "" else TypedBy(l, ss[..|ss| - 1]) + Types(l, ss[..|ss| - 1], ss[|ss| - 1])
  }

  lemma HistoryGrows(l: Layout, ss: seq<Scancode>, s: Scancode)
    ensures TypedBy(l, ss + [s]) == TypedBy(l, ss) + Types(l, ss, s)
    ensures ShiftAfter(ss + [s]) == if IsShift(s) then s < 128 else ShiftAfter(ss)
  {
    assert (ss + [s])[..|ss|] == ss;
  }

  /** The queue after a scancode: what it types joins while there is room. */
  function Enqueue(q: string, typed: string): string {
    if typed == "" || |q| >= CAPACITY then q else q + typed
  }
}
