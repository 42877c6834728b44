/** log.c: the ring that keeps the last 64 messages. */
module LogRing {
  import opened CTypes
  import opened LogText
  import opened Loggers

  const SLOTS := 64
  const MESSAGE_SIZE := 128

  datatype LogEntry = LogEntry(tick: uint64, level: nat, message: CString)

  /** What an entry has room for. */
  function Truncated(message: CString): (r: CString)
    ensures r <= message && |r| == if |message| < 127 then |message| else 127
  {
    if |message| < MESSAGE_SIZE - 1 then message else Sub(message, 0, MESSAGE_SIZE - 1)
  }

  /** How many of the entries written are still there. */
  function Stored(history: seq<LogEntry>): nat {
    if |history| < 64 then |history| else 64
  }

  function LastEntries(history: seq<LogEntry>): (s: seq<LogEntry>)
    ensures |s| == Stored(history)
  {
    history[|history| - Stored(history)..]
  }

  /** Entry `j` of the history is in slot `j % 64` while it is among the last 64. */
  predicate Rings(slots: seq<LogEntry>, history: seq<LogEntry>) {
    |slots| == 64 && forall j :: |history| - Stored(history) <= j < |history| ==> slots[j % 64] == history[j]
  }

  lemma RingsOneMore(slots: seq<LogEntry>, history: seq<LogEntry>, e: LogEntry)
    requires Rings(slots, history)
    ensures Rings(slots[|history| % 64 := e], history + [e])
  {
    var n := |history|;
    forall j | n + 1 - Stored(history + [e]) <= j < n + 1
      ensures slots[n % 64 := e][j % 64] == (history + [e])[j]
    {
      if j < n {
        assert n - j < 64 && j % 64 != n % 64;
      }
    }
  }

  /** A terminated buffer holds the string before its terminator. */
  lemma {:induction false} TerminatedBefore(b: seq<byte>, k: nat)
    requires k < |b| && b[k] == 0
    ensures Terminated(b) == Terminated(b[..k])
    decreases k
  {
    if k > 0 && b[0] != 0 {
      TerminatedBefore(b[1..], k - 1);
      assert b[1..][..k - 1] == b[..k][1..];
    }
  }

  class Log {
    const slots: array<LogEntry>
    var head: nat
    var count: nat
    var total: uint32
    var dropped: uint32
    var minimumLevel: nat
    /** Every entry since `log_init`. */
    ghost var history: seq<LogEntry>

    ghost predicate Valid()
      reads this, slots
    {
      && Rings(slots[..], history) && count == Stored(history) && head == |history| % 64
      && total == |history| % 0x1_0000_0000 && dropped == (|history| - count) % 0x1_0000_0000
    }

    constructor ()
      ensures Valid() && history == [] && minimumLevel == 2 && fresh(slots)
    {
      slots := new LogEntry[64](_ => LogEntry(0, 0, []));
      head, count, total, dropped, minimumLevel, history := 0, 0, 0, 0, 2, [];
    }

    /** The copy loop: at most 127 characters of the message. */
    static method CopyMessage(message: CString) returns (copy: CString)
      ensures copy == Truncated(message)
    {
      copy := [];
      var i := 0;
      while i < MESSAGE_SIZE - 1 && At(message, i) != 0
        invariant 0 <= i <= |message| && i < MESSAGE_SIZE && copy == message[..i]
      {
        copy := Append(copy, [message[i]]);
        i := i + 1;
      }
    }

    method StoreEntry(level: nat, message: CString, tick: uint64)
      requires Valid()
      modifies this`head, this`count, this`total, this`dropped, this`history, slots
      ensures Valid() && history == old(history) + [LogEntry(tick, level, Truncated(message))]
    {
      var copy := CopyMessage(message);
      ghost var e := LogEntry(tick, level, copy);
      RingsOneMore(slots[..], history, e);
      Wrapped(|history|, 64);
      Wrapped(|history|, 0x1_0000_0000);
      Wrapped(|history| - count, 0x1_0000_0000);
      if count < SLOTS {
        count := count + 1;
      } else {
        dropped := U32(dropped + 1);
      }
      slots[head] := LogEntry(tick, level, copy);
      head := (head + 1) % SLOTS;
      total := U32(total + 1);
      history := history + [e];
    }

    /** `log_write`, without the echo to the console. */
    method Write(level: nat, message: CString, tick: uint64)
      requires Valid()
      modifies this`head, this`count, this`total, this`dropped, this`history, slots
      ensures Valid()
      ensures history == if level < minimumLevel then old(history)
                         else old(history) + [LogEntry(tick, level, Truncated(message))]
    {
      if level < minimumLevel {
        return;
      }
      StoreEntry(level, message, tick);
    }

    /** `log_writef`: the entry reads the formatted text, cut at 127 characters and at a zero character. */
    method WriteFormatted(level: nat, fmt: CString, args: seq<Arg>, tick: uint64)
      requires Valid() && Takes(fmt, 0, args)
      modifies this`head, this`count, this`total, this`dropped, this`history, slots
      ensures Valid()
      ensures history == if level < minimumLevel then old(history)
                         else old(history) + [LogEntry(tick, level, Message(Formatted(fmt, 0, args)))]
    {
      var buffer := new byte[MESSAGE_SIZE](_ => 0);
      FormatMessage(buffer, MESSAGE_SIZE, fmt, args);
      ghost var text := Formatted(fmt, 0, args);
      TerminatedBefore(buffer[..], Kept(text, MESSAGE_SIZE));
      assert Terminated(buffer[..]) == Message(text);
      Write(level, Terminated(buffer[..]), tick);
    }

    /** The oldest entries first, as many as there is room for. */
    method CopyEntries(out: array?<LogEntry>, max: nat) returns (copied: nat)
      requires Valid() && (out != null ==> max <= out.Length && out != slots)
      modifies out
      ensures Valid() && history == old(history)
      ensures copied == if out == null then 0 else if Stored(history) < max then Stored(history) else max
      ensures out != null ==> out[..copied] == LastEntries(history)[..copied]
    {
      copied := 0;
      if out == null || max == 0 || count == 0 {
        return;
      }
      var start := (head + SLOTS - count) % SLOTS;
      forall i | 0 <= i < count ensures slots[(start + i) % SLOTS] == LastEntries(history)[i] {
        SlotRead(slots[..], history, start, i);
      }
      copied := CopyFrom(slots, out, start, max, LastEntries(history), count);
    }

    /** The loop of `log_copy_entries`. */
    static method CopyFrom(slots: array<LogEntry>, out: array<LogEntry>, start: nat, max: nat,
                           ghost last: seq<LogEntry>, count: nat)
      returns (copied: nat)
      requires slots.Length == 64 && slots != out && max <= out.Length && count == |last|
      requires forall i :: 0 <= i < count ==> slots[(start + i) % SLOTS] == last[i]
      modifies out
      ensures copied == if count < max then count else max
      ensures out[..copied] == last[..copied]
    {
      copied := 0;
      while copied < count && copied < max
        invariant copied <= count && copied <= max
        invariant out[..copied] == last[..copied]
      {
        out[copied] := slots[(start + copied) % SLOTS];
        copied := copied + 1;
      }
    }
  }

  /** The message kept of a text. */
  function Message(text: seq<byte>): CString {
    Terminated(text[..Kept(text, MESSAGE_SIZE)])
  }

  lemma Wrapped(n: nat, m: nat)
    requires m == 64 || m == 0x1_0000_0000
    ensures (n % m + 1) % m == (n + 1) % m
  {
  }

  lemma SlotOf(n: nat, i: nat)
    requires n >= 64 && i < 64
    ensures ((n % 64 + 64 - 64) % 64 + i) % 64 == (n - 64 + i) % 64
  {
    var q, r := n / 64, n % 64;
    assert n - 64 + i == 64 * (q - 1) + (r + i);
    if r + i >= 64 {
      assert n - 64 + i == 64 * q + (r + i - 64);
    }
  }

  /** The slot read for place `i` of the copy. */
  lemma StartOf(n: nat, count: nat, i: nat)
    requires count == (if n < 64 then n else 64) && i < count
    ensures ((n % 64 + 64 - count) % 64 + i) % 64 == (n - count + i) % 64
  {
    if n >= 64 {
      SlotOf(n, i);
    }
  }

  lemma SlotRead(slots: seq<LogEntry>, history: seq<LogEntry>, start: nat, i: nat)
    requires Rings(slots, history) && i < Stored(history)
    requires start == (|history| % 64 + 64 - Stored(history)) % 64
    ensures slots[(start + i) % 64] == LastEntries(history)[i]
  {
    StartOf(|history|, Stored(history), i);
    assert LastEntries(history)[i] == history[|history| - Stored(history) + i];
  }
}
