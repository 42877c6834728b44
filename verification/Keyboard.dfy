/** keyboard.c: the ring, its indices and the shift state, updated by handler and reader. */
module Keyboards {
  import opened KeyboardModel

  class Keyboard {
    const layout: Layout
    const keybuf: array<char>
    var head: nat
    var tail: nat
    var shiftDown: bool
    /** Every scancode the handler has seen. */
    ghost var history: seq<Scancode>

    constructor ()
      ensures Valid() && Queued() == "" && !shiftDown && history == [] && layout == US() && fresh(keybuf)
    {
      keybuf := new char[128](_ => '\0');
      layout := US();
      head, tail, shiftDown, history := 0, 0, false, [];
    }

    predicate Shaped()
      reads this
    {
      keybuf.Length == 128 && head < 128 && tail < 128
    }

    ghost predicate Valid()
      reads this
    {
      Shaped() && shiftDown == ShiftAfter(history)
    }

    ghost function View(): Ring
      requires Shaped()
      reads this, keybuf
    {
      Ring(keybuf[..], head, tail)
    }

    ghost function Queued(): string
      requires Shaped()
      reads this, keybuf
    {
      Contents(View())
    }

    method BufferPush(c: char)
      requires Shaped()
      modifies this`head, keybuf
      ensures Shaped() && View() == Push(old(View()), c)
      ensures Queued() == Enqueue(old(Queued()), [c])
    {
      PushAppends(View(), c);
      var nextHead := (head + 1) % 128;
      if nextHead == tail {
        return;
      }
      keybuf[head] := c;
      head := nextHead;
    }

    /** The interrupt handler, given the scancode read from the data port. */
    method HandleInterrupt(scancode: Scancode)
      requires Valid()
      modifies this`head, this`shiftDown, this`history, keybuf
      ensures Valid() && history == old(history) + [scancode]
      ensures TypedBy(layout, history) == TypedBy(layout, old(history)) + Types(layout, old(history), scancode)
      ensures Queued() == Enqueue(old(Queued()), Types(layout, old(history), scancode))
      ensures var table := if ShiftHeld(old(history)) then layout.shifted else layout.plain;
              if scancode < 128 && scancode !in [0x2A, 0x36] && scancode < |table| && table[scancode] != '\0' &&
                 |old(Queued())| < 127
              then Queued() == old(Queued()) + [table[scancode]] else Queued() == old(Queued())
    {
      HistoryGrows(layout, history, scancode);
      TypesFromTable(layout, history, scancode);
      history := history + [scancode];
      var key := scancode % 128;
      var released := scancode >= 128;
      if key == 0x2A || key == 0x36 {
        shiftDown := !released;
        assert Types(layout, old(history), scancode) == "";
        return;
      }
      if !released {
        var c := Lookup(if shiftDown then layout.shifted else layout.plain, key);
        assert c == Translate(layout, scancode, shiftDown);
        if c != '\0' {
          BufferPush(c);
        }
      }
    }

    /** The oldest character, or -1. */
    method GetChar() returns (r: int)
      requires Valid()
      modifies this`tail
      ensures Valid()
      ensures if old(Queued()) == "" then r == -1 && Queued() == ""
              else r == old(Queued())[0] as int && Queued() == old(Queued())[1..]
    {
      if head == tail {
        return -1;
      }
      AdvanceDrops(View());
      var c := keybuf[tail];
      tail := (tail + 1) % 128;
      return c as int;
    }
  }
}
