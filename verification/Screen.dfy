/** vga.c: the cell buffer at 0xB8000 and the software cursor. */
module Screens {
  import opened CTypes
  import opened TextPage

  class Screen {
    const buffer: array<Cell>
    var cursorRow: int
    var cursorCol: int
    var color: byte
    /** Everything written since the last clear. */
    ghost var page: Page

    ghost predicate Sized()
      reads this
    {
      buffer.Length == 2000 && 0 <= cursorRow < 25 && 0 <= cursorCol < 80
    }

    /** The buffer, cursor and colour are those of the page. */
    ghost predicate Valid()
      reads this, buffer
    {
      && Sized()
      && buffer[..] == Window(page) && color == page.color
      && page.row == page.rows - 25 + cursorRow && page.col == cursorCol
    }

    /** `vga_init` over the memory found at boot. */
    constructor (memory: array<Cell>)
      requires memory.Length == 2000
      modifies memory
      ensures Valid() && buffer == memory && page == Cleared(7)
    {
      buffer := memory;
      cursorRow, cursorCol, color := 0, 0, 7;
      new;
      SetColor(7, 0);
      Clear();
    }

    method SetColor(foreground: byte, background: byte)
      modifies this`color, this`page
      ensures color == background % 16 * 16 + foreground % 16 && page == old(page).(color := color)
    {
      HighHalf(background);
      color := background * 16 % 256 + foreground % 16;
      page := page.(color := color);
    }

    method Clear()
      requires Sized()
      modifies this`cursorRow, this`cursorCol, this`page, buffer
      ensures Valid() && page == Cleared(color)
      ensures cursorRow == 0 && cursorCol == 0 && forall k :: 0 <= k < 2000 ==> CellIs(buffer[k], 32, color)
    {
      for i := 0 to 80 * 25
        invariant forall k :: 0 <= k < i ==> buffer[k] == MakeCell(SPACE, color)
      {
        buffer[i] := MakeCell(SPACE, color);
      }
      cursorRow, cursorCol := 0, 0;
      page := Cleared(color);
    }

    method Scroll()
      requires buffer.Length == 2000
      modifies this`cursorRow, buffer
      ensures cursorRow == 24
      ensures buffer[..] == old(buffer[..])[80..] + Spaces(80, color)
      ensures forall k :: 1920 <= k < 2000 ==> CellIs(buffer[k], 32, color)
    {
      for row := 1 to 25
        invariant forall i :: 0 <= i < (row - 1) * 80 ==> buffer[i] == old(buffer[i + 80])
        invariant forall i :: (row - 1) * 80 <= i < 2000 ==> buffer[i] == old(buffer[i])
      {
        for col := 0 to 80
          invariant forall i :: 0 <= i < (row - 1) * 80 + col ==> buffer[i] == old(buffer[i + 80])
          invariant forall i :: (row - 1) * 80 + col <= i < 2000 ==> buffer[i] == old(buffer[i])
        {
          buffer[(row - 1) * 80 + col] := buffer[row * 80 + col];
        }
      }
      for col := 0 to 80
        invariant forall i :: 0 <= i < 1920 ==> buffer[i] == old(buffer[i + 80])
        invariant forall i :: 1920 <= i < 1920 + col ==> buffer[i] == MakeCell(SPACE, color)
      {
        buffer[24 * 80 + col] := MakeCell(SPACE, color);
      }
      cursorRow := 24;
    }

    /** Stores a character where the cursor is, on the screen and on the page. */
    method PutCell(c: byte)
      requires Valid()
      modifies this`page, buffer
      ensures Valid() && page == Put(old(page), c)
    {
      buffer[cursorRow * 80 + cursorCol] := MakeCell(c, color);
      page := Put(page, c);
    }

    /** To the start of the next row, scrolling behind the last one. */
    method NewLine()
      requires Valid()
      modifies this`cursorRow, this`cursorCol, this`page, buffer
      ensures Valid() && page == NextRow(old(page))
    {
      WindowOfNextRow(page);
      cursorCol := 0;
      cursorRow := cursorRow + 1;
      page := NextRow(page);
      if cursorRow >= 25 {
        Scroll();
      }
    }

    method PutChar(c: byte)
      requires Valid()
      modifies this`cursorRow, this`cursorCol, this`page, buffer
      ensures Valid() && page == Write(old(page), c)
      ensures Effect(old(buffer[..]), old(cursorRow), old(cursorCol), buffer[..], cursorRow, cursorCol, c, color)
    {
      WriteEffect(page, c);
      if c == '\n' as int {
        NewLine();
      } else if c == '\r' as int {
        cursorCol := 0;
        page := page.(col := 0);
      } else if c == 8 {
        if cursorCol > 0 {
          cursorCol := cursorCol - 1;
          page := page.(col := page.col - 1);
          PutCell(SPACE);
        }
      } else {
        PutCell(c);
        if cursorCol + 1 >= 80 {
          NewLine();
        } else {
          cursorCol := cursorCol + 1;
          page := page.(col := page.col + 1);
        }
      }
    }

    /** `vga_set_cursor`: positions off the screen are moved to its edge. */
    method SetCursor(row: int, col: int)
      requires Valid()
      modifies this`cursorRow, this`cursorCol, this`page
      ensures Valid()
      ensures page == old(page).(row := page.rows - 25 + cursorRow, col := cursorCol)
      ensures 0 <= row < 25 ==> cursorRow == row
      ensures row < 0 ==> cursorRow == 0
      ensures row >= 25 ==> cursorRow == 24
      ensures 0 <= col < 80 ==> cursorCol == col
      ensures col < 0 ==> cursorCol == 0
      ensures col >= 80 ==> cursorCol == 79
    {
      var r, c := row, col;
      if r < 0 { r := 0; }
      if r >= 25 { r := 24; }
      if c < 0 { c := 0; }
      if c >= 80 { c := 79; }
      cursorRow := r;
      cursorCol := c;
      page := page.(row := page.rows - 25 + r, col := c);
    }

    /** `kputs`: the screen ends up showing the last 25 rows of the page with the whole text on it. */
    method PutString(text: CString)
      requires Valid()
      modifies this`cursorRow, this`cursorCol, this`page, buffer
      ensures Valid() && page == WriteAll(old(page), text)
      ensures buffer[..] == Window(WriteAll(old(page), text))
    {
      var i := 0;
      while At(text, i) != 0
        invariant 0 <= i <= |text| && Valid() && page == WriteAll(old(page), text[..i])
        decreases |text| - i
      {
        assert text[..i + 1][..i] == text[..i];
        PutChar(text[i]);
        i := i + 1;
      }
      assert text[..|text|] == text;
    }
  }

  /** Shifting a byte left by four keeps its low half. */
  lemma HighHalf(b: byte)
    ensures b * 16 % 256 == b % 16 * 16
  {
    var q, r := b / 16, b % 16;
    assert b * 16 == 256 * q + 16 * r;
  }
}
