/** What vga.c shows: the last 25 rows of an unbounded page, 80 columns wide. */
module TextPage {
  import opened CTypes

  /** A character in the low byte, its colours in the high byte. */
  type Cell = uint16

  /** The cell shows the character in the colours. */
  predicate CellIs(cell: Cell, c: byte, color: byte) {
    cell % 256 == c && cell / 256 == color
  }

  function MakeCell(c: byte, color: byte): (cell: Cell)
    ensures CellIs(cell, c, color)
  {
    c + 256 * color
  }

  const SPACE: byte := 32

  function Spaces(n: nat, color: byte): (s: seq<Cell>)
    ensures |s| == n && forall i :: 0 <= i < n ==> s[i] == MakeCell(SPACE, color)
  {
    seq(n, _ => MakeCell(SPACE, color))
  }

  /** The page: its cells row by row, the number of rows so far, and the cursor. */
  datatype RawPage = Page(cells: seq<Cell>, rows: nat, row: nat, col: nat, color: byte)

  /** The cursor never leaves the last 25 rows. */
  type Page = p: RawPage | |p.cells| == 80 * p.rows && p.rows - 25 <= p.row < p.rows && p.rows >= 25 && p.col < 80
    witness Page(Spaces(2000, 7), 25, 0, 0, 7)

  /** `vga_clear`: 25 blank rows. */
  function Cleared(color: byte): Page {
    Page(Spaces(2000, color), 25, 0, 0, color)
  }

  /** The screen. */
  function Window(p: Page): (w: seq<Cell>)
    ensures |w| == 2000
  {
    p.cells[80 * (p.rows - 25)..]
  }

  function Cursor(p: Page): nat {
    80 * p.row + p.col
  }

  /** To the start of the next row; the page grows by a blank row when there is none. */
  function NextRow(p: Page): Page {
    if p.row + 1 < p.rows then p.(row := p.row + 1, col := 0)
    else Page(p.cells + Spaces(80, p.color), p.rows + 1, p.row + 1, 0, p.color)
  }

  /** The screen on the next row: the same cells, or moved up by a row behind the last one. */
  lemma WindowOfNextRow(p: Page)
    ensures Window(NextRow(p)) == if p.row + 1 < p.rows then Window(p) else Window(p)[80..] + Spaces(80, p.color)
  {
  }

  function Put(p: Page, c: byte): Page {
    p.(cells := p.cells[Cursor(p) := MakeCell(c, p.color)])
  }

  /** One character on the page. A full row wraps; backspace erases, but not past the start of a row. */
  function Write(p: Page, c: byte): Page {
    if c == '\n' as int then NextRow(p)
    else if c == '\r' as int then p.(col := 0)
    else if c == 8 then
      if p.col > 0 then Put(p.(col := p.col - 1), SPACE) else p
    else if p.col < 79 then Put(p, c).(col := p.col + 1)
    else NextRow(Put(p, c))
  }

  function WriteAll(p: Page, text: seq<byte>): Page {
    if text == [] then p else Write(WriteAll(p, text[..|text| - 1]), text[|text| - 1])
  }

  // ----- What a character does to the screen -----

  function ScreenRow(p: Page): nat {
    p.row - (p.rows - 25)
  }

  predicate BlankFrom(w: seq<Cell>, i: nat, color: byte) {
    forall k :: i <= k < |w| ==> CellIs(w[k], 32, color)
  }

  /** The window `v` is `w` with a character at place `i`. */
  predicate OneCell(w: seq<Cell>, v: seq<Cell>, i: nat, c: byte, color: byte) {
    i < |w| == |v| && CellIs(v[i], c, color) && forall k :: 0 <= k < |w| && k != i ==> v[k] == w[k]
  }

  /** The window `v` is `w` moved up by a row, with a blank last row. */
  predicate MovedUp(w: seq<Cell>, v: seq<Cell>, color: byte) {
    |w| == |v| == 2000 && v[..1920] == w[80..] && BlankFrom(v, 1920, color)
  }

  /** The cursor one row down, as far as there is one. */
  function Down(row: nat): nat {
    if row < 24 then row + 1 else 24
  }

  /**
   * What `vga_putchar` does to a screen `w` with the cursor at `row` and `col`.  A line feed moves the cursor to the
   * start of the next row, a carriage return to that of its own; a backspace blanks the cell on the left and moves
   * there, but not past the start of the row; any other character is shown where the cursor is.  Behind the last row
   * the screen moves up.
   */
  ghost predicate Effect(w: seq<Cell>, row: nat, col: nat, v: seq<Cell>, row': nat, col': nat, c: byte, color: byte) {
    if c == 10 then
      row' == Down(row) && col' == 0 && if row < 24 then v == w else MovedUp(w, v, color)
    else if c == 13 then row' == row && col' == 0 && v == w
    else if c == 8 then
      row' == row && if col == 0 then col' == 0 && v == w
                     else col' == col - 1 && OneCell(w, v, 80 * row + col - 1, 32, color)
    else if col < 79 then row' == row && col' == col + 1 && OneCell(w, v, 80 * row + col, c, color)
    else
      row' == Down(row) && col' == 0
      && if row < 24 then OneCell(w, v, 80 * row + 79, c, color)
         else exists u :: OneCell(w, u, 1999, c, color) && MovedUp(u, v, color)
  }

  lemma PutShows(p: Page, c: byte)
    ensures OneCell(Window(p), Window(Put(p, c)), 80 * ScreenRow(p) + p.col, c, p.color)
  {
  }

  /** The screens of two pages are related by the effect of a character. */
  ghost predicate Follows(p: Page, q: Page, c: byte) {
    Effect(Window(p), ScreenRow(p), p.col, Window(q), ScreenRow(q), q.col, c, p.color)
  }

  lemma InRowEffect(p: Page, c: byte)
    requires c != 10 && c != 13 && c != 8 && p.col < 79
    ensures Follows(p, Write(p, c), c)
  {
    PutShows(p, c);
  }

  lemma RowEndEffect(p: Page, c: byte)
    requires c != 10 && c != 13 && c != 8 && p.col == 79 && ScreenRow(p) < 24
    ensures Follows(p, Write(p, c), c)
  {
    PutShows(p, c);
    WindowOfNextRow(Put(p, c));
  }

  lemma ScreenEndEffect(p: Page, c: byte)
    requires c != 10 && c != 13 && c != 8 && p.col == 79 && ScreenRow(p) == 24
    ensures Follows(p, Write(p, c), c)
  {
    PutShows(p, c);
    var u := Put(p, c);
    WindowOfNextRow(u);
    MovedUpBy(Window(u), p.color);
    assert OneCell(Window(p), Window(u), 1999, c, p.color) && MovedUp(Window(u), Window(Write(p, c)), p.color);
  }

  lemma MovedUpBy(w: seq<Cell>, color: byte)
    requires |w| == 2000
    ensures MovedUp(w, w[80..] + Spaces(80, color), color)
  {
  }

  lemma ControlEffect(p: Page, c: byte)
    requires c == 10 || c == 13 || c == 8
    ensures Follows(p, Write(p, c), c)
  {
    if c == 10 {
      WindowOfNextRow(p);
    } else if c == 8 && p.col > 0 {
      PutShows(p.(col := p.col - 1), 32);
    }
  }

  /** The screen of a page changes as it should when a character is written on the page. */
  lemma WriteEffect(p: Page, c: byte)
    ensures Follows(p, Write(p, c), c)
  {
    if c == 10 || c == 13 || c == 8 {
      ControlEffect(p, c);
    } else if p.col < 79 {
      InRowEffect(p, c);
    } else if ScreenRow(p) < 24 {
      RowEndEffect(p, c);
    } else {
      ScreenEndEffect(p, c);
    }
  }

  // ----- What a text looks like -----

  /** Text without the two characters that move the cursor back. */
  predicate Plain(text: seq<byte>) {
    forall i :: 0 <= i < |text| ==> text[i] != '\r' as int && text[i] != 8
  }

  /** The cells after one more character: a newline pads its line with blanks up to the end of the row. */
  function FlowOn(g: seq<Cell>, c: byte, color: byte): seq<Cell> {
    if c == '\n' as int then g + Spaces(80 - |g| % 80, color) else g + [MakeCell(c, color)]
  }

  /** The cells a plain text fills. */
  function Flow(text: seq<byte>, color: byte): seq<Cell> {
    if text == [] then []
    else
      FlowOn(Flow(text[..|text| - 1], color), text[|text| - 1], color)
  }

  /** Rows needed for the cells and the cursor behind them, at least a screenful. */
  function RowsFor(n: nat): nat {
    if n / 80 + 1 < 25 then 25 else n / 80 + 1
  }

  /** The page shows the cells, then blanks, with the cursor right behind the cells. */
  predicate Shows(p: Page, f: seq<Cell>) {
    && Cursor(p) == |f| <= 80 * p.rows && p.rows == RowsFor(|f|)
    && p.cells == f + Spaces(80 * p.rows - |f|, p.color)
  }

  /** On a cleared page a plain text flows. */
  lemma {:induction false} TextFlows(text: seq<byte>, color: byte)
    requires Plain(text)
    ensures Shows(WriteAll(Cleared(color), text), Flow(text, color)) && WriteAll(Cleared(color), text).color == color
    decreases |text|
  {
    if text == [] {
      assert [] + Spaces(2000, color) == Spaces(2000, color);
    } else {
      TextFlows(text[..|text| - 1], color);
      FlowStep(WriteAll(Cleared(color), text[..|text| - 1]), Flow(text[..|text| - 1], color), text[|text| - 1]);
    }
  }

  lemma FlowStep(q: Page, g: seq<Cell>, c: byte)
    requires c != '\r' as int && c != 8 && Shows(q, g)
    ensures Shows(Write(q, c), FlowOn(g, c, q.color)) && Write(q, c).color == q.color
  {
    assert |g| / 80 == q.row && |g| % 80 == q.col;
  }

  /** A line of text takes one row more than its full rows: 80 characters and a newline leave an empty row. */
  lemma {:induction false} LineFlows(text: seq<byte>, color: byte)
    requires '\n' as int !in text
    ensures |Flow(text, color)| == |text|
    ensures |Flow(text + ['\n' as int], color)| == 80 * (|text| / 80 + 1)
    ensures forall i :: 0 <= i < |text| ==> CellIs(Flow(text, color)[i], text[i], color)
    decreases |text|
  {
    assert (text + ['\n' as int])[..|text|] == text;
    if text != [] {
      LineFlows(text[..|text| - 1], color);
    }
  }

  /** Rows that have left the screen never change again. */
  lemma {:induction false} ScrolledRowsStay(p: Page, text: seq<byte>)
    ensures WriteAll(p, text).rows >= p.rows
    ensures p.cells[..80 * (p.rows - 25)] == WriteAll(p, text).cells[..80 * (p.rows - 25)]
    decreases |text|
  {
    if text != [] {
      var q, c := WriteAll(p, text[..|text| - 1]), text[|text| - 1];
      ScrolledRowsStay(p, text[..|text| - 1]);
      assert q.cells[..80 * (q.rows - 25)] == Write(q, c).cells[..80 * (q.rows - 25)];
    }
  }

  /** A backspace takes back a character exactly when it was typed before the last column over a blank. */
  lemma BackspaceUndoes(p: Page, c: byte)
    requires c != '\n' as int && c != '\r' as int && c != 8
    ensures Write(Write(p, c), 8) == p <==> p.col < 79 && p.cells[Cursor(p)] == MakeCell(SPACE, p.color)
  {
    var q := Write(Write(p, c), 8);
    if p.col == 79 {
      assert q.row != p.row;
    } else {
      assert q.cells[Cursor(p)] == MakeCell(SPACE, p.color);
      assert q.cells == p.cells[Cursor(p) := MakeCell(SPACE, p.color)];
    }
  }
}
