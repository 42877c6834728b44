/** The line buffer of editor.c and its file form: one line feed behind every line, cut off at 2047 bytes. */
module EditorText {
  import opened CTypes

  const LF: byte := 10
  const CR: byte := 13
  const MAX_LINES := 32
  const LINE_MAX := 64

  // ----- Editing -----

  /** Lines and cursor line. */
  datatype Buffer = Buffer(lines: seq<CString>, cursor: nat)

  /** The cursor is on a line, or on the empty buffer's only place. */
  predicate InRange(b: Buffer) {
    |b.lines| <= MAX_LINES && (if b.lines == [] then b.cursor == 0 else b.cursor < |b.lines|)
  }

  /** Inserting works at every line and behind the last one. */
  function Insert(b: Buffer, text: CString): (r: Buffer)
    requires b.cursor <= |b.lines| <= MAX_LINES
    ensures InRange(b) || |b.lines| < MAX_LINES ==> InRange(r)
  {
    if |b.lines| >= MAX_LINES then b
    else Buffer(b.lines[..b.cursor] + [Clip(text, 64)] + b.lines[b.cursor..], b.cursor)
  }

  function AppendLine(b: Buffer, text: CString): (r: Buffer)
    requires InRange(b)
    ensures InRange(r)
  {
    if |b.lines| >= MAX_LINES then b else Insert(b.(cursor := |b.lines|), text)
  }

  function Delete(b: Buffer): (r: Buffer)
    requires InRange(b)
    ensures InRange(r)
  {
    if b.lines == [] then b
    else
      var rest := b.lines[..b.cursor] + b.lines[b.cursor + 1..];
      Buffer(rest, if b.cursor >= |rest| && b.cursor > 0 then b.cursor - 1 else b.cursor)
  }

  /** An insertion puts the clipped text on the cursor's line, and moves that line and those below down by one. */
  lemma InsertedAt(b: Buffer, text: CString, k: nat)
    requires InRange(b) && |b.lines| < MAX_LINES && k <= |b.lines|
    ensures var r := Insert(b, text);
            && |r.lines| == |b.lines| + 1 && r.cursor == b.cursor
            && (k < b.cursor ==> r.lines[k] == b.lines[k])
            && (k == b.cursor ==> r.lines[k] == if |text| < 64 then text else text[..63])
            && (k > b.cursor ==> r.lines[k] == b.lines[k - 1])
  {
  }

  /** A deletion takes the cursor's line out and moves those below up by one; only the last line's cursor moves. */
  lemma DeletedAt(b: Buffer, k: nat)
    requires InRange(b) && k + 1 < |b.lines|
    ensures var r := Delete(b);
            && |r.lines| == |b.lines| - 1 && r.lines[k] == (if k < b.cursor then b.lines[k] else b.lines[k + 1])
            && r.cursor == if b.cursor == |b.lines| - 1 then b.cursor - 1 else b.cursor
  {
  }

  /** Deleting at once takes an inserted line out again; the cursor ends on the line it was on, if any. */
  lemma DeleteUndoesInsert(b: Buffer, text: CString)
    requires InRange(b) && |b.lines| < MAX_LINES
    ensures Delete(Insert(b, text)) == b
  {
    var c := b.cursor;
    var i := Insert(b, text).lines;
    assert i[..c] == b.lines[..c] && i[c + 1..] == b.lines[c..];
    assert b.lines == b.lines[..c] + b.lines[c..];
  }

  /** Appending puts the line last and the cursor on it; deleting it restores the lines. */
  lemma DeleteUndoesAppend(b: Buffer, text: CString)
    requires InRange(b) && |b.lines| < MAX_LINES
    ensures var a := AppendLine(b, text);
            a.lines == b.lines + [Clip(text, 64)] && a.cursor == |b.lines| && Delete(a).lines == b.lines
  {
    var a := AppendLine(b, text);
    assert a.lines == b.lines + [Clip(text, 64)] && a.cursor == |b.lines|;
    assert a.lines[..|b.lines|] + a.lines[|b.lines| + 1..] == b.lines;
  }

  // ----- Saving -----

  /** The text of the first `k` lines. */
  function Lines(ls: seq<CString>, k: nat): seq<byte>
    requires k <= |ls|
  {
    if k == 0 then [] else Lines(ls, k - 1) + ls[k - 1] + [LF]
  }

  function Full(ls: seq<CString>): seq<byte> {
    Lines(ls, |ls|)
  }

  /** What `editor_save` writes to the file. */
  function Saved(ls: seq<CString>): seq<byte> {
    if Full(ls) == [] then [LF] else Cut(Full(ls), 2047)
  }

  // ----- Loading -----

  /** The byte loop of `editor_load` from position `i` on: finished lines and the line being filled. */
  function SplitFrom(b: seq<byte>, i: nat, done: seq<seq<byte>>, line: seq<byte>): (r: seq<seq<byte>>)
    requires i <= |b| && |done| <= MAX_LINES && |line| < LINE_MAX
    ensures |r| <= MAX_LINES
    decreases |b| - i
  {
    if |done| == MAX_LINES then done
    else if i == |b| then (if line != [] || done == [] then done + [line] else done)
    else if b[i] == CR then SplitFrom(b, i + 1, done, line)
    else if b[i] == LF then SplitFrom(b, i + 1, done + [line], [])
    else SplitFrom(b, i + 1, done, if |line| + 1 < LINE_MAX then line + [b[i]] else line)
  }

  /** The lines `editor_load` leaves in a fresh buffer; a zero byte ends what can be seen of a line. */
  function Loaded(b: seq<byte>): seq<CString> {
    var raw := SplitFrom(b, 0, [], []);
    seq(|raw|, i requires 0 <= i < |raw| => Terminated(raw[i]))
  }

  // ----- Round trip -----

  /** A line as the editor's prompt produces it. */
  predicate CleanLine(l: CString) {
    |l| < LINE_MAX && forall i :: 0 <= i < |l| ==> l[i] != CR && l[i] != LF
  }

  predicate CleanLines(ls: seq<CString>) {
    |ls| <= MAX_LINES && forall i :: 0 <= i < |ls| ==> CleanLine(ls[i])
  }

  function LineStart(ls: seq<CString>, k: nat): nat
    requires k <= |ls|
  {
    |Lines(ls, k)|
  }

  lemma NextStart(ls: seq<CString>, k: nat)
    requires k < |ls|
    ensures LineStart(ls, k + 1) == LineStart(ls, k) + |ls[k]| + 1
  {
  }

  lemma {:induction false} LinesPrefix(ls: seq<CString>, j: nat, k: nat)
    requires j <= k <= |ls|
    ensures |Lines(ls, j)| <= |Lines(ls, k)| && Lines(ls, k)[..|Lines(ls, j)|] == Lines(ls, j)
    decreases k
  {
    if j < k {
      LinesPrefix(ls, j, k - 1);
    }
  }

  lemma {:induction false} FullFits(ls: seq<CString>, k: nat)
    requires CleanLines(ls) && k <= |ls|
    ensures k <= LineStart(ls, k) <= 64 * k
  {
    if k > 0 {
      FullFits(ls, k - 1);
      NextStart(ls, k - 1);
    }
  }

  /** In the text, line `k` stands at its place, with its line feed behind it. */
  lemma LineStands(ls: seq<CString>, s: seq<byte>, k: nat, i: nat)
    requires s <= Full(ls) && k < |ls| && i <= |ls[k]| && LineStart(ls, k) + i < |s|
    ensures s[LineStart(ls, k) + i] == if i < |ls[k]| then ls[k][i] else LF
  {
    LinesPrefix(ls, k + 1, |ls|);
    var line := ls[k] + [LF];
    assert Lines(ls, k + 1) == Lines(ls, k) + line;
    InPrefixes(s, Full(ls), Lines(ls, k), line, i);
  }

  /** Splitting from the start ends like splitting from `i` with `done` and `line` in hand. */
  predicate SplitsTo(s: seq<byte>, i: nat, done: seq<seq<byte>>, line: seq<byte>)
    requires i <= |s| && |done| <= MAX_LINES && |line| < LINE_MAX
  {
    SplitFrom(s, 0, [], []) == SplitFrom(s, i, done, line)
  }

  lemma TakeOne(s: seq<byte>, i: nat, done: seq<seq<byte>>, line: seq<byte>)
    requires i < |s| && |done| < MAX_LINES && |line| + 1 < LINE_MAX && SplitsTo(s, i, done, line)
    requires s[i] != CR && s[i] != LF
    ensures SplitsTo(s, i + 1, done, line + [s[i]])
  {
  }

  lemma DropOne(s: seq<byte>, i: nat, done: seq<seq<byte>>, line: seq<byte>)
    requires i < |s| && |done| < MAX_LINES && |line| == 63 && SplitsTo(s, i, done, line)
    requires s[i] != CR && s[i] != LF
    ensures SplitsTo(s, i + 1, done, line)
  {
  }

  lemma EndLine(s: seq<byte>, i: nat, done: seq<seq<byte>>, line: seq<byte>)
    requires i < |s| && |done| < MAX_LINES && |line| < LINE_MAX && SplitsTo(s, i, done, line) && s[i] == LF
    ensures SplitsTo(s, i + 1, done + [line], [])
  {
  }

  lemma SplitsToSame(s: seq<byte>, i: nat, d: seq<seq<byte>>, l: seq<byte>, d': seq<seq<byte>>, l': seq<byte>)
    requires i <= |s| && |d| <= MAX_LINES && |l| < LINE_MAX && SplitsTo(s, i, d, l) && d == d' && l == l'
    ensures SplitsTo(s, i, d', l')
  {
  }

  /** Lines of any length, without line feeds and carriage returns. */
  predicate TextLines(ls: seq<CString>) {
    forall k, i :: 0 <= k < |ls| && 0 <= i < |ls[k]| ==> ls[k][i] != '\n' as int && ls[k][i] != '\r' as int
  }

  lemma CleanIsText(ls: seq<CString>)
    requires CleanLines(ls)
    ensures TextLines(ls)
  {
    forall k, i | 0 <= k < |ls| && 0 <= i < |ls[k]|
      ensures ls[k][i] != '\n' as int && ls[k][i] != '\r' as int
    {
      assert CleanLine(ls[k]);
    }
  }

  /** What the rows of the editor keep of lines. */
  function Raw(ls: seq<CString>, k: nat): (r: seq<seq<byte>>)
    requires k <= |ls|
    ensures |r| == k && forall i :: 0 <= i < k ==> r[i] == Clip(ls[i], 64)
  {
    seq(k, i requires 0 <= i < k => Clip(ls[i], 64))
  }

  lemma {:induction false} SplitInLine(ls: seq<CString>, s: seq<byte>, k: nat, j: nat)
    requires TextLines(ls) && s <= Full(ls) && k < |ls| && k < 32 && j <= |ls[k]| && LineStart(ls, k) + j <= |s|
    requires SplitsTo(s, LineStart(ls, k), Raw(ls, k), [])
    ensures SplitsTo(s, LineStart(ls, k) + j, Raw(ls, k), ls[k][..if j < 63 then j else 63])
    decreases j
  {
    if j == 0 {
      SplitsToSame(s, LineStart(ls, k), Raw(ls, k), [], Raw(ls, k), ls[k][..0]);
    } else {
      SplitInLine(ls, s, k, j - 1);
      var i := LineStart(ls, k) + j - 1;
      LineStands(ls, s, k, j - 1);
      if j <= 63 {
        TakeOne(s, i, Raw(ls, k), ls[k][..j - 1]);
        SplitsToSame(s, i + 1, Raw(ls, k), ls[k][..j - 1] + [s[i]], Raw(ls, k), ls[k][..j]);
      } else {
        DropOne(s, i, Raw(ls, k), ls[k][..63]);
      }
    }
  }

  lemma {:induction false} SplitLines(ls: seq<CString>, s: seq<byte>, k: nat)
    requires TextLines(ls) && s <= Full(ls) && k <= |ls| && k <= 32 && LineStart(ls, k) <= |s|
    ensures SplitsTo(s, LineStart(ls, k), Raw(ls, k), [])
    decreases k
  {
    if k == 0 {
      SplitsToSame(s, 0, [], [], Raw(ls, 0), []);
    } else {
      NextStart(ls, k - 1);
      SplitLines(ls, s, k - 1);
      var l := ls[k - 1];
      SplitInLine(ls, s, k - 1, |l|);
      LineStands(ls, s, k - 1, |l|);
      var row := l[..if |l| < 63 then |l| else 63];
      EndLine(s, LineStart(ls, k - 1) + |l|, Raw(ls, k - 1), row);
      assert row == Clip(l, 64) && Raw(ls, k - 1) + [row] == Raw(ls, k);
      SplitsToSame(s, LineStart(ls, k), Raw(ls, k - 1) + [row], [], Raw(ls, k), []);
    }
  }

  /** Splitting the saved text of a non-empty buffer yields its lines. */
  lemma SplitSaved(ls: seq<CString>)
    requires CleanLines(ls) && ls != []
    ensures SplitFrom(Saved(ls), 0, [], []) == Raw(ls, |ls|)
  {
    var n, s := |ls|, Saved(ls);
    CleanIsText(ls);
    FullFits(ls, n);
    if |Full(ls)| <= 2047 {
      SplitLines(ls, s, n);
    } else {
      FullFits(ls, n - 1);
      NextStart(ls, n - 1);
      assert n == 32 && |ls[n - 1]| == 63;
      SplitLines(ls, s, n - 1);
      SplitInLine(ls, s, n - 1, 63);
      assert CleanLine(ls[n - 1]) && ls[n - 1][..63] == Clip(ls[n - 1], 64);
      assert Raw(ls, n - 1) + [ls[n - 1]] == Raw(ls, n);
    }
  }

  /**
   * Saving and loading restores every clean buffer, the full one included, except the empty buffer,
   * which comes back as one empty line.
   */
  lemma RoundTripIffNonempty(ls: seq<CString>)
    requires CleanLines(ls)
    ensures Loaded(Saved(ls)) == ls <==> ls != []
  {
    if ls != [] {
      SplitSaved(ls);
      forall i | 0 <= i < |ls| ensures Terminated(Raw(ls, |ls|)[i]) == ls[i] {
        TerminatedOfString(ls[i]);
      }
    } else {
      var b: seq<byte> := [LF];
      assert Saved(ls) == b && b[0] == LF;
      assert SplitFrom(b, 1, [[]], []) == [[]];
      assert |SplitFrom(b, 0, [], [])| == 1;
    }
  }
}
