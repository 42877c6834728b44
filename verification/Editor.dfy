/** editor.c: the line array of the editor, edited in place, saved to and loaded from the file system. */
module Editors {
  import opened CTypes
  import Volume
  import VolumeTheorems
  import opened FileSystems
  import opened EditorText
  import opened EditorRuns

  /** One line of the array; a zero byte ends its text. */
  type Row = r: seq<byte> | |r| == 64 && |Terminated(r)| < 64 witness Zeros(64)

  /** A path as the editor keeps it. */
  type Path = p: CString | |p| < 16 witness []

  class Editor {
    const fs: FileSystem
    const path: Path
    const rows: array<Row>
    var lineCount: nat
    var cursor: nat
    var dirty: bool

    /** `editor_reset`; the path is kept up to 15 bytes. */
    constructor (fs: FileSystem, path: CString)
      requires fs.Valid()
      ensures this.fs == fs && this.path == (if |path| < 16 then path else path[..15]) && fresh(rows)
      ensures Shaped() && View() == Buffer([], 0) && Blank() && !dirty
    {
      this.fs := fs;
      this.path := if |path| < 16 then path else Sub(path, 0, 15);
      rows := new Row[32](_ => Zeros(64));
      lineCount, cursor, dirty := 0, 0, false;
    }

    predicate Shaped()
      reads this
    {
      rows.Length == 32 && lineCount <= 32 && fs.Valid()
    }

    /** Every row is all zeros, as after a reset. */
    ghost predicate Blank()
      reads rows
    {
      forall i :: 0 <= i < rows.Length ==> rows[i] == Zeros(64)
    }

    ghost function View(): Buffer
      requires Shaped()
      reads this, rows
    {
      Buffer(Texts(rows[..], lineCount), cursor)
    }

    ghost predicate Inv()
      reads this, rows
    {
      Shaped() && InRange(View())
    }

    // ----- Editing -----

    /** The copy loop of `editor_insert_line`. */
    static method CopyText(row: Row, text: CString) returns (r: Row)
      ensures Terminated(r) == Clip(text, 64)
    {
      var bytes: seq<byte> := row;
      var n := 0;
      while n + 1 < 64 && At(text, n) != 0
        invariant 0 <= n <= 63 && n <= |text| && |bytes| == 64
        invariant bytes[..n] == text[..n]
        decreases 64 - n
      {
        bytes := bytes[n := text[n]];
        n := n + 1;
      }
      bytes := bytes[n := 0];
      assert bytes[..n] == text[..n] == Clip(text, 64);
      TerminatedIs(bytes, Clip(text, 64));
      r := bytes;
    }

    /** Moves the rows from the cursor on down by one. */
    method OpenGap()
      requires Shaped() && cursor <= lineCount < 32
      modifies rows
      ensures Opened(old(rows[..]), rows[..], lineCount, cursor)
    {
      var i := lineCount;
      while i > cursor
        invariant cursor <= i <= lineCount
        invariant forall k :: 0 <= k <= i ==> rows[k] == old(rows[k])
        invariant forall k :: i < k <= lineCount ==> rows[k] == old(rows[k - 1])
      {
        rows[i] := rows[i - 1];
        i := i - 1;
      }
    }

    method InsertLine(text: CString)
      requires Shaped() && cursor <= lineCount
      modifies this`lineCount, this`cursor, this`dirty, rows
      ensures Shaped() && View() == Insert(old(View()), text)
      ensures dirty == (old(dirty) || old(lineCount) < 32)
    {
      var insertAt := cursor;
      if lineCount >= MAX_LINES {
        return;
      }
      OpenGap();
      ghost var moved := rows[..];
      var row := CopyText(rows[insertAt], text);
      rows[insertAt] := row;
      assert rows[..] == moved[insertAt := row];
      InsertedTexts(old(rows[..]), moved, lineCount, insertAt, row);
      lineCount := lineCount + 1;
      cursor := insertAt;
      dirty := true;
    }

    method AppendText(text: CString)
      requires Inv()
      modifies this`lineCount, this`cursor, this`dirty, rows
      ensures Inv() && View() == AppendLine(old(View()), text)
    {
      if lineCount >= MAX_LINES {
        return;
      }
      cursor := lineCount;
      InsertLine(text);
    }

    /** Moves the rows behind the cursor up by one. */
    method CloseGap()
      requires Inv() && lineCount > 0
      modifies rows
      ensures forall k :: 0 <= k < cursor || lineCount <= k < 32 ==> rows[k] == old(rows[k])
      ensures forall k :: cursor <= k < lineCount - 1 ==> rows[k] == old(rows[k + 1])
    {
      var i := cursor;
      while i + 1 < lineCount
        invariant cursor <= i < lineCount
        invariant forall k :: 0 <= k < cursor || lineCount <= k < 32 ==> rows[k] == old(rows[k])
        invariant forall k :: cursor <= k < i ==> rows[k] == old(rows[k + 1])
        invariant forall k :: i < k < lineCount ==> rows[k] == old(rows[k])
      {
        rows[i] := rows[i + 1];
        i := i + 1;
      }
    }

    method DeleteLine()
      requires Inv()
      modifies this`lineCount, this`cursor, this`dirty, rows
      ensures Inv() && View() == Delete(old(View()))
    {
      if lineCount == 0 {
        return;
      }
      CloseGap();
      rows[lineCount - 1] := Zeros(64);
      lineCount := lineCount - 1;
      DeletedTexts(old(rows[..]), rows[..], old(lineCount), cursor);
      if cursor >= lineCount && cursor > 0 {
        cursor := cursor - 1;
      }
      dirty := true;
    }

    /** The branches of `editor_run` that change the buffer. */
    method Command(e: Edit)
      requires Inv()
      modifies this`lineCount, this`cursor, this`dirty, rows
      ensures Inv() && View() == ApplyEdit(old(View()), e)
      ensures e.DeleteHere? ==> View() == Delete(old(View()))
      ensures e.InsertHere? ==> View() == Insert(old(View()), e.text)
      ensures e.AppendLast? ==> View() == AppendLine(old(View()), e.text)
      ensures e.Next? || e.Previous? ==> lineCount == old(lineCount) && View().lines == old(View().lines)
      ensures e.Next? ==> cursor == if old(cursor) + 1 < lineCount then old(cursor) + 1 else old(cursor)
      ensures e.Previous? ==> cursor == if old(cursor) == 0 then 0 else old(cursor) - 1
    {
      match e
      case Next =>
        if cursor + 1 < lineCount {
          cursor := cursor + 1;
        }
      case Previous =>
        if cursor > 0 {
          cursor := cursor - 1;
        }
      case DeleteHere => DeleteLine();
      case InsertHere(text) => InsertLine(text);
      case AppendLast(text) => AppendText(text);
    }

    // ----- Saving -----

    /** One line of `editor_save`: its characters, then a line feed, as long as there is room. */
    static method SaveLine(buffer: array<byte>, pos: nat, row: Row, ghost before: seq<byte>) returns (end: nat)
      requires buffer.Length == 2048 && pos <= 2047 && buffer[..pos] == Cut(before, 2047)
      modifies buffer
      ensures end <= 2047 && buffer[..end] == Cut(before + Terminated(row) + [LF], 2047)
    {
      ghost var text := Terminated(row);
      end := pos;
      var j := 0;
      while row[j] != 0 && end + 1 < 2048
        invariant 0 <= j <= |text| < 64 && end <= 2047 && buffer[..end] == Cut(before + text[..j], 2047)
        decreases 64 - j
      {
        assert j < |text|;
        buffer[end] := row[j];
        assert before + text[..j + 1] == before + text[..j] + [text[j]];
        end := end + 1;
        j := j + 1;
      }
      assert j == |text| ==> text[..j] == text;
      assert Cut(before + text[..j], 2047) == Cut(before + text, 2047);
      if end + 1 < 2048 {
        buffer[end] := LF;
        end := end + 1;
      }
    }

    method Serialise(buffer: array<byte>) returns (pos: nat)
      requires Shaped() && buffer.Length == 2048
      modifies buffer
      ensures pos <= 2047 && buffer[..pos] == Saved(View().lines)
    {
      pos := 0;
      ghost var ls := View().lines;
      var i := 0;
      while i < lineCount
        invariant 0 <= i <= lineCount && pos <= 2047 && View().lines == ls
        invariant buffer[..pos] == Cut(Lines(ls, i), 2047)
      {
        pos := SaveLine(buffer, pos, rows[i], Lines(ls, i));
        i := i + 1;
      }
      if pos == 0 {
        buffer[pos] := LF;
        pos := pos + 1;
      }
    }

    /** `editor_save`. */
    method Save() returns (r: int, ghost k: nat)
      requires Shaped()
      modifies fs`usedFiles, fs.entries, fs.cache, fs.dev`sectors, fs.dev`history, fs.dev`faults
      ensures r == 0 || r == -1
      ensures Outcome(old(fs.Vol()), Volume.Write(path, Saved(View().lines)), fs.Vol(),
                      old(fs.dev.history), fs.dev.history, k, r, old(fs.dev.faults) < fs.dev.faults)
      ensures old(fs.dev.faults) <= fs.dev.faults
    {
      var buffer := new byte[2048](_ => 0);
      var pos := Serialise(buffer);
      r, k := fs.WriteFile(path, buffer[..pos]);
    }

    // ----- Loading -----

    /** Ends the line being filled with a zero byte. */
    method CloseLine(line: nat, pos: nat, ghost done: seq<seq<byte>>, ghost now: seq<byte>)
      requires Filled(rows[..], done, now) && line == |done| < 32 && pos == |now|
      modifies rows
      ensures Filled(rows[..], done + [now], [])
    {
      ghost var rs := rows[..];
      FilledLine(rs, done, now);
      rows[line] := rows[line][pos := 0];
      assert rows[..] == rs;
    }

    /** Puts a character at the end of the line being filled. */
    method PutChar(line: nat, pos: nat, c: byte, ghost done: seq<seq<byte>>, ghost now: seq<byte>)
      requires Filled(rows[..], done, now) && line == |done| < 32 && pos == |now| < 63
      modifies rows
      ensures Filled(rows[..], done, now + [c])
    {
      ghost var rs := rows[..];
      FilledChar(rs, done, now, c);
      rows[line] := rows[line][pos := c];
      assert rows[..] == rs[line := rs[line][pos := c]];
    }

    /** The byte loop of `editor_load`, on a freshly reset buffer. */
    method SplitInto(bytes: seq<byte>)
      requires Shaped() && Blank() && lineCount == 0
      modifies this`lineCount, this`cursor, rows
      ensures Inv() && View() == Buffer(Loaded(bytes), 0)
    {
      var line, pos, i := 0, 0, 0;
      ghost var done: seq<seq<byte>>, now: seq<byte> := [], [];
      BlankIsFilled(rows[..]);
      while i < |bytes| && line < 32
        invariant 0 <= i <= |bytes| && line == |done| && pos == |now|
        invariant Filled(rows[..], done, now) && SplitsTo(bytes, i, done, now)
      {
        var c := bytes[i];
        if c == CR {
        } else if c == LF {
          CloseLine(line, pos, done, now);
          line := line + 1;
          done, now := done + [now], [];
          pos := 0;
        } else if pos + 1 < 64 {
          PutChar(line, pos, c, done, now);
          pos := pos + 1;
          now := now + [c];
        }
        i := i + 1;
      }
      if line < 32 {
        CloseLine(line, pos, done, now);
        if pos > 0 || line == 0 {
          done := done + [now];
          line := line + 1;
        }
      }
      Adopt(line, done, bytes);
    }

    /** The lines filled in become the buffer's lines. */
    method Adopt(line: nat, ghost done: seq<seq<byte>>, ghost bytes: seq<byte>)
      requires rows.Length == 32 && fs.Valid() && line == |done| <= 32 && done == SplitFrom(bytes, 0, [], [])
      requires ShowsLines(rows[..], done)
      modifies this`lineCount, this`cursor
      ensures Inv() && View() == Buffer(Loaded(bytes), 0)
    {
      lineCount := line;
      cursor := 0;
      ShownLines(rows[..], done);
      assert View().lines == Loaded(bytes);
    }

    /** The bytes of the editor's file, if they can be read. */
    method ReadBytes() returns (ok: bool, bytes: seq<byte>)
      requires fs.Valid()
      modifies fs.dev`faults
      ensures ok ==>
                && Volume.Readable(fs.Vol(), path, 2048)
                && bytes == VolumeTheorems.Delivered(fs.Vol(), path, 2048)
      ensures !ok && Volume.Readable(fs.Vol(), path, 2048) ==> old(fs.dev.faults) < fs.dev.faults
      ensures old(fs.dev.faults) <= fs.dev.faults
    {
      var buffer := new byte[2048](_ => 0);
      FetchFits(fs.Vol(), path, 2048, 4);
      var e, size := fs.ReadFile(path, buffer, 2048);
      if e != 0 {
        return false, [];
      }
      VolumeTheorems.ReadIsWhole(fs.Vol(), path, 2048);
      ghost var fetched := Volume.Fetched(fs.Vol(), path, 2048);
      assert buffer[..size] == buffer[..|fetched|][..size];
      return true, buffer[..size];
    }

    /** `editor_load`: a file that cannot be read leaves the empty buffer. */
    method Load() returns (ghost ok: bool)
      requires Shaped() && Blank() && lineCount == 0 && cursor == 0
      modifies this`lineCount, this`cursor, rows, fs.dev`faults
      ensures Inv()
      ensures ok ==>
                && Volume.Readable(fs.Vol(), path, 2048)
                && View() == Buffer(Loaded(VolumeTheorems.Delivered(fs.Vol(), path, 2048)), 0)
      ensures !ok ==> View() == Buffer([], 0)
      ensures !ok && Volume.Readable(fs.Vol(), path, 2048) ==> old(fs.dev.faults) < fs.dev.faults
      ensures old(fs.dev.faults) <= fs.dev.faults
    {
      var loaded, bytes := ReadBytes();
      ok := loaded;
      if loaded {
        SplitInto(bytes);
      }
    }
  }

  /** The lines shown by the first `k` rows. */
  function Texts(rs: seq<Row>, k: nat): (r: seq<CString>)
    requires k <= |rs|
    ensures |r| == k && forall i :: 0 <= i < k ==> r[i] == Terminated(rs[i])
  {
    seq(k, i requires 0 <= i < k => Terminated(rs[i]))
  }

  /** The rows from `at` on have moved down by one. */
  ghost predicate Opened(rs: seq<Row>, rs': seq<Row>, n: nat, at: nat) {
    && at <= n < |rs| == |rs'|
    && (forall k :: 0 <= k < at ==> rs'[k] == rs[k])
    && (forall k :: at < k <= n ==> rs'[k] == rs[k - 1])
  }

  /** A new row in the gap shows an insertion. */
  lemma InsertedTexts(rs: seq<Row>, rs': seq<Row>, n: nat, at: nat, row: Row)
    requires Opened(rs, rs', n, at)
    ensures Texts(rs'[at := row], n + 1) == Texts(rs, n)[..at] + [Terminated(row)] + Texts(rs, n)[at..]
  {
  }

  /** Rows moved up by one behind `at` show a deletion. */
  lemma DeletedTexts(rs: seq<Row>, rs': seq<Row>, n: nat, at: nat)
    requires at < n <= |rs| == |rs'|
    requires forall k :: 0 <= k < at ==> rs'[k] == rs[k]
    requires forall k :: at <= k < n - 1 ==> rs'[k] == rs[k + 1]
    ensures Texts(rs', n - 1) == Texts(rs, n)[..at] + Texts(rs, n)[at + 1..]
  {
  }

  /** The rows while a file is split: finished lines, the line being filled, and untouched rows. */
  ghost predicate Filled(rs: seq<Row>, done: seq<seq<byte>>, now: seq<byte>) {
    && |rs| == 32 && |done| <= 32 && |now| < 64 && ShowsLines(rs, done)
    && (|done| < 32 ==> rs[|done|] == now + Zeros(64 - |now|))
    && (forall k :: |done| < k < 32 ==> rs[k] == Zeros(64))
  }

  /** The first rows hold the lines, padded with zeros. */
  ghost predicate ShowsLines(rs: seq<Row>, done: seq<seq<byte>>) {
    |done| <= |rs| && forall k :: 0 <= k < |done| ==> |done[k]| < 64 && rs[k] == done[k] + Zeros(64 - |done[k]|)
  }

  lemma BlankIsFilled(rs: seq<Row>)
    requires |rs| == 32 && forall k :: 0 <= k < 32 ==> rs[k] == Zeros(64)
    ensures Filled(rs, [], [])
  {
    assert [] + Zeros(64) == Zeros(64);
  }

  lemma ShownLines(rs: seq<Row>, done: seq<seq<byte>>)
    requires ShowsLines(rs, done)
    ensures forall k :: 0 <= k < |done| ==> Texts(rs, |done|)[k] == Terminated(done[k])
  {
    forall k | 0 <= k < |done| ensures Texts(rs, |done|)[k] == Terminated(done[k]) {
      PaddedText(done[k]);
    }
  }

  /** Ending the line writes a zero where there is one already. */
  lemma FilledLine(rs: seq<Row>, done: seq<seq<byte>>, now: seq<byte>)
    requires Filled(rs, done, now) && |done| < 32
    ensures rs[|done|][|now| := 0] == rs[|done|]
    ensures Filled(rs, done + [now], [])
  {
    assert |done| + 1 < 32 ==> rs[|done| + 1] == [] + Zeros(64);
  }

  lemma FilledChar(rs: seq<Row>, done: seq<seq<byte>>, now: seq<byte>, c: byte)
    requires Filled(rs, done, now) && |done| < 32 && |now| < 63
    ensures |Terminated(rs[|done|][|now| := c])| < 64
    ensures Filled(rs[|done| := rs[|done|][|now| := c]], done, now + [c])
  {
    CharInRow(now, c);
    var row: Row := rs[|done|][|now| := c];
    assert row == (now + [c]) + Zeros(64 - |now + [c]|);
  }

  lemma CharInRow(now: seq<byte>, c: byte)
    requires |now| < 63
    ensures (now + Zeros(64 - |now|))[|now| := c] == (now + [c]) + Zeros(64 - |now + [c]|)
    ensures |Terminated((now + Zeros(64 - |now|))[|now| := c])| < 64
  {
    assert (now + Zeros(64 - |now|))[|now| := c] == (now + [c]) + Zeros(64 - |now + [c]|);
    PaddedText(now + [c]);
  }

  /** Zeros behind a line do not change its text. */
  lemma PaddedText(line: seq<byte>)
    requires |line| < 64
    ensures Terminated(line + Zeros(64 - |line|)) == Terminated(line)
  {
    var padded, t := line + Zeros(64 - |line|), Terminated(line);
    assert padded[..|t|] == t;
    TerminatedIs(padded, t);
  }

  /** Save, then open again: the same lines, for every clean buffer that has a line. */
  lemma LinesSurvive(v: Volume.Volume, path: CString, ls: seq<CString>)
    requires Volume.Healthy(v) && |path| < 16 && CleanLines(ls)
    requires var op := Volume.Write(path, Saved(ls));
             Volume.Accepts(v, op) && Volume.InRange(v.disk, Volume.Plan(v, op))
    ensures var w := VolumeTheorems.Finish(v, Volume.Write(path, Saved(ls)));
            && Volume.Healthy(w) && Volume.Readable(w, path, 2048)
            && (Loaded(VolumeTheorems.Delivered(w, path, 2048)) == ls <==> ls != [])
  {
    var op := Volume.Write(path, Saved(ls));
    var w := VolumeTheorems.Finish(v, op);
    VolumeTheorems.FinishRefinesMap(v, op);
    VolumeTheorems.ReadReturnsFile(w, path, 2048);
    assert VolumeTheorems.Delivered(w, path, 2048) == Saved(ls);
    RoundTripIffNonempty(ls);
  }

  /** The file is readable, and loads to the lines unless there are none. */
  predicate Restores(v: Volume.Volume, path: CString, ls: seq<CString>) {
    && Volume.Readable(v, path, 2048)
    && (Loaded(VolumeTheorems.Delivered(v, path, 2048)) == ls <==> ls != [])
  }

  /** A successful save leaves such a file. */
  lemma SaveRestores(v: Volume.Volume, w: Volume.Volume, h0: seq<Volume.SectorWrite>, h: seq<Volume.SectorWrite>,
                     k: nat, faulted: bool, path: Path, ls: seq<CString>)
    requires Volume.Healthy(v) && CleanLines(ls)
    requires Outcome(v, Volume.Write(path, Saved(ls)), w, h0, h, k, 0, faulted)
    ensures Restores(w, path, ls)
  {
    SuccessIsFinish(v, Volume.Write(path, Saved(ls)), w, h0, h, k, faulted);
    LinesSurvive(v, path, ls);
  }

  /** Saving on a healthy volume. */
  method SaveOn(a: Editor) returns (saved: int)
    requires a.Shaped() && Volume.Healthy(a.fs.Vol()) && CleanLines(a.View().lines)
    modifies a.fs`usedFiles, a.fs.entries, a.fs.cache
    modifies a.fs.dev`sectors, a.fs.dev`history, a.fs.dev`faults
    ensures saved == 0 ==> Restores(a.fs.Vol(), a.path, a.View().lines)
    ensures old(a.fs.dev.faults) <= a.fs.dev.faults && a.View() == old(a.View())
  {
    ghost var v, h, f := a.fs.Vol(), a.fs.dev.history, a.fs.dev.faults;
    ghost var k;
    saved, k := a.Save();
    if saved == 0 {
      SaveRestores(v, a.fs.Vol(), h, a.fs.dev.history, k, f < a.fs.dev.faults, a.path, a.View().lines);
    }
  }

  /** `editor_run` up to its prompt: a reset buffer, then the file. */
  method Open(fs: FileSystem, path: Path) returns (b: Editor, ghost loaded: bool)
    requires fs.Valid()
    modifies fs.dev`faults
    ensures fresh(b) && fresh(b.rows) && b.fs == fs && b.path == path && b.Inv() && Start(b.View())
    ensures loaded ==>
              && Volume.Readable(fs.Vol(), path, 2048)
              && b.View().lines == Loaded(VolumeTheorems.Delivered(fs.Vol(), path, 2048))
    ensures !loaded && Volume.Readable(fs.Vol(), path, 2048) ==> old(fs.dev.faults) < fs.dev.faults
    ensures old(fs.dev.faults) <= fs.dev.faults
    ensures fs.Vol() == old(fs.Vol())
  {
    b := new Editor(fs, path);
    loaded := b.Load();
    if loaded {
      ghost var file := VolumeTheorems.Delivered(fs.Vol(), path, 2048);
      assert b.View() == Buffer(Loaded(file), 0);
    }
  }

  /**
   * Saving, and opening the file in a new editor: when the save succeeds, the new editor reads the file unless
   * the device fails, and then it has the same lines exactly if there were any.
   */
  method SaveThenReopen(a: Editor) returns (saved: int, b: Editor, ghost loaded: bool)
    requires a.Shaped() && Volume.Healthy(a.fs.Vol()) && CleanLines(a.View().lines)
    modifies a.fs`usedFiles, a.fs.entries, a.fs.cache
    modifies a.fs.dev`sectors, a.fs.dev`history, a.fs.dev`faults
    ensures fresh(b) && b.path == a.path && b.Inv()
    ensures old(a.fs.dev.faults) <= a.fs.dev.faults
    ensures saved == 0 && a.fs.dev.faults == old(a.fs.dev.faults) ==> loaded
    ensures saved == 0 && loaded ==> (b.View().lines == old(a.View().lines) <==> old(a.View().lines) != [])
  {
    saved := SaveOn(a);
    b, loaded := Open(a.fs, a.path);
  }

  /** The commands typed at the prompt, one after the other. */
  method Perform(a: Editor, es: seq<Edit>)
    requires a.Inv()
    modifies a`lineCount, a`cursor, a`dirty, a.rows
    ensures a.Inv() && a.View() == ApplyEdits(old(a.View()), es)
  {
    for i := 0 to |es|
      invariant a.Inv() && a.View() == ApplyEdits(old(a.View()), es[..i])
    {
      assert es[..i + 1][..i] == es[..i];
      a.Command(es[i]);
    }
    assert es[..|es|] == es;
  }

  /** `editor_run` up to the save: the file is opened and the commands are performed. */
  method OpenAndEdit(fs: FileSystem, path: Path, es: seq<Edit>) returns (a: Editor, ghost start: Buffer)
    requires fs.Valid() && forall i :: 0 <= i < |es| ==> TypedEdit(es[i])
    modifies fs.dev`faults
    ensures fresh(a) && a.fs == fs && a.path == path && a.Inv() && CleanLines(a.View().lines)
    ensures Start(start) && InRange(start) && a.View() == ApplyEdits(start, es)
    ensures fs.Vol() == old(fs.Vol()) && old(fs.dev.faults) <= fs.dev.faults
  {
    ghost var first;
    a, first := Open(fs, path);
    start := a.View();
    StartIsClean(start);
    Perform(a, es);
    EditsKeepClean(start, es);
  }

  /**
   * A whole session on a healthy volume: open the file, type any commands, save, and open the file again.  When the
   * save succeeds and the device does not fail, the lines are back exactly if there is one left.
   */
  method EditThenReopen(fs: FileSystem, path: Path, es: seq<Edit>)
    returns (saved: int, b: Editor, ghost start: Buffer, ghost loaded: bool)
    requires fs.Valid() && Volume.Healthy(fs.Vol()) && forall i :: 0 <= i < |es| ==> TypedEdit(es[i])
    modifies fs`usedFiles, fs.entries, fs.cache, fs.dev`sectors, fs.dev`history, fs.dev`faults
    ensures fresh(b) && b.Inv() && Start(start) && InRange(start)
    ensures saved == 0 && fs.dev.faults == old(fs.dev.faults) ==> loaded
    ensures saved == 0 && loaded ==>
              (b.View().lines == ApplyEdits(start, es).lines <==> ApplyEdits(start, es).lines != [])
  {
    var a;
    a, start := OpenAndEdit(fs, path, es);
    saved, b, loaded := SaveThenReopen(a);
  }
}
