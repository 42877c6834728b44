/** Whole editing sessions: whatever file is opened and whatever is typed, the buffer can be saved and restored. */
module EditorRuns {
  import opened CTypes
  import opened EditorText

  // ----- Commands -----

  /** The commands of `editor_run` that change the buffer or the cursor; texts come from the prompt. */
  datatype Edit = Next | Previous | DeleteHere | InsertHere(text: CString) | AppendLast(text: CString)

  /** What the prompt lets through. */
  predicate Typed(text: CString) {
    forall i :: 0 <= i < |text| ==> 32 <= text[i] <= 126
  }

  predicate TypedEdit(e: Edit) {
    match e
    case InsertHere(text) => Typed(text)
    case AppendLast(text) => Typed(text)
    case _ => true
  }

  function ApplyEdit(b: Buffer, e: Edit): (r: Buffer)
    requires InRange(b)
    ensures InRange(r)
  {
    match e
    case Next => if b.cursor + 1 < |b.lines| then b.(cursor := b.cursor + 1) else b
    case Previous => if b.cursor > 0 then b.(cursor := b.cursor - 1) else b
    case DeleteHere => Delete(b)
    case InsertHere(text) => Insert(b, text)
    case AppendLast(text) => AppendLine(b, text)
  }

  function ApplyEdits(b: Buffer, es: seq<Edit>): (r: Buffer)
    requires InRange(b)
    ensures InRange(r)
  {
    if es == [] then b else ApplyEdit(ApplyEdits(b, es[..|es| - 1]), es[|es| - 1])
  }

  /** `n` leaves the lines and moves to the next line, if there is one; `p` to the one before. */
  lemma CursorMoves(b: Buffer)
    requires InRange(b)
    ensures ApplyEdit(b, Next).lines == b.lines && ApplyEdit(b, Previous).lines == b.lines
    ensures ApplyEdit(b, Next).cursor == if b.cursor + 1 < |b.lines| then b.cursor + 1 else b.cursor
    ensures ApplyEdit(b, Previous).cursor == if b.cursor == 0 then 0 else b.cursor - 1
    ensures b.cursor + 1 < |b.lines| ==> ApplyEdit(ApplyEdit(b, Next), Previous) == b
    ensures b.cursor > 0 ==> ApplyEdit(ApplyEdit(b, Previous), Next) == b
  {
  }

  function Repeat(e: Edit, k: nat): (es: seq<Edit>)
    ensures |es| == k
  {
    if k == 0 then [] else Repeat(e, k - 1) + [e]
  }

  /** `k` times `n` go down `k` lines, or to the last line. */
  lemma {:induction false} WalkDown(b: Buffer, k: nat)
    requires InRange(b) && b.lines != []
    ensures var r := ApplyEdits(b, Repeat(Next, k));
            && r.lines == b.lines
            && r.cursor == if b.cursor + k < |b.lines| then b.cursor + k else |b.lines| - 1
    decreases k
  {
    if k > 0 {
      WalkDown(b, k - 1);
      assert Repeat(Next, k)[..k - 1] == Repeat(Next, k - 1);
    }
  }

  /** `k` times `p` go up `k` lines, or to the first line. */
  lemma {:induction false} WalkUp(b: Buffer, k: nat)
    requires InRange(b)
    ensures var r := ApplyEdits(b, Repeat(Previous, k));
            r.lines == b.lines && r.cursor == if k < b.cursor then b.cursor - k else 0
    decreases k
  {
    if k > 0 {
      WalkUp(b, k - 1);
      assert Repeat(Previous, k)[..k - 1] == Repeat(Previous, k - 1);
    }
  }

  // ----- Buffers are clean -----

  /** A line as the byte loop builds it. */
  predicate CleanRaw(l: seq<byte>) {
    |l| < LINE_MAX && forall i :: 0 <= i < |l| ==> l[i] != CR && l[i] != LF
  }

  lemma {:induction false} SplitIsClean(b: seq<byte>, i: nat, done: seq<seq<byte>>, line: seq<byte>)
    requires i <= |b| && |done| <= MAX_LINES && CleanRaw(line) && forall k :: 0 <= k < |done| ==> CleanRaw(done[k])
    ensures forall k :: 0 <= k < |SplitFrom(b, i, done, line)| ==> CleanRaw(SplitFrom(b, i, done, line)[k])
    decreases |b| - i
  {
    if |done| == MAX_LINES || i == |b| {
    } else if b[i] == CR {
      SplitIsClean(b, i + 1, done, line);
    } else if b[i] == LF {
      SplitIsClean(b, i + 1, done + [line], []);
    } else {
      SplitIsClean(b, i + 1, done, if |line| + 1 < LINE_MAX then line + [b[i]] else line);
    }
  }

  /** Whatever the file holds, the lines loaded are clean. */
  lemma LoadedIsClean(b: seq<byte>)
    ensures CleanLines(Loaded(b))
  {
    SplitIsClean(b, 0, [], []);
    var raw := SplitFrom(b, 0, [], []);
    forall k | 0 <= k < |raw| ensures CleanLine(Terminated(raw[k])) {
      assert CleanRaw(raw[k]);
      assert forall i :: 0 <= i < |Terminated(raw[k])| ==> Terminated(raw[k])[i] == raw[k][i];
    }
  }

  lemma TypedIsClean(text: CString)
    requires Typed(text)
    ensures CleanLine(Clip(text, 64))
  {
    var c := Clip(text, 64);
    assert forall i :: 0 <= i < |c| ==> c[i] == text[i];
  }

  /** Any command with typed text keeps the lines clean. */
  lemma EditKeepsClean(b: Buffer, e: Edit)
    requires InRange(b) && CleanLines(b.lines) && TypedEdit(e)
    ensures CleanLines(ApplyEdit(b, e).lines)
  {
    match e
    case InsertHere(text) => TypedIsClean(text);
    case AppendLast(text) => TypedIsClean(text);
    case _ =>
  }

  lemma {:induction false} EditsKeepClean(b: Buffer, es: seq<Edit>)
    requires InRange(b) && CleanLines(b.lines) && forall i :: 0 <= i < |es| ==> TypedEdit(es[i])
    ensures CleanLines(ApplyEdits(b, es).lines)
    decreases |es|
  {
    if es != [] {
      EditsKeepClean(b, es[..|es| - 1]);
      EditKeepsClean(ApplyEdits(b, es[..|es| - 1]), es[|es| - 1]);
    }
  }

  /** A session starts with the lines of the file, or with none if it cannot be read. */
  ghost predicate Start(b: Buffer) {
    b == Buffer([], 0) || exists file :: b == Buffer(Loaded(file), 0)
  }

  lemma StartIsClean(b: Buffer)
    requires Start(b)
    ensures InRange(b) && CleanLines(b.lines)
  {
    if b != Buffer([], 0) {
      var file :| b == Buffer(Loaded(file), 0);
      LoadedIsClean(file);
    }
  }

  /**
   * Whatever file was opened, if any, and whatever was typed: saving and loading restores the lines exactly if there
   * is a line left.
   */
  lemma AnySessionSurvives(b: Buffer, es: seq<Edit>)
    requires Start(b) && forall i :: 0 <= i < |es| ==> TypedEdit(es[i])
    ensures InRange(b)
    ensures var ls := ApplyEdits(b, es).lines; Loaded(Saved(ls)) == ls <==> ls != []
  {
    StartIsClean(b);
    EditsKeepClean(b, es);
    RoundTripIffNonempty(ApplyEdits(b, es).lines);
  }
}
