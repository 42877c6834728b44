/** The editor's file as others see it: what is saved, and what any text becomes when it is opened. */
module EditorFormat {
  import opened CTypes
  import opened EditorText

  /** Every line is followed by a line feed; an empty buffer is one line feed. */
  lemma SavedText(ls: seq<CString>, k: nat)
    requires k < |ls|
    ensures Lines(ls, 0) == [] && Lines(ls, k + 1) == Lines(ls, k) + ls[k] + ['\n' as int]
    ensures Saved(ls) == if |Full(ls)| <= 2047 then Full(ls) else Full(ls)[..2047]
    ensures Saved([]) == ['\n' as int]
  {
    FullIsLonger(ls, k);
  }

  lemma FullIsLonger(ls: seq<CString>, k: nat)
    requires k < |ls|
    ensures Full(ls) != []
  {
    NextStart(ls, k);
    LinesPrefix(ls, k + 1, |ls|);
  }

  /** The rows a text of lines fills: at most 32, each cut at 63 characters. */
  function Rows(ls: seq<CString>): nat {
    if |ls| < 32 then |ls| else 32
  }

  /**
   * Opening a text of any number of lines of any length: the rows are its first 32 lines, each cut at 63
   * characters, whether or not a line feed ends a last line that is not empty.
   */
  lemma LoadedRows(ls: seq<CString>, s: seq<byte>)
    requires TextLines(ls) && ls != []
    requires s == Full(ls) || (ls[|ls| - 1] != [] && s + ['\n' as int] == Full(ls))
    ensures |Loaded(s)| == Rows(ls)
    ensures forall i :: 0 <= i < Rows(ls) ==>
              Loaded(s)[i] == if |ls[i]| < 64 then ls[i] else ls[i][..63]
  {
    SplitRows(ls, s);
    forall i | 0 <= i < Rows(ls)
      ensures Terminated(Raw(ls, Rows(ls))[i]) == Clip(ls[i], 64)
    {
      TerminatedOfString(Clip(ls[i], 64));
    }
  }

  lemma SplitRows(ls: seq<CString>, s: seq<byte>)
    requires TextLines(ls) && ls != []
    requires s == Full(ls) || (ls[|ls| - 1] != [] && s + [LF] == Full(ls))
    ensures SplitFrom(s, 0, [], []) == Raw(ls, Rows(ls))
  {
    var n := |ls|;
    if n > 32 || s == Full(ls) {
      EnoughText(ls, s);
      SplitLines(ls, s, Rows(ls));
    } else {
      SplitOpenLine(ls, s);
    }
  }

  /** The text reaches to the end of the last row. */
  lemma EnoughText(ls: seq<CString>, s: seq<byte>)
    requires |ls| > 32 || s == Full(ls)
    requires s == Full(ls) || s + [LF] == Full(ls)
    ensures s <= Full(ls) && LineStart(ls, Rows(ls)) <= |s|
  {
    var n := |ls|;
    if n > 32 {
      NextStart(ls, 32);
      LinesPrefix(ls, 33, n);
    }
    if s != Full(ls) {
      assert s == Full(ls)[..|s|];
    }
  }

  /** The last line has no line feed. */
  lemma SplitOpenLine(ls: seq<CString>, s: seq<byte>)
    requires TextLines(ls) && 0 < |ls| <= 32 && ls[|ls| - 1] != [] && s + [LF] == Full(ls)
    ensures SplitFrom(s, 0, [], []) == Raw(ls, |ls|)
  {
    var n := |ls|;
    var last := ls[n - 1];
    NextStart(ls, n - 1);
    assert s == Full(ls)[..|s|];
    SplitLines(ls, s, n - 1);
    SplitInLine(ls, s, n - 1, |last|);
    var row := last[..if |last| < 63 then |last| else 63];
    assert row == Clip(last, 64) && Raw(ls, n - 1) + [row] == Raw(ls, n);
  }

  // ----- Carriage returns -----

  /** The text from a position on, without its carriage returns. */
  function WithoutReturns(b: seq<byte>, i: nat): seq<byte>
    requires i <= |b|
    decreases |b| - i
  {
    if i == |b| then []
    else if b[i] == '\r' as int then WithoutReturns(b, i + 1)
    else [b[i]] + WithoutReturns(b, i + 1)
  }

  /** Carriage returns make no difference to what is opened. */
  lemma ReturnsVanish(b: seq<byte>)
    ensures Loaded(b) == Loaded(WithoutReturns(b, 0))
  {
    var c := WithoutReturns(b, 0);
    assert c[0..] == c;
    SameSplit(b, 0, c, 0, [], []);
  }

  lemma {:induction false} SameSplit(b: seq<byte>, i: nat, c: seq<byte>, j: nat, done: seq<seq<byte>>, line: seq<byte>)
    requires i <= |b| && j <= |c| && c[j..] == WithoutReturns(b, i)
    requires |done| <= MAX_LINES && |line| < LINE_MAX
    ensures SplitFrom(b, i, done, line) == SplitFrom(c, j, done, line)
    decreases |b| - i
  {
    if i < |b| && |done| < MAX_LINES {
      if b[i] == CR {
        SameSplit(b, i + 1, c, j, done, line);
      } else {
        NoReturns(b, i);
        assert c[j] == c[j..][0] == b[i] && c[j + 1..] == c[j..][1..];
        if b[i] == LF {
          SameSplit(b, i + 1, c, j + 1, done + [line], []);
        } else {
          SameSplit(b, i + 1, c, j + 1, done, if |line| + 1 < LINE_MAX then line + [b[i]] else line);
        }
      }
    }
  }

  lemma NoReturns(b: seq<byte>, i: nat)
    requires i < |b| && b[i] != CR
    ensures WithoutReturns(b, i) == [b[i]] + WithoutReturns(b, i + 1)
  {
  }
}
