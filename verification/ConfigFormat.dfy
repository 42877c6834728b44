/** The settings file as others see it: what is written in characters, and what a file written by hand does. */
module ConfigFormat {
  import opened CTypes
  import opened ConfigText
  import opened ConfigProofs
  import opened ConfigRuns

  /** The defaults by name. */
  lemma DefaultPrompt()
    ensures Get(Defaults(), Bytes("prompt")) == Found(Bytes("acharyaos> "))
  {
    DefaultAt(0, Bytes("prompt"), Bytes("acharyaos> "));
  }

  lemma DefaultLogLevel()
    ensures Get(Defaults(), Bytes("loglevel")) == Found(Bytes("info"))
  {
    DefaultAt(1, Bytes("loglevel"), Bytes("info"));
  }

  lemma DefaultFilter()
    ensures Get(Defaults(), Bytes("browser_filter")) == Found([])
  {
    DefaultAt(2, Bytes("browser_filter"), []);
  }

  lemma DefaultTabWidth()
    ensures Get(Defaults(), Bytes("editor_tabwidth")) == Found(Bytes("4"))
  {
    DefaultAt(3, Bytes("editor_tabwidth"), Bytes("4"));
  }

  lemma DefaultAt(i: nat, key: CString, value: CString)
    requires i < 4 && DefaultEntry(i).key == key && DefaultEntry(i).value == value
    ensures FindFrom(Defaults(), key, 0) == i && Get(Defaults(), key) == Found(value)
  {
    DefaultsReachable();
    var f := FindFrom(Defaults(), key, 0);
    assert Defaults()[i].used && Defaults()[i].key == key;
  }

  /** Each used slot is one line: the key, an equals sign, the value, a line feed. */
  lemma {:induction false} SavedLines(t: Table, k: nat)
    requires k < 16
    ensures Lines(t, 0) == []
    ensures Lines(t, k + 1) == if t[k].used then Lines(t, k) + t[k].key + ['=' as int] + t[k].value + ['\n' as int]
                               else Lines(t, k)
  {
  }

  /** A file of one line `key=value` sets that key over the defaults, with or without a line feed at the end. */
  lemma OneLineFile(key: CString, value: CString, file: seq<byte>)
    requires CleanKey(key) && CleanValue(value) && |key| + |value| < 129
    requires file == key + ['=' as int] + value || file == key + ['=' as int] + value + ['\n' as int]
    ensures Loaded(file) == Set(Defaults(), key, value).0
  {
    var line := Append(Append(key, [EQUALS]), value);
    var s := if file == line then line else Append(line, [LF]);
    TerminatedOfString(s);
    assert HoldsLine(s, 0, line);
    NextLineIs(s, 0, line);
    ApplyPart(Defaults(), key, value);
    assert LoadText(s, 0, Defaults()) == LoadText(s, |s|, ApplyLine(Defaults(), line));
  }

  /** A file that names one key changes the answer for that key, and for no other. */
  lemma OneLineChanges(key: CString, value: CString, file: seq<byte>, other: CString)
    requires CleanKey(key) && |key| < 32 && CleanValue(value) && |value| < 96
    requires file == key + ['=' as int] + value + ['\n' as int]
    ensures Get(Loaded(file), other) == if other == key then Found(value) else Get(Defaults(), other)
  {
    OneLineFile(key, value, file);
    GetAfterSet(Defaults(), key, value, other);
    FreeInDefaults(key);
  }

  lemma FreeInDefaults(key: CString)
    ensures key != [] ==> Set(Defaults(), key, []).1 == 0 && FreeFrom(Defaults(), 0) == 4
    ensures 0 <= FindFrom(Defaults(), key, 0) ==> FindFrom(Defaults(), key, 0) < 4
  {
    DefaultsReachable();
    FirstFreeIs(Defaults(), 4);
    assert forall i :: 4 <= i < 16 ==> !Defaults()[i].used;
  }

  // ----- Any text -----

  /** Line feeds and carriage returns in front of a line make no difference. */
  lemma {:induction false} BlankLinesAreSkipped(s: CString, p: nat, q: nat)
    requires p <= q <= |s| && forall i :: p <= i < q ==> s[i] == '\n' as int || s[i] == '\r' as int
    ensures NextLine(s, p) == NextLine(s, q)
    decreases q - p
  {
    if p < q {
      BlankLinesAreSkipped(s, p + 1, q);
    }
  }

  /** A line `key=value` sets the key, up to its first equals sign, to what follows. */
  lemma SettingLine(t: Table, line: CString, e: nat)
    requires 0 < e < |line| && line[e] == '=' as int && forall i :: 0 <= i < e ==> line[i] != '=' as int
    ensures ApplyLine(t, line) == Set(t, Sub(line, 0, e), From(line, e + 1)).0
  {
    var f := EqualsFrom(line, 0);
    assert f == e;
  }

  /** A line without an equals sign, or with nothing in front of it, changes no setting. */
  lemma OtherLinesDoNothing(t: Table, line: CString)
    requires (forall i :: 0 <= i < |line| ==> line[i] != '=' as int) || (line != [] && line[0] == '=' as int)
    ensures ApplyLine(t, line) == t
  {
    var e := EqualsFrom(line, 0);
    if line != [] && line[0] == EQUALS {
      assert Sub(line, 0, 0) == [];
    }
  }

  /** A line of any length without line breaks. */
  predicate Unbroken(line: CString) {
    forall i :: 0 <= i < |line| ==> line[i] != '\n' as int && line[i] != '\r' as int
  }

  /** From position `p` on, the text holds the line, then ends or has a line feed. */
  predicate Stands(s: CString, p: nat, line: CString) {
    && p + |line| <= |s| && Unbroken(line)
    && (forall i :: 0 <= i < |line| ==> s[p + i] == line[i])
    && (p + |line| < |s| ==> s[p + |line|] == LF)
  }

  function Least(a: nat, b: nat): nat {
    if a < b then a else b
  }

  lemma {:induction false} TakeStanding(s: CString, p: nat, line: CString, i: nat, room: nat)
    requires Stands(s, p, line) && i <= |line|
    ensures TakeLine(s, p + i, room).0 == line[i..Least(i + room, |line|)]
    ensures TakeLine(s, p + i, room).1 == p + Least(i + room, |line|)
    decreases |line| - i
  {
    if i < |line| && room > 0 {
      TakeStanding(s, p, line, i + 1, room - 1);
      assert s[p + i] == line[i];
    }
  }

  lemma {:induction false} SkipStanding(s: CString, p: nat, line: CString, i: nat)
    requires Stands(s, p, line) && i <= |line|
    ensures SkipLine(s, p + i) == if p + |line| == |s| then |s| else p + |line| + 1
    decreases |line| - i
  {
    if i < |line| {
      SkipStanding(s, p, line, i + 1);
      assert s[p + i] == line[i];
    }
  }

  /** Of a line its first 129 characters are read, and the rest passed over. */
  lemma StandingIsRead(s: CString, p: nat, line: CString)
    requires Stands(s, p, line) && line != []
    ensures NextLine(s, p).0 == line[..Least(129, |line|)]
    ensures NextLine(s, p).1 == if p + |line| == |s| then |s| else p + |line| + 1
  {
    assert s[p] == line[0];
    TakeStanding(s, p, line, 0, 129);
    SkipStanding(s, p, line, Least(129, |line|));
  }

  /** The text of the lines from `k` on. */
  function TextFrom(ls: seq<CString>, k: nat): seq<byte>
    requires k <= |ls|
    decreases |ls| - k
  {
    if k == |ls| then [] else ls[k] + ['\n' as int] + TextFrom(ls, k + 1)
  }

  /** A line of which 129 characters count. */
  function OneApplied(t: Table, line: CString): Table {
    ApplyLine(t, Sub(line, 0, Least(129, |line|)))
  }

  /** The table after the lines from `k` on. */
  function Applied(t: Table, ls: seq<CString>, k: nat): Table
    requires k <= |ls|
    decreases |ls| - k
  {
    if k == |ls| then t else Applied(OneApplied(t, ls[k]), ls, k + 1)
  }

  lemma FirstStands(s: CString, p: nat, line: CString, rest: seq<byte>)
    requires Unbroken(line) && Remains(s, p, line + [LF] + rest)
    ensures Stands(s, p, line) && p + |line| < |s| && Remains(s, p + |line| + 1, rest)
  {
    assert forall i :: 0 <= i < |line| ==> s[p + i] == s[p..][i];
    assert s[p + |line|] == s[p..][|line|];
    assert s[p + |line| + 1..] == s[p..][|line| + 1..];
  }

  lemma EmptyChangesNothing(t: Table, line: CString)
    requires line == []
    ensures ApplyLine(t, line) == t
  {
  }

  /** Reading the file on from `p` with the table `t` ends with the table `r`. */
  predicate Leads(s: CString, p: nat, t: Table, r: Table) {
    p <= |s| && LoadText(s, p, t) == r
  }

  lemma LineIsApplied(s: CString, p: nat, q: nat, line: CString, t: Table, u: Table, r: Table)
    requires Stands(s, p, line) && q == p + |line| + 1 <= |s| && u == OneApplied(t, line) && Leads(s, q, u, r)
    ensures Leads(s, p, t, r)
  {
    if line == [] {
      EmptyChangesNothing(t, Sub(line, 0, 0));
      BreakIsSkipped(s, p, t);
    } else {
      StandingIsRead(s, p, line);
    }
  }

  predicate Remains(s: CString, p: nat, rest: seq<byte>) {
    p <= |s| && s[p..] == rest
  }

  lemma {:induction false} LinesAreApplied(s: CString, p: nat, ls: seq<CString>, k: nat, t: Table)
    requires k <= |ls| && Remains(s, p, TextFrom(ls, k)) && forall i :: 0 <= i < |ls| ==> Unbroken(ls[i])
    ensures Leads(s, p, t, Applied(t, ls, k))
    decreases |ls| - k
  {
    if k < |ls| {
      var q := TextGoesOn(s, p, ls, k);
      var u := OneApplied(t, ls[k]);
      LinesAreApplied(s, q, ls, k + 1, u);
      var r := Applied(u, ls, k + 1);
      LineIsApplied(s, p, q, ls[k], t, u, r);
    }
  }

  /** The next line stands at `p`, and the text of those behind it remains. */
  lemma TextGoesOn(s: CString, p: nat, ls: seq<CString>, k: nat) returns (q: nat)
    requires k < |ls| && Remains(s, p, TextFrom(ls, k)) && Unbroken(ls[k])
    ensures Stands(s, p, ls[k]) && q == p + |ls[k]| + 1 <= |s| && Remains(s, q, TextFrom(ls, k + 1))
  {
    q := p + |ls[k]| + 1;
    FirstStands(s, p, ls[k], TextFrom(ls, k + 1));
  }

  lemma BreakIsSkipped(s: CString, p: nat, t: Table)
    requires p < |s| && s[p] == LF
    ensures LoadText(s, p, t) == LoadText(s, p + 1, t)
  {
    if p + 1 == |s| {
      EmptyChangesNothing(t, NextLine(s, p).0);
    }
  }

  /**
   * Any file of lines, of any length and in any number, loads as the defaults with line after line applied: of each
   * line its first 129 characters, of the file as far as 1023.
   */
  lemma FileOfLines(ls: seq<CString>, file: seq<byte>)
    requires (forall i :: 0 <= i < |ls| ==> Unbroken(ls[i])) && |file| <= 1023 && file == TextFrom(ls, 0)
    ensures Loaded(file) == Applied(Defaults(), ls, 0)
  {
    TextIsString(ls, 0);
    TerminatedOfString(file);
    LinesAreApplied(file, 0, ls, 0, Defaults());
  }

  lemma {:induction false} TextIsString(ls: seq<CString>, k: nat)
    requires k <= |ls|
    ensures forall i :: 0 <= i < |TextFrom(ls, k)| ==> TextFrom(ls, k)[i] != 0
    decreases |ls| - k
  {
    if k < |ls| {
      TextIsString(ls, k + 1);
    }
  }

  /** What stands behind the first 1023 bytes of a file does not count. */
  lemma OnlyTheStartCounts(file: seq<byte>, other: seq<byte>)
    requires |file| >= 1023 && |other| >= 1023 && file[..1023] == other[..1023]
    ensures Loaded(file) == Loaded(other)
  {
    assert Cut(file, 1023) == file[..1023] == Cut(other, 1023);
  }
}
