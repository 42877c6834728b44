/** The settings table of config.c and its text form, `key=value` lines cut off at 1023 bytes. */
module ConfigText {
  import opened CTypes

  const LF: byte := 10
  const CR: byte := 13
  const EQUALS: byte := 61

  type Key = k: CString | |k| < 32 witness []

  type Text = v: CString | |v| < 96 witness []

  datatype Entry = Entry(key: Key, value: Text, used: bool)

  const UNUSED := Entry([], [], false)

  type Table = t: seq<Entry> | |t| == 16 witness seq(16, _ => UNUSED)

  // ----- Lookup and update -----

  /** First used slot from `i` on that carries the key, or -1. */
  function FindFrom(t: Table, key: CString, i: nat): (r: int)
    requires i <= 16
    ensures r == -1 || i <= r < 16
    ensures 0 <= r ==> t[r].used && t[r].key == key
    ensures forall j :: i <= j < (if r < 0 then 16 else r) ==> !(t[j].used && t[j].key == key)
    decreases 16 - i
  {
    if i == 16 then -1 else if t[i].used && t[i].key == key then i else FindFrom(t, key, i + 1)
  }

  function FreeFrom(t: Table, i: nat): (r: int)
    requires i <= 16
    ensures r == -1 || i <= r < 16
    ensures 0 <= r ==> !t[r].used
    ensures forall j :: i <= j < (if r < 0 then 16 else r) ==> t[j].used
    decreases 16 - i
  {
    if i == 16 then -1 else if !t[i].used then i else FreeFrom(t, i + 1)
  }

  /** `config_set`: the new table and the return code. */
  function Set(t: Table, key: CString, value: CString): (r: (Table, int)) {
    if key == [] then (t, -1)
    else
      var found := FindFrom(t, key, 0);
      var i := if found < 0 then FreeFrom(t, 0) else found;
      if i < 0 then (t, -1)
      else
        var k := if found < 0 then Clip(key, 32) else t[i].key;
        (t[i := Entry(k, Clip(value, 96), true)], 0)
  }

  const PROMPT: Key := [112, 114, 111, 109, 112, 116]
  const PROMPT_VALUE: Text := [97, 99, 104, 97, 114, 121, 97, 111, 115, 62, 32]
  const LOGLEVEL: Key := [108, 111, 103, 108, 101, 118, 101, 108]
  const LOGLEVEL_VALUE: Text := [105, 110, 102, 111]
  const BROWSER_FILTER: Key := [98, 114, 111, 119, 115, 101, 114, 95, 102, 105, 108, 116, 101, 114]
  const EDITOR_TABWIDTH: Key := [101, 100, 105, 116, 111, 114, 95, 116, 97, 98, 119, 105, 100, 116, 104]
  const EDITOR_TABWIDTH_VALUE: Text := [52]

  function DefaultEntry(i: nat): Entry {
    if i == 0 then Entry(PROMPT, PROMPT_VALUE, true)
    else if i == 1 then Entry(LOGLEVEL, LOGLEVEL_VALUE, true)
    else if i == 2 then Entry(BROWSER_FILTER, [], true)
    else if i == 3 then Entry(EDITOR_TABWIDTH, EDITOR_TABWIDTH_VALUE, true)
    else UNUSED
  }

  /** The table after `config_reset_defaults`. */
  function Defaults(): Table {
    seq(16, i requires 0 <= i => DefaultEntry(i))
  }

  // ----- Saving -----

  /** `key=value`, without the line feed. */
  function Body(e: Entry): (r: CString)
    ensures r == e.key + [EQUALS] + e.value
  {
    Append(Append(e.key, [EQUALS]), e.value)
  }

  function Line(e: Entry): (r: CString)
    ensures r == Body(e) + [LF]
  {
    Append(Body(e), [LF])
  }

  /** The full text of the slots below `k`. */
  function Lines(t: Table, k: nat): CString
    requires k <= 16
  {
    if k == 0 then [] else if t[k - 1].used then Append(Lines(t, k - 1), Line(t[k - 1])) else Lines(t, k - 1)
  }

  function Full(t: Table): CString {
    Lines(t, 16)
  }

  /** What `config_save` writes to the file. */
  function Saved(t: Table): seq<byte> {
    if Full(t) == [] then [LF] else Cut(Full(t), 1023)
  }

  // ----- Loading -----

  /** First position from `p` on that is no line break. */
  function SkipBreaks(s: CString, p: nat): (q: nat)
    requires p <= |s|
    ensures p <= q <= |s|
    decreases |s| - p
  {
    if p < |s| && (s[p] == CR || s[p] == LF) then SkipBreaks(s, p + 1) else p
  }

  /** Up to `room` characters of the line, carriage returns left out, and the position behind them. */
  function TakeLine(s: CString, p: nat, room: nat): (r: (CString, nat))
    requires p <= |s|
    ensures |r.0| <= room && p <= r.1 <= |s|
    decreases |s| - p
  {
    if p == |s| || s[p] == LF || room == 0 then ([], p)
    else if s[p] == CR then TakeLine(s, p + 1, room)
    else
      var r := TakeLine(s, p + 1, room - 1);
      (Prepend(s[p], r.0), r.1)
  }

  /** The position behind the next line feed. */
  function SkipLine(s: CString, p: nat): (q: nat)
    requires p <= |s|
    ensures p <= q <= |s| && (p < |s| ==> p < q)
    decreases |s| - p
  {
    if p == |s| then p else if s[p] == LF then p + 1 else SkipLine(s, p + 1)
  }

  /** `config_next_line`: the line and the position behind it. */
  function NextLine(s: CString, p: nat): (r: (CString, nat))
    requires p <= |s|
    ensures r.1 <= |s| && (p < |s| ==> p < r.1)
  {
    var taken := TakeLine(s, SkipBreaks(s, p), 129);
    (taken.0, SkipLine(s, taken.1))
  }

  /** First `=` from `i` on, or the length. */
  function EqualsFrom(s: CString, i: nat): (r: nat)
    requires i <= |s|
    ensures i <= r <= |s| && (r < |s| ==> s[r] == EQUALS)
    ensures forall j :: i <= j < r ==> s[j] != EQUALS
    decreases |s| - i
  {
    if i == |s| || s[i] == EQUALS then i else EqualsFrom(s, i + 1)
  }

  /** One line of the file, applied to the table. */
  function ApplyLine(t: Table, line: CString): Table {
    var e := EqualsFrom(line, 0);
    if e == |line| then t else Set(t, Sub(line, 0, e), From(line, e + 1)).0
  }

  /** The line loop of `config_load` from position `p` on. */
  function LoadText(s: CString, p: nat, t: Table): Table
    requires p <= |s|
    decreases |s| - p
  {
    if p == |s| then t
    else
      var r := NextLine(s, p);
      LoadText(s, r.1, ApplyLine(t, r.0))
  }

  /** The table after `config_load` has read a file. */
  function Loaded(file: seq<byte>): Table {
    LoadText(Terminated(Cut(file, 1023)), 0, Defaults())
  }
}
