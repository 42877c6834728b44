/** Saving and loading the settings: exactly the tables whose text has at most 1024 bytes survive. */
module ConfigProofs {
  import opened CTypes
  import opened ConfigText

  predicate CleanKey(k: CString) {
    k != [] && forall i :: 0 <= i < |k| ==> k[i] != EQUALS && k[i] != CR && k[i] != LF
  }

  predicate CleanValue(v: CString) {
    forall i :: 0 <= i < |v| ==> v[i] != CR && v[i] != LF
  }

  /** The first `n` slots hold clean settings. */
  predicate CleanSlots(t: Table, n: nat) {
    n <= 16 && forall i :: 0 <= i < n ==> t[i].used && CleanKey(t[i].key) && CleanValue(t[i].value)
  }

  /**
   * Tables the kernel can reach with clean settings: the defaults' keys in slots 0 to 3, then further
   * settings without gaps, no key twice.
   */
  predicate Reachable(t: Table, n: nat) {
    && 4 <= n && CleanSlots(t, n)
    && (forall i :: n <= i < 16 ==> t[i] == UNUSED)
    && (forall i :: 0 <= i < 4 ==> t[i].key == DefaultEntry(i).key)
    && (forall i, j :: 0 <= i < j < n ==> t[i].key != t[j].key)
  }

  lemma DefaultsReachable()
    ensures Reachable(Defaults(), 4)
  {
    forall i | 0 <= i < 4 ensures CleanKey(Defaults()[i].key) && CleanValue(Defaults()[i].value) {
      DefaultIsClean(i);
    }
  }

  lemma DefaultIsClean(i: nat)
    requires i < 4
    ensures var e := DefaultEntry(i); e.used && CleanKey(e.key) && CleanValue(e.value)
    ensures |DefaultEntry(i).key| == (if i == 0 then 6 else if i == 1 then 8 else if i == 2 then 14 else 15)
  {
  }

  /** Changing a setting keeps the table reachable. */
  lemma SetOldKey(t: Table, n: nat, key: CString, value: CString)
    requires Reachable(t, n) && CleanValue(value) && 0 <= FindFrom(t, key, 0) && CleanKey(key)
    ensures Reachable(Set(t, key, value).0, n)
  {
    var i := FindFrom(t, key, 0);
    var r := Set(t, key, value).0;
    assert i < n && r == t[i := Entry(t[i].key, Clip(value, 96), true)];
    assert forall j :: 0 <= j < 16 ==> r[j].key == t[j].key && r[j].used == t[j].used;
  }

  lemma FirstFreeIs(t: Table, n: nat)
    requires Reachable(t, n) && n < 16
    ensures FreeFrom(t, 0) == n
  {
    var r := FreeFrom(t, 0);
    assert !t[n].used;
    if 0 <= r {
      assert n <= r;
    }
  }

  /** A clean entry with a new key in the next slot. */
  lemma ReachableNext(t: Table, n: nat, e: Entry)
    requires Reachable(t, n) && n < 16 && e.used && CleanKey(e.key) && CleanValue(e.value)
    requires forall j :: 0 <= j < n ==> t[j].key != e.key
    ensures Reachable(t[n := e], n + 1)
  {
    var r: Table := t[n := e];
    assert r[n] == e;
  }

  /** A new setting takes the next slot. */
  lemma SetNewKey(t: Table, n: nat, key: CString, value: CString)
    requires Reachable(t, n) && CleanValue(value) && FindFrom(t, key, 0) < 0 && CleanKey(key) && |key| < 32 && n < 16
    ensures Reachable(Set(t, key, value).0, n + 1)
    ensures Set(t, key, value) == (t[n := Entry(key, Clip(value, 96), true)], 0)
  {
    FirstFreeIs(t, n);
    var e := Entry(key, Clip(value, 96), true);
    forall j | 0 <= j < n ensures t[j].key != key {
      assert t[j].used;
    }
    ReachableNext(t, n, e);
  }

  /** A full table refuses a new setting. */
  lemma SetFullTable(t: Table, key: CString, value: CString)
    requires Reachable(t, 16) && FindFrom(t, key, 0) < 0
    ensures Set(t, key, value) == (t, -1)
  {
    assert forall i :: 0 <= i < 16 ==> t[i].used;
  }

  // ----- The text of a table, cut off somewhere -----

  lemma {:induction false} LinesPrefix(t: Table, j: nat, k: nat)
    requires j <= k <= 16
    ensures |Lines(t, j)| <= |Lines(t, k)| && Lines(t, k)[..|Lines(t, j)|] == Lines(t, j)
    decreases k
  {
    if j < k {
      LinesPrefix(t, j, k - 1);
    }
  }

  lemma {:induction false} UnusedAddNothing(t: Table, n: nat, k: nat)
    requires n <= k <= 16 && forall i :: n <= i < 16 ==> !t[i].used
    ensures Lines(t, k) == Lines(t, n)
    decreases k
  {
    if k == n {
    } else {
      UnusedAddNothing(t, n, k - 1);
    }
  }

  /** Where the line of slot `k` starts. */
  function LineStart(t: Table, k: nat): nat
    requires k <= 16
  {
    |Lines(t, k)|
  }

  lemma NextStart(t: Table, n: nat, k: nat)
    requires CleanSlots(t, n) && k < n
    ensures LineStart(t, k + 1) == LineStart(t, k) + |Body(t[k])| + 1
  {
  }

  /** The text and the saved text agree up to the cut. */
  predicate Prefix(s: CString, t: Table) {
    s <= Full(t)
  }

  /** In the text, slot `k`'s line stands at its place. */
  lemma LineStands(t: Table, n: nat, s: CString, k: nat, i: nat)
    requires CleanSlots(t, n) && Prefix(s, t) && k < n && i <= |Body(t[k])| && LineStart(t, k) + i < |s|
    ensures s[LineStart(t, k) + i] == if i < |Body(t[k])| then Body(t[k])[i] else LF
  {
    LinesPrefix(t, k + 1, 16);
    InPrefixes(s, Full(t), Lines(t, k), Line(t[k]), i);
  }

  lemma BodyIsClean(e: Entry)
    requires CleanKey(e.key) && CleanValue(e.value)
    ensures CleanValue(Body(e)) && 0 < |Body(e)| <= 129
  {
  }

  // ----- Reading one line -----

  /** From position `p` on, the text holds the clean string `b`, then ends or has a line feed. */
  predicate HoldsLine(s: CString, p: nat, b: CString) {
    && p + |b| <= |s| && CleanValue(b) && |b| <= 129
    && (forall i :: 0 <= i < |b| ==> s[p + i] == b[i])
    && (p + |b| < |s| ==> s[p + |b|] == LF)
  }

  lemma PrependRest(b: CString, i: nat)
    requires i < |b|
    ensures Prepend(b[i], From(b, i + 1)) == From(b, i)
  {
  }

  lemma {:induction false} TakeBody(s: CString, p: nat, b: CString, i: nat, room: nat)
    requires HoldsLine(s, p, b) && i <= |b| && |b| - i <= room
    ensures TakeLine(s, p + i, room).0 == From(b, i) && TakeLine(s, p + i, room).1 == p + |b|
    decreases |b| - i
  {
    if i < |b| {
      TakeBody(s, p, b, i + 1, room - 1);
      PrependRest(b, i);
      assert s[p + i] == b[i];
    }
  }

  /** A clean line is read whole, with or without its line feed. */
  lemma NextLineIs(s: CString, p: nat, b: CString)
    requires HoldsLine(s, p, b) && b != []
    ensures NextLine(s, p).0 == b && NextLine(s, p).1 == if p + |b| == |s| then |s| else p + |b| + 1
  {
    assert s[p] == b[0];
    TakeBody(s, p, b, 0, 129);
    assert From(b, 0) == b;
  }

  /** A line cut off behind its `=` sets the key to the part of the value that is left. */
  lemma ApplyPart(t: Table, key: CString, value: CString)
    requires CleanKey(key)
    ensures ApplyLine(t, Append(Append(key, [EQUALS]), value)) == Set(t, key, value).0
  {
    var line := Append(Append(key, [EQUALS]), value);
    assert line[|key|] == EQUALS;
    assert forall j :: 0 <= j < |key| ==> line[j] == key[j];
    assert Sub(line, 0, |key|) == key && From(line, |key| + 1) == value;
  }

  // ----- The table while its own text is being read -----

  /** The first `k` slots as saved, the rest as after a reset. */
  function Mixed(t: Table, k: nat): (r: Table)
    ensures forall i :: 0 <= i < 16 ==> r[i] == if i < k then t[i] else DefaultEntry(i)
  {
    seq(16, i requires 0 <= i < 16 => if i < k then t[i] else DefaultEntry(i))
  }

  lemma MixedStart(t: Table)
    ensures Mixed(t, 0) == Defaults()
  {
  }

  lemma MixedEnd(t: Table, n: nat)
    requires Reachable(t, n)
    ensures Mixed(t, n) == t
  {
  }

  lemma MixedNext(t: Table, n: nat, k: nat)
    requires Reachable(t, n) && k < n
    ensures Mixed(t, k)[k := Entry(t[k].key, t[k].value, true)] == Mixed(t, k + 1)
  {
  }

  /** The key of slot `k` is there already if it is one of the defaults'. */
  lemma MixedFinds(t: Table, n: nat, k: nat)
    requires Reachable(t, n) && k < n
    ensures FindFrom(Mixed(t, k), t[k].key, 0) == if k < 4 then k else -1
  {
    var m := Mixed(t, k);
    forall i | 0 <= i < 16 && m[i].used && m[i].key == t[k].key ensures i == k && k < 4 {
      assert m[i].key == t[i].key;
    }
    assert k < 4 ==> m[k].used && m[k].key == t[k].key;
  }

  lemma MixedFree(t: Table, n: nat, k: nat)
    requires Reachable(t, n) && 4 <= k < n
    ensures FreeFrom(Mixed(t, k), 0) == k
  {
    var m := Mixed(t, k);
    assert !m[k].used;
    assert forall i :: 0 <= i < k ==> m[i].used;
  }

  /** Setting the key of slot `k` fills slot `k`. */
  lemma SetFillsSlot(t: Table, n: nat, k: nat, value: Text)
    requires Reachable(t, n) && k < n
    ensures Set(Mixed(t, k), t[k].key, value).0 == Mixed(t, k)[k := Entry(t[k].key, value, true)]
  {
    MixedFinds(t, n, k);
    if k < 4 {
      assert Mixed(t, k)[k].key == t[k].key;
    } else {
      MixedFree(t, n, k);
    }
  }

  /** Reading on from `p` with `t` ends like reading on from `q` with `u`. */
  predicate SameLoad(s: CString, p: nat, t: Table, q: nat, u: Table)
    requires p <= |s| && q <= |s|
  {
    LoadText(s, p, t) == LoadText(s, q, u)
  }

  lemma SameLoadIfEqual(s: CString, p: nat, t: Table, u: Table)
    requires p <= |s| && t == u
    ensures SameLoad(s, p, t, p, u)
  {
  }

  lemma SameLoadChains(s: CString, p: nat, t: Table, q: nat, u: Table, r: nat, w: Table)
    requires p <= |s| && q <= |s| && r <= |s| && SameLoad(s, p, t, q, u) && SameLoad(s, q, u, r, w)
    ensures SameLoad(s, p, t, r, w)
  {
  }

  lemma OneLine(s: CString, p: nat, t: Table, u: Table)
    requires p < |s| && u == ApplyLine(t, NextLine(s, p).0)
    ensures SameLoad(s, p, t, NextLine(s, p).1, u)
  {
  }

  lemma BodyHolds(t: Table, n: nat, s: CString, k: nat)
    requires CleanSlots(t, n) && Prefix(s, t) && k < n && LineStart(t, k) + |Body(t[k])| <= |s|
    ensures HoldsLine(s, LineStart(t, k), Body(t[k]))
  {
    BodyIsClean(t[k]);
    forall i | 0 <= i <= |Body(t[k])| && LineStart(t, k) + i < |s|
      ensures s[LineStart(t, k) + i] == if i < |Body(t[k])| then Body(t[k])[i] else LF
    {
      LineStands(t, n, s, k, i);
    }
    if LineStart(t, k) + |Body(t[k])| < |s| {
      LineStands(t, n, s, k, |Body(t[k])|);
    }
  }

  /** Where reading stands after the line of slot `k`, if the text reaches that far. */
  function Behind(t: Table, s: CString, k: nat): nat
    requires k < 16
  {
    if LineStart(t, k + 1) <= |s| then LineStart(t, k + 1) else |s|
  }

  lemma BodyIsRead(t: Table, n: nat, s: CString, k: nat)
    requires CleanSlots(t, n) && Prefix(s, t) && k < n && LineStart(t, k) + |Body(t[k])| <= |s|
    ensures LineStart(t, k) < |s|
    ensures NextLine(s, LineStart(t, k)).0 == Body(t[k]) && NextLine(s, LineStart(t, k)).1 == Behind(t, s, k)
  {
    BodyIsClean(t[k]);
    BodyHolds(t, n, s, k);
    NextLineIs(s, LineStart(t, k), Body(t[k]));
    NextStart(t, n, k);
  }

  lemma ApplyBody(t: Table, n: nat, k: nat)
    requires Reachable(t, n) && k < n
    ensures Mixed(t, k + 1) == ApplyLine(Mixed(t, k), Body(t[k]))
  {
    ApplyPart(Mixed(t, k), t[k].key, t[k].value);
    SetFillsSlot(t, n, k, t[k].value);
    MixedNext(t, n, k);
  }

  lemma LoadLine(t: Table, n: nat, s: CString, k: nat)
    requires Reachable(t, n) && Prefix(s, t) && k < n && LineStart(t, k) + |Body(t[k])| <= |s|
    ensures SameLoad(s, LineStart(t, k), Mixed(t, k), Behind(t, s, k), Mixed(t, k + 1))
  {
    BodyIsRead(t, n, s, k);
    ApplyBody(t, n, k);
    OneLine(s, LineStart(t, k), Mixed(t, k), Mixed(t, k + 1));
  }

  /** Reading the complete lines of the slots below `k` restores them. */
  lemma {:induction false} LoadLines(t: Table, n: nat, s: CString, k: nat)
    requires Reachable(t, n) && Prefix(s, t) && k <= n && LineStart(t, k) <= |s|
    ensures SameLoad(s, 0, Defaults(), LineStart(t, k), Mixed(t, k))
    decreases k
  {
    if k == 0 {
      MixedStart(t);
      SameLoadIfEqual(s, 0, Defaults(), Mixed(t, 0));
    } else {
      NextStart(t, n, k - 1);
      LoadLines(t, n, s, k - 1);
      LoadLine(t, n, s, k - 1);
      SameLoadChains(s, 0, Defaults(), LineStart(t, k - 1), Mixed(t, k - 1), LineStart(t, k), Mixed(t, k));
    }
  }

  // ----- Round trip -----

  /** Texts of at most 1024 bytes lose nothing but perhaps the last line feed, which nobody misses. */
  lemma ShortTextSurvives(t: Table, n: nat)
    requires Reachable(t, n) && |Full(t)| <= 1024
    ensures Loaded(Saved(t)) == t
  {
    UnusedAddNothing(t, n, 16);
    NextStart(t, n, n - 1);
    var s := Sub(Full(t), 0, |Cut(Full(t), 1023)|);
    assert s == Cut(Full(t), 1023);
    TerminatedOfString(s);
    LoadLines(t, n, s, n - 1);
    LoadLine(t, n, s, n - 1);
    MixedEnd(t, n);
  }

  // ----- Longer texts are not restored -----

  lemma FirstFourAreShort(t: Table, n: nat)
    requires Reachable(t, n)
    ensures LineStart(t, 4) <= 431
  {
    forall i | 0 <= i < 4 ensures LineStart(t, i + 1) <= LineStart(t, i) + |DefaultEntry(i).key| + 97 {
      assert t[i].key == DefaultEntry(i).key;
      NextStart(t, n, i);
    }
    DefaultIsClean(0);
    DefaultIsClean(1);
    DefaultIsClean(2);
    DefaultIsClean(3);
  }

  /** The line in which the first 1023 bytes end. */
  lemma {:induction false} CutLine(t: Table, k: nat) returns (m: nat)
    requires k <= 16 && LineStart(t, k) > 1023
    ensures m < k && LineStart(t, m) <= 1023 < LineStart(t, m + 1)
  {
    m := k - 1;
    if LineStart(t, k - 1) > 1023 {
      m := CutLine(t, k - 1);
    }
  }

  /** What reading a truncated last line makes of the table: the slot stays, or gets a truncated value. */
  predicate PartLoaded(t: Table, m: nat, len: nat, r: Table)
    requires m < 16
  {
    if len <= |t[m].key| then r == Mixed(t, m)
    else
      && r[m].key == t[m].key && |r[m].value| == len - |t[m].key| - 1
      && forall i :: m < i < 16 ==> r[i] == DefaultEntry(i)
  }

  lemma LoadPart(t: Table, n: nat, s: CString, m: nat)
    requires Reachable(t, n) && Prefix(s, t) && m < n && LineStart(t, m) <= |s| <= LineStart(t, m) + |Body(t[m])|
    ensures PartLoaded(t, m, |s| - LineStart(t, m), LoadText(s, LineStart(t, m), Mixed(t, m)))
  {
    var len := |s| - LineStart(t, m);
    if len > 0 {
      var q := Sub(Body(t[m]), 0, len);
      PartHolds(t, n, s, m);
      NextLineIs(s, LineStart(t, m), q);
      ApplyTruncated(t, n, m, q);
      OneLine(s, LineStart(t, m), Mixed(t, m), ApplyLine(Mixed(t, m), q));
    }
  }

  lemma PartHolds(t: Table, n: nat, s: CString, m: nat)
    requires CleanSlots(t, n) && Prefix(s, t) && m < n && LineStart(t, m) <= |s| <= LineStart(t, m) + |Body(t[m])|
    ensures HoldsLine(s, LineStart(t, m), Sub(Body(t[m]), 0, |s| - LineStart(t, m)))
  {
    BodyIsClean(t[m]);
    forall i | 0 <= i < |s| - LineStart(t, m) ensures s[LineStart(t, m) + i] == Body(t[m])[i] {
      LineStands(t, n, s, m, i);
    }
  }

  lemma ApplyTruncated(t: Table, n: nat, m: nat, q: CString)
    requires Reachable(t, n) && m < n && 0 < |q| <= |Body(t[m])| && q == Body(t[m])[..|q|]
    ensures PartLoaded(t, m, |q|, ApplyLine(Mixed(t, m), q))
  {
    if |q| <= |t[m].key| {
      NoEquals(t[m], q, Mixed(t, m));
    } else {
      KeyAndPart(t[m], q);
      var part := From(q, |t[m].key| + 1);
      ApplyPart(Mixed(t, m), t[m].key, part);
      SetFillsSlot(t, n, m, part);
    }
  }

  lemma NoEquals(e: Entry, q: CString, t: Table)
    requires CleanKey(e.key) && |q| <= |e.key| && q == Body(e)[..|q|]
    ensures ApplyLine(t, q) == t
  {
    assert forall j :: 0 <= j < |q| ==> q[j] == e.key[j];
    assert EqualsFrom(q, 0) == |q|;
  }

  lemma KeyAndPart(e: Entry, q: CString)
    requires |e.key| < |q| <= |Body(e)| && q == Body(e)[..|q|]
    ensures q == Append(Append(e.key, [EQUALS]), From(q, |e.key| + 1)) && |q| - |e.key| - 1 < 96
  {
  }

  /** Text beyond 1024 bytes is lost: the loaded table differs in its last slot. */
  lemma LongTextIsLost(t: Table, n: nat)
    requires Reachable(t, n) && |Full(t)| > 1024
    ensures Loaded(Saved(t)) != t
  {
    UnusedAddNothing(t, n, 16);
    var m := CutLine(t, n);
    NextStart(t, n, m);
    FirstFourAreShort(t, n);
    if m < 4 {
      LinesPrefix(t, m + 1, 4);
    }
    var s := Sub(Full(t), 0, 1023);
    TerminatedOfString(s);
    LoadLines(t, n, s, m);
    LoadPart(t, n, s, m);
    LastSlotDiffers(t, n, m, LoadText(s, LineStart(t, m), Mixed(t, m)));
  }

  lemma LastSlotDiffers(t: Table, n: nat, m: nat, r: Table)
    requires Reachable(t, n) && 4 <= m < n && LineStart(t, m) <= 1023 <= LineStart(t, m) + |Body(t[m])|
    requires LineStart(t, n) > 1024 && PartLoaded(t, m, 1023 - LineStart(t, m), r)
    ensures r[n - 1] != t[n - 1]
  {
    NextStart(t, n, m);
  }

  /** Saving and loading restores a reachable table, slot for slot, exactly up to 1024 bytes of text. */
  lemma RoundTripIffFits(t: Table, n: nat)
    requires Reachable(t, n)
    ensures Loaded(Saved(t)) == t <==> |Full(t)| <= 1024
  {
    if |Full(t)| <= 1024 {
      ShortTextSurvives(t, n);
    } else {
      LongTextIsLost(t, n);
    }
  }
}
