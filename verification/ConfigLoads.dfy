/** What loading can leave in the settings table: clean entries, and distinct keys if the text was a table's. */
module ConfigLoads {
  import opened CTypes
  import opened ConfigText
  import opened ConfigProofs

  predicate CleanEntries(t: Table) {
    forall i :: 0 <= i < 16 && t[i].used ==> CleanKey(t[i].key) && CleanValue(t[i].value)
  }

  predicate DistinctKeys(t: Table) {
    forall i, j :: 0 <= i < j < 16 && t[i].used && t[j].used ==> t[i].key != t[j].key
  }

  lemma DefaultsAreSound()
    ensures CleanEntries(Defaults()) && DistinctKeys(Defaults())
  {
    DefaultsReachable();
  }

  // ----- Clean entries -----

  lemma SetKeepsClean(t: Table, key: CString, value: CString)
    requires CleanEntries(t) && (key != [] ==> CleanKey(key)) && CleanValue(value)
    ensures CleanEntries(Set(t, key, value).0)
  {
    assert CleanValue(Clip(value, 96)) && (key != [] ==> CleanKey(Clip(key, 32)));
  }

  /** A line holds no line break. */
  lemma {:induction false} TakenIsClean(s: CString, p: nat, room: nat)
    requires p <= |s|
    ensures CleanValue(TakeLine(s, p, room).0)
    decreases |s| - p
  {
    if p == |s| || s[p] == LF || room == 0 {
    } else if s[p] == CR {
      TakenIsClean(s, p + 1, room);
    } else {
      TakenIsClean(s, p + 1, room - 1);
    }
  }

  lemma ApplyKeepsClean(t: Table, line: CString)
    requires CleanEntries(t) && CleanValue(line)
    ensures CleanEntries(ApplyLine(t, line))
  {
    var e := EqualsFrom(line, 0);
    if e < |line| {
      SetKeepsClean(t, Sub(line, 0, e), From(line, e + 1));
    }
  }

  /** Whatever the file holds, the table loaded has clean entries. */
  lemma {:induction false} LoadIsClean(s: CString, p: nat, t: Table)
    requires p <= |s| && CleanEntries(t)
    ensures CleanEntries(LoadText(s, p, t))
    decreases |s| - p
  {
    if p < |s| {
      TakenIsClean(s, SkipBreaks(s, p), 129);
      ApplyKeepsClean(t, NextLine(s, p).0);
      LoadIsClean(s, NextLine(s, p).1, ApplyLine(t, NextLine(s, p).0));
    }
  }

  // ----- Distinct keys -----

  lemma SetKeepsDistinct(t: Table, key: CString, value: CString)
    requires DistinctKeys(t) && |key| < 32
    ensures DistinctKeys(Set(t, key, value).0)
  {
    var i := if FindFrom(t, key, 0) < 0 then FreeFrom(t, 0) else FindFrom(t, key, 0);
    if FindFrom(t, key, 0) < 0 {
      assert forall j :: 0 <= j < 16 && t[j].used ==> t[j].key != key;
    }
  }

  /** A part of a line sets its key, if it reaches behind the key, and does nothing otherwise. */
  lemma PartKeepsDistinct(u: Table, e: Entry, q: CString)
    requires DistinctKeys(u) && CleanKey(e.key) && 0 < |q| <= |Body(e)| && q == Body(e)[..|q|]
    ensures DistinctKeys(ApplyLine(u, q))
  {
    if |q| <= |e.key| {
      NoEquals(e, q, u);
    } else {
      KeyAndPart(e, q);
      ApplyPart(u, e.key, From(q, |e.key| + 1));
      SetKeepsDistinct(u, e.key, From(q, |e.key| + 1));
    }
  }

  /** The line of slot `k`, or what the cut has left of it, is read and keeps the keys distinct. */
  lemma LineKeepsDistinct(t: Table, n: nat, s: CString, k: nat, u: Table)
    requires CleanSlots(t, n) && Prefix(s, t) && k < n && LineStart(t, k) < |s| && DistinctKeys(u)
    ensures DistinctKeys(ApplyLine(u, NextLine(s, LineStart(t, k)).0))
    ensures NextLine(s, LineStart(t, k)).1 == Behind(t, s, k)
  {
    var p := LineStart(t, k);
    BodyIsClean(t[k]);
    NextStart(t, n, k);
    if p + |Body(t[k])| <= |s| {
      BodyIsRead(t, n, s, k);
      assert Body(t[k])[..|Body(t[k])|] == Body(t[k]);
      PartKeepsDistinct(u, t[k], Body(t[k]));
    } else {
      var q := Sub(Body(t[k]), 0, |s| - p);
      PartHolds(t, n, s, k);
      NextLineIs(s, p, q);
      PartKeepsDistinct(u, t[k], q);
    }
  }

  /** Reading a text of clean lines keeps distinct keys distinct, wherever the text is cut. */
  lemma {:induction false} LoadKeepsDistinct(t: Table, n: nat, s: CString, k: nat, u: Table)
    requires CleanSlots(t, n) && Prefix(s, t) && k <= n && LineStart(t, k) <= |s| <= LineStart(t, n) && DistinctKeys(u)
    ensures DistinctKeys(LoadText(s, LineStart(t, k), u))
    decreases n - k
  {
    if LineStart(t, k) < |s| {
      LineKeepsDistinct(t, n, s, k, u);
      var p, w := LineStart(t, k), ApplyLine(u, NextLine(s, LineStart(t, k)).0);
      assert LoadText(s, p, u) == LoadText(s, Behind(t, s, k), w);
      if LineStart(t, k + 1) <= |s| {
        LoadKeepsDistinct(t, n, s, k + 1, w);
      }
    }
  }

  // ----- Tables without gaps -----

  /** Used slots first, those of the defaults in front. */
  predicate Packed(t: Table, n: nat) {
    && 4 <= n <= 16
    && (forall i :: 0 <= i < n ==> t[i].used)
    && (forall i :: n <= i < 16 ==> t[i] == UNUSED)
    && (forall i :: 0 <= i < 4 ==> t[i].key == DefaultEntry(i).key)
  }

  lemma SetKeepsPacked(t: Table, n: nat, key: CString, value: CString) returns (m: nat)
    requires Packed(t, n)
    ensures Packed(Set(t, key, value).0, m)
  {
    var f, free := FindFrom(t, key, 0), FreeFrom(t, 0);
    assert n < 16 ==> !t[n].used;
    assert 0 <= free ==> free == n < 16;
    m := if key != [] && f < 0 && 0 <= free then n + 1 else n;
  }

  /** Whatever the file holds, the table loaded has no gaps. */
  lemma {:induction false} LoadIsPacked(s: CString, p: nat, t: Table, n: nat) returns (m: nat)
    requires p <= |s| && Packed(t, n)
    ensures Packed(LoadText(s, p, t), m)
    decreases |s| - p
  {
    m := n;
    if p < |s| {
      var line := NextLine(s, p).0;
      var e := EqualsFrom(line, 0);
      if e < |line| {
        m := SetKeepsPacked(t, n, Sub(line, 0, e), From(line, e + 1));
      }
      m := LoadIsPacked(s, NextLine(s, p).1, ApplyLine(t, line), m);
    }
  }

  // ----- The round trip of any table -----

  lemma LoadedIsSound(t: Table, n: nat)
    requires Packed(t, n)
    ensures CleanEntries(Loaded(Saved(t)))
    ensures CleanEntries(t) ==> DistinctKeys(Loaded(Saved(t)))
  {
    DefaultsAreSound();
    LoadIsClean(Terminated(Cut(Saved(t), 1023)), 0, Defaults());
    if CleanEntries(t) {
      UnusedAddNothing(t, n, 16);
      NextStart(t, n, n - 1);
      var s := Sub(Full(t), 0, |Cut(Full(t), 1023)|);
      assert s == Cut(Full(t), 1023) == Saved(t);
      TerminatedOfString(s);
      LoadKeepsDistinct(t, n, s, 0, Defaults());
    }
  }

  /** Clean entries, distinct keys, and a text that loses at most its last line feed. */
  predicate Survives(t: Table) {
    CleanEntries(t) && DistinctKeys(t) && |Full(t)| <= 1024
  }

  /** Saving and loading restores a table, slot for slot, exactly if it is of that kind. */
  lemma RoundTripIffSound(t: Table, n: nat)
    requires Packed(t, n)
    ensures Loaded(Saved(t)) == t <==> Survives(t)
  {
    LoadedIsSound(t, n);
    if CleanEntries(t) && DistinctKeys(t) {
      assert Reachable(t, n);
      RoundTripIffFits(t, n);
    }
  }
}
