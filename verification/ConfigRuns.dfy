/** Any sequence of settings: what lookups answer afterwards, and that saving and loading keeps it. */
module ConfigRuns {
  import opened CTypes
  import opened ConfigText
  import opened ConfigProofs
  import opened ConfigLoads

  datatype Setting = Setting(key: CString, value: CString)

  datatype Lookup = Missing | Found(value: Text)

  /** What `config_get` answers, given a buffer that is large enough. */
  function Get(t: Table, key: CString): Lookup {
    var i := FindFrom(t, key, 0);
    if i < 0 then Missing else Found(t[i].value)
  }

  /** A lookup depends on the slots that carry the key. */
  lemma {:induction false} FindSame(t: Table, u: Table, key: CString, i: nat)
    requires i <= 16
    requires forall j :: i <= j < 16 ==> (t[j].used && t[j].key == key <==> u[j].used && u[j].key == key)
    ensures FindFrom(t, key, i) == FindFrom(u, key, i)
    decreases 16 - i
  {
    if i < 16 {
      FindSame(t, u, key, i + 1);
    }
  }

  /** The slot `Set` stores in: the key's own, or the first free one, or none. */
  function SlotFor(t: Table, key: CString): (i: int)
    ensures -1 <= i < 16
  {
    if FindFrom(t, key, 0) < 0 then FreeFrom(t, 0) else FindFrom(t, key, 0)
  }

  lemma FirstWith(t: Table, i: nat, e: Entry)
    requires i < 16 && e.used && (t[i].used ==> t[i].key == e.key)
    ensures FindFrom(t[i := e], e.key, 0) == if 0 <= FindFrom(t, e.key, 0) < i then FindFrom(t, e.key, 0) else i
  {
    var u: Table := t[i := e];
    var f, g := FindFrom(t, e.key, 0), FindFrom(u, e.key, 0);
    assert u[i].used && u[i].key == e.key;
    assert forall j :: 0 <= j < 16 && j != i ==> u[j] == t[j];
    assert 0 <= f ==> t[f].used && t[f].key == e.key;
    assert 0 <= g ==> u[g].used && u[g].key == e.key;
  }

  /** Storing an entry changes the answer for its key, unless an earlier slot has that key, and for no other. */
  lemma SlotSet(t: Table, i: nat, e: Entry, other: CString)
    requires i < 16 && e.used && (t[i].used ==> t[i].key == e.key)
    ensures Get(t[i := e], other)
            == if other == e.key && !(0 <= FindFrom(t, e.key, 0) < i) then Found(e.value) else Get(t, other)
  {
    if other == e.key {
      FirstWith(t, i, e);
    } else {
      FindSame(t, t[i := e], other, 0);
    }
  }

  /**
   * An accepted setting changes the answer for its key, cut at 31 bytes, and for no other.  A new key that is cut
   * changes nothing if the shorter key is found in a slot before the one it gets.
   */
  lemma GetAfterSet(t: Table, key: CString, value: CString, other: CString)
    ensures var (u, r) := Set(t, key, value);
            var stored := Clip(key, 32);
            Get(u, other) == if r == 0 && other == stored && !(0 <= FindFrom(t, stored, 0) < SlotFor(t, key))
                             then Found(Clip(value, 96)) else Get(t, other)
  {
    if Set(t, key, value).1 == 0 {
      SlotSet(t, SlotFor(t, key), Entry(Clip(key, 32), Clip(value, 96), true), other);
    }
  }

  /** A new key is found afterwards exactly when it has at most 31 bytes: longer ones are stored cut short. */
  lemma NewKeyIsFound(t: Table, key: CString, value: CString)
    requires FindFrom(t, key, 0) < 0 && Set(t, key, value).1 == 0
    ensures Get(Set(t, key, value).0, key) != Missing <==> |key| < 32
  {
    var u := Set(t, key, value).0;
    var i := FreeFrom(t, 0);
    if |key| < 32 {
      GetAfterSet(t, key, value, key);
    } else {
      assert u[i].key != key;
      FindSame(t, u, key, 0);
    }
  }

  predicate CleanSetting(s: Setting) {
    CleanKey(s.key) && |s.key| < 32 && CleanValue(s.value)
  }

  function SetAll(t: Table, ss: seq<Setting>): Table {
    if ss == [] then t
    else Set(SetAll(t, ss[..|ss| - 1]), ss[|ss| - 1].key, ss[|ss| - 1].value).0
  }

  lemma {:induction false} SetAllReachable(t: Table, n: nat, ss: seq<Setting>) returns (m: nat)
    requires Reachable(t, n) && forall i :: 0 <= i < |ss| ==> CleanSetting(ss[i])
    ensures Reachable(SetAll(t, ss), m)
    decreases |ss|
  {
    m := n;
    if ss != [] {
      var s := ss[|ss| - 1];
      m := SetAllReachable(t, n, ss[..|ss| - 1]);
      var u := SetAll(t, ss[..|ss| - 1]);
      if 0 <= FindFrom(u, s.key, 0) {
        SetOldKey(u, m, s.key, s.value);
      } else if m < 16 {
        SetNewKey(u, m, s.key, s.value);
        m := m + 1;
      } else {
        SetFullTable(u, s.key, s.value);
      }
    }
  }

  /** Clean settings made since the defaults: saving and loading restores them exactly up to 1024 bytes. */
  lemma CleanSettingsSurvive(ss: seq<Setting>)
    requires forall i :: 0 <= i < |ss| ==> CleanSetting(ss[i])
    ensures var t := SetAll(Defaults(), ss); Loaded(Saved(t)) == t <==> |Full(t)| <= 1024
  {
    DefaultsReachable();
    var n := SetAllReachable(Defaults(), 4, ss);
    RoundTripIffFits(SetAll(Defaults(), ss), n);
  }

  lemma {:induction false} SetAllPacked(t: Table, n: nat, ss: seq<Setting>) returns (m: nat)
    requires Packed(t, n)
    ensures Packed(SetAll(t, ss), m)
    decreases |ss|
  {
    m := n;
    if ss != [] {
      var s := ss[|ss| - 1];
      m := SetAllPacked(t, n, ss[..|ss| - 1]);
      m := SetKeepsPacked(SetAll(t, ss[..|ss| - 1]), m, s.key, s.value);
    }
  }

  /**
   * Whatever file was loaded and whatever settings were made since, of any keys and values: saving and loading
   * restores the table exactly if its entries are clean, its keys distinct, and its text has at most 1024 bytes.
   */
  lemma AnySettingsSurvive(file: seq<byte>, ss: seq<Setting>)
    ensures var t := SetAll(Loaded(file), ss); Loaded(Saved(t)) == t <==> Survives(t)
  {
    DefaultsReachable();
    var n := LoadIsPacked(Terminated(Cut(file, 1023)), 0, Defaults(), 4);
    n := SetAllPacked(Loaded(file), n, ss);
    RoundTripIffSound(SetAll(Loaded(file), ss), n);
  }

  // ----- Where the results fail -----

  /** A key of `n` equal bytes. */
  function LongKey(n: nat, c: byte): (k: CString)
    requires c != 0
    ensures |k| == n && forall i :: 0 <= i < n ==> k[i] == c
  {
    seq(n, _ => c)
  }

  /** A setting with a key of 32 bytes changes the answer for its first 31. */
  lemma LongKeySetsItsPrefix(key: CString, short: CString)
    requires key == LongKey(32, 65) && short == LongKey(31, 65)
    ensures Get(Defaults(), short) == Missing && Get(Set(Defaults(), key, []).0, short) == Found([])
  {
    assert !Defaults()[4].used;
    assert forall i :: 0 <= i < 16 ==> |Defaults()[i].key| < 31;
    assert short == Clip(key, 32);
    GetAfterSet(Defaults(), key, [], short);
  }

  /** A key of 32 bytes is accepted by the default table, and is not found. */
  lemma LongKeyIsNotFound(key: CString)
    requires key == LongKey(32, 65)
    ensures Set(Defaults(), key, []).1 == 0 && Get(Set(Defaults(), key, []).0, key) == Missing
  {
    assert !Defaults()[4].used;
    assert forall i :: 0 <= i < 16 ==> |Defaults()[i].key| < 32;
    NewKeyIsFound(Defaults(), key, []);
  }

  lemma SlotFourIsFree(t: Table, key: CString)
    requires t == Defaults() && |key| >= 31
    ensures FindFrom(t, key, 0) < 0 && FreeFrom(t, 0) == 4
  {
    assert !t[4].used;
    assert forall i :: 0 <= i < 16 ==> |t[i].key| < 31;
  }

  /** A value that is a line feed is accepted, and the reload differs. */
  lemma BrokenLineIsNotKept(t: Table, key: CString, value: CString)
    requires key == LongKey(31, 65) && |value| == 1 && value[0] == LF && t == Set(Defaults(), key, value).0
    ensures t[4].used && t[4].value == value && Loaded(Saved(t)) != t
  {
    SlotFourIsFree(Defaults(), key);
    DefaultsArePacked();
    var n := SetKeepsPacked(Defaults(), 4, key, value);
    RoundTripIffSound(t, n);
    assert t[4].value[0] == LF;
    assert !CleanValue(t[4].value);
  }

  lemma DefaultsArePacked()
    ensures Packed(Defaults(), 4)
  {
    DefaultsReachable();
  }

  /** A key of 31 bytes and one that goes on behind them fill two slots with the same key, and the reload differs. */
  lemma TwinKeysAreNotKept(t: Table, short: CString, long: CString)
    requires short == LongKey(31, 65) && long == LongKey(32, 65)
    requires t == SetAll(Defaults(), [Setting(short, []), Setting(long, [])])
    ensures t[4].used && t[5].used && t[4].key == t[5].key && Loaded(Saved(t)) != t
  {
    var one: seq<Setting> := [Setting(short, [])];
    var ss := [Setting(short, []), Setting(long, [])];
    assert ss[..1] == one && one[..0] == [];
    var u := Set(Defaults(), short, []).0;
    SlotFourIsFree(Defaults(), short);
    assert SetAll(Defaults(), one) == u && t == Set(u, long, []).0;
    assert !u[5].used && forall j :: 0 <= j < 5 ==> u[j].used;
    assert FreeFrom(u, 0) == 5 && FindFrom(u, long, 0) < 0;
    assert Clip(long, 32) == short;
    DefaultsArePacked();
    var n := SetAllPacked(Defaults(), 4, ss);
    RoundTripIffSound(t, n);
  }

  /** Settings of full length: distinct keys of 31 bytes with values of 95. */
  function LongSetting(i: nat): Setting
    requires i < 12
  {
    Setting(LongKey(31, 65 + i), LongKey(95, 65))
  }

  function LongSettings(n: nat): (ss: seq<Setting>)
    requires n <= 12
    ensures |ss| == n && forall i :: 0 <= i < n ==> ss[i] == LongSetting(i)
  {
    seq(n, i requires 0 <= i < n => LongSetting(i))
  }

  /** A stored setting lengthens the text by its line. */
  lemma {:induction false} LinesStay(t: Table, u: Table, k: nat)
    requires k <= 16 && forall i :: 0 <= i < k ==> t[i] == u[i]
    ensures Lines(t, k) == Lines(u, k)
    decreases k
  {
    if k > 0 {
      LinesStay(t, u, k - 1);
    }
  }

  lemma NextSlotLengthens(t: Table, n: nat, e: Entry)
    requires n < 16 && e.used
    ensures |Lines(t[n := e], n + 1)| == |Lines(t, n)| + |Line(e)|
  {
    LinesStay(t, t[n := e], n);
  }

  /** After `n` settings of full length the table has `4 + n` entries, the last ones theirs. */
  predicate Filled(t: Table, n: nat) {
    && n <= 12 && Reachable(t, 4 + n) && |Lines(t, 4 + n)| >= 128 * n
    && forall i :: 4 <= i < 4 + n ==> |t[i].key| == 31 && t[i].key[0] == 65 + (i - 4)
  }

  lemma NewLongKey(t: Table, n: nat, key: CString)
    requires Filled(t, n) && n < 12 && key == LongKey(31, 65 + n)
    ensures FindFrom(t, key, 0) < 0 && CleanKey(key)
  {
    forall i | 0 <= i < 16 && t[i].used ensures t[i].key != key {
      if i < 4 {
        assert t[i].key == DefaultEntry(i).key;
      }
    }
  }

  lemma FillOneMore(t: Table, n: nat, s: Setting)
    requires Filled(t, n) && n < 12 && s == LongSetting(n)
    ensures Filled(Set(t, s.key, s.value).0, n + 1)
  {
    NewLongKey(t, n, s.key);
    SetNewKey(t, 4 + n, s.key, s.value);
    NextSlotLengthens(t, 4 + n, Entry(s.key, s.value, true));
  }

  lemma {:induction false} AllFilled(n: nat)
    requires n <= 12
    ensures Filled(SetAll(Defaults(), LongSettings(n)), n)
    decreases n
  {
    DefaultsReachable();
    if n > 0 {
      AllFilled(n - 1);
      assert LongSettings(n)[..n - 1] == LongSettings(n - 1);
      FillOneMore(SetAll(Defaults(), LongSettings(n - 1)), n - 1, LongSetting(n - 1));
    }
  }

  /** Twelve settings of full length over the defaults: the text is too long, and the reload differs. */
  lemma FullTableIsNotKept(t: Table)
    requires t == SetAll(Defaults(), LongSettings(12))
    ensures Reachable(t, 16) && |Full(t)| > 1024 && Loaded(Saved(t)) != t
  {
    AllFilled(12);
    RoundTripIffFits(t, 16);
  }
}
