/** Histories of the file store: crashes with reboots between operations, and failed calls among them. */
module VolumeHistory {
  import opened CTypes
  import opened FsTable
  import opened Volume
  import opened VolumeProofs
  import opened VolumeTheorems
  import opened VolumeFaults

  // ----- Operations that finish, or are cut off by a crash and followed by a boot -----

  datatype Event = Done(op: Op) | Cut(op: Op, k: nat)

  /** The volume after an event; a cut operation has written `k` of its planned sectors. */
  function After(v: Volume, e: Event): Volume {
    match e
    case Done(op) => Finish(v, op)
    case Cut(op, k) =>
      Remount(if Accepts(v, op) && k <= |Plan(v, op)| then Commit(v.disk, Plan(v, op)[..k]) else v.disk)
  }

  /** The table write of the operation reached the disk. */
  predicate Landed(v: Volume, e: Event) {
    Accepts(v, e.op) && (e.Cut? ==> e.k >= |Plan(v, e.op)|)
  }

  /** Names that fit, room on the drive, and at most fourteen files. */
  predicate CleanEvent(v: Volume, e: Event) {
    && (e.op.Write? ==> |e.op.name| < 16)
    && (e.Cut? && Accepts(v, e.op) ==> e.k <= |Plan(v, e.op)|)
    && (Landed(v, e) ==> InRange(v.disk, Plan(v, e.op)) && CountUsed(Staged(v, e.op), 32) <= 14)
  }

  /** A crash before the table write leaves a healthy volume with the old files. */
  lemma CutStaysHealthy(v: Volume, op: Op, k: nat)
    requires Healthy(v) && Below(v.table, 14) && Accepts(v, op) && k < |Plan(v, op)|
    ensures var r := Remount(Commit(v.disk, Plan(v, op)[..k]));
            && Healthy(r) && Below(r.table, 14) && FileMap(r.table, r.disk) == FileMap(v.table, v.disk)
  {
    var d' := Commit(v.disk, Plan(v, op)[..k]);
    if op.Write? {
      HealthyStart(v, op);
    }
    SystemSectors(v, op, k);
    CrashBeforeTable(v, op, k);
    ReloadIsHealthy(v, d');
  }

  /** The files a boot finds. */
  function BootMap(d: Disk): map<CString, seq<byte>> {
    FileMap(Remount(d).table, d)
  }

  /**
   * What a boot finds after an operation that was finished, if it would have found `m` before: a record in a slot
   * the table sector has no room for is lost, a name of more than 15 bytes is cut short, and the first slot with a
   * name hides the others.
   */
  function LandedMap(v: Volume, op: Op, m: map<CString, seq<byte>>): map<CString, seq<byte>>
    requires Accepts(v, op)
  {
    match op
    case Delete(n) => m - {n}
    case Write(n, data) =>
      var i := PickSlot(v.table, n);
      if i >= 14 || 0 <= FindEntry(v.table, StoredName(n)) < i then m else m[StoredName(n) := data]
  }

  /** A change in one of the first fourteen slots is the only change in the table read back. */
  lemma ReloadedChange(t: Table, i: nat, e: Entry)
    requires i < 14
    ensures LoadTable(StoreSector(t[i := e]), EmptyTable()) == LoadTable(StoreSector(t), EmptyTable())[i := e]
  {
    var u: Table := t[i := e];
    var r, r' := LoadTable(StoreSector(t), EmptyTable()), LoadTable(StoreSector(u), EmptyTable());
    forall j | 0 <= j < 32 ensures r'[j] == r[i := e][j] {
      LoadOfStore(t, EmptyTable(), j);
      LoadOfStore(u, EmptyTable(), j);
    }
  }

  /** A change behind them does not show. */
  lemma HiddenChange(t: Table, i: nat, e: Entry, d: Disk, d': Disk)
    requires 14 <= i < 32
    requires forall j :: 0 <= j < 32 && t[j].used != 0 ==> Contents(d', t[j]) == Contents(d, t[j])
    ensures FileMap(LoadTable(StoreSector(t[i := e]), EmptyTable()), d')
            == FileMap(LoadTable(StoreSector(t), EmptyTable()), d)
  {
    ReloadedTable(t);
    ReloadedTable(t[i := e]);
    FileMapSame(LoadTable(StoreSector(t), EmptyTable()), LoadTable(StoreSector(t[i := e]), EmptyTable()), d, d');
  }

  /** A record with the name `n` in slot `i` of a table: it is what the name denotes unless an earlier slot has it. */
  lemma MapWithRecord(t: Table, i: nat, e: Entry, d: Disk, d': Disk, n: CString)
    requires i < 32 && Matches(e, n) && (t[i].used != 0 ==> NameIs(t[i].name, n))
    requires forall j :: 0 <= j < 32 && t[j].used != 0 ==> Contents(d', t[j]) == Contents(d, t[j])
    ensures FileMap(t[i := e], d')
            == if 0 <= FindEntry(t, n) < i then FileMap(t, d) else FileMap(t, d)[n := Contents(d', e)]
  {
    var t': Table := t[i := e];
    var f := FindEntry(t, n);
    forall k: CString | k != n
      ensures k in NamesOf(t') <==> k in NamesOf(t)
      ensures Lookup(t', d', k) == Lookup(t, d, k)
    {
      OtherThan(t, e, d, d', n, k, i);
    }
    NamesOfAreFound(t, n);
    NamesOfAreFound(t', n);
    FirstWith(t, i, e, n);
    MapsDifferAt(t, t', d, d', n);
  }

  lemma FirstWith(t: Table, i: nat, e: Entry, n: CString)
    requires i < 32 && Matches(e, n)
    ensures FindEntry(t[i := e], n) == if 0 <= FindEntry(t, n) < i then FindEntry(t, n) else i
  {
    var t': Table := t[i := e];
    var f, g := FindEntry(t, n), FindEntry(t', n);
    assert Matches(t'[i], n);
    assert forall j :: 0 <= j < 32 && j != i ==> t'[j] == t[j];
    assert 0 <= f ==> Matches(t[f], n);
    assert 0 <= g ==> Matches(t'[g], n);
  }

  lemma FoundInReloaded(t: Table, n: CString, i: nat)
    requires i < 14
    ensures var r := LoadTable(StoreSector(t), EmptyTable());
            0 <= FindEntry(t, n) < i <==> 0 <= FindEntry(r, n) < i
  {
    ReloadedTable(t);
    var r := LoadTable(StoreSector(t), EmptyTable());
    var f, g := FindEntry(t, n), FindEntry(r, n);
    assert 0 <= f ==> Matches(t[f], n);
    assert 0 <= g ==> Matches(r[g], n);
  }

  /** The record a write puts in its slot carries the stored name. */
  lemma RecordIsNamed(v: Volume, op: Op)
    requires op.Write? && Accepts(v, op)
    ensures var i, t := PickSlot(v.table, op.name), Staged(v, op);
            && 0 <= i < 32 && t == v.table[i := t[i]] && Matches(t[i], StoredName(op.name))
            && (v.table[i].used != 0 ==> NameIs(v.table[i].name, StoredName(op.name)))
  {
    StagedSlot(v, op);
    CopyStores(v.table[PickSlot(v.table, op.name)].name, op.name);
  }

  lemma RecordReloaded(t: Table, r: Table, i: nat, e: Entry, d: Disk, d': Disk, n: CString)
    requires r == LoadTable(StoreSector(t), EmptyTable()) && i < 14
    requires Matches(e, n) && (t[i].used != 0 ==> NameIs(t[i].name, n))
    requires forall j :: 0 <= j < 32 && t[j].used != 0 ==> Contents(d', t[j]) == Contents(d, t[j])
    ensures FileMap(LoadTable(StoreSector(t[i := e]), EmptyTable()), d')
            == if 0 <= FindEntry(t, n) < i then FileMap(r, d) else FileMap(r, d)[n := Contents(d', e)]
  {
    ReloadedTable(t);
    ReloadedChange(t, i, e);
    FoundInReloaded(t, n, i);
    MapWithRecord(r, i, e, d, d', n);
  }

  lemma LandedWrite(v: Volume, op: Op, r: Table, d': Disk)
    requires Healthy(v) && op.Write? && Accepts(v, op) && InRange(v.disk, Plan(v, op))
    requires r == LoadTable(StoreSector(v.table), EmptyTable()) && d' == Finish(v, op).disk
    ensures var i := PickSlot(v.table, op.name);
            FileMap(LoadTable(StoreSector(Staged(v, op)), EmptyTable()), d')
            == if i >= 14 || 0 <= FindEntry(v.table, StoredName(op.name)) < i then FileMap(r, v.disk)
               else FileMap(r, v.disk)[StoredName(op.name) := op.data]
  {
    var i, e := PickSlot(v.table, op.name), Staged(v, op)[PickSlot(v.table, op.name)];
    RecordIsNamed(v, op);
    AllOldContentsKept(v, op, |Plan(v, op)|);
    if i >= 14 {
      HiddenChange(v.table, i, e, v.disk, d');
    } else {
      NewContentsStored(v, op);
      RecordReloaded(v.table, r, i, e, v.disk, d', StoredName(op.name));
    }
  }

  lemma RemovedReloaded(t: Table, r: Table, i: nat, d: Disk, d': Disk, n: CString)
    requires r == LoadTable(StoreSector(t), EmptyTable()) && i < 14
    requires ExtentsOk(t) && NamesOk(t) && i == FindEntry(t, n)
    requires forall j :: 0 <= j < 32 && t[j].used != 0 ==> Contents(d', t[j]) == Contents(d, t[j])
    ensures FileMap(LoadTable(StoreSector(t[i := ZERO_ENTRY]), EmptyTable()), d') == FileMap(r, d) - {n}
  {
    ReloadedTable(t);
    ReloadedIsSound(t, r);
    ReloadedChange(t, i, ZERO_ENTRY);
    OneMatch(r, n, i);
    MapAfterDelete(r, d, d', n, i);
  }

  /** A file whose slot is not read back is not among the files read back. */
  lemma HiddenName(t: Table, r: Table, i: nat, d: Disk, n: CString)
    requires r == LoadTable(StoreSector(t), EmptyTable()) && 14 <= i == FindEntry(t, n)
    ensures FileMap(r, d) - {n} == FileMap(r, d)
  {
    ReloadedTable(t);
    forall j | 0 <= j < 32 ensures !Matches(r[j], n) {
      if j < 14 {
        assert r[j] == t[j];
      }
    }
    AbsentIsNotFound(r, n);
    RemoveAbsent(FileMap(r, d), n);
  }

  lemma RemoveAbsent(m: map<CString, seq<byte>>, n: CString)
    requires n !in m
    ensures m - {n} == m
  {
  }

  lemma LandedDelete(v: Volume, op: Op, r: Table, d': Disk)
    requires Healthy(v) && op.Delete? && Accepts(v, op) && InRange(v.disk, Plan(v, op))
    requires r == LoadTable(StoreSector(v.table), EmptyTable()) && d' == Finish(v, op).disk
    ensures FileMap(LoadTable(StoreSector(Staged(v, op)), EmptyTable()), d')
            == LandedMap(v, op, FileMap(r, v.disk))
  {
    var i := FindEntry(v.table, op.name);
    AllOldContentsKept(v, op, |Plan(v, op)|);
    if i >= 14 {
      HiddenChange(v.table, i, ZERO_ENTRY, v.disk, d');
      HiddenName(v.table, r, i, v.disk, op.name);
    } else {
      RemovedReloaded(v.table, r, i, v.disk, d', op.name);
    }
  }

  /** The tables that boots find before, amid and after an operation. */
  lemma BootTables(v: Volume, op: Op, k: nat)
    requires Healthy(v) && Accepts(v, op) && k <= |Plan(v, op)|
    ensures var d' := Commit(v.disk, Plan(v, op)[..k]);
            && Remount(v.disk).table == LoadTable(StoreSector(v.table), EmptyTable()) && Remount(d').mounted
            && Remount(d').table == if k == |Plan(v, op)| then LoadTable(StoreSector(Staged(v, op)), EmptyTable())
                                    else LoadTable(StoreSector(v.table), EmptyTable())
  {
    if op.Write? {
      HealthyStart(v, op);
    }
    SystemSectors(v, op, k);
    FormattedIsRecognised(Commit(v.disk, Plan(v, op)[..k]));
    FormattedIsRecognised(v.disk);
  }

  lemma SameAfterBoot(t: Table, d: Disk, d': Disk)
    requires forall j :: 0 <= j < 32 && t[j].used != 0 ==> Contents(d', t[j]) == Contents(d, t[j])
    ensures var r := LoadTable(StoreSector(t), EmptyTable()); FileMap(r, d') == FileMap(r, d)
  {
    ReloadedTable(t);
    var r := LoadTable(StoreSector(t), EmptyTable());
    FileMapSame(r, r, d, d');
  }

  lemma BootMapAmid(v: Volume, op: Op, k: nat)
    requires Healthy(v) && Accepts(v, op) && k < |Plan(v, op)|
    ensures BootMap(Commit(v.disk, Plan(v, op)[..k])) == BootMap(v.disk)
  {
    BootTables(v, op, k);
    AllOldContentsKept(v, op, k);
    SameAfterBoot(v.table, v.disk, Commit(v.disk, Plan(v, op)[..k]));
  }

  lemma BootMapAfter(v: Volume, op: Op)
    requires Healthy(v) && Accepts(v, op) && InRange(v.disk, Plan(v, op))
    ensures BootMap(Finish(v, op).disk) == LandedMap(v, op, BootMap(v.disk))
  {
    if op.Write? {
      AfterWrite(v, op, BootMap(v.disk));
    } else {
      BootTables(v, op, |Plan(v, op)|);
      LandedDelete(v, op, Remount(v.disk).table, Finish(v, op).disk);
    }
  }

  lemma AfterWrite(v: Volume, op: Op, m: map<CString, seq<byte>>)
    requires Healthy(v) && op.Write? && Accepts(v, op) && InRange(v.disk, Plan(v, op)) && m == BootMap(v.disk)
    ensures BootMap(Finish(v, op).disk) == LandedMap(v, op, m)
  {
    BootTables(v, op, |Plan(v, op)|);
    LandedWrite(v, op, Remount(v.disk).table, Finish(v, op).disk);
  }

  /**
   * Whatever the name and whichever slots are in use: a boot after any prefix of an operation's writes finds what
   * a boot before the operation would have found, until the table is written; then it finds the landed files.
   */
  lemma CrashIsBeforeOrAfter(v: Volume, op: Op, k: nat)
    requires Healthy(v) && Accepts(v, op) && k <= |Plan(v, op)|
    requires k == |Plan(v, op)| ==> InRange(v.disk, Plan(v, op))
    ensures var d' := Commit(v.disk, Plan(v, op)[..k]);
            && Remount(d').mounted
            && BootMap(d') == if k == |Plan(v, op)| then LandedMap(v, op, BootMap(v.disk)) else BootMap(v.disk)
  {
    BootTables(v, op, k);
    if k < |Plan(v, op)| {
      BootMapAmid(v, op, k);
    } else {
      BootMapAfter(v, op);
    }
  }

  lemma RebootStaysHealthy(v: Volume)
    requires Healthy(v) && Below(v.table, 14)
    ensures var r := Remount(v.disk);
            Healthy(r) && Below(r.table, 14) && FileMap(r.table, r.disk) == FileMap(v.table, v.disk)
  {
    RebootKeepsFiles(v);
    ReloadIsHealthy(v, v.disk);
  }

  lemma LandedStaysHealthy(v: Volume, e: Event)
    requires Healthy(v) && Below(v.table, 14) && CleanEvent(v, e) && Landed(v, e)
    ensures var w := After(v, e);
            && Healthy(w) && Below(w.table, 14)
            && FileMap(w.table, w.disk) == MapOp(FileMap(v.table, v.disk), e.op).0
  {
    var w := Finish(v, e.op);
    FinishRefinesMap(v, e.op);
    FirstFit(v, e.op, 14);
    if e.Cut? {
      assert After(v, e) == Remount(w.disk);
      RebootStaysHealthy(w);
    }
  }

  lemma RefusedStaysHealthy(v: Volume, e: Event)
    requires Healthy(v) && Below(v.table, 14) && !Accepts(v, e.op)
    ensures var w := After(v, e);
            Healthy(w) && Below(w.table, 14) && FileMap(w.table, w.disk) == FileMap(v.table, v.disk)
  {
    if e.Cut? {
      RebootStaysHealthy(v);
    }
  }

  predicate CleanHistory(v: Volume, es: seq<Event>)
    decreases |es|
  {
    es == [] || (CleanEvent(v, es[0]) && CleanHistory(After(v, es[0]), es[1..]))
  }

  function AfterAll(v: Volume, es: seq<Event>): Volume
    decreases |es|
  {
    if es == [] then v else AfterAll(After(v, es[0]), es[1..])
  }

  /** The operations of a history whose table write reached the disk. */
  function LandedOps(v: Volume, es: seq<Event>): seq<Op>
    decreases |es|
  {
    if es == [] then []
    else
      var later := LandedOps(After(v, es[0]), es[1..]);
      if Landed(v, es[0]) then [es[0].op] + later else later
  }

  lemma MapRunOneMore(m: map<CString, seq<byte>>, op: Op, ops: seq<Op>)
    ensures MapRun(m, [op] + ops) == MapRun(MapOp(m, op).0, ops)
  {
    assert ([op] + ops)[1..] == ops;
  }

  /**
   * Over any history of finished and cut operations the volume is healthy at the end, and its files are
   * those of the abstract map after exactly the operations whose table write landed.
   */
  lemma {:induction false} HistoryIsLandedRun(v: Volume, es: seq<Event>)
    requires Healthy(v) && Below(v.table, 14) && CleanHistory(v, es)
    ensures var w := AfterAll(v, es);
            && Healthy(w) && Below(w.table, 14)
            && FileMap(w.table, w.disk) == MapRun(FileMap(v.table, v.disk), LandedOps(v, es))
    decreases |es|
  {
    if es != [] {
      var w := After(v, es[0]);
      if Landed(v, es[0]) {
        LandedStaysHealthy(v, es[0]);
        MapRunOneMore(FileMap(v.table, v.disk), es[0].op, LandedOps(w, es[1..]));
      } else if Accepts(v, es[0].op) {
        CutStaysHealthy(v, es[0].op, es[0].k);
      } else {
        RefusedStaysHealthy(v, es[0]);
      }
      HistoryIsLandedRun(w, es[1..]);
    }
  }
}
