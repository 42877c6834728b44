/** Main results about whole runs of the file store, with device faults, crashes and reboots. */
module VolumeTheorems {
  import opened CTypes
  import opened FsTable
  import opened Volume
  import opened VolumeProofs

  // ----- One finished operation refines one map operation -----

  function CountUsed(t: Table, k: nat): nat
    requires k <= 32
  {
    if k == 0 then 0 else CountUsed(t, k - 1) + if t[k - 1].used != 0 then 1 else 0
  }

  lemma {:induction false} CountBound(t: Table, k: nat)
    requires k <= 32
    ensures CountUsed(t, k) <= k
    ensures CountUsed(t, k) == k <==> forall i :: 0 <= i < k ==> t[i].used != 0
  {
    if k == 0 {
    } else {
      CountBound(t, k - 1);
    }
  }

  /** Distinct names are counted once each. */
  lemma {:induction false} CountNames(t: Table, k: nat)
    requires k <= 32 && NamesOk(t)
    ensures |NamesUpTo(t, k)| == CountUsed(t, k)
  {
    if k == 0 {
    } else {
      CountNames(t, k - 1);
      if t[k - 1].used != 0 {
        var n := Terminated(t[k - 1].name);
        NamesUpToHas(t, k - 1, n);
        forall i | 0 <= i < k - 1 && t[i].used != 0 ensures !NameIs(t[i].name, n) {
          NameOfEntry(t[i], Terminated(t[i].name), n);
        }
      }
    }
  }

  /** The table is full exactly when the map holds 32 names. */
  lemma FullTable(t: Table, d: Disk)
    requires NamesOk(t)
    ensures |FileMap(t, d)| == CountUsed(t, 32)
    ensures FindFree(t) < 0 <==> |FileMap(t, d)| >= 32
  {
    CountNames(t, 32);
    CountBound(t, 32);
    assert FileMap(t, d).Keys == NamesOf(t);
    var f := FindFree(t);
    assert 0 <= f ==> t[f].used == 0;
  }

  /** The user keeps to names that fit, and the drive has room for what is written. */
  predicate Clean(v: Volume, op: Op) {
    && (op.Write? ==> |op.name| < 16)
    && (Accepts(v, op) ==> InRange(v.disk, Plan(v, op)))
  }

  /** The operation on a device that answers every request. */
  function Finish(v: Volume, op: Op): Volume {
    if Accepts(v, op) then Perform(v, op, |Plan(v, op)|) else v
  }

  lemma AcceptedAsInMap(v: Volume, op: Op)
    requires v.mounted && NamesOk(v.table)
    ensures Accepts(v, op) <==> MapOp(FileMap(v.table, v.disk), op).1
  {
    NamesOfAreFound(v.table, op.name);
    FullTable(v.table, v.disk);
    assert op.name in FileMap(v.table, v.disk) <==> op.name in NamesOf(v.table);
  }

  /** Acceptance, the new map and health, all as the abstract map predicts. */
  lemma FinishRefinesMap(v: Volume, op: Op)
    requires Healthy(v) && Clean(v, op)
    ensures var w := Finish(v, op);
            Healthy(w) && MapOp(FileMap(v.table, v.disk), op) == (FileMap(w.table, w.disk), Accepts(v, op))
  {
    AcceptedAsInMap(v, op);
    if Accepts(v, op) {
      FinishedUpdatesMap(v, op);
      FinishedStaysHealthy(v, op);
    }
  }

  predicate CleanRun(v: Volume, ops: seq<Op>)
    decreases |ops|
  {
    ops == [] || (Clean(v, ops[0]) && CleanRun(Finish(v, ops[0]), ops[1..]))
  }

  function FinishAll(v: Volume, ops: seq<Op>): Volume
    decreases |ops|
  {
    if ops == [] then v else FinishAll(Finish(v, ops[0]), ops[1..])
  }

  function MapRun(m: map<CString, seq<byte>>, ops: seq<Op>): map<CString, seq<byte>>
    decreases |ops|
  {
    if ops == [] then m else MapRun(MapOp(m, ops[0]).0, ops[1..])
  }

  /** The file store refines a map over every sequence of operations. */
  lemma {:induction false} RunRefinesMap(v: Volume, ops: seq<Op>)
    requires Healthy(v) && CleanRun(v, ops)
    ensures var w := FinishAll(v, ops);
            Healthy(w) && FileMap(w.table, w.disk) == MapRun(FileMap(v.table, v.disk), ops)
    decreases |ops|
  {
    if ops == [] {
    } else {
      FinishRefinesMap(v, ops[0]);
      RunRefinesMap(Finish(v, ops[0]), ops[1..]);
    }
  }

  /** What `fs_write_file` stored can be found under the same name exactly when the name has at most 15 bytes. */
  lemma WrittenNameIsFound(v: Volume, op: Op)
    requires op.Write? && Accepts(v, op)
    ensures 0 <= FindEntry(Staged(v, op), op.name) <==> |op.name| < 16
  {
    StagedSlot(v, op);
    var i := PickSlot(v.table, op.name);
    CopyNameIs(v.table[i].name, op.name);
    if |op.name| < 16 {
      assert Matches(Staged(v, op)[i], op.name);
    }
  }

  // ----- Reading back -----

  lemma BlocksOfSize(size: uint32)
    requires size <= MAX_FILE_BYTES
    ensures Blocks(size) <= 256 && size <= 512 * Blocks(size)
    ensures Blocks(size) == 0 <==> size == 0
    ensures Blocks(size) < 256 <==> size <= 255 * 512
  {
  }

  /**
   * A read delivers the stored bytes exactly when the file exists, fits the buffer and has at most 255
   * blocks: a file of 256 blocks asks the device for zero sectors, which it refuses.
   */
  lemma ReadReturnsFile(v: Volume, name: CString, len: nat)
    requires Healthy(v)
    ensures var m := FileMap(v.table, v.disk);
            && (Readable(v, name, len) <==> name in m && |m[name]| <= len && |m[name]| <= 255 * 512)
            && (Readable(v, name, len) ==>
                  && ReadSize(v, name, len) == |m[name]| <= |Fetched(v, name, len)|
                  && Fetched(v, name, len)[..|m[name]|] == m[name])
  {
    NamesOfAreFound(v.table, name);
    if 0 <= FindEntry(v.table, name) {
      var e := v.table[FindEntry(v.table, name)];
      ReadOfEntry(v.disk, e);
      assert FileMap(v.table, v.disk)[name] == Contents(v.disk, e);
      assert Readable(v, name, len) <==> e.size <= len && e.size <= 255 * 512;
    }
  }

  lemma ReadOfEntry(d: Disk, e: Entry)
    requires OnDisk(d, e)
    ensures Blocks(e.size) <= 256 && e.size <= 512 * Blocks(e.size) && |Contents(d, e)| == e.size
    ensures Blocks(e.size) == 0 <==> e.size == 0
    ensures ReadCount(e) == 0 <==> e.size == 0 || 255 * 512 < e.size
    ensures 0 < e.size <= 255 * 512 ==>
              && ReadCount(e) == Blocks(e.size)
              && Flatten(d[e.start..e.start + ReadCount(e)])[..e.size] == Contents(d, e)
  {
    BlocksOfSize(e.size);
  }

  /**
   * The driver transfers whole sectors: a successful read writes no more than the caller's `len` bytes exactly when
   * the file's sectors fit, not just the file.
   */
  lemma ReadStaysInBuffer(v: Volume, name: CString, len: nat)
    requires Healthy(v) && Readable(v, name, len)
    ensures var size := ReadSize(v, name, len);
            && size <= len && |Fetched(v, name, len)| == 512 * Blocks(size)
            && (|Fetched(v, name, len)| <= len <==> 512 * Blocks(size) <= len)
  {
    ReadOfEntry(v.disk, v.table[FindEntry(v.table, name)]);
  }

  lemma ReadIsWhole(v: Volume, name: CString, len: nat)
    requires Readable(v, name, len) && len <= 2048
    ensures ReadSize(v, name, len) <= |Fetched(v, name, len)| && ReadSize(v, name, len) <= len
  {
    var e := v.table[FindEntry(v.table, name)];
    assert Blocks(e.size) == (e.size + 511) / 512;
  }

  /** What a client with a buffer of at most four sectors gets from a successful read. */
  function Delivered(v: Volume, name: CString, len: nat): (b: seq<byte>)
    requires Readable(v, name, len) && len <= 2048
    ensures |b| == ReadSize(v, name, len) <= len
  {
    ReadIsWhole(v, name, len);
    Fetched(v, name, len)[..ReadSize(v, name, len)]
  }

  // ----- Remounting -----

  /** Every used slot is below `b`. */
  predicate Below(t: Table, b: nat) {
    forall i :: 0 <= i < 32 && t[i].used != 0 ==> i < b
  }

  /** The table a boot reads back: slots 0 to 13 as stored, the rest unused. */
  lemma ReloadedTable(t: Table)
    ensures var r := LoadTable(StoreSector(t), EmptyTable());
            && (forall i :: 0 <= i < 14 ==> r[i] == t[i])
            && (forall i :: 14 <= i < 32 ==> r[i].used == 0 && r[i].start == 0 && r[i].size == 0)
  {
    forall i | 0 <= i < 32
      ensures var r := LoadTable(StoreSector(t), EmptyTable());
              && (i < 14 ==> r[i] == t[i])
              && (14 <= i ==> r[i].used == 0 && r[i].start == 0 && r[i].size == 0)
    {
      LoadOfStore(t, EmptyTable(), i);
    }
  }

  lemma FormattedIsRecognised(d: Disk)
    requires TABLE_LBA < |d| && d[SUPERBLOCK_LBA] == FormattedSuperblock()
    ensures Recognised(d) && SbDataStart(d[SUPERBLOCK_LBA]) == DATA_LBA
    ensures Remount(d) == Volume(LoadTable(d[TABLE_LBA], EmptyTable()), d, DATA_LBA, true)
  {
    var s := FormattedSuperblock();
    assert s[0..4] == LE32(MAGIC) && s[4..8] == LE32(VERSION) && s[29..33] == LE32(DATA_LBA);
    FromLE32OfLE32(MAGIC);
    FromLE32OfLE32(VERSION);
    FromLE32OfLE32(DATA_LBA);
  }

  /** A boot from any disk that has the system sectors of a healthy volume gives a healthy volume. */
  lemma ReloadIsHealthy(v: Volume, d: Disk)
    requires Healthy(v) && Below(v.table, 14) && |d| == |v.disk|
    requires d[SUPERBLOCK_LBA] == v.disk[SUPERBLOCK_LBA] && d[TABLE_LBA] == v.disk[TABLE_LBA]
    ensures Healthy(Remount(d)) && Below(Remount(d).table, 14)
  {
    var r := Remount(d);
    FormattedIsRecognised(d);
    ReloadedTable(v.table);
    StoreOfLoad(d[TABLE_LBA], EmptyTable());
    ReloadedIsSound(v.table, r.table);
    forall i | 0 <= i < 32 && r.table[i].used != 0 ensures OnDisk(d, r.table[i]) {
      assert r.table[i] == v.table[i];
    }
  }

  /** What the invariants of a table say holds of what a boot reloads of it. */
  lemma ReloadedIsSound(t: Table, r: Table)
    requires ExtentsOk(t) && NamesOk(t)
    requires forall i :: 0 <= i < 14 ==> r[i] == t[i]
    requires forall i :: 14 <= i < 32 ==> r[i].used == 0
    ensures ExtentsOk(r) && NamesOk(r) && Below(r, 14)
  {
  }

  /**
   * A reboot of a healthy volume brings back the same files exactly when no used slot is above 13:
   * the one table sector has room for fourteen records.
   */
  lemma RebootKeepsFiles(v: Volume)
    requires Healthy(v)
    ensures var r := Remount(v.disk);
            r.mounted && (FileMap(r.table, r.disk) == FileMap(v.table, v.disk) <==> Below(v.table, 14))
  {
    var r := Remount(v.disk);
    FormattedIsRecognised(v.disk);
    ReloadedTable(v.table);
    if Below(v.table, 14) {
      FileMapSame(v.table, r.table, v.disk, r.disk);
    } else {
      var j :| 14 <= j < 32 && v.table[j].used != 0;
      LostName(v.table, r.table, j);
      var n := Terminated(v.table[j].name);
      assert n in FileMap(v.table, v.disk) && n !in FileMap(r.table, r.disk);
    }
  }

  lemma LostName(t: Table, r: Table, j: nat)
    requires NamesOk(t) && 14 <= j < 32 && t[j].used != 0
    requires forall i :: 0 <= i < 14 ==> r[i] == t[i]
    requires forall i :: 14 <= i < 32 ==> r[i].used == 0
    ensures Terminated(t[j].name) in NamesOf(t) && Terminated(t[j].name) !in NamesOf(r)
  {
    var n := Terminated(t[j].name);
    assert NameIs(t[j].name, n);
    OneMatch(t, n, j);
    forall i | 0 <= i < 32 ensures !Matches(r[i], n) {
      if i < 14 && t[i].used != 0 {
        NameOfEntry(t[i], Terminated(t[i].name), n);
      }
    }
    NamesOfAreFound(r, n);
  }

  // ----- Crash atomicity -----

  /**
   * Stop an operation after any prefix of its sector writes and boot again: the files are exactly the
   * old ones or exactly the new ones, and they are the new ones only once the table sector is written.
   * (A fifteenth file, in slot 14, is lost at the boot, which again leaves the old files.)
   */
  lemma CrashAtomic(v: Volume, op: Op, k: nat)
    requires Healthy(v) && Below(v.table, 14) && Accepts(v, op) && k <= |Plan(v, op)|
    requires op.Write? ==> |op.name| < 16
    requires k == |Plan(v, op)| ==> InRange(v.disk, Plan(v, op))
    ensures var r, m := Remount(Commit(v.disk, Plan(v, op)[..k])), FileMap(v.table, v.disk);
            && r.mounted
            && (k < |Plan(v, op)| ==> FileMap(r.table, r.disk) == m)
            && (k == |Plan(v, op)| && Below(Staged(v, op), 14) ==> FileMap(r.table, r.disk) == MapOp(m, op).0)
            && (k == |Plan(v, op)| && !Below(Staged(v, op), 14) ==> FileMap(r.table, r.disk) == m)
  {
    if k < |Plan(v, op)| {
      CrashBeforeTable(v, op, k);
    } else {
      var w := Perform(v, op, k);
      FinishRefinesMap(v, op);
      RebootKeepsFiles(w);
      if !Below(w.table, 14) {
        CrashFifteenth(v, op);
      }
    }
  }

  lemma CrashBeforeTable(v: Volume, op: Op, k: nat)
    requires Healthy(v) && Below(v.table, 14) && Accepts(v, op) && k < |Plan(v, op)|
    ensures var r := Remount(Commit(v.disk, Plan(v, op)[..k]));
            r.mounted && FileMap(r.table, r.disk) == FileMap(v.table, v.disk)
  {
    var d' := Commit(v.disk, Plan(v, op)[..k]);
    if op.Write? {
      HealthyStart(v, op);
    }
    SystemSectors(v, op, k);
    FormattedIsRecognised(d');
    ReloadedTable(v.table);
    AllOldContentsKept(v, op, k);
    FileMapSame(v.table, Remount(d').table, v.disk, d');
  }

  lemma FifteenthSlot(v: Volume, op: Op, i: nat)
    requires Below(v.table, 14) && Accepts(v, op) && !Below(Staged(v, op), 14) && i < 32
    ensures i < 14 ==> Staged(v, op)[i] == v.table[i]
  {
    if op.Write? {
      StagedSlot(v, op);
    }
  }

  lemma CrashFifteenth(v: Volume, op: Op)
    requires Healthy(v) && Below(v.table, 14) && Accepts(v, op) && !Below(Staged(v, op), 14)
    ensures var r := Remount(Commit(v.disk, Plan(v, op)[..|Plan(v, op)|]));
            FileMap(r.table, r.disk) == FileMap(v.table, v.disk)
  {
    var d' := Commit(v.disk, Plan(v, op)[..|Plan(v, op)|]);
    if op.Write? {
      HealthyStart(v, op);
    }
    SystemSectors(v, op, |Plan(v, op)|);
    FormattedIsRecognised(d');
    ReloadedTable(Staged(v, op));
    AllOldContentsKept(v, op, |Plan(v, op)|);
    var r := Remount(d').table;
    forall i | 0 <= i < 14 ensures r[i] == v.table[i] {
      FifteenthSlot(v, op, i);
    }
    FileMapSame(v.table, r, v.disk, d');
  }

  // ----- First-fit slots -----

  lemma {:induction false} PrefixCount(t: Table, k: nat, n: nat)
    requires k <= n <= 32 && forall i :: 0 <= i < k ==> t[i].used != 0
    ensures k <= CountUsed(t, n)
    decreases n
  {
    if n == k {
      CountBound(t, k);
    } else {
      PrefixCount(t, k, n - 1);
    }
  }

  /** First fit never opens a slot at or above the number of files then present. */
  lemma FirstFit(v: Volume, op: Op, b: nat)
    requires Accepts(v, op) && Below(v.table, b) && CountUsed(Staged(v, op), 32) <= b
    ensures Below(Staged(v, op), b)
  {
    if op.Write? {
      StagedSlot(v, op);
      var i, t := PickSlot(v.table, op.name), Staged(v, op);
      if FindEntry(v.table, op.name) < 0 {
        PrefixCount(t, i + 1, 32);
      }
    }
  }

  /** At most `b` files at every moment of the run. */
  predicate AtMost(v: Volume, ops: seq<Op>, b: nat)
    decreases |ops|
  {
    |FileMap(v.table, v.disk)| <= b && (ops == [] || AtMost(Finish(v, ops[0]), ops[1..], b))
  }

  lemma {:induction false} RunStaysBelow(v: Volume, ops: seq<Op>, b: nat)
    requires Healthy(v) && CleanRun(v, ops) && Below(v.table, b) && AtMost(v, ops, b)
    ensures Below(FinishAll(v, ops).table, b)
    decreases |ops|
  {
    if ops == [] {
    } else {
      var w := Finish(v, ops[0]);
      FinishRefinesMap(v, ops[0]);
      FullTable(w.table, w.disk);
      if Accepts(v, ops[0]) {
        FirstFit(v, ops[0], b);
      }
      RunStaysBelow(w, ops[1..], b);
    }
  }

  /**
   * Any run that never holds more than fourteen files survives a reboot: the reloaded volume is healthy
   * and holds what the abstract map holds after the same operations.
   */
  lemma RunSurvivesReboot(v: Volume, ops: seq<Op>)
    requires Healthy(v) && CleanRun(v, ops) && Below(v.table, 14) && AtMost(v, ops, 14)
    ensures var r := Remount(FinishAll(v, ops).disk);
            Healthy(r) && FileMap(r.table, r.disk) == MapRun(FileMap(v.table, v.disk), ops)
  {
    var w := FinishAll(v, ops);
    RunRefinesMap(v, ops);
    RunStaysBelow(v, ops, 14);
    RebootKeepsFiles(w);
    ReloadIsHealthy(w, w.disk);
  }

  lemma FormatCommits(d: Disk)
    requires TABLE_LBA < |d|
    ensures Commit(d, FormatPlan()[..0]) == d
    ensures Commit(d, FormatPlan()[..1]) == d[SUPERBLOCK_LBA := FormattedSuperblock()]
    ensures Commit(d, FormatPlan()[..2])
            == d[SUPERBLOCK_LBA := FormattedSuperblock()][TABLE_LBA := StoreSector(EmptyTable())]
  {
    var ws := FormatPlan();
    assert ws[..1] == [ws[0]] && ws[..1][..0] == [];
    assert ws[..2] == ws && ws[..2][..1] == ws[..1];
  }

  lemma NoFiles(t: Table, d: Disk)
    requires forall i :: 0 <= i < 32 ==> t[i].used == 0
    ensures FileMap(t, d) == map[] && Below(t, 14)
  {
    forall n: CString ensures n !in NamesOf(t) {
      NamesOfAreFound(t, n);
    }
    assert FileMap(t, d).Keys == {};
  }

  lemma EmptyTableIsSound(t: Table)
    requires t == EmptyTable()
    ensures ExtentsOk(t) && NamesOk(t) && FreeClean(t) && forall i :: 0 <= i < 32 ==> t[i].used == 0
  {
  }

  /** A drive with the two sectors of a format on it, adopted with an empty table. */
  lemma EmptyIsHealthy(v: Volume)
    requires v.mounted && v.base == DATA_LBA && v.table == EmptyTable() && TABLE_LBA < |v.disk|
    requires v.disk[SUPERBLOCK_LBA] == FormattedSuperblock() && v.disk[TABLE_LBA] == StoreSector(v.table)
    ensures Healthy(v) && FileMap(v.table, v.disk) == map[] && Below(v.table, 14)
  {
    EmptyTableIsSound(v.table);
    NoFiles(v.table, v.disk);
  }

  /** Formatting a drive that holds no recognisable volume gives a healthy volume without files. */
  lemma FormatIsHealthy(d: Disk, env: MountEnv)
    requires TABLE_LBA < |d| && env.present && env.formatOk && env.k == 2 && (!env.sbRead || !Recognised(d))
    ensures var v := Mount(d, env); Healthy(v) && FileMap(v.table, v.disk) == map[] && Below(v.table, 14)
  {
    FormatCommits(d);
    EmptyIsHealthy(Mount(d, env));
  }

  // ----- Runs with faults and reboots -----

  /** One event: an operation of which `k` planned writes take effect, or a boot. */
  datatype Step = Io(op: Op, k: nat) | Boot(env: MountEnv)

  predicate CanStep(v: Volume, s: Step) {
    match s
    case Io(op, k) => Accepts(v, op) ==> k <= |Plan(v, op)|
    case Boot(env) => env.k <= 2 && (env.formatOk ==> env.k == 2)
  }

  function Apply(v: Volume, s: Step): Volume
    requires CanStep(v, s)
  {
    match s
    case Io(op, k) => if Accepts(v, op) then Perform(v, op, k) else v
    case Boot(env) => Mount(v.disk, env)
  }

  predicate CanRun(v: Volume, ss: seq<Step>)
    decreases |ss|
  {
    ss == [] || (CanStep(v, ss[0]) && CanRun(Apply(v, ss[0]), ss[1..]))
  }

  function Run(v: Volume, ss: seq<Step>): Volume
    requires CanRun(v, ss)
    decreases |ss|
  {
    if ss == [] then v else Run(Apply(v, ss[0]), ss[1..])
  }

  /** No block number of the run exceeds 32 bits. */
  predicate NeverWraps(v: Volume, ss: seq<Step>)
    requires CanRun(v, ss)
    decreases |ss|
  {
    ss == [] || ((ss[0].Io? ==> NoWrap(v, ss[0].op)) && NeverWraps(Apply(v, ss[0]), ss[1..]))
  }

  /** What survives every fault: sound extents in memory and in the table a boot would load. */
  predicate Guarded(v: Volume) {
    && ExtentsOk(v.table) && (v.mounted ==> v.base == DATA_LBA)
    && TABLE_LBA < |v.disk| && v.disk[SUPERBLOCK_LBA] == FormattedSuperblock()
    && ExtentsOk(LoadTable(v.disk[TABLE_LBA], EmptyTable()))
  }

  lemma ReloadedExtentsOk(t: Table)
    requires ExtentsOk(t)
    ensures ExtentsOk(LoadTable(StoreSector(t), EmptyTable()))
  {
    ReloadedTable(t);
  }

  lemma IoStaysGuarded(v: Volume, op: Op, k: nat)
    requires Guarded(v) && Accepts(v, op) && k <= |Plan(v, op)|
    ensures Guarded(Perform(v, op, k)) <==> NoWrap(v, op)
  {
    StagedExtentsOk(v, op);
    if NoWrap(v, op) {
      SystemSectors(v, op, k);
      ReloadedExtentsOk(Staged(v, op));
    }
  }

  /** Formatting a formatted drive, completely or in part, rewrites the superblock with itself. */
  lemma FormatKeepsSectors(d: Disk, k: nat)
    requires TABLE_LBA < |d| && d[SUPERBLOCK_LBA] == FormattedSuperblock() && k <= 2
    ensures var d' := Commit(d, FormatPlan()[..k]);
            && d'[SUPERBLOCK_LBA] == FormattedSuperblock()
            && (d'[TABLE_LBA] == d[TABLE_LBA] || d'[TABLE_LBA] == StoreSector(EmptyTable()))
  {
    FormatCommits(d);
    assert k == 0 || k == 1 || k == 2;
  }

  lemma BootStaysGuarded(v: Volume, env: MountEnv)
    requires Guarded(v) && env.k <= 2 && (env.formatOk ==> env.k == 2)
    ensures Guarded(Mount(v.disk, env))
  {
    FormattedIsRecognised(v.disk);
    EmptyTableIsSound(EmptyTable());
    ReloadedExtentsOk(EmptyTable());
    if env.present && !env.sbRead {
      FormatKeepsSectors(v.disk, env.k);
    }
  }

  /** Before the run, after it and after each of its steps. */
  predicate GuardedThroughout(v: Volume, ss: seq<Step>)
    requires CanRun(v, ss)
    decreases |ss|
  {
    Guarded(v) && (ss == [] || GuardedThroughout(Apply(v, ss[0]), ss[1..]))
  }

  /**
   * Whatever fails half-way and however often the system reboots, used files occupy pairwise disjoint
   * extents behind the table sector, in memory and on disk, exactly as long as no block number wraps.
   */
  lemma {:induction false} RunStaysGuarded(v: Volume, ss: seq<Step>)
    requires Guarded(v) && CanRun(v, ss)
    ensures GuardedThroughout(v, ss) <==> NeverWraps(v, ss)
    ensures NeverWraps(v, ss) ==> Guarded(Run(v, ss))
    decreases |ss|
  {
    if ss != [] {
      match ss[0] {
        case Io(op, k) => if Accepts(v, op) { IoStaysGuarded(v, op, k); }
        case Boot(env) => BootStaysGuarded(v, env);
      }
      if Guarded(Apply(v, ss[0])) {
        RunStaysGuarded(Apply(v, ss[0]), ss[1..]);
      }
    }
  }

  lemma HealthyIsGuarded(v: Volume)
    requires Healthy(v)
    ensures Guarded(v)
  {
    ReloadedExtentsOk(v.table);
  }
}
