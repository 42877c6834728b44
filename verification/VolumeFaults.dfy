/** Failed calls and reboots in any order: when a file that no call names keeps its bytes, and when it is lost. */
module VolumeFaults {
  import opened CTypes
  import opened FsTable
  import opened Volume
  import opened VolumeProofs
  import opened VolumeTheorems

  /** The name `fs_write_file` stores for the one it is given. */
  function StoredName(n: CString): CString {
    if |n| < 16 then n else Sub(n, 0, 15)
  }

  lemma CopyStores(stored: Name, n: CString)
    ensures NameIs(CopyName(stored, n), StoredName(n))
  {
  }

  /** Slot `j` holds the record `e`, and no other slot carries its name. */
  predicate Holds(t: Table, j: nat, e: Entry, n: CString) {
    && ExtentsOk(t) && j < 32 && t[j] == e && Matches(e, n)
    && forall i :: 0 <= i < 32 && i != j ==> !Matches(t[i], n)
  }

  lemma HeldIsFound(t: Table, j: nat, e: Entry, n: CString)
    requires Holds(t, j, e, n)
    ensures FindEntry(t, n) == j && n in NamesOf(t)
  {
    assert Matches(t[j], n);
    NamesOfAreFound(t, n);
  }

  /** The slot an operation changes does not get a name that the operation does not store. */
  lemma ChangedSlot(v: Volume, op: Op, n: CString) returns (i: nat)
    requires Accepts(v, op) && StoredName(op.name) != n
    ensures i < 32 && Staged(v, op) == v.table[i := Staged(v, op)[i]]
    ensures !Matches(v.table[i], n) && !Matches(Staged(v, op)[i], n)
  {
    var f := FindEntry(v.table, op.name);
    if op.Write? {
      StagedSlot(v, op);
      i := PickSlot(v.table, op.name);
    } else {
      i := f;
    }
    if 0 <= f {
      NameOfEntry(v.table[f], op.name, n);
    } else {
      CopyStores(v.table[i].name, op.name);
      NameOfEntry(Staged(v, op)[i], StoredName(op.name), n);
    }
  }

  lemma StagedHolds(v: Volume, op: Op, j: nat, e: Entry, n: CString)
    requires Holds(v.table, j, e, n) && Accepts(v, op) && StoredName(op.name) != n
    requires NoWrap(v, op) && (v.mounted ==> v.base == DATA_LBA)
    ensures Holds(Staged(v, op), j, e, n)
  {
    var i := ChangedSlot(v, op, n);
    StagedExtentsOk(v, op);
  }

  /** No slot carries the name. */
  predicate Absent(t: Table, n: CString) {
    forall i :: 0 <= i < 32 ==> !Matches(t[i], n)
  }

  lemma AbsentIsNotFound(t: Table, n: CString)
    requires Absent(t, n)
    ensures FindEntry(t, n) < 0 && n !in NamesOf(t)
  {
    NamesOfAreFound(t, n);
  }

  lemma StagedAbsent(v: Volume, op: Op, n: CString)
    requires Absent(v.table, n) && Accepts(v, op) && StoredName(op.name) != n
    ensures Absent(Staged(v, op), n)
  {
    var i := ChangedSlot(v, op, n);
  }

  /** The table a boot loads from the disk. */
  function StoredTable(d: Disk): Table
    requires TABLE_LBA < |d|
  {
    LoadTable(d[TABLE_LBA], EmptyTable())
  }

  /** A table read back holds the file if its slot is one the sector has room for, and loses it otherwise. */
  predicate HoldsOrLost(t: Table, j: nat, e: Entry, n: CString) {
    if j < 14 then Holds(t, j, e, n) else Absent(t, n)
  }

  lemma ReloadedHolds(t: Table, j: nat, e: Entry, n: CString)
    requires Holds(t, j, e, n)
    ensures HoldsOrLost(LoadTable(StoreSector(t), EmptyTable()), j, e, n)
  {
    ReloadedTable(t);
    ReloadedExtentsOk(t);
  }

  lemma ReloadedAbsent(t: Table, n: CString)
    requires Absent(t, n)
    ensures Absent(LoadTable(StoreSector(t), EmptyTable()), n)
  {
    ReloadedTable(t);
  }

  /** The disk is that of a formatted volume, and what is mounted is its data area. */
  predicate Formatted(v: Volume) {
    && TABLE_LBA < |v.disk| && v.disk[SUPERBLOCK_LBA] == FormattedSuperblock()
    && (if v.mounted then v.base == DATA_LBA else v.table == EmptyTable())
  }

  /** The file is on disk, in the table in memory if there is one, and in the stored table if that has its slot. */
  predicate Safe(v: Volume, j: nat, e: Entry, n: CString, b: seq<byte>) {
    && Formatted(v) && OnDisk(v.disk, e) && Contents(v.disk, e) == b
    && (v.mounted ==> Holds(v.table, j, e, n)) && HoldsOrLost(StoredTable(v.disk), j, e, n)
  }

  /** The name is gone from memory and from the disk. */
  predicate Lost(v: Volume, n: CString) {
    Formatted(v) && Absent(v.table, n) && Absent(StoredTable(v.disk), n)
  }

  /** The calls of the run all name other files. */
  predicate NoneNames(ss: seq<Step>, n: CString) {
    forall i :: 0 <= i < |ss| ==> ss[i].Io? ==> StoredName(ss[i].op.name) != n
  }

  /** A boot that cannot read the superblock and completes the format it makes of that. */
  predicate Erases(env: MountEnv) {
    env.present && !env.sbRead && env.k == 2
  }

  /** A step after which the file in slot `j` is still there. */
  predicate Spares(s: Step, j: nat) {
    s.Boot? ==> j < 14 && !Erases(s.env)
  }

  predicate AllSpare(ss: seq<Step>, j: nat) {
    forall i :: 0 <= i < |ss| ==> Spares(ss[i], j)
  }

  lemma NothingInEmptyTable(n: CString)
    ensures FindEntry(EmptyTable(), n) < 0 && Absent(EmptyTable(), n)
  {
  }

  lemma IoStaysFormatted(v: Volume, op: Op, k: nat)
    requires Formatted(v) && Accepts(v, op) && NoWrap(v, op) && k <= |Plan(v, op)|
    ensures var w := Perform(v, op, k);
            && v.mounted && Formatted(w)
            && StoredTable(w.disk) == if k == |Plan(v, op)| then LoadTable(StoreSector(Staged(v, op)), EmptyTable())
                                      else StoredTable(v.disk)
  {
    NothingInEmptyTable(op.name);
    SystemSectors(v, op, k);
  }

  lemma IoStaysSafe(v: Volume, op: Op, k: nat, j: nat, e: Entry, n: CString, b: seq<byte>)
    requires Safe(v, j, e, n, b) && Accepts(v, op) && NoWrap(v, op) && k <= |Plan(v, op)|
    requires StoredName(op.name) != n
    ensures Safe(Perform(v, op, k), j, e, n, b)
  {
    IoStaysFormatted(v, op, k);
    OldContentsKept(v, op, k, j);
    StagedHolds(v, op, j, e, n);
    ReloadedHolds(Staged(v, op), j, e, n);
  }

  lemma IoStaysLost(v: Volume, op: Op, k: nat, n: CString)
    requires Lost(v, n) && Accepts(v, op) && NoWrap(v, op) && k <= |Plan(v, op)| && StoredName(op.name) != n
    ensures Lost(Perform(v, op, k), n)
  {
    IoStaysFormatted(v, op, k);
    StagedAbsent(v, op, n);
    ReloadedAbsent(Staged(v, op), n);
  }

  /** A boot that erases leaves an empty table on disk; any other leaves the stored table. */
  lemma BootStoredTable(v: Volume, env: MountEnv)
    requires Formatted(v) && env.k <= 2 && (env.formatOk ==> env.k == 2)
    ensures var w := Mount(v.disk, env);
            && Formatted(w) && (Erases(env) ==> w.disk[TABLE_LBA] == StoreSector(EmptyTable()))
            && (!Erases(env) ==> StoredTable(w.disk) == StoredTable(v.disk))
            && (w.table == EmptyTable() || w.table == StoredTable(v.disk))
  {
    FormattedIsRecognised(v.disk);
    FormatCommits(v.disk);
    if env.present && !env.sbRead {
      assert env.k == 0 || env.k == 1 || env.k == 2;
    }
  }

  /** Formatting leaves the data area as it is. */
  lemma BootKeepsContents(v: Volume, env: MountEnv, e: Entry)
    requires Formatted(v) && env.k <= 2 && (env.formatOk ==> env.k == 2) && DATA_LBA <= e.start
    ensures Contents(Mount(v.disk, env).disk, e) == Contents(v.disk, e)
  {
    FormatCommits(v.disk);
    if env.present && !env.sbRead {
      assert env.k == 0 || env.k == 1 || env.k == 2;
    }
    ContentsFrame(v.disk, Mount(v.disk, env).disk, e);
  }

  lemma BootStaysSafe(v: Volume, env: MountEnv, j: nat, e: Entry, n: CString, b: seq<byte>)
    requires Safe(v, j, e, n, b) && env.k <= 2 && (env.formatOk ==> env.k == 2) && j < 14 && !Erases(env)
    ensures Safe(Mount(v.disk, env), j, e, n, b)
  {
    BootStoredTable(v, env);
    BootKeepsContents(v, env, e);
    FormattedIsRecognised(v.disk);
  }

  /** What the stored table does not hold is gone after any boot, and a boot that erases loses every file. */
  lemma BootLoses(v: Volume, env: MountEnv, n: CString)
    requires Formatted(v) && env.k <= 2 && (env.formatOk ==> env.k == 2)
    requires Erases(env) || Absent(StoredTable(v.disk), n)
    ensures Lost(Mount(v.disk, env), n)
  {
    BootStoredTable(v, env);
    NothingInEmptyTable(n);
    if Erases(env) {
      ReloadedAbsent(EmptyTable(), n);
      FormattedIsRecognised(v.disk);
    }
  }

  lemma FirstAndRest(ss: seq<Step>, n: CString, j: nat)
    requires ss != []
    ensures AllSpare(ss, j) <==> Spares(ss[0], j) && AllSpare(ss[1..], j)
    ensures NoneNames(ss, n) ==> NoneNames(ss[1..], n) && (ss[0].Io? ==> StoredName(ss[0].op.name) != n)
  {
    assert forall i :: 0 < i < |ss| ==> ss[i] == ss[1..][i - 1];
  }

  lemma {:induction false} RunStaysLost(v: Volume, ss: seq<Step>, n: CString)
    requires Lost(v, n) && CanRun(v, ss) && NeverWraps(v, ss) && NoneNames(ss, n)
    ensures Lost(Run(v, ss), n)
    decreases |ss|
  {
    if ss != [] {
      match ss[0] {
        case Io(op, k) => if Accepts(v, op) { IoStaysLost(v, op, k, n); }
        case Boot(env) => BootLoses(v, env, n);
      }
      RunStaysLost(Apply(v, ss[0]), ss[1..], n);
    }
  }

  lemma StepKeepsOrLoses(v: Volume, s: Step, j: nat, e: Entry, n: CString, b: seq<byte>)
    requires Safe(v, j, e, n, b) && CanStep(v, s)
    requires s.Io? ==> NoWrap(v, s.op) && StoredName(s.op.name) != n
    ensures if Spares(s, j) then Safe(Apply(v, s), j, e, n, b) else Lost(Apply(v, s), n)
  {
    match s
    case Io(op, k) => if Accepts(v, op) { IoStaysSafe(v, op, k, j, e, n, b); }
    case Boot(env) =>
      if Spares(s, j) {
        BootStaysSafe(v, env, j, e, n, b);
      } else {
        BootLoses(v, env, n);
      }
  }

  lemma {:induction false} RunKeepsOrLoses(v: Volume, ss: seq<Step>, j: nat, e: Entry, n: CString, b: seq<byte>)
    requires Safe(v, j, e, n, b) && CanRun(v, ss) && NeverWraps(v, ss) && NoneNames(ss, n)
    ensures if AllSpare(ss, j) then Safe(Run(v, ss), j, e, n, b) else Lost(Run(v, ss), n)
    decreases |ss|
  {
    if ss != [] {
      FirstAndRest(ss, n, j);
      var w := Apply(v, ss[0]);
      StepKeepsOrLoses(v, ss[0], j, e, n, b);
      if Spares(ss[0], j) {
        RunKeepsOrLoses(w, ss[1..], j, e, n, b);
      } else {
        RunStaysLost(w, ss[1..], n);
      }
    }
  }

  /** The file is there and has these bytes. */
  predicate Has(v: Volume, n: CString, b: seq<byte>) {
    n in NamesOf(v.table) && Lookup(v.table, v.disk, n) == b
  }

  lemma HealthyIsSafe(v: Volume, n: CString, b: seq<byte>) returns (j: nat)
    requires Healthy(v) && Has(v, n, b)
    ensures j == FindEntry(v.table, n) && j < 32 && Safe(v, j, v.table[j], n, b)
  {
    NamesOfAreFound(v.table, n);
    j := FindEntry(v.table, n);
    forall i | 0 <= i < 32 && i != j ensures !Matches(v.table[i], n) {
      if v.table[i].used != 0 {
        OthersDiffer(v.table, n, j, i);
      }
    }
    ReloadedHolds(v.table, j, v.table[j], n);
  }

  lemma SafeIsThere(v: Volume, j: nat, e: Entry, n: CString, b: seq<byte>)
    requires Safe(v, j, e, n, b)
    ensures Has(v, n, b) <==> v.mounted
    ensures Has(Remount(v.disk), n, b) <==> j < 14
  {
    FormattedIsRecognised(v.disk);
    if v.mounted {
      HeldIsFound(v.table, j, e, n);
    } else {
      NothingInEmptyTable(n);
      AbsentIsNotFound(v.table, n);
    }
    if j < 14 {
      HeldIsFound(StoredTable(v.disk), j, e, n);
    } else {
      AbsentIsNotFound(StoredTable(v.disk), n);
    }
  }

  lemma LostIsGone(v: Volume, n: CString, b: seq<byte>)
    requires Lost(v, n)
    ensures !Has(v, n, b) && !Has(Remount(v.disk), n, b)
  {
    FormattedIsRecognised(v.disk);
    AbsentIsNotFound(v.table, n);
    AbsentIsNotFound(StoredTable(v.disk), n);
  }

  /**
   * Calls that fail half-way, calls that finish and reboots, in any order, none of the calls naming the file.
   * As long as no boot has formatted the drive because it could not read the superblock, nor has there been any
   * boot if the table sector has no room for the file's slot, the file keeps its bytes; after such a boot it is gone.
   */
  lemma UnnamedFileKeepsBytes(v: Volume, ss: seq<Step>, n: CString, b: seq<byte>)
    requires Healthy(v) && Has(v, n, b) && CanRun(v, ss) && NeverWraps(v, ss) && NoneNames(ss, n)
    ensures var j, w := FindEntry(v.table, n), Run(v, ss);
            && 0 <= j && (Has(w, n, b) <==> AllSpare(ss, j) && w.mounted)
            && (Has(Remount(w.disk), n, b) <==> AllSpare(ss, j) && j < 14)
  {
    var j := HealthyIsSafe(v, n, b);
    RunKeepsOrLoses(v, ss, j, v.table[j], n, b);
    if AllSpare(ss, j) {
      SafeIsThere(Run(v, ss), j, v.table[j], n, b);
    } else {
      LostIsGone(Run(v, ss), n, b);
    }
  }

  /**
   * One boot of a healthy volume with at most the first fourteen slots in use, whatever the device answers: the files
   * are still there afterwards unless the superblock could not be read and the format that followed was completed.
   */
  lemma BootKeepsFiles(v: Volume, env: MountEnv)
    requires Healthy(v) && Below(v.table, 14) && env.k <= 2 && (env.formatOk ==> env.k == 2)
    ensures var m, r := FileMap(v.table, v.disk), Remount(Mount(v.disk, env).disk);
            && r.mounted && FileMap(r.table, r.disk) == (if Erases(env) then map[] else m)
            && (FileMap(r.table, r.disk) == m <==> m == map[] || !Erases(env))
  {
    var d := Mount(v.disk, env).disk;
    BootStoredTable(v, env);
    FormattedIsRecognised(d);
    if Erases(env) {
      ReloadedTable(EmptyTable());
      NoFiles(Remount(d).table, d);
    } else {
      ReloadedTable(v.table);
      forall i | 0 <= i < 32 && v.table[i].used != 0 ensures Contents(d, v.table[i]) == Contents(v.disk, v.table[i]) {
        BootKeepsContents(v, env, v.table[i]);
      }
      FileMapSame(v.table, Remount(d).table, v.disk, d);
    }
  }
}
