/** Volumes the kernel can reach: one that meets the theorems' premises, and those at which results fail. */
module VolumeExamples {
  import opened CTypes
  import opened FsTable
  import opened Volume
  import opened VolumeProofs
  import opened VolumeTheorems
  import opened VolumeFaults
  import opened VolumeCuts

  /** A drive of zeros with room for a largest file. */
  function BlankDrive(): Disk {
    seq(5000, _ => Zeros(512))
  }

  /** A volume right after its format. */
  predicate Fresh(v: Volume) {
    Healthy(v) && v.table == EmptyTable() && |v.disk| == 5000
  }

  /** The first boot from a blank drive leaves such a volume. */
  lemma FirstBootIsFresh()
    ensures Fresh(Remount(BlankDrive()))
  {
    var d := BlankDrive();
    assert d[SUPERBLOCK_LBA][0..4] == [0, 0, 0, 0];
    FormatIsHealthy(d, MountEnv(true, true, true, 2, true));
  }

  lemma FreshHasNoFiles(v: Volume)
    requires Fresh(v)
    ensures FileMap(v.table, v.disk) == map[] && Below(v.table, 14)
  {
    forall n: CString ensures n !in NamesOf(v.table) {
      NamesOfAreFound(v.table, n);
    }
    assert FileMap(v.table, v.disk).Keys == {};
  }

  lemma FreshTakesSlotZero(v: Volume, name: CString)
    requires Fresh(v)
    ensures PickSlot(v.table, name) == 0 && FindEntry(v.table, name) < 0
    ensures NextFree(Claimed(v.table, name), v.base) == DATA_LBA
  {
    assert FreeFrom(v.table, 0) == 0;
    var c := Claimed(v.table, name);
    forall j | 0 <= j < 32 ensures EndOf(c[j]) == 0 {
      assert c[j].start == 0 && c[j].size == 0;
    }
    CursorIsLeast(c, v.base, 32, DATA_LBA);
  }

  /** The first write to a fresh volume goes to the start of the data area, and fits. */
  lemma FirstWrite(v: Volume, op: Op)
    requires Fresh(v) && op.Write? && |op.data| <= MAX_FILE_BYTES
    ensures Accepts(v, op) && StartOf(v, op) == DATA_LBA && NoWrap(v, op) && InRange(v.disk, Plan(v, op))
  {
    FreshTakesSlotZero(v, op.name);
    BlocksOfSize(|op.data|);
    PlanInOrder(v, op);
    forall i | 0 <= i < |Plan(v, op)| ensures Plan(v, op)[i].lba < 5000 {
    }
  }

  /** The premises the theorems about one operation share can be met. */
  lemma PremisesAreMet(v: Volume, op: Op)
    requires Fresh(v) && op == Write([65], [66])
    ensures Healthy(v) && Below(v.table, 14) && Accepts(v, op) && Clean(v, op) && NoWrap(v, op)
    ensures CleanRun(v, [op])
  {
    FreshHasNoFiles(v);
    FirstWrite(v, op);
    assert CleanRun(Finish(v, op), [op][1..]);
  }

  // ----- A name that is too long -----

  /** A name of sixteen bytes is accepted, but the file is not found under it. */
  lemma LongNameIsNotFound(v: Volume, op: Op)
    requires Fresh(v) && op == Write([65, 65, 65, 65, 65, 65, 65, 65, 65, 65, 65, 65, 65, 65, 65, 65], [])
    ensures Accepts(v, op) && FindEntry(Staged(v, op), op.name) < 0
  {
    FirstWrite(v, op);
    WrittenNameIsFound(v, op);
  }

  // ----- A file that is too large to read -----

  /** A file of 256 blocks is stored, and is not readable into a buffer of its size. */
  lemma LargestFileIsNotReadable(v: Volume, op: Op)
    requires Fresh(v) && op == Write([65], Zeros(MAX_FILE_BYTES))
    ensures var w := Finish(v, op);
            && Healthy(w) && op.name in FileMap(w.table, w.disk) && FileMap(w.table, w.disk)[op.name] == op.data
            && !Readable(w, op.name, MAX_FILE_BYTES)
  {
    FreshHasNoFiles(v);
    FirstWrite(v, op);
    FinishRefinesMap(v, op);
    ReadReturnsFile(Finish(v, op), op.name, MAX_FILE_BYTES);
  }

  // ----- A file more than the table sector holds -----

  /** Names of one byte: A, B, C and so on. */
  function Letter(n: nat): (k: CString)
    requires n < 20
    ensures |k| == 1 && k[0] == 65 + n
  {
    [65 + n]
  }

  /** The volume after `n` empty files with such names. */
  function Filled(v: Volume, n: nat): Volume
    requires n <= 20
  {
    if n == 0 then v else Finish(Filled(v, n - 1), Write(Letter(n - 1), []))
  }

  predicate FirstNames(m: map<CString, seq<byte>>, n: nat) {
    |m| == n && forall k :: k in m ==> |k| == 1 && k[0] < 65 + n
  }

  lemma OneMoreName(m: map<CString, seq<byte>>, k: CString, n: nat)
    requires FirstNames(m, n) && n < 20 && k == Letter(n)
    ensures k !in m && FirstNames(m[k := []], n + 1)
  {
    assert k !in m;
    assert m[k := []].Keys == m.Keys + {k};
  }

  lemma EmptyFileFits(v: Volume, op: Op)
    requires Healthy(v) && op.Write? && op.data == [] && |op.name| < 16
    ensures Clean(v, op)
  {
    BlocksOfSize(0);
  }

  lemma AddName(v: Volume, op: Op, n: nat)
    requires Healthy(v) && FirstNames(FileMap(v.table, v.disk), n) && n < 20 && op == Write(Letter(n), [])
    ensures var w := Finish(v, op); Healthy(w) && FirstNames(FileMap(w.table, w.disk), n + 1)
  {
    OneMoreName(FileMap(v.table, v.disk), op.name, n);
    EmptyFileFits(v, op);
    FinishRefinesMap(v, op);
  }

  lemma {:induction false} FilledIs(v: Volume, n: nat)
    requires Fresh(v) && n <= 20
    ensures var w := Filled(v, n); Healthy(w) && FirstNames(FileMap(w.table, w.disk), n)
    decreases n
  {
    if n == 0 {
      FreshHasNoFiles(v);
    } else {
      FilledIs(v, n - 1);
      AddName(Filled(v, n - 1), Write(Letter(n - 1), []), n - 1);
    }
  }

  lemma {:induction false} CountBelow(t: Table, k: nat, b: nat)
    requires k <= 32 && Below(t, b)
    ensures CountUsed(t, k) <= b
  {
    if k > 0 {
      CountBelow(t, k - 1, b);
      CountBound(t, k - 1);
    }
  }

  /** Fifteen files: the volume is healthy, and a reboot loses one of them. */
  lemma FifteenFilesAreNotKept(v: Volume, w: Volume)
    requires Fresh(v) && w == Filled(v, 15)
    ensures Healthy(w) && |FileMap(w.table, w.disk)| == 15 && !Below(w.table, 14)
    ensures FileMap(Remount(w.disk).table, Remount(w.disk).disk) != FileMap(w.table, w.disk)
  {
    FilledIs(v, 15);
    FullTable(w.table, w.disk);
    if Below(w.table, 14) {
      CountBelow(w.table, 32, 14);
    }
    RebootKeepsFiles(w);
  }

  // ----- A boot that cannot read the superblock -----

  /** The volume with one file, A, of one byte. */
  predicate OneFile(v: Volume, w: Volume) {
    Fresh(v) && w == Finish(v, Write([65], [66]))
  }

  lemma OneFileIs(v: Volume, w: Volume)
    requires OneFile(v, w)
    ensures Healthy(w) && FileMap(w.table, w.disk) == map[[65] := [66]] && |w.disk| == 5000
    ensures w.table == v.table[0 := w.table[0]] && w.table[0].used != 0
    ensures w.table[0].start == DATA_LBA && w.table[0].size == 1
  {
    var op := Write([65], [66]);
    FreshHasNoFiles(v);
    FreshTakesSlotZero(v, op.name);
    FirstWrite(v, op);
    FinishRefinesMap(v, op);
    StagedSlot(v, op);
  }

  /** One failed read at boot: the kernel formats the sound volume, and the file is gone from the running system. */
  lemma FailedReadErases(v: Volume, w: Volume, env: MountEnv)
    requires OneFile(v, w) && env == MountEnv(true, false, true, 2, true)
    ensures Healthy(w) && [65] in FileMap(w.table, w.disk)
    ensures var x := Mount(w.disk, env); Healthy(x) && FileMap(x.table, x.disk) == map[]
  {
    OneFileIs(v, w);
    FormatIsHealthy(w.disk, env);
  }

  // ----- A read into a small buffer -----

  /** A read of the one-byte file with the 256 bytes of a preview succeeds and transfers 512. */
  lemma PreviewOverruns(v: Volume, w: Volume)
    requires OneFile(v, w)
    ensures Readable(w, [65], 256) && |Fetched(w, [65], 256)| == 512
  {
    OneFileIs(v, w);
    ReadReturnsFile(w, [65], 256);
    ReadStaysInBuffer(w, [65], 256);
    BlocksOfSize(1);
  }

  // ----- A failed overwrite -----

  lemma NextAfterOne(w: Volume)
    requires w.table[0].used != 0 && w.table[0].start == DATA_LBA && w.table[0].size == 1 && w.base == DATA_LBA
    requires forall j :: 0 < j < 32 ==> w.table[j].used == 0
    ensures NextFree(w.table, w.base) == DATA_LBA + 1
  {
    assert EndOf(w.table[0]) == DATA_LBA + 1;
    CursorIsLeast(w.table, w.base, 32, DATA_LBA + 1);
  }

  lemma OverwriteOfOne(v: Volume, w: Volume, op: Op)
    requires OneFile(v, w) && op == Write([65], [67])
    ensures Accepts(w, op) && PickSlot(w.table, op.name) == 0 && StartOf(w, op) == DATA_LBA + 1 && |Plan(w, op)| == 2
    ensures forall j :: 0 < j < 32 ==> Staged(w, op)[j].used == 0
  {
    OneFileIs(v, w);
    assert [65] in FileMap(w.table, w.disk);
    NamesOfAreFound(w.table, [65]);
    NextAfterOne(w);
    BlocksOfSize(1);
    StagedSlot(w, op);
  }

  lemma FreeSlotAccepts(v: Volume, op: Op, j: nat)
    requires v.mounted && op.Write? && |op.data| <= MAX_FILE_BYTES && j < 32 && v.table[j].used == 0
    ensures Accepts(v, op)
  {
  }

  /** The record left in memory denotes one byte: the one behind the old file. */
  lemma FailedByte(v: Volume, w: Volume, op: Op)
    requires OneFile(v, w) && op == Write([65], [67])
    ensures Accepts(w, op) && |w.disk| == 5000 && OnDisk(w.disk, NewRecord(w, op))
    ensures 0 < |Plan(w, op)| && Contents(Perform(w, op, 0).disk, NewRecord(w, op)) == [w.disk[DATA_LBA + 1][0]]
  {
    OneFileIs(v, w);
    OverwriteOfOne(v, w, op);
    NewRecordIs(w, op);
    BlocksOfSize(1);
    CutContents(w, op, 0, 0, 0);
  }

  /**
   * Overwriting the file fails at once, another file is written, and the system boots: A holds neither its old byte
   * nor the new one, but whatever was on the drive behind the old one.
   */
  lemma FailedOverwriteIsPublished(v: Volume, w: Volume, op: Op, later: Op)
    requires OneFile(v, w) && op == Write([65], [67]) && later == Write([66], [])
    ensures Accepts(w, op) && Accepts(Perform(w, op, 0), later) && |w.disk| == 5000
    ensures Has(Remount(Finish(Perform(w, op, 0), later).disk), [65], [w.disk[DATA_LBA + 1][0]])
  {
    OneFileIs(v, w);
    OverwriteOfOne(v, w, op);
    FailedByte(v, w, op);
    FreeSlotAccepts(Perform(w, op, 0), later, 1);
    BlocksOfSize(0);
    FailedWriteIsPublished(w, op, 0, later);
  }

  // ----- A format that is cut short -----

  lemma SlicesOfOnes(s: Sector)
    requires forall i :: 0 <= i < 512 ==> s[i] == 0xFF
    ensures LoadTable(s, EmptyTable())[0].used != 0 && LoadTable(s, EmptyTable())[0].size > MAX_FILE_BYTES
  {
    var b := s + Pack(EmptyTable())[512..];
    UnpackAt(b, 32, 0);
    var r := b[0..36];
    assert r[20..24] == [0xFF, 0xFF, 0xFF, 0xFF] && r[24] == 0xFF;
  }

  /** Over a table sector of ones, the boot after the cut adopts records that reach far past any drive. */
  lemma CutFormatAdoptsJunk(d: Disk)
    requires TABLE_LBA < |d| && forall i :: 0 <= i < 512 ==> d[TABLE_LBA][i] == 0xFF
    ensures var r := Remount(Commit(d, FormatPlan()[..1])); r.mounted && !ExtentsOk(r.table) && !Healthy(r)
  {
    CutFormatIsHealthyIff(d);
    SlicesOfOnes(d[TABLE_LBA]);
  }

  // ----- Block numbers that wrap -----

  function Overwrite(): Op {
    Write([65], Zeros(MAX_FILE_BYTES))
  }

  /** `c` overwrites of the largest file that all fail at the first sector. */
  function Failures(c: nat): seq<Step> {
    if c == 0 then [] else [Io(Overwrite(), 0)] + Failures(c - 1)
  }

  /** One file of the largest size is recorded from block `s` on. */
  predicate Pushed(v: Volume, s: nat) {
    && v.mounted && v.base == DATA_LBA && DATA_LBA <= s && s + 256 < TWO32
    && Matches(v.table[0], [65]) && v.table[0].start == s && v.table[0].size == MAX_FILE_BYTES
    && forall j :: 0 < j < 32 ==> v.table[j].used == 0
  }

  lemma PushedStart(v: Volume, op: Op, s: nat)
    requires Pushed(v, s) && op == Overwrite()
    ensures FindEntry(v.table, op.name) == 0 && Accepts(v, op) && StartOf(v, op) == s + 256
    ensures NoWrap(v, op) <==> s + 512 < TWO32
  {
    assert Matches(v.table[0], op.name);
    BlocksOfSize(MAX_FILE_BYTES);
    assert Blocks(MAX_FILE_BYTES) == 256;
    EndOfIs(v.table[0]);
    CursorIsLeast(v.table, v.base, 32, s + 256);
  }

  /** Each failure moves the record on by the file's own length. */
  lemma PushOn(v: Volume, op: Op, s: nat)
    requires Pushed(v, s) && op == Overwrite() && s + 512 < TWO32
    ensures Accepts(v, op) && Pushed(Perform(v, op, 0), s + 256)
  {
    PushedStart(v, op, s);
    StagedSlot(v, op);
  }

  lemma FirstPush(v: Volume, op: Op)
    requires Fresh(v) && op == Overwrite()
    ensures Accepts(v, op) && NoWrap(v, op) && Pushed(Perform(v, op, 0), DATA_LBA)
  {
    FirstWrite(v, op);
    FreshTakesSlotZero(v, op.name);
    StagedSlot(v, op);
    CopyNameIs(v.table[0].name, op.name);
  }

  lemma {:induction false} PushesWrap(v: Volume, s: nat, c: nat)
    requires Pushed(v, s) && c > 0 && s + 256 * (c + 1) >= TWO32
    ensures CanRun(v, Failures(c)) ==> !NeverWraps(v, Failures(c))
    decreases c
  {
    var op := Overwrite();
    PushedStart(v, op, s);
    assert Failures(c)[1..] == Failures(c - 1);
    if s + 512 < TWO32 {
      PushOn(v, op, s);
      PushesWrap(Perform(v, op, 0), s + 256, c - 1);
    }
  }

  lemma {:induction false} FailuresCanRun(v: Volume, c: nat)
    ensures CanRun(v, Failures(c))
    decreases c
  {
    if c > 0 {
      assert Failures(c)[1..] == Failures(c - 1);
      FailuresCanRun(Apply(v, Io(Overwrite(), 0)), c - 1);
    }
  }

  /** Sixteen million failed overwrites push the record of one file past 32-bit block numbers. */
  lemma FailuresReachTheWrap(v: Volume)
    requires Fresh(v)
    ensures var ss := Failures(16_777_200); CanRun(v, ss) && !NeverWraps(v, ss) && !GuardedThroughout(v, ss)
  {
    var c, op := 16_777_200, Overwrite();
    FailuresCanRun(v, c);
    assert Failures(c)[1..] == Failures(c - 1);
    FirstPush(v, op);
    FailuresCanRun(Perform(v, op, 0), c - 1);
    PushesWrap(Perform(v, op, 0), DATA_LBA, c - 1);
    HealthyIsGuarded(v);
    RunStaysGuarded(v, Failures(c));
  }
}
