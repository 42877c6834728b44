/** Calls cut short without a boot right after: what a failed write, delete or format leaves for later. */
module VolumeCuts {
  import opened CTypes
  import opened FsTable
  import opened Volume
  import opened VolumeProofs
  import opened VolumeTheorems
  import opened VolumeFaults

  // ----- The file a failed write names -----

  lemma {:induction false} FlattenAt(ss: seq<Sector>, q: nat, r: nat)
    requires q < |ss| && r < 512
    ensures 512 * q + r < |Flatten(ss)| && Flatten(ss)[512 * q + r] == ss[q][r]
    decreases q
  {
    if q > 0 {
      FlattenAt(ss[1..], q - 1, r);
    }
  }

  /** Of a run of sector writes to `start` on, the first `k` are on the disk, and the other sectors are old. */
  lemma RunCut(d: Disk, ws: seq<SectorWrite>, start: nat, k: nat, q: nat)
    requires k <= |ws| && q < |ws| && start + |ws| <= |d|
    requires forall j :: 0 <= j < |ws| ==> ws[j].lba == start + j
    ensures Commit(d, ws[..k])[start + q] == if q < k then ws[q].data else d[start + q]
  {
    var part := ws[..k];
    assert forall j :: 0 <= j < k ==> part[j] == ws[j];
    if q < k {
      CommitRun(d, part, start, q);
    } else {
      CommitElsewhere(d, part, start + q);
    }
  }

  /** The record a write leaves in memory, whether it fails or not. */
  function NewRecord(v: Volume, op: Op): Entry
    requires op.Write? && Accepts(v, op)
  {
    Staged(v, op)[PickSlot(v.table, op.name)]
  }

  lemma NewRecordIs(v: Volume, op: Op)
    requires op.Write? && Accepts(v, op)
    ensures NewRecord(v, op).size == |op.data| && NewRecord(v, op).start == StartOf(v, op)
  {
    StagedSlot(v, op);
  }

  lemma CutSector(v: Volume, op: Op, k: nat, q: nat)
    requires op.Write? && Accepts(v, op) && k < |Plan(v, op)| && q < Blocks(|op.data|)
    requires OnDisk(v.disk, NewRecord(v, op))
    ensures StartOf(v, op) + q < |v.disk|
    ensures Perform(v, op, k).disk[StartOf(v, op) + q]
            == if q < k then Chunk(op.data, q) else v.disk[StartOf(v, op) + q]
  {
    NewRecordIs(v, op);
    DataWritesAt(StartOf(v, op), op.data);
    PlanPrefix(v, op, k);
    RunCut(v.disk, DataWrites(StartOf(v, op), op.data), StartOf(v, op), k, q);
  }

  lemma ContentsAt(d: Disk, e: Entry, q: nat, r: nat)
    requires OnDisk(d, e) && r < 512 && 512 * q + r < e.size
    ensures q < Blocks(e.size) && |Contents(d, e)| == e.size && Contents(d, e)[512 * q + r] == d[e.start + q][r]
  {
    BlocksOfSize(e.size);
    FlattenAt(d[e.start..e.start + Blocks(e.size)], q, r);
  }

  lemma ChunkAt(data: seq<byte>, q: nat, r: nat)
    requires r < 512 && 512 * q + r < |data|
    ensures Chunk(data, q)[r] == data[512 * q + r]
  {
  }

  lemma CutByte(d: Disk, d': Disk, e: Entry, data: seq<byte>, k: nat, q: nat, r: nat)
    requires OnDisk(d', e) && |d'| == |d| && e.size == |data| && r < 512 && 512 * q + r < |data| && q < Blocks(e.size)
    requires d'[e.start + q] == if q < k then Chunk(data, q) else d[e.start + q]
    ensures |Contents(d', e)| == |data|
    ensures Contents(d', e)[512 * q + r] == if q < k then data[512 * q + r] else d[e.start + q][r]
  {
    ContentsAt(d', e, q, r);
    ChunkAt(data, q, r);
  }

  lemma BlockOfByte(size: uint32, q: nat, r: nat)
    requires size <= MAX_FILE_BYTES && 512 * q + r < size
    ensures q < Blocks(size)
  {
    BlocksOfSize(size);
  }

  /** The new record denotes the first `k` sectors of the new data, and behind them what the drive held before. */
  lemma CutContents(v: Volume, op: Op, k: nat, q: nat, r: nat)
    requires op.Write? && Accepts(v, op) && k < |Plan(v, op)| && OnDisk(v.disk, NewRecord(v, op))
    requires r < 512 && 512 * q + r < |op.data|
    ensures var c := Contents(Perform(v, op, k).disk, NewRecord(v, op));
            && |c| == |op.data| && StartOf(v, op) + q < |v.disk|
            && c[512 * q + r] == if q < k then op.data[512 * q + r] else v.disk[StartOf(v, op) + q][r]
  {
    var e := NewRecord(v, op);
    NewRecordIs(v, op);
    BlockOfByte(e.size, q, r);
    CutSector(v, op, k, q);
    CutByte(v.disk, Perform(v, op, k).disk, e, op.data, k, q, r);
  }

  /** The call fails, and the name has the new record in memory; the old one is gone from there. */
  lemma FailedWriteReplaces(v: Volume, op: Op, k: nat)
    requires Healthy(v) && op.Write? && |op.name| < 16 && Accepts(v, op) && k < |Plan(v, op)|
    ensures var w := Perform(v, op, k);
            && Formatted(w) && w.mounted && StoredTable(w.disk) == StoredTable(v.disk)
            && Holds(w.table, PickSlot(v.table, op.name), NewRecord(v, op), op.name)
  {
    HealthyStart(v, op);
    IoStaysFormatted(v, op, k);
    StagedNamesOk(v, op);
    StagedExtentsOk(v, op);
    var t, i := Staged(v, op), PickSlot(v.table, op.name);
    forall j | 0 <= j < 32 && j != i ensures !Matches(t[j], op.name) {
      if Matches(t[j], op.name) {
        OneMatch(t, op.name, j);
        OneMatch(t, op.name, i);
      }
    }
  }

  /** Any operation whose table write lands stores the records in memory, those of failed calls among them. */
  lemma LandedPublishes(w: Volume, op: Op, i: nat, e: Entry, n: CString)
    requires Formatted(w) && Holds(w.table, i, e, n) && OnDisk(w.disk, e)
    requires Accepts(w, op) && NoWrap(w, op) && StoredName(op.name) != n
    ensures Safe(Finish(w, op), i, e, n, Contents(w.disk, e))
  {
    var k := |Plan(w, op)|;
    IoStaysFormatted(w, op, k);
    OldContentsKept(w, op, k, i);
    StagedHolds(w, op, i, e, n);
    ReloadedHolds(Staged(w, op), i, e, n);
  }

  /**
   * A write that fails, then any call for another file that succeeds, then a boot: the failed write's file is there,
   * with the length of the new data, its first `k` sectors, and behind them what the drive held before.
   */
  lemma FailedWriteIsPublished(v: Volume, op: Op, k: nat, later: Op)
    requires Healthy(v) && op.Write? && |op.name| < 16 && Accepts(v, op) && k < |Plan(v, op)|
    requires OnDisk(v.disk, NewRecord(v, op)) && StoredName(later.name) != op.name
    requires var w := Perform(v, op, k); Accepts(w, later) && NoWrap(w, later)
    ensures var w := Perform(v, op, k);
            Has(Remount(Finish(w, later).disk), op.name, Contents(w.disk, NewRecord(v, op)))
            <==> PickSlot(v.table, op.name) < 14
  {
    var w, i := Perform(v, op, k), PickSlot(v.table, op.name);
    FailedWriteReplaces(v, op, k);
    LandedPublishes(w, later, i, NewRecord(v, op), op.name);
    SafeIsThere(Finish(w, later), i, NewRecord(v, op), op.name, Contents(w.disk, NewRecord(v, op)));
  }

  lemma LandedStores(w: Volume, op: Op, i: nat, e: Entry, n: CString)
    requires Formatted(w) && Holds(w.table, i, e, n) && i < 14
    requires Accepts(w, op) && NoWrap(w, op) && StoredName(op.name) != n
    ensures var r := Remount(Finish(w, op).disk); FindEntry(r.table, n) == i && r.table[i] == e
  {
    IoStaysFormatted(w, op, |Plan(w, op)|);
    StagedHolds(w, op, i, e, n);
    ReloadedHolds(Staged(w, op), i, e, n);
    FormattedIsRecognised(Finish(w, op).disk);
    HeldIsFound(StoredTable(Finish(w, op).disk), i, e, n);
  }

  lemma BeyondIsUnreadable(v: Volume, n: CString, len: nat)
    requires 0 <= FindEntry(v.table, n)
    requires var e := v.table[FindEntry(v.table, n)];
             e.size <= MAX_FILE_BYTES && Blocks(e.size) != 0 && e.start + Blocks(e.size) > |v.disk|
    ensures !Readable(v, n, len)
  {
    BlocksOfSize(v.table[FindEntry(v.table, n)].size);
  }

  /** The same on a full drive, where the new record reaches past the last sector: the file cannot be read at all. */
  lemma FullDriveIsPublished(v: Volume, op: Op, k: nat, later: Op, len: nat)
    requires Healthy(v) && op.Write? && |op.name| < 16 && Accepts(v, op) && k < |Plan(v, op)|
    requires !OnDisk(v.disk, NewRecord(v, op)) && PickSlot(v.table, op.name) < 14
    requires var w := Perform(v, op, k); Accepts(w, later) && NoWrap(w, later) && StoredName(later.name) != op.name
    ensures var r := Remount(Finish(Perform(v, op, k), later).disk);
            0 <= FindEntry(r.table, op.name) && !Readable(r, op.name, len)
  {
    var w := Perform(v, op, k);
    HealthyStart(v, op);
    NewRecordIs(v, op);
    FailedWriteReplaces(v, op, k);
    LandedStores(w, later, PickSlot(v.table, op.name), NewRecord(v, op), op.name);
    BeyondIsUnreadable(Remount(Finish(w, later).disk), op.name, len);
  }

  // ----- The file a failed delete names -----

  lemma LandedLoses(w: Volume, op: Op, n: CString)
    requires Formatted(w) && Absent(w.table, n) && Accepts(w, op) && NoWrap(w, op) && StoredName(op.name) != n
    ensures Lost(Finish(w, op), n)
  {
    IoStaysFormatted(w, op, |Plan(w, op)|);
    StagedAbsent(w, op, n);
    ReloadedAbsent(Staged(w, op), n);
  }

  /** The call fails, and the file is gone from memory but not from the disk. */
  lemma FailedDeleteForgets(v: Volume, n: CString)
    requires Healthy(v) && Accepts(v, Delete(n))
    ensures var w := Perform(v, Delete(n), 0);
            Formatted(w) && Absent(w.table, n) && StoredTable(w.disk) == StoredTable(v.disk)
  {
    IoStaysFormatted(v, Delete(n), 0);
    DeletedIsGone(v.table, n, FindEntry(v.table, n));
    NamesOfAreFound(Staged(v, Delete(n)), n);
  }

  /** A delete that fails, then any call for another file that succeeds, then a boot: the file is gone. */
  lemma FailedDeleteIsPublished(v: Volume, n: CString, later: Op, b: seq<byte>)
    requires Healthy(v) && Accepts(v, Delete(n)) && StoredName(later.name) != n
    requires var w := Perform(v, Delete(n), 0); Accepts(w, later) && NoWrap(w, later)
    ensures var w := Perform(v, Delete(n), 0);
            !Has(w, n, b) && !Has(Remount(Finish(w, later).disk), n, b)
  {
    var w := Perform(v, Delete(n), 0);
    FailedDeleteForgets(v, n);
    AbsentIsNotFound(w.table, n);
    LandedLoses(w, later, n);
    LostIsGone(Finish(w, later), n, b);
  }

  // ----- A format cut short -----

  /** What the table sector must have held for a volume of `size` sectors to be sound. */
  predicate SoundSector(s: Sector, size: nat) {
    var t := LoadTable(s, EmptyTable());
    && ExtentsOk(t) && NamesOk(t) && FreeClean(t)
    && forall i :: 0 <= i < 32 && t[i].used != 0 ==> t[i].start + Blocks(t[i].size) <= size
  }

  /**
   * A format cut between its two writes has marked the drive as formatted: the next boot adopts whatever the table
   * sector held, and the volume is healthy exactly if that was a sound table.
   */
  lemma CutFormatIsHealthyIff(d: Disk)
    requires TABLE_LBA < |d|
    ensures var r := Remount(Commit(d, FormatPlan()[..1]));
            && r.mounted && r.table == LoadTable(d[TABLE_LBA], EmptyTable())
            && (Healthy(r) <==> SoundSector(d[TABLE_LBA], |d|))
  {
    FormatCommits(d);
    FormattedIsRecognised(Commit(d, FormatPlan()[..1]));
    StoreOfLoad(d[TABLE_LBA], EmptyTable());
  }
}
