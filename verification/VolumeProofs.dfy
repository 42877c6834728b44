/** What fs.c promises about its volume: refinement of a map, disjoint extents, crash atomicity. */
module VolumeProofs {
  import opened CTypes
  import opened FsTable
  import opened Volume

  // ----- Sector writes -----

  lemma {:induction false} CommitElsewhere(d: Disk, ws: seq<SectorWrite>, lba: nat)
    requires lba < |d|
    requires forall i :: 0 <= i < |ws| ==> ws[i].lba != lba
    ensures Commit(d, ws)[lba] == d[lba]
    decreases |ws|
  {
    if ws == [] {
    } else {
      CommitElsewhere(d, ws[..|ws| - 1], lba);
    }
  }

  /** Consecutive sector writes end up in consecutive sectors. */
  lemma {:induction false} CommitRun(d: Disk, ws: seq<SectorWrite>, start: nat, i: nat)
    requires i < |ws| && start + |ws| <= |d|
    requires forall j :: 0 <= j < |ws| ==> ws[j].lba == start + j
    ensures Commit(d, ws)[start + i] == ws[i].data
    decreases |ws|
  {
    if i < |ws| - 1 {
      CommitRun(d, ws[..|ws| - 1], start, i);
    }
  }

  lemma DataWritesAt(start: uint32, data: seq<byte>)
    requires |data| <= MAX_FILE_BYTES && start + Blocks(|data|) < TWO32
    ensures forall i :: 0 <= i < |DataWrites(start, data)| ==>
              DataWrites(start, data)[i] == SectorWrite(start + i, Chunk(data, i))
  {
    forall i | 0 <= i < |DataWrites(start, data)|
      ensures DataWrites(start, data)[i] == SectorWrite(start + i, Chunk(data, i))
    {
      assert U32(start as int + i) == start + i;
    }
  }

  /** Cutting data into padded sectors and reading them back gives the data. */
  lemma {:induction false} FlattenChunks(ss: seq<Sector>, data: seq<byte>)
    requires |data| <= MAX_FILE_BYTES && |ss| == Blocks(|data|)
    requires forall i :: 0 <= i < |ss| ==> ss[i] == Chunk(data, i)
    ensures Flatten(ss)[..|data|] == data
    decreases |data|
  {
    if |data| <= 512 {
      assert |data| > 0 ==> ss == [Chunk(data, 0)] && Flatten(ss[1..]) == [];
    } else {
      assert ss[0] == data[..512];
      forall i | 0 <= i < |ss[1..]| ensures ss[1..][i] == Chunk(data[512..], i) {
        assert ss[1..][i] == Chunk(data, i + 1);
      }
      FlattenChunks(ss[1..], data[512..]);
      assert Flatten(ss)[..|data|] == ss[0] + Flatten(ss[1..])[..|data| - 512];
    }
  }

  lemma ContentsFrame(d: Disk, d': Disk, e: Entry)
    requires |d| == |d'|
    requires OnDisk(d, e) ==> forall lba :: e.start <= lba < e.start + Blocks(e.size) ==> d[lba] == d'[lba]
    ensures Contents(d, e) == Contents(d', e)
  {
    if OnDisk(d, e) {
      assert d[e.start..e.start + Blocks(e.size)] == d'[e.start..e.start + Blocks(e.size)];
    }
  }

  // ----- The directory -----

  lemma FindSame(t: Table, t': Table, n: CString)
    requires forall j :: 0 <= j < 32 ==> (Matches(t[j], n) <==> Matches(t'[j], n))
    ensures FindEntry(t, n) == FindEntry(t', n)
  {
    var r, r' := FindEntry(t, n), FindEntry(t', n);
    assert 0 <= r ==> Matches(t[r], n);
    assert 0 <= r' ==> Matches(t'[r'], n);
  }

  /** Names identify slots. */
  lemma OneMatch(t: Table, n: CString, i: nat)
    requires NamesOk(t) && i < 32 && Matches(t[i], n)
    ensures FindEntry(t, n) == i && n in NamesOf(t) && Terminated(t[i].name) == n
  {
    var r := FindEntry(t, n);
    TerminatedIs(t[i].name, n);
    if 0 <= r {
      TerminatedIs(t[r].name, n);
    }
    NamesOfAreFound(t, n);
  }

  /** No slot but the one found carries the name. */
  lemma OthersDiffer(t: Table, n: CString, i: int, j: nat)
    requires NamesOk(t) && j < 32 && t[j].used != 0 && i != j
    requires FindEntry(t, n) < 0 || FindEntry(t, n) == i
    ensures Terminated(t[j].name) != n && !Matches(t[j], n)
  {
    assert NameIs(t[j].name, Terminated(t[j].name));
    if 0 <= FindEntry(t, n) {
      TerminatedIs(t[i].name, n);
      assert NameIs(t[j].name, n) ==> Terminated(t[j].name) == n by {
        if NameIs(t[j].name, n) { TerminatedIs(t[j].name, n); }
      }
    }
  }

  lemma CopyNameIs(stored: Name, n: CString)
    ensures NameIs(CopyName(stored, n), n) <==> |n| < 16
  {
  }

  /** Tables whose used slots agree, over disks that agree on those slots, denote the same files. */
  lemma FileMapSame(t: Table, t': Table, d: Disk, d': Disk)
    requires forall i :: 0 <= i < 32 ==> (t[i].used == 0 <==> t'[i].used == 0)
    requires forall i :: 0 <= i < 32 && t[i].used != 0 ==> t[i] == t'[i] && Contents(d, t[i]) == Contents(d', t[i])
    ensures FileMap(t, d) == FileMap(t', d')
  {
    forall n: CString ensures FindEntry(t, n) == FindEntry(t', n) && Lookup(t, d, n) == Lookup(t', d', n)
      ensures n in NamesOf(t) <==> n in NamesOf(t')
    {
      FindSame(t, t', n);
      NamesOfAreFound(t, n);
      NamesOfAreFound(t', n);
    }
  }

  // ----- Staging a write -----

  /** No block number of the operation exceeds 32 bits. */
  predicate NoWrap(v: Volume, op: Op) {
    op.Write? && Accepts(v, op) ==> StartOf(v, op) + Blocks(|op.data|) < TWO32
  }

  /** A write changes one slot: the one that carries the name, or the first free one. */
  lemma StagedSlot(v: Volume, op: Op)
    requires op.Write? && Accepts(v, op)
    ensures var i, t := PickSlot(v.table, op.name), Staged(v, op);
            && 0 <= i < 32 && t == v.table[i := t[i]]
            && t[i].used != 0 && t[i].size == |op.data| && t[i].start == StartOf(v, op) >= v.base
            && (FindEntry(v.table, op.name) < 0 ==>
                  v.table[i].used == 0 && t[i].name == CopyName(v.table[i].name, op.name))
            && (0 <= FindEntry(v.table, op.name) ==>
                  i == FindEntry(v.table, op.name) && v.table[i].used != 0 && t[i].name == v.table[i].name)
  {
    var i, c := PickSlot(v.table, op.name), Claimed(v.table, op.name);
    assert c == v.table[i := c[i]];
  }

  lemma ClaimedKeepsExtents(t: Table, n: CString, j: nat)
    requires 0 <= PickSlot(t, n) && j < 32
    ensures var e := Claimed(t, n)[j];
            && e.start == t[j].start && e.size == t[j].size && EndOf(e) == EndOf(t[j])
            && (t[j].used != 0 ==> e.used != 0)
  {
  }

  lemma EndOfIs(e: Entry)
    requires e.start + Blocks(e.size) < TWO32
    ensures EndOf(e) == e.start + Blocks(e.size)
  {
  }

  /** The new extent lies behind every extent in use, the overwritten file's old one included. */
  lemma StagedFresh(v: Volume, op: Op, j: nat)
    requires op.Write? && Accepts(v, op) && ExtentsOk(v.table) && j < 32 && v.table[j].used != 0
    ensures v.table[j].start + Blocks(v.table[j].size) <= StartOf(v, op)
  {
    ClaimedKeepsExtents(v.table, op.name, j);
    EndOfIs(v.table[j]);
    assert EndOf(Claimed(v.table, op.name)[j]) <= NextFreeUpTo(Claimed(v.table, op.name), v.base, 32);
  }

  /** A record behind all others joins them soundly exactly when it lies in the data area below 2^32. */
  lemma ExtentsWith(t: Table, i: nat, e: Entry)
    requires ExtentsOk(t) && i < 32 && e.used != 0 && DATA_LBA <= e.start && e.size <= MAX_FILE_BYTES
    requires forall j :: 0 <= j < 32 && t[j].used != 0 ==> t[j].start + Blocks(t[j].size) <= e.start
    ensures ExtentsOk(t[i := e]) <==> e.start + Blocks(e.size) < TWO32
  {
    var r: Table := t[i := e];
    assert r[i] == e;
  }

  /**
   * Every operation, finished or not, keeps the extents in memory disjoint and in the data area, unless
   * its block numbers exceed 32 bits.
   */
  lemma StagedExtentsOk(v: Volume, op: Op)
    requires Accepts(v, op) && ExtentsOk(v.table) && (v.mounted ==> DATA_LBA <= v.base)
    ensures ExtentsOk(Staged(v, op)) <==> NoWrap(v, op)
  {
    if op.Write? {
      StagedSlot(v, op);
      forall j | 0 <= j < 32 && v.table[j].used != 0
        ensures v.table[j].start + Blocks(v.table[j].size) <= StartOf(v, op)
      {
        StagedFresh(v, op, j);
      }
      var i := PickSlot(v.table, op.name);
      ExtentsWith(v.table, i, Staged(v, op)[i]);
    }
  }

  /** Other used slots keep their names, none of which is the new one. */
  lemma StagedOthers(v: Volume, op: Op, j: nat)
    requires op.Write? && Accepts(v, op) && NamesOk(v.table) && |op.name| < 16
    requires j < 32 && j != PickSlot(v.table, op.name) && v.table[j].used != 0
    ensures Staged(v, op)[j] == v.table[j] && Terminated(v.table[j].name) != op.name
  {
    StagedSlot(v, op);
    OthersDiffer(v.table, op.name, PickSlot(v.table, op.name), j);
  }

  lemma StagedName(v: Volume, op: Op)
    requires op.Write? && Accepts(v, op) && |op.name| < 16
    ensures var e := Staged(v, op)[PickSlot(v.table, op.name)];
            Matches(e, op.name) && Terminated(e.name) == op.name
  {
    StagedSlot(v, op);
    var i := PickSlot(v.table, op.name);
    CopyNameIs(v.table[i].name, op.name);
    TerminatedIs(Staged(v, op)[i].name, op.name);
  }

  /** Changing one slot to a name no other used slot has. */
  lemma NamesOkWith(t: Table, i: nat, e: Entry)
    requires NamesOk(t) && i < 32 && |Terminated(e.name)| < 16
    requires forall j :: 0 <= j < 32 && j != i && t[j].used != 0 ==> Terminated(t[j].name) != Terminated(e.name)
    ensures NamesOk(t[i := e])
  {
  }

  lemma StagedNamesOk(v: Volume, op: Op)
    requires Accepts(v, op) && NamesOk(v.table) && (op.Write? ==> |op.name| < 16)
    ensures NamesOk(Staged(v, op))
    ensures op.Write? ==> Matches(Staged(v, op)[PickSlot(v.table, op.name)], op.name)
  {
    if op.Write? {
      StagedName(v, op);
      StagedSlot(v, op);
      var i := PickSlot(v.table, op.name);
      forall j | 0 <= j < 32 && j != i && v.table[j].used != 0 ensures Terminated(v.table[j].name) != op.name {
        StagedOthers(v, op, j);
      }
      NamesOkWith(v.table, i, Staged(v, op)[i]);
    }
  }

  // ----- Prefixes of a plan -----

  /** The cursor is the least block that is not before the data area nor inside an extent seen so far. */
  lemma {:induction false} CursorIsLeast(t: Table, base: uint32, n: nat, bound: nat)
    requires n <= 32
    ensures NextFreeUpTo(t, base, n) <= bound
            <==> base <= bound && forall j :: 0 <= j < n && t[j].used != 0 ==> EndOf(t[j]) <= bound
    decreases n
  {
    if n > 0 {
      CursorIsLeast(t, base, n - 1, bound);
    }
  }

  lemma ClaimedBound(t: Table, n: CString, base: uint32, d: Disk)
    requires 0 <= PickSlot(t, n) && FreeClean(t) && base <= |d|
    requires forall j :: 0 <= j < 32 && t[j].used != 0 ==> OnDisk(d, t[j])
    ensures NextFree(Claimed(t, n), base) <= |d|
  {
    var c := Claimed(t, n);
    forall j | 0 <= j < 32 && c[j].used != 0 ensures EndOf(c[j]) <= |d| {
      assert c[j].start == t[j].start && c[j].size == t[j].size;
    }
    CursorIsLeast(c, base, 32, |d|);
  }

  /** On a healthy volume the cursor never leaves the drive, so block numbers cannot wrap. */
  lemma HealthyStart(v: Volume, op: Op)
    requires Healthy(v) && op.Write? && Accepts(v, op)
    ensures DATA_LBA <= StartOf(v, op) <= |v.disk| && NoWrap(v, op)
  {
    ClaimedBound(v.table, op.name, v.base, v.disk);
  }

  /** The plan in order: the data from the cursor on, sector by sector, then the new table. */
  lemma PlanInOrder(v: Volume, op: Op)
    requires Accepts(v, op) && NoWrap(v, op)
    ensures var n := |Plan(v, op)| - 1;
            && n == (if op.Write? then Blocks(|op.data|) else 0)
            && Plan(v, op)[n] == SectorWrite(TABLE_LBA, StoreSector(Staged(v, op)))
    ensures forall i :: op.Write? && 0 <= i < Blocks(|op.data|) ==>
              Plan(v, op)[i].lba == StartOf(v, op) + i && Plan(v, op)[i].data == Chunk(op.data, i)
  {
    if op.Write? {
      DataWritesAt(StartOf(v, op), op.data);
    }
  }

  lemma PlanPrefix(v: Volume, op: Op, k: nat)
    requires Accepts(v, op) && k < |Plan(v, op)|
    ensures Plan(v, op)[..k] == if op.Write? then DataWrites(StartOf(v, op), op.data)[..k] else []
  {
  }

  /** Until the table sector is written, nothing below the new extent changes on disk. */
  lemma UnfinishedElsewhere(v: Volume, op: Op, k: nat, lba: nat)
    requires Accepts(v, op) && NoWrap(v, op) && k < |Plan(v, op)| && lba < |v.disk|
    requires op.Write? ==> lba < StartOf(v, op)
    ensures Commit(v.disk, Plan(v, op)[..k])[lba] == v.disk[lba]
  {
    PlanPrefix(v, op, k);
    if op.Write? {
      DataWritesAt(StartOf(v, op), op.data);
    }
    CommitElsewhere(v.disk, Plan(v, op)[..k], lba);
  }

  /** The whole plan is the data writes followed by the table write. */
  lemma FinishedIsLastPut(v: Volume, op: Op)
    requires Accepts(v, op)
    ensures var n := |Plan(v, op)|;
            Commit(v.disk, Plan(v, op)[..n])
            == Put(Commit(v.disk, Plan(v, op)[..n - 1]), SectorWrite(TABLE_LBA, StoreSector(Staged(v, op))))
  {
    var ws := Plan(v, op);
    assert ws[..|ws|] == ws;
  }

  /** At every cut of the plan, the superblock stays, and the table sector changes with the last write only. */
  lemma SystemSectors(v: Volume, op: Op, k: nat)
    requires Accepts(v, op) && NoWrap(v, op) && k <= |Plan(v, op)|
    requires TABLE_LBA < |v.disk| && (op.Write? ==> DATA_LBA <= v.base)
    ensures var d', n := Commit(v.disk, Plan(v, op)[..k]), |Plan(v, op)|;
            && d'[SUPERBLOCK_LBA] == v.disk[SUPERBLOCK_LBA]
            && d'[TABLE_LBA] == if k == n then StoreSector(Staged(v, op)) else v.disk[TABLE_LBA]
  {
    var n := |Plan(v, op)|;
    UnfinishedElsewhere(v, op, if k == n then n - 1 else k, SUPERBLOCK_LBA);
    UnfinishedElsewhere(v, op, if k == n then n - 1 else k, TABLE_LBA);
    if k == n {
      FinishedIsLastPut(v, op);
    }
  }

  /** At every cut of the plan, the files of the old table still have their bytes, whatever failed before. */
  lemma OldContentsKept(v: Volume, op: Op, k: nat, j: nat)
    requires ExtentsOk(v.table) && Accepts(v, op) && NoWrap(v, op) && k <= |Plan(v, op)|
    requires j < 32 && v.table[j].used != 0 && OnDisk(v.disk, v.table[j])
    ensures Contents(Commit(v.disk, Plan(v, op)[..k]), v.table[j]) == Contents(v.disk, v.table[j])
  {
    var d' := Commit(v.disk, Plan(v, op)[..k]);
    var n := |Plan(v, op)|;
    if op.Write? {
      StagedFresh(v, op, j);
    }
    forall lba | v.table[j].start <= lba < v.table[j].start + Blocks(v.table[j].size)
      ensures v.disk[lba] == d'[lba]
    {
      UnfinishedElsewhere(v, op, if k == n then n - 1 else k, lba);
      if k == n {
        FinishedIsLastPut(v, op);
      }
    }
    ContentsFrame(v.disk, d', v.table[j]);
  }

  /** The sectors hold the data, cut into padded chunks. */
  predicate Chunked(ss: seq<Sector>, data: seq<byte>) {
    |data| <= MAX_FILE_BYTES && |ss| == Blocks(|data|) && forall i :: 0 <= i < |ss| ==> ss[i] == Chunk(data, i)
  }

  /** The sectors of an extent. */
  function SectorsOf(d: Disk, e: Entry): seq<Sector>
    requires OnDisk(d, e)
  {
    d[e.start..e.start + Blocks(e.size)]
  }

  /** Chunks written to consecutive sectors from `start` on are there, whatever is written before `start` then. */
  lemma RunStored(d: Disk, ws: seq<SectorWrite>, data: seq<byte>, start: nat, w: SectorWrite)
    requires |data| <= MAX_FILE_BYTES && |ws| == Blocks(|data|) && start + |ws| <= |d| && w.lba < start
    requires forall j :: 0 <= j < |ws| ==> ws[j].lba == start + j && ws[j].data == Chunk(data, j)
    ensures Chunked(Put(Commit(d, ws), w)[start..start + |ws|], data)
  {
    forall i | 0 <= i < |ws| ensures Put(Commit(d, ws), w)[start + i] == ws[i].data {
      CommitRun(d, ws, start, i);
    }
  }

  lemma StoredSectors(d: Disk, data: seq<byte>, e: Entry, w: SectorWrite)
    requires |data| <= MAX_FILE_BYTES && e.size == |data| && OnDisk(d, e) && w.lba < e.start
    ensures Chunked(SectorsOf(Put(Commit(d, DataWrites(e.start, data)), w), e), data)
  {
    DataWritesAt(e.start, data);
    RunStored(d, DataWrites(e.start, data), data, e.start, w);
  }

  lemma ContentsOfChunks(d: Disk, e: Entry, data: seq<byte>)
    requires OnDisk(d, e) && e.size == |data| && Chunked(SectorsOf(d, e), data)
    ensures Contents(d, e) == data
  {
    FlattenChunks(SectorsOf(d, e), data);
  }

  /** Writing data from the start of an entry's extent makes the entry denote the data. */
  lemma DataStored(d: Disk, data: seq<byte>, e: Entry, w: SectorWrite)
    requires |data| <= MAX_FILE_BYTES && e.size == |data| && OnDisk(d, e) && w.lba < e.start
    ensures Contents(Put(Commit(d, DataWrites(e.start, data)), w), e) == data
  {
    StoredSectors(d, data, e, w);
    ContentsOfChunks(Put(Commit(d, DataWrites(e.start, data)), w), e, data);
  }

  /** A plan that fits the drive fits because its extent does. */
  lemma PlanFits(v: Volume, op: Op)
    requires op.Write? && Accepts(v, op) && InRange(v.disk, Plan(v, op))
    requires StartOf(v, op) <= |v.disk| && NoWrap(v, op)
    ensures StartOf(v, op) + Blocks(|op.data|) <= |v.disk|
  {
    var ws := DataWrites(StartOf(v, op), op.data);
    if |ws| > 0 {
      DataWritesAt(StartOf(v, op), op.data);
      assert Plan(v, op)[|ws| - 1] == ws[|ws| - 1];
    }
  }

  /** The new file's bytes are on disk once the plan is complete. */
  lemma NewContentsStored(v: Volume, op: Op)
    requires Healthy(v) && op.Write? && Accepts(v, op) && InRange(v.disk, Plan(v, op))
    ensures var e, n := Staged(v, op)[PickSlot(v.table, op.name)], |Plan(v, op)|;
            OnDisk(v.disk, e) && Contents(Commit(v.disk, Plan(v, op)[..n]), e) == op.data
  {
    HealthyStart(v, op);
    StagedSlot(v, op);
    PlanFits(v, op);
    var n, ws := |Plan(v, op)|, DataWrites(StartOf(v, op), op.data);
    PlanPrefix(v, op, n - 1);
    FinishedIsLastPut(v, op);
    assert ws[..n - 1] == ws;
    DataStored(v.disk, op.data, Staged(v, op)[PickSlot(v.table, op.name)],
               SectorWrite(TABLE_LBA, StoreSector(Staged(v, op))));
  }

  // ----- Refinement of a map -----

  /** The file store as its users see it: at most 32 names, at most 131072 bytes each. */
  function MapOp(m: map<CString, seq<byte>>, op: Op): (r: (map<CString, seq<byte>>, bool)) {
    match op
    case Write(n, data) =>
      if |data| > MAX_FILE_BYTES || (n !in m && |m| >= 32) then (m, false) else (m[n := data], true)
    case Delete(n) =>
      if n in m then (m - {n}, true) else (m, false)
  }

  /** A name that the changed slot carries neither before nor after is looked up as before. */
  lemma OtherName(t: Table, e: Entry, d: Disk, d': Disk, k: CString, i: nat)
    requires i < 32 && !Matches(t[i], k) && !Matches(e, k)
    requires forall j :: 0 <= j < 32 && t[j].used != 0 ==> Contents(d', t[j]) == Contents(d, t[j])
    ensures k in NamesOf(t[i := e]) <==> k in NamesOf(t)
    ensures Lookup(t[i := e], d', k) == Lookup(t, d, k)
  {
    var t': Table := t[i := e];
    assert forall j :: 0 <= j < 32 && j != i ==> t'[j] == t[j];
    FindSame(t, t', k);
    NamesOfAreFound(t, k);
    NamesOfAreFound(t', k);
  }

  /** A field holds one name only. */
  lemma NameOfEntry(e: Entry, n: CString, k: CString)
    requires NameIs(e.name, n) && n != k
    ensures !NameIs(e.name, k)
  {
    if NameIs(e.name, k) {
      TerminatedIs(e.name, n);
      TerminatedIs(e.name, k);
    }
  }

  /** Two tables that name the same files with the same bytes, but for `n`. */
  lemma MapsDifferAt(t: Table, t': Table, d: Disk, d': Disk, n: CString)
    requires forall k: CString :: k != n ==> (k in NamesOf(t') <==> k in NamesOf(t))
    requires forall k: CString :: k != n ==> Lookup(t', d', k) == Lookup(t, d, k)
    ensures n in NamesOf(t') ==> FileMap(t', d') == FileMap(t, d)[n := Lookup(t', d', n)]
    ensures n !in NamesOf(t') ==> FileMap(t', d') == FileMap(t, d) - {n}
  {
    assert NamesOf(t') == if n in NamesOf(t') then NamesOf(t) + {n} else NamesOf(t) - {n};
  }

  /** Changing the slot of `n` leaves every other name as it was. */
  lemma OtherThan(t: Table, e: Entry, d: Disk, d': Disk, n: CString, k: CString, i: nat)
    requires i < 32 && k != n && (t[i].used != 0 ==> NameIs(t[i].name, n)) && (e.used != 0 ==> NameIs(e.name, n))
    requires forall j :: 0 <= j < 32 && t[j].used != 0 ==> Contents(d', t[j]) == Contents(d, t[j])
    ensures k in NamesOf(t[i := e]) <==> k in NamesOf(t)
    ensures Lookup(t[i := e], d', k) == Lookup(t, d, k)
  {
    if t[i].used != 0 {
      NameOfEntry(t[i], n, k);
    }
    if e.used != 0 {
      NameOfEntry(e, n, k);
    }
    OtherName(t, e, d, d', k, i);
  }

  /** Changing the slot of `n` changes the map at `n` only. */
  lemma MapAfterWrite(t: Table, e: Entry, d: Disk, d': Disk, n: CString, i: nat)
    requires i < 32 && i == PickSlot(t, n) && Matches(e, n) && NamesOk(t[i := e])
    requires forall j :: 0 <= j < 32 && t[j].used != 0 ==> Contents(d', t[j]) == Contents(d, t[j])
    ensures FileMap(t[i := e], d') == FileMap(t, d)[n := Contents(d', e)]
  {
    assert t[i].used != 0 ==> NameIs(t[i].name, n);
    var t': Table := t[i := e];
    OneMatch(t', n, i);
    forall k: CString | k != n
      ensures k in NamesOf(t') <==> k in NamesOf(t)
      ensures Lookup(t', d', k) == Lookup(t, d, k)
    {
      OtherThan(t, e, d, d', n, k, i);
    }
    MapsDifferAt(t, t', d, d', n);
  }

  lemma DeletedIsGone(t: Table, n: CString, i: nat)
    requires NamesOk(t) && i < 32 && i == FindEntry(t, n)
    ensures n !in NamesOf(t[i := ZERO_ENTRY])
  {
    var t': Table := t[i := ZERO_ENTRY];
    forall j | 0 <= j < 32 ensures !Matches(t'[j], n) {
      if j != i && t[j].used != 0 { OthersDiffer(t, n, i, j); }
    }
    NamesOfAreFound(t', n);
  }

  /** Clearing the slot of `n` removes `n` only. */
  lemma MapAfterDelete(t: Table, d: Disk, d': Disk, n: CString, i: nat)
    requires NamesOk(t) && i < 32 && i == FindEntry(t, n)
    requires forall j :: 0 <= j < 32 && t[j].used != 0 ==> Contents(d', t[j]) == Contents(d, t[j])
    ensures FileMap(t[i := ZERO_ENTRY], d') == FileMap(t, d) - {n}
  {
    DeletedIsGone(t, n, i);
    var t': Table := t[i := ZERO_ENTRY];
    forall k: CString | k != n
      ensures k in NamesOf(t') <==> k in NamesOf(t)
      ensures Lookup(t', d', k) == Lookup(t, d, k)
    {
      OtherThan(t, ZERO_ENTRY, d, d', n, k, i);
    }
    MapsDifferAt(t, t', d, d', n);
  }

  lemma AllOldContentsKept(v: Volume, op: Op, k: nat)
    requires Healthy(v) && Accepts(v, op) && k <= |Plan(v, op)|
    ensures var d' := Commit(v.disk, Plan(v, op)[..k]);
            forall j :: 0 <= j < 32 && v.table[j].used != 0 ==> Contents(d', v.table[j]) == Contents(v.disk, v.table[j])
  {
    if op.Write? {
      HealthyStart(v, op);
    }
    forall j | 0 <= j < 32 && v.table[j].used != 0
      ensures Contents(Commit(v.disk, Plan(v, op)[..k]), v.table[j]) == Contents(v.disk, v.table[j])
    {
      OldContentsKept(v, op, k, j);
    }
  }

  /** A finished write changes exactly one name; a finished delete removes exactly one. */
  lemma FinishedUpdatesMap(v: Volume, op: Op)
    requires Healthy(v) && Accepts(v, op) && InRange(v.disk, Plan(v, op))
    requires op.Write? ==> |op.name| < 16
    ensures var w, m := Perform(v, op, |Plan(v, op)|), FileMap(v.table, v.disk);
            FileMap(w.table, w.disk) == if op.Write? then m[op.name := op.data] else m - {op.name}
  {
    var w := Perform(v, op, |Plan(v, op)|);
    AllOldContentsKept(v, op, |Plan(v, op)|);
    if op.Write? {
      var i := PickSlot(v.table, op.name);
      StagedSlot(v, op);
      StagedNamesOk(v, op);
      NewContentsStored(v, op);
      MapAfterWrite(v.table, w.table[i], v.disk, w.disk, op.name, i);
    } else {
      MapAfterDelete(v.table, v.disk, w.disk, op.name, FindEntry(v.table, op.name));
    }
  }

  lemma FinishedOnDisk(v: Volume, op: Op, j: nat)
    requires Healthy(v) && Accepts(v, op) && InRange(v.disk, Plan(v, op)) && j < 32
    ensures var e := Staged(v, op)[j];
            && (e.used != 0 ==> OnDisk(v.disk, e))
            && (e.used == 0 ==> e.start == 0 && e.size == 0)
  {
    if op.Write? {
      StagedSlot(v, op);
      NewContentsStored(v, op);
    }
  }

  /** A finished operation leaves memory and disk in agreement again. */
  lemma FinishedStaysHealthy(v: Volume, op: Op)
    requires Healthy(v) && Accepts(v, op) && InRange(v.disk, Plan(v, op))
    requires op.Write? ==> |op.name| < 16
    ensures Healthy(Perform(v, op, |Plan(v, op)|))
  {
    var n := |Plan(v, op)|;
    if op.Write? {
      HealthyStart(v, op);
    }
    StagedNamesOk(v, op);
    StagedExtentsOk(v, op);
    forall j | 0 <= j < 32 ensures var e := Staged(v, op)[j];
        && (e.used != 0 ==> OnDisk(v.disk, e))
        && (e.used == 0 ==> e.start == 0 && e.size == 0)
    {
      FinishedOnDisk(v, op, j);
    }
    SystemSectors(v, op, n);
  }
}
