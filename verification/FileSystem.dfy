/** fs.c: the mounted file system, updated in place. */
module FileSystems {
  import opened CTypes
  import opened FsTable
  import opened Volume
  import opened VolumeProofs
  import opened VolumeTheorems
  import opened AtaDevice
  import opened FsListing

  /** Disk and write history after the first `k` writes of `ws`, all of them on the drive. */
  ghost predicate Reached(d0: Disk, h0: seq<SectorWrite>, d: Disk, h: seq<SectorWrite>, ws: seq<SectorWrite>, k: nat) {
    k <= |ws| && InRange(d0, ws[..k]) && d == Commit(d0, ws[..k]) && h == h0 + ws[..k]
  }

  lemma ReachedNone(d: Disk, h: seq<SectorWrite>, ws: seq<SectorWrite>)
    ensures Reached(d, h, d, h, ws, 0)
  {
    assert h + ws[..0] == h;
  }

  lemma ReachedNext(d0: Disk, h0: seq<SectorWrite>, d: Disk, h: seq<SectorWrite>, ws: seq<SectorWrite>, k: nat)
    requires k < |ws| && Reached(d0, h0, d, h, ws, k) && ws[k].lba < |d0|
    ensures Reached(d0, h0, Put(d, ws[k]), h + [ws[k]], ws, k + 1)
  {
    assert ws[..k + 1] == ws[..k] + [ws[k]];
    assert ws[..k + 1][..k] == ws[..k];
  }

  /**
   * What a write or delete leaves behind.  A refused call changes nothing.  Otherwise the new table is in memory
   * and the first `k` writes of the plan are on disk: all of them on success, while an error takes a device fault
   * or a plan that leaves the drive.
   */
  ghost predicate Outcome(v: Volume, op: Op, w: Volume, h0: seq<SectorWrite>, h: seq<SectorWrite>, k: nat, r: int,
                          faulted: bool) {
    if !Accepts(v, op) then r == -1 && w == v && h == h0
    else
      && w == v.(table := Staged(v, op), disk := w.disk)
      && Reached(v.disk, h0, w.disk, h, Plan(v, op), k)
      && (r == 0 ==> k == |Plan(v, op)|)
      && (r == -1 && InRange(v.disk, Plan(v, op)) ==> faulted)
  }

  /** Success means that the operation is finished. */
  lemma SuccessIsFinish(v: Volume, op: Op, w: Volume, h0: seq<SectorWrite>, h: seq<SectorWrite>, k: nat, faulted: bool)
    requires Outcome(v, op, w, h0, h, k, 0, faulted)
    ensures Accepts(v, op) && InRange(v.disk, Plan(v, op)) && w == Finish(v, op)
  {
    assert Plan(v, op)[..|Plan(v, op)|] == Plan(v, op);
  }

  /** Data writes are the front part of the plan. */
  lemma ReachedInPlan(v: Volume, op: Op, h0: seq<SectorWrite>, d: Disk, h: seq<SectorWrite>, k: nat)
    requires op.Write? && Accepts(v, op)
    requires Reached(v.disk, h0, d, h, DataWrites(StartOf(v, op), op.data), k)
    ensures Reached(v.disk, h0, d, h, Plan(v, op), k)
  {
    assert Plan(v, op)[..k] == DataWrites(StartOf(v, op), op.data)[..k];
  }

  lemma DataInRange(v: Volume, op: Op)
    requires op.Write? && Accepts(v, op) && InRange(v.disk, Plan(v, op))
    ensures InRange(v.disk, DataWrites(StartOf(v, op), op.data)) && TABLE_LBA < |v.disk|
  {
    var p, ws := Plan(v, op), DataWrites(StartOf(v, op), op.data);
    assert forall i :: 0 <= i < |ws| ==> ws[i] == p[i];
    assert p[|p| - 1].lba == TABLE_LBA;
  }

  /** A buffer of whole sectors has room for what the driver transfers. */
  lemma FetchFits(v: Volume, name: CString, len: nat, sectors: nat)
    requires len == 512 * sectors
    ensures Readable(v, name, len) ==> |Fetched(v, name, len)| <= len
  {
    if Readable(v, name, len) {
      BlocksBound(v.table[FindEntry(v.table, name)].size, sectors);
    }
  }

  lemma BlocksBound(size: uint32, n: nat)
    requires size <= 512 * n
    ensures Blocks(size) % 256 <= n
  {
    var s := U32(size + 511);
    assert s <= size + 511;
    QuotientBound(s, n);
  }

  lemma QuotientBound(s: nat, n: nat)
    requires s < 512 * n + 512
    ensures s / 512 % 256 <= s / 512 <= n
  {
  }

  lemma NameAgrees(a: Name, b: CString, i: nat)
    requires NameIs(a, b) && i <= |b|
    ensures i < 16 && a[i] == At(b, i)
  {
    if i < |b| {
      assert a[..|b|][i] == b[i];
    }
  }

  /** Block `i` of a file starts inside the file. */
  lemma BlockInFile(size: uint32, i: nat)
    requires size <= MAX_FILE_BYTES && i < Blocks(size)
    ensures 512 * i < size
  {
  }

  class FileSystem {
    const dev: Device
    const entries: array<Entry>
    const cache: array<CacheEntry>
    var mounted: bool
    var usedFiles: uint32
    var dataStart: uint32

    constructor (dev: Device)
      ensures this.dev == dev && Valid() && fresh(entries) && fresh(cache)
      ensures Vol() == Volume(EmptyTable(), dev.sectors, 0, false)
    {
      this.dev := dev;
      entries := new Entry[32](_ => ZERO_ENTRY);
      cache := new CacheEntry[32](_ => Cached(ZERO_ENTRY));
      mounted, usedFiles, dataStart := false, 0, 0;
      new;
      assert entries[..] == EmptyTable();
    }

    predicate Valid() {
      entries.Length == 32 && cache.Length == 32
    }

    /** The file system and its disk as one value. */
    ghost function Vol(): Volume
      requires Valid()
      reads this, entries, dev
    {
      Volume(entries[..], dev.sectors, dataStart, mounted)
    }

    /** Cache and counters agree with the table; promised after every successful call. */
    ghost predicate Agrees()
      requires Valid()
      reads this, entries, cache
    {
      && (forall i :: 0 <= i < 32 ==> Mirrors(cache[i], entries[i]))
      && usedFiles == CountUsed(entries[..], 32)
    }

    // ----- Helpers -----

    static method CopyNameInto(dest: Name, src: CString) returns (r: Name)
      ensures r == CopyName(dest, src)
    {
      r := dest;
      var i := 0;
      while i + 1 < 16 && At(src, i) != 0
        invariant 0 <= i <= 15 && i <= |src|
        invariant r[..i] == src[..i] && r[i..] == dest[i..]
      {
        r := r[i := src[i]];
        i := i + 1;
      }
      r := r[i := 0];
    }

    static method NameEquals(a: Name, b: CString) returns (eq: bool)
      ensures eq <==> NameIs(a, b)
    {
      var i := 0;
      while i < 16
        invariant 0 <= i <= 16 && i <= |b| && a[..i] == b[..i]
      {
        assert NameIs(a, b) ==> a[i] == At(b, i) by {
          if NameIs(a, b) {
            NameAgrees(a, b, i);
          }
        }
        if a[i] != At(b, i) {
          return false;
        }
        if a[i] == 0 {
          assert i == |b|;
          return true;
        }
        i := i + 1;
      }
      return At(b, 15) == 0;
    }

    method FindIndex(name: CString) returns (r: int)
      requires Valid()
      ensures r == FindEntry(entries[..], name)
    {
      var i := 0;
      while i < 32
        invariant 0 <= i <= 32 && FindEntry(entries[..], name) == FindFrom(entries[..], name, i)
      {
        if entries[i].used != 0 {
          var eq := NameEquals(entries[i].name, name);
          if eq {
            return i;
          }
        }
        i := i + 1;
      }
      return -1;
    }

    method FindFreeIndex() returns (r: int)
      requires Valid()
      ensures r == FindFree(entries[..])
    {
      var i := 0;
      while i < 32
        invariant 0 <= i <= 32 && FindFree(entries[..]) == FreeFrom(entries[..], i)
      {
        if entries[i].used == 0 {
          return i;
        }
        i := i + 1;
      }
      return -1;
    }

    method NextFreeLba() returns (next: uint32)
      requires Valid()
      ensures next == NextFree(entries[..], dataStart)
    {
      next := dataStart;
      var i := 0;
      while i < 32
        invariant 0 <= i <= 32 && next == NextFreeUpTo(entries[..], dataStart, i)
      {
        if entries[i].used != 0 {
          var end := EndOf(entries[i]);
          if end > next {
            next := end;
          }
        }
        i := i + 1;
      }
    }

    method CountUsedFiles() returns (n: uint32)
      requires Valid()
      ensures n == CountUsed(entries[..], 32)
    {
      n := 0;
      var i := 0;
      while i < 32
        invariant 0 <= i <= 32 && n == CountUsed(entries[..], i) <= i
      {
        if entries[i].used != 0 {
          n := n + 1;
        }
        i := i + 1;
      }
    }

    method SyncCache()
      requires Valid()
      modifies cache
      ensures forall i :: 0 <= i < 32 ==> Mirrors(cache[i], entries[i])
    {
      var i := 0;
      while i < 32
        invariant 0 <= i <= 32
        invariant forall j :: 0 <= j < i ==> Mirrors(cache[j], entries[j])
      {
        cache[i] := Cached(entries[i]);
        i := i + 1;
      }
    }

    /** Recounts the used slots and copies the table to the cache. */
    method Refresh()
      requires Valid()
      modifies this`usedFiles, cache
      ensures Agrees() && Vol() == old(Vol())
    {
      usedFiles := CountUsedFiles();
      SyncCache();
    }

    /** Overwrites the whole table in memory. */
    method SetTable(t: Table)
      requires Valid()
      modifies entries
      ensures entries[..] == t
    {
      for i := 0 to 32
        invariant entries[..i] == t[..i]
      {
        entries[i] := t[i];
      }
    }

    method ClearCache()
      requires Valid()
      modifies this, cache, entries
      ensures Vol() == Volume(EmptyTable(), dev.sectors, 0, false) && usedFiles == 0
    {
      mounted, usedFiles, dataStart := false, 0, 0;
      SetTable(EmptyTable());
      SyncCache();
    }

    /** One-sector reads, as `fs_load_superblock` and `fs_load_table` make them. */
    method LoadSector(lba: uint32) returns (r: int, s: Sector)
      requires Valid()
      modifies dev`faults
      ensures r == 0 || r == -1
      ensures r == 0 ==> dev.present && lba < |dev.sectors| && s == dev.sectors[lba]
      ensures old(dev.faults) <= dev.faults
      ensures r == -1 && lba < |dev.sectors| ==> old(dev.faults) < dev.faults
    {
      var w, data := dev.ReadSectors(lba, 1);
      if w != 0 {
        return -1, Zeros(512);
      }
      assert dev.sectors[lba..lba + 1] == [dev.sectors[lba]];
      return 0, data;
    }

    method StoreTable() returns (r: int, ghost reached: bool)
      requires Valid()
      modifies dev`sectors, dev`history, dev`faults
      ensures r == 0 || r == -1
      ensures r == 0 ==> reached
      ensures reached ==> TABLE_LBA < |dev.sectors|
      ensures var w := SectorWrite(TABLE_LBA, StoreSector(entries[..]));
              && dev.sectors == (if reached then Put(old(dev.sectors), w) else old(dev.sectors))
              && dev.history == old(dev.history) + (if reached then [w] else [])
      ensures old(dev.faults) <= dev.faults
      ensures r == -1 && TABLE_LBA < |dev.sectors| ==> old(dev.faults) < dev.faults
    {
      r, reached := dev.WriteSector(TABLE_LBA, StoreSector(entries[..]));
    }

    /** The table store that ends a plan of which all other writes have reached the disk. */
    method StoreLast(ghost d0: Disk, ghost h0: seq<SectorWrite>, ghost ws: seq<SectorWrite>)
      returns (r: int, ghost k: nat)
      requires Valid() && ws != [] && ws[|ws| - 1] == SectorWrite(TABLE_LBA, StoreSector(entries[..]))
      requires Reached(d0, h0, dev.sectors, dev.history, ws, |ws| - 1)
      modifies dev`sectors, dev`history, dev`faults
      ensures r == 0 || r == -1
      ensures Reached(d0, h0, dev.sectors, dev.history, ws, k) && k >= |ws| - 1 && (r == 0 ==> k == |ws|)
      ensures old(dev.faults) <= dev.faults
      ensures r == -1 && TABLE_LBA < |dev.sectors| ==> old(dev.faults) < dev.faults
    {
      ghost var d, h := dev.sectors, dev.history;
      ghost var reached;
      k := |ws| - 1;
      r, reached := StoreTable();
      if reached {
        ReachedNext(d0, h0, d, h, ws, k);
        k := k + 1;
      }
    }

    // ----- Operations -----

    /** The table update of `fs_write_file`: own or first free slot, new extent at the cursor. */
    method PlaceFile(name: CString, size: uint32) returns (found: bool, start: uint32)
      requires Valid()
      modifies entries
      ensures found <==> 0 <= PickSlot(old(entries[..]), name)
      ensures !found ==> entries[..] == old(entries[..])
      ensures found ==>
                && entries[..] == Placed(old(entries[..]), name, size, dataStart)
                && start == NextFree(Claimed(old(entries[..]), name), dataStart)
    {
      start := 0;
      var idx := FindIndex(name);
      if idx < 0 {
        idx := FindFreeIndex();
        if idx < 0 {
          return false, start;
        }
        var n := CopyNameInto(entries[idx].name, name);
        entries[idx] := entries[idx].(name := n, used := 1);
      }
      assert entries[..] == Claimed(old(entries[..]), name);
      start := NextFreeLba();
      entries[idx] := entries[idx].(start := start, size := size);
      assert entries[..] == Placed(old(entries[..]), name, size, dataStart);
      return true, start;
    }

    /** Block `i` of the data, padded with zeros to a whole sector. */
    static method PadBlock(data: seq<byte>, i: nat) returns (sector: Sector)
      requires 512 * i < |data|
      ensures sector == Chunk(data, i)
    {
      var chunk := 512;
      if (i + 1) * 512 > |data| {
        chunk := |data| - i * 512;
      }
      sector := data[i * 512..i * 512 + chunk] + Zeros(512 - chunk);
    }

    /** Block `i` of the data, written behind the file's start. */
    method StoreBlock(start: uint32, data: seq<byte>, i: nat, ghost w: SectorWrite)
      returns (r: int, ghost reached: bool)
      requires |data| <= MAX_FILE_BYTES && i < |DataWrites(start, data)| && w == DataWrites(start, data)[i]
      modifies dev`sectors, dev`history, dev`faults
      ensures r == 0 || r == -1
      ensures r == 0 ==> reached
      ensures reached ==> w.lba < |dev.sectors|
      ensures dev.sectors == if reached then Put(old(dev.sectors), w) else old(dev.sectors)
      ensures dev.history == old(dev.history) + if reached then [w] else []
      ensures r == -1 && w.lba < |dev.sectors| ==> old(dev.faults) < dev.faults
      ensures old(dev.faults) <= dev.faults
    {
      BlockInFile(|data|, i);
      var sector := PadBlock(data, i);
      assert w == SectorWrite(U32(start as int + i), sector);
      r, reached := dev.WriteSector(U32(start as int + i), sector);
    }

    /** The block loop of `fs_write_file`: one padded sector at a time, until one fails. */
    method StoreData(start: uint32, data: seq<byte>) returns (r: int, ghost k: nat)
      requires Valid() && |data| <= MAX_FILE_BYTES
      modifies dev`sectors, dev`history, dev`faults
      ensures r == 0 || r == -1
      ensures var ws := DataWrites(start, data);
              && Reached(old(dev.sectors), old(dev.history), dev.sectors, dev.history, ws, k)
              && (r == 0 ==> k == |ws|)
              && (r == -1 && InRange(old(dev.sectors), ws) ==> old(dev.faults) < dev.faults)
      ensures old(dev.faults) <= dev.faults
    {
      ghost var ws, d0, h0 := DataWrites(start, data), dev.sectors, dev.history;
      var blocks := Blocks(|data|);
      var i := 0;
      ReachedNone(d0, h0, ws);
      while i < blocks
        invariant 0 <= i <= blocks == |ws|
        invariant Reached(d0, h0, dev.sectors, dev.history, ws, i)
        invariant old(dev.faults) <= dev.faults
      {
        ghost var d, h := dev.sectors, dev.history;
        assert InRange(d0, ws) ==> ws[i].lba < |d|;
        var w, reached := StoreBlock(start, data, i, ws[i]);
        if reached {
          ReachedNext(d0, h0, d, h, ws, i);
        }
        if w != 0 {
          k := if reached then i + 1 else i;
          return -1, k;
        }
        i := i + 1;
      }
      return 0, i;
    }

    /** The sectors of an operation whose table is staged in memory: the data, then the table. */
    method StoreFile(ghost v: Volume, ghost op: Op, start: uint32, data: seq<byte>) returns (r: int, ghost k: nat)
      requires Valid() && op.Write? && Accepts(v, op) && op.data == data && start == StartOf(v, op)
      requires dev.sectors == v.disk && entries[..] == Staged(v, op)
      modifies dev`sectors, dev`history, dev`faults
      ensures r == 0 || r == -1
      ensures Reached(v.disk, old(dev.history), dev.sectors, dev.history, Plan(v, op), k)
      ensures r == 0 ==> k == |Plan(v, op)|
      ensures r == -1 && InRange(v.disk, Plan(v, op)) ==> old(dev.faults) < dev.faults
      ensures old(dev.faults) <= dev.faults
    {
      if InRange(v.disk, Plan(v, op)) {
        DataInRange(v, op);
      }
      r, k := StoreData(start, data);
      ReachedInPlan(v, op, old(dev.history), dev.sectors, dev.history, k);
      if r == 0 {
        r, k := StoreLast(v.disk, old(dev.history), Plan(v, op));
      }
    }

    method WriteFile(name: CString, data: seq<byte>) returns (r: int, ghost k: nat)
      requires Valid()
      modifies this`usedFiles, entries, cache, dev`sectors, dev`history, dev`faults
      ensures r == 0 || r == -1
      ensures Outcome(old(Vol()), Write(name, data), Vol(), old(dev.history), dev.history, k, r,
                      old(dev.faults) < dev.faults)
      ensures r == 0 ==> Agrees()
      ensures old(dev.faults) <= dev.faults
    {
      ghost var v := Vol();
      k := 0;
      if !mounted {
        return -1, k;
      }
      if |data| > MAX_FILE_BYTES {
        return -1, k;
      }
      var found, start := PlaceFile(name, |data|);
      if !found {
        return -1, k;
      }
      r, k := StoreFile(v, Write(name, data), start, data);
      if r == 0 {
        Refresh();
      }
    }

    /** A read that succeeds transfers whole sectors; the caller's buffer must have room for these. */
    method ReadFile(name: CString, buffer: array<byte>, bufferLen: nat) returns (r: int, outSize: nat)
      requires Valid()
      requires Readable(Vol(), name, bufferLen) ==> |Fetched(Vol(), name, bufferLen)| <= buffer.Length
      modifies buffer, dev`faults
      ensures r == 0 || r == -1
      ensures r == -1 ==> buffer[..] == old(buffer[..]) && outSize == 0
      ensures r == -1 && Readable(Vol(), name, bufferLen) ==> old(dev.faults) < dev.faults
      ensures r == 0 ==>
                && Readable(Vol(), name, bufferLen)
                && outSize == ReadSize(Vol(), name, bufferLen) && |Fetched(Vol(), name, bufferLen)| <= buffer.Length
                && buffer[..|Fetched(Vol(), name, bufferLen)|] == Fetched(Vol(), name, bufferLen)
      ensures old(dev.faults) <= dev.faults
    {
      outSize := 0;
      if !mounted {
        return -1, 0;
      }
      var idx := FindIndex(name);
      if idx < 0 {
        return -1, 0;
      }
      var e := entries[idx];
      var blocks := Blocks(e.size);
      if bufferLen < e.size {
        return -1, 0;
      }
      if blocks == 0 {
        return 0, 0;
      }
      var w, data := dev.ReadSectors(e.start, ReadCount(e));
      if w != 0 {
        return -1, 0;
      }
      CopyInto(buffer, data);
      return 0, e.size;
    }

    static method CopyInto(buffer: array<byte>, data: seq<byte>)
      requires |data| <= buffer.Length
      modifies buffer
      ensures buffer[..|data|] == data && buffer[|data|..] == old(buffer[|data|..])
    {
      for i := 0 to |data|
        invariant buffer[..i] == data[..i] && buffer[i..] == old(buffer[i..])
      {
        buffer[i] := data[i];
      }
    }

    method DeleteFile(name: CString) returns (r: int, ghost k: nat)
      requires Valid()
      modifies this`usedFiles, entries, cache, dev`sectors, dev`history, dev`faults
      ensures r == 0 || r == -1
      ensures Outcome(old(Vol()), Delete(name), Vol(), old(dev.history), dev.history, k, r,
                      old(dev.faults) < dev.faults)
      ensures r == 0 && old(Agrees()) ==> Agrees()
    {
      ghost var v, op := Vol(), Delete(name);
      k := 0;
      var idx := FindIndex(name);
      if idx < 0 {
        return -1, k;
      }
      entries[idx] := ZERO_ENTRY;
      assert entries[..] == Staged(v, op);
      ReachedNone(v.disk, old(dev.history), Plan(v, op));
      var w;
      w, k := StoreLast(v.disk, old(dev.history), Plan(v, op));
      if w != 0 {
        return -1, k;
      }
      CountAfterDelete(v.table, idx, 32);
      if usedFiles > 0 {
        usedFiles := usedFiles - 1;
      }
      SyncCache();
      return 0, k;
    }

    // ----- Mounting -----

    /** The superblock, then the empty table; `k` of the two writes reach the disk. */
    method StoreFormat() returns (r: int, ghost k: nat)
      requires Valid() && entries[..] == EmptyTable()
      modifies dev`sectors, dev`history, dev`faults
      ensures r == 0 || r == -1
      ensures Reached(old(dev.sectors), old(dev.history), dev.sectors, dev.history, FormatPlan(), k)
      ensures r == 0 ==> k == |FormatPlan()|
      ensures old(dev.faults) <= dev.faults
      ensures r == -1 && TABLE_LBA < |dev.sectors| ==> old(dev.faults) < dev.faults
    {
      ghost var d0, h0, ws := dev.sectors, dev.history, FormatPlan();
      ReachedNone(d0, h0, ws);
      k := 0;
      ghost var reached;
      r, reached := dev.WriteSector(SUPERBLOCK_LBA, FormattedSuperblock());
      if reached {
        ReachedNext(d0, h0, d0, h0, ws, 0);
        k := 1;
      }
      if r == 0 {
        r, k := StoreLast(d0, h0, ws);
      }
    }

    /** `fs_format`. */
    method Format() returns (r: int, ghost k: nat)
      requires Valid()
      modifies this, entries, cache, dev`sectors, dev`history, dev`faults
      ensures r == 0 || r == -1
      ensures k <= 2 && (r == 0 ==> k == 2)
      ensures Reached(old(dev.sectors), old(dev.history), dev.sectors, dev.history, FormatPlan(), k)
      ensures r == 0 ==> Vol() == Volume(EmptyTable(), dev.sectors, DATA_LBA, true) && Agrees()
      ensures r == -1 ==> Vol() == Volume(EmptyTable(), dev.sectors, old(dataStart), old(mounted))
      ensures old(dev.faults) <= dev.faults
      ensures r == -1 && TABLE_LBA < |dev.sectors| ==> old(dev.faults) < dev.faults
    {
      SetTable(EmptyTable());
      r, k := StoreFormat();
      if r == 0 {
        StartEmpty();
      }
    }

    /** The bookkeeping of a successful format. */
    method StartEmpty()
      requires Valid() && forall i :: 0 <= i < 32 ==> entries[i].used == 0
      modifies this, cache
      ensures mounted && dataStart == DATA_LBA && Agrees()
    {
      mounted, dataStart, usedFiles := true, DATA_LBA, 0;
      CountOfNone(entries[..], 32);
      SyncCache();
    }

    /** `fs_init` on an unreadable or foreign superblock. */
    method FormatInstead(sbRead: bool) returns (ghost env: MountEnv)
      requires Valid() && Vol() == Volume(EmptyTable(), dev.sectors, 0, false)
      requires dev.present && (!sbRead || !Recognised(dev.sectors))
      modifies this, entries, cache, dev`sectors, dev`history, dev`faults
      ensures env.present && env.sbRead == sbRead && env.tableRead && env.k <= 2 && (env.formatOk ==> env.k == 2)
      ensures Vol() == Mount(old(dev.sectors), env) && (mounted ==> Agrees())
      ensures old(dev.faults) <= dev.faults
      ensures !env.formatOk && TABLE_LBA < |dev.sectors| ==> old(dev.faults) < dev.faults
    {
      var r;
      ghost var k;
      r, k := Format();
      env := MountEnv(true, sbRead, true, k, r == 0);
    }

    /** The table of a recognised volume, and the data area its superblock names. */
    method AdoptTable(sb: Sector) returns (ok: bool)
      requires Valid() && Vol() == Volume(EmptyTable(), dev.sectors, 0, false)
      modifies this, entries, cache, dev`faults
      ensures ok ==>
                && TABLE_LBA < |dev.sectors| && Agrees()
                && Vol() == Volume(LoadTable(dev.sectors[TABLE_LBA], EmptyTable()), dev.sectors, SbDataStart(sb), true)
      ensures !ok ==> Vol() == old(Vol())
      ensures old(dev.faults) <= dev.faults
      ensures !ok && TABLE_LBA < |dev.sectors| ==> old(dev.faults) < dev.faults
    {
      var r, table := LoadSector(TABLE_LBA);
      if r != 0 {
        return false;
      }
      SetTable(LoadTable(table, entries[..]));
      mounted, dataStart := true, SbDataStart(sb);
      Refresh();
      return true;
    }

    /** `fs_init` on a recognised superblock. */
    method AdoptVolume(sb: Sector) returns (ghost env: MountEnv)
      requires Valid() && Vol() == Volume(EmptyTable(), dev.sectors, 0, false)
      requires dev.present && Recognised(dev.sectors) && sb == dev.sectors[SUPERBLOCK_LBA]
      modifies this, entries, cache, dev`faults
      ensures env == MountEnv(true, true, env.tableRead, 0, false)
      ensures Vol() == Mount(dev.sectors, env) && (mounted ==> Agrees())
      ensures old(dev.faults) <= dev.faults
      ensures !env.tableRead && TABLE_LBA < |dev.sectors| ==> old(dev.faults) < dev.faults
    {
      var ok := AdoptTable(sb);
      env := MountEnv(true, true, ok, 0, false);
    }

    /** `fs_init`, with the device's answers as a ghost result. */
    method Init() returns (ghost env: MountEnv)
      requires Valid()
      modifies this, entries, cache, dev`sectors, dev`history, dev`faults
      ensures env.k <= 2 && (env.formatOk ==> env.k == 2)
      ensures env.present == dev.present
      ensures Vol() == Mount(old(dev.sectors), env) && (mounted ==> Agrees())
      ensures TABLE_LBA < |dev.sectors| && dev.faults == old(dev.faults) && dev.present ==>
                env.sbRead && env.tableRead && (Recognised(old(dev.sectors)) || env.formatOk)
    {
      ClearCache();
      if !dev.present {
        return MountEnv(false, true, true, 0, false);
      }
      var r, sb := LoadSector(SUPERBLOCK_LBA);
      if r != 0 || SbMagic(sb) != MAGIC || SbVersion(sb) != VERSION {
        env := FormatInstead(r == 0);
      } else {
        env := AdoptVolume(sb);
      }
    }

    /** `fs_list_files`: the cached records of used slots, in slot order, at most `max` of them. */
    method ListFiles(max: nat) returns (out: seq<CacheEntry>)
      requires Valid()
      ensures var used := UsedSlots(entries[..], 32);
              && |out| == (if |used| < max then |used| else max)
              && (forall k :: 0 <= k < |out| ==> out[k] == cache[used[k]])
              && (Agrees() ==> forall k :: 0 <= k < |out| ==> Mirrors(out[k], entries[used[k]]))
    {
      out := [];
      var i := 0;
      while i < 32 && |out| < max
        invariant 0 <= i <= 32 && |out| <= max && |out| == |UsedSlots(entries[..], i)|
        invariant forall k :: 0 <= k < |out| ==> out[k] == cache[UsedSlots(entries[..], i)[k]]
      {
        if entries[i].used != 0 {
          out := out + [cache[i]];
        }
        i := i + 1;
      }
      UsedSlotsPrefix(entries[..], i, 32);
    }
  }

  lemma {:induction false} CountOfNone(t: Table, k: nat)
    requires k <= 32 && forall i :: 0 <= i < 32 ==> t[i].used == 0
    ensures CountUsed(t, k) == 0
  {
    if k == 0 {
    } else {
      CountOfNone(t, k - 1);
    }
  }

  lemma {:induction false} CountAfterDelete(t: Table, i: nat, k: nat)
    requires i < 32 && t[i].used != 0 && k <= 32
    ensures CountUsed(t[i := ZERO_ENTRY], k) == CountUsed(t, k) - if i < k then 1 else 0
  {
    if k == 0 {
    } else {
      CountAfterDelete(t, i, k - 1);
    }
  }
}
