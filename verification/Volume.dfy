/**
 * The state machine of fs.c on values: the table in memory, the sectors on disk, and what every
 * operation plans to write.  A fault or a crash is the number of planned writes that reached the disk.
 */
module Volume {
  import opened CTypes
  import opened FsTable

  const MAGIC: uint32 := 0x53485341
  const VERSION: uint32 := 1
  const SUPERBLOCK_LBA := 4096
  const TABLE_LBA := 4097
  const DATA_LBA := 4098
  const MAX_FILE_BYTES := 256 * 512

  /** Sectors of a drive addressed with 28-bit LBAs. */
  type Disk = d: seq<Sector> | |d| <= 0x1000_0000

  datatype SectorWrite = SectorWrite(lba: uint32, data: Sector)

  /** One atomic sector write; a write past the end of the drive has no effect. */
  function Put(d: Disk, w: SectorWrite): (r: Disk)
    ensures |r| == |d|
  {
    if w.lba < |d| then d[w.lba := w.data] else d
  }

  /** A sequence of sector writes, in order. */
  function Commit(d: Disk, ws: seq<SectorWrite>): (r: Disk)
    ensures |r| == |d|
  {
    if ws == [] then d else Put(Commit(d, ws[..|ws| - 1]), ws[|ws| - 1])
  }

  datatype Volume = Volume(table: Table, disk: Disk, base: uint32, mounted: bool)

  // ----- Names -----

  /** The stored name is the C string `n`. */
  predicate NameIs(stored: Name, n: CString) {
    |n| < 16 && stored[..|n|] == n && stored[|n|] == 0
  }

  /** The name field after `fs_copy_name`: at most 15 bytes, a zero, and the old bytes behind it. */
  function CopyName(stored: Name, n: CString): Name {
    var c := if |n| < 16 then |n| else 15;
    n[..c] + [0] + stored[c + 1..]
  }

  predicate Matches(e: Entry, n: CString) {
    e.used != 0 && NameIs(e.name, n)
  }

  /** First used slot from `i` on whose name is `n`, or -1. */
  function FindFrom(t: Table, n: CString, i: nat): (r: int)
    requires i <= 32
    ensures r == -1 || i <= r < 32
    ensures 0 <= r ==> Matches(t[r], n)
    ensures forall j :: i <= j < (if r < 0 then 32 else r) ==> !Matches(t[j], n)
    decreases 32 - i
  {
    if i == 32 then -1 else if Matches(t[i], n) then i else FindFrom(t, n, i + 1)
  }

  function FindEntry(t: Table, n: CString): int {
    FindFrom(t, n, 0)
  }

  /** First unused slot from `i` on, or -1. */
  function FreeFrom(t: Table, i: nat): (r: int)
    requires i <= 32
    ensures r == -1 || i <= r < 32
    ensures 0 <= r ==> t[r].used == 0
    ensures forall j :: i <= j < (if r < 0 then 32 else r) ==> t[j].used != 0
    decreases 32 - i
  {
    if i == 32 then -1 else if t[i].used == 0 then i else FreeFrom(t, i + 1)
  }

  function FindFree(t: Table): int {
    FreeFrom(t, 0)
  }

  // ----- Extents -----

  /** Blocks occupied by `size` bytes, in 32-bit arithmetic. */
  function Blocks(size: uint32): nat {
    U32(size as int + 511) / 512
  }

  /** First LBA behind an extent, in 32-bit arithmetic. */
  function EndOf(e: Entry): uint32 {
    U32(e.start as int + Blocks(e.size))
  }

  /** The allocation cursor after looking at the first `n` slots. */
  function NextFreeUpTo(t: Table, base: uint32, n: nat): (r: uint32)
    requires n <= 32
    ensures base <= r
    ensures forall j :: 0 <= j < n && t[j].used != 0 ==> EndOf(t[j]) <= r
  {
    if n == 0 then base
    else
      var r := NextFreeUpTo(t, base, n - 1);
      if t[n - 1].used != 0 && r < EndOf(t[n - 1]) then EndOf(t[n - 1]) else r
  }

  function NextFree(t: Table, base: uint32): uint32 {
    NextFreeUpTo(t, base, 32)
  }

  // ----- Operations -----

  datatype Op = Write(name: CString, data: seq<byte>) | Delete(name: CString)

  /** The slot `fs_write_file` uses for a name: its own, else the first free one, else -1. */
  function PickSlot(t: Table, n: CString): int {
    var i := FindEntry(t, n);
    if i < 0 then FindFree(t) else i
  }

  /** The operation gets as far as changing the table in memory. */
  predicate Accepts(v: Volume, op: Op) {
    match op
    case Write(n, data) => v.mounted && |data| <= MAX_FILE_BYTES && 0 <= PickSlot(v.table, n)
    case Delete(n) => 0 <= FindEntry(v.table, n)
  }

  /** The table once the slot for `n` is claimed; its extent fields are still the old ones. */
  function Claimed(t: Table, n: CString): Table
    requires 0 <= PickSlot(t, n)
  {
    var i := PickSlot(t, n);
    if FindEntry(t, n) < 0 then t[i := t[i].(name := CopyName(t[i].name, n), used := 1)] else t
  }

  /** The table once the slot for `n` names a fresh extent of `size` bytes. */
  function Placed(t: Table, n: CString, size: uint32, base: uint32): Table
    requires 0 <= PickSlot(t, n)
  {
    var i := PickSlot(t, n);
    var c := Claimed(t, n);
    c[i := c[i].(start := NextFree(c, base), size := size)]
  }

  /** The table in memory once the operation is about to touch the disk. */
  function Staged(v: Volume, op: Op): Table
    requires Accepts(v, op)
  {
    match op
    case Write(n, data) =>
      Placed(v.table, n, |data|, v.base)
    case Delete(n) =>
      v.table[FindEntry(v.table, n) := ZERO_ENTRY]
  }

  /** Sector `i` of a file, padded with zeros. */
  function Chunk(data: seq<byte>, i: nat): Sector
    requires 512 * i <= |data|
  {
    if 512 * i + 512 <= |data| then data[512 * i..512 * i + 512]
    else data[512 * i..] + Zeros(512 - (|data| - 512 * i))
  }

  function DataWrites(start: uint32, data: seq<byte>): (ws: seq<SectorWrite>)
    requires |data| <= MAX_FILE_BYTES
    ensures |ws| == Blocks(|data|)
  {
    seq(Blocks(|data|), i requires 0 <= i < Blocks(|data|) => SectorWrite(U32(start as int + i), Chunk(data, i)))
  }

  /** The first block the operation would write: the allocation cursor. */
  function StartOf(v: Volume, op: Op): uint32
    requires op.Write? && Accepts(v, op)
  {
    NextFree(Claimed(v.table, op.name), v.base)
  }

  /** Every sector write of an operation, in order; the table sector is last. */
  function Plan(v: Volume, op: Op): (ws: seq<SectorWrite>)
    requires Accepts(v, op)
    ensures |ws| > 0 && ws[|ws| - 1] == SectorWrite(TABLE_LBA, StoreSector(Staged(v, op)))
  {
    (if op.Write? then DataWrites(StartOf(v, op), op.data) else [])
    + [SectorWrite(TABLE_LBA, StoreSector(Staged(v, op)))]
  }

  /** The volume after an operation of whose planned writes the first `k` reached the disk. */
  function Perform(v: Volume, op: Op, k: nat): Volume
    requires Accepts(v, op) && k <= |Plan(v, op)|
  {
    v.(table := Staged(v, op), disk := Commit(v.disk, Plan(v, op)[..k]))
  }

  /** Every planned write lies on the drive. */
  predicate InRange(d: Disk, ws: seq<SectorWrite>) {
    forall i :: 0 <= i < |ws| ==> ws[i].lba < |d|
  }

  // ----- Mounting -----

  const LABEL: seq<byte> := [65, 67, 72, 65, 82, 89, 65, 79, 83, 95, 70, 83, 0, 0, 0, 0, 0]

  /** The superblock `fs_format` writes; the last reserved bytes of the structure do not fit. */
  function FormattedSuperblock(): Sector {
    LE32(MAGIC) + LE32(VERSION) + LABEL + LE32(32) + LE32(DATA_LBA) + Zeros(479)
  }

  function SbMagic(s: Sector): uint32 { FromLE32(s[0..4]) }
  function SbVersion(s: Sector): uint32 { FromLE32(s[4..8]) }
  function SbDataStart(s: Sector): uint32 { FromLE32(s[29..33]) }

  function FormatPlan(): seq<SectorWrite> {
    [SectorWrite(SUPERBLOCK_LBA, FormattedSuperblock()), SectorWrite(TABLE_LBA, StoreSector(EmptyTable()))]
  }

  /** How the device answers `fs_init`: which reads fail, and how many format writes take effect. */
  datatype MountEnv = MountEnv(present: bool, sbRead: bool, tableRead: bool, k: nat, formatOk: bool)

  predicate Recognised(d: Disk) {
    SUPERBLOCK_LBA < |d| && SbMagic(d[SUPERBLOCK_LBA]) == MAGIC && SbVersion(d[SUPERBLOCK_LBA]) == VERSION
  }

  /** `fs_init`: an unreadable or foreign superblock leads to a format. */
  function Mount(d: Disk, env: MountEnv): Volume
    requires env.k <= 2 && (env.formatOk ==> env.k == 2)
  {
    if !env.present then Volume(EmptyTable(), d, 0, false)
    else if !env.sbRead || !Recognised(d) then
      Volume(EmptyTable(), Commit(d, FormatPlan()[..env.k]), if env.formatOk then DATA_LBA else 0, env.formatOk)
    else if !env.tableRead || |d| <= TABLE_LBA then Volume(EmptyTable(), d, 0, false)
    else Volume(LoadTable(d[TABLE_LBA], EmptyTable()), d, SbDataStart(d[SUPERBLOCK_LBA]), true)
  }

  /** A boot on a device that answers every request. */
  function Remount(d: Disk): Volume {
    Mount(d, MountEnv(true, true, true, 2, TABLE_LBA < |d|))
  }

  // ----- Contents -----

  function Flatten(ss: seq<Sector>): (b: seq<byte>)
    ensures |b| == 512 * |ss|
  {
    if ss == [] then [] else ss[0] + Flatten(ss[1..])
  }

  predicate OnDisk(d: Disk, e: Entry) {
    e.size <= MAX_FILE_BYTES && e.start + Blocks(e.size) <= |d|
  }

  /** The bytes an entry denotes. */
  function Contents(d: Disk, e: Entry): seq<byte> {
    if OnDisk(d, e) then Flatten(d[e.start..e.start + Blocks(e.size)])[..e.size] else []
  }

  /** The names of the used slots below `k`. */
  function NamesUpTo(t: Table, k: nat): set<CString>
    requires k <= 32
  {
    if k == 0 then {}
    else if t[k - 1].used != 0 && |Terminated(t[k - 1].name)| < 16 then
      NamesUpTo(t, k - 1) + {Terminated(t[k - 1].name)}
    else NamesUpTo(t, k - 1)
  }

  function NamesOf(t: Table): set<CString> {
    NamesUpTo(t, 32)
  }

  lemma {:induction false} NamesUpToHas(t: Table, k: nat, n: CString)
    requires k <= 32
    ensures n in NamesUpTo(t, k) <==> exists i :: 0 <= i < k && Matches(t[i], n)
  {
    if k == 0 {
    } else {
      NamesUpToHas(t, k - 1, n);
      if NameIs(t[k - 1].name, n) {
        TerminatedIs(t[k - 1].name, n);
      }
    }
  }

  lemma NamesOfAreFound(t: Table, n: CString)
    ensures n in NamesOf(t) <==> 0 <= FindEntry(t, n)
  {
    NamesUpToHas(t, 32, n);
  }

  /** The directory as a map from names to file contents. */
  function FileMap(t: Table, d: Disk): map<CString, seq<byte>> {
    map n | n in NamesOf(t) :: Lookup(t, d, n)
  }

  /** The bytes found under a name. */
  function Lookup(t: Table, d: Disk, n: CString): seq<byte> {
    if FindEntry(t, n) < 0 then [] else Contents(d, t[FindEntry(t, n)])
  }

  // ----- Reading -----

  /** Sectors a read asks the device for: the block count squeezed into eight bits. */
  function ReadCount(e: Entry): byte {
    Blocks(e.size) % 256
  }

  /** A read of `name` into `len` bytes succeeds on a device that answers every request. */
  predicate Readable(v: Volume, name: CString, len: nat) {
    v.mounted && 0 <= FindEntry(v.table, name) &&
    var e := v.table[FindEntry(v.table, name)];
    && e.size <= len
    && (Blocks(e.size) != 0 ==> ReadCount(e) != 0 && e.start + ReadCount(e) <= |v.disk|)
  }

  /** The bytes such a read transfers. */
  function Fetched(v: Volume, name: CString, len: nat): seq<byte>
    requires Readable(v, name, len)
  {
    var e := v.table[FindEntry(v.table, name)];
    if Blocks(e.size) == 0 then [] else Flatten(v.disk[e.start..e.start + ReadCount(e)])
  }

  /** The size such a read reports. */
  function ReadSize(v: Volume, name: CString, len: nat): nat
    requires Readable(v, name, len)
  {
    var e := v.table[FindEntry(v.table, name)];
    if Blocks(e.size) == 0 then 0 else e.size
  }

  // ----- Invariants -----

  predicate Disjoint(e: Entry, f: Entry) {
    e.start + Blocks(e.size) <= f.start || f.start + Blocks(f.size) <= e.start
    || Blocks(e.size) == 0 || Blocks(f.size) == 0
  }

  /** Used extents lie in the data area below 2^32 and do not overlap. */
  predicate ExtentsOk(t: Table) {
    && (forall i :: 0 <= i < 32 && t[i].used != 0 ==>
          DATA_LBA <= t[i].start && t[i].size <= MAX_FILE_BYTES && t[i].start + Blocks(t[i].size) < TWO32)
    && (forall i, j :: 0 <= i < j < 32 && t[i].used != 0 && t[j].used != 0 ==> Disjoint(t[i], t[j]))
  }

  /** Used names are terminated and pairwise different. */
  predicate NamesOk(t: Table) {
    && (forall i :: 0 <= i < 32 && t[i].used != 0 ==> |Terminated(t[i].name)| < 16)
    && (forall i, j :: 0 <= i < j < 32 && t[i].used != 0 && t[j].used != 0 ==>
          Terminated(t[i].name) != Terminated(t[j].name))
  }

  /** Unused records carry no stale extent. */
  predicate FreeClean(t: Table) {
    forall i :: 0 <= i < 32 && t[i].used == 0 ==> t[i].start == 0 && t[i].size == 0
  }

  /** A mounted volume on which no operation has failed half-way: memory and disk tell the same story. */
  predicate Healthy(v: Volume) {
    && v.mounted && v.base == DATA_LBA && ExtentsOk(v.table) && NamesOk(v.table) && FreeClean(v.table)
    && TABLE_LBA < |v.disk|
    && v.disk[SUPERBLOCK_LBA] == FormattedSuperblock() && v.disk[TABLE_LBA] == StoreSector(v.table)
    && (forall i :: 0 <= i < 32 && v.table[i].used != 0 ==> OnDisk(v.disk, v.table[i]))
  }
}
