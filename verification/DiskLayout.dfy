/** The bytes on the drive: where fs.c keeps what, and how a record, a superblock and a stored name look. */
module DiskLayout {
  import opened CTypes
  import opened FsTable
  import opened Volume
  import opened VolumeProofs

  /** Four bytes as a number, the first one counting least. */
  function Number(b: seq<byte>, at: nat): int
    requires at + 4 <= |b|
  {
    b[at] as int + 0x100 * b[at + 1] as int + 0x1_0000 * b[at + 2] as int + 0x100_0000 * b[at + 3] as int
  }

  /** The bytes `field` stand in `b` from `at` on. */
  predicate Holds(b: seq<byte>, at: nat, field: seq<byte>) {
    at + |field| <= |b| && b[at..at + |field|] == field
  }

  lemma HeldAt(b: seq<byte>, at: nat, field: seq<byte>, i: nat)
    requires Holds(b, at, field) && i < |field|
    ensures b[at + i] == field[i]
  {
    assert b[at + i] == b[at..at + |field|][i];
  }

  lemma NumberOf(n: uint32)
    ensures Number(LE32(n), 0) == n
  {
    FromLE32OfLE32(n);
  }

  lemma NumberIsLE(b: seq<byte>, at: nat, n: uint32)
    requires Holds(b, at, LE32(n))
    ensures at + 4 <= |b| && Number(b, at) == n
  {
    var field := LE32(n);
    HeldAt(b, at, field, 0);
    HeldAt(b, at, field, 1);
    HeldAt(b, at, field, 2);
    HeldAt(b, at, field, 3);
    NumberOf(n);
  }

  lemma HoldsInside(b: seq<byte>, at: nat, middle: seq<byte>, k: nat, field: seq<byte>)
    requires Holds(b, at, middle) && Holds(middle, k, field)
    ensures Holds(b, at + k, field)
  {
    var part := b[at + k..at + k + |field|];
    forall i | 0 <= i < |field|
      ensures part[i] == field[i]
    {
      HeldAt(middle, k, field, i);
      HeldAt(b, at, middle, k + i);
    }
  }

  /** Four fields one behind the other. */
  lemma FieldsInOrder(b: seq<byte>, f: seq<byte>, g: seq<byte>, h: seq<byte>, rest: seq<byte>)
    requires b == f + g + h + rest
    ensures Holds(b, 0, f) && Holds(b, |f|, g) && Holds(b, |f| + |g|, h) && Holds(b, |f| + |g| + |h|, rest)
  {
  }

  /** Record `i` of the stored table: name, first block, size, and the used mark, in 36 bytes. */
  predicate RecordAt(s: Sector, i: nat, e: Entry)
    requires i < 14
  {
    && Holds(s, 36 * i, e.name)
    && Number(s, 36 * i + 16) == e.start && Number(s, 36 * i + 20) == e.size && s[36 * i + 24] == e.used
  }

  /** A record anywhere in an image. */
  lemma RecordIn(b: seq<byte>, at: nat, e: Entry)
    requires Holds(b, at, PackEntry(e))
    ensures at + 36 <= |b| && Holds(b, at, e.name)
    ensures Number(b, at + 16) == e.start && Number(b, at + 20) == e.size && b[at + 24] == e.used
  {
    var p := PackEntry(e);
    FieldsInOrder(p, e.name, LE32(e.start), LE32(e.size), [e.used] + e.reserved);
    HoldsInside(b, at, p, 0, e.name);
    HoldsInside(b, at, p, 16, LE32(e.start));
    HoldsInside(b, at, p, 20, LE32(e.size));
    HoldsInside(b, at, p, 24, [e.used] + e.reserved);
    NumberIsLE(b, at + 16, e.start);
    NumberIsLE(b, at + 20, e.size);
    HeldAt(b, at + 24, [e.used] + e.reserved, 0);
  }

  /** What the table sector shows of the first fourteen records. */
  lemma SectorImage(t: Table, i: nat)
    requires i < 14
    ensures RecordAt(StoreSector(t), i, t[i])
  {
    PackAt(t, i);
    assert StoreSector(t)[36 * i..36 * i + 36] == Pack(t)[36 * i..36 * i + 36];
    RecordIn(StoreSector(t), 36 * i, t[i]);
  }

  /** The superblock: the mark and the version, the label, the number of records and the first data block. */
  lemma SuperblockImage(s: Sector)
    requires s == FormattedSuperblock()
    ensures Holds(s, 0, Bytes("ASHS")) && Number(s, 4) == 1
    ensures Holds(s, 8, Bytes("ACHARYAOS_FS")) && Holds(s, 20, [0, 0, 0, 0, 0])
    ensures Number(s, 25) == 32 && Number(s, 29) == 4098 && Holds(s, 33, Zeros(479))
  {
    var rest := LE32(32) + LE32(DATA_LBA) + Zeros(479);
    assert s == LE32(MAGIC) + LE32(VERSION) + LABEL + rest;
    FieldsInOrder(s, LE32(MAGIC), LE32(VERSION), LABEL, rest);
    FieldsInOrder(rest, LE32(32), LE32(DATA_LBA), Zeros(479), []);
    HoldsInside(s, 25, rest, 0, LE32(32));
    HoldsInside(s, 25, rest, 4, LE32(DATA_LBA));
    NumberIsLE(s, 4, 1);
    NumberIsLE(s, 25, 32);
    NumberIsLE(s, 29, 4098);
    MarkIs();
    LabelIs();
    HoldsInside(s, 8, LABEL, 0, Bytes("ACHARYAOS_FS"));
    HoldsInside(s, 8, LABEL, 12, [0, 0, 0, 0, 0]);
    HoldsInside(s, 25, rest, 8, Zeros(479));
  }

  lemma MarkIs()
    ensures LE32(MAGIC) == Bytes("ASHS")
  {
  }

  lemma LabelIs()
    ensures Holds(LABEL, 0, Bytes("ACHARYAOS_FS")) && Holds(LABEL, 12, [0, 0, 0, 0, 0])
  {
  }

  /** Where a format writes, and where the first file of an empty volume goes. */
  lemma FormatBlocks()
    ensures |FormatPlan()| == 2 && FormatPlan()[0].lba == 4096 && FormatPlan()[1].lba == 4097
    ensures NextFree(EmptyTable(), DATA_LBA) == 4098
  {
    CursorIsLeast(EmptyTable(), DATA_LBA, 32, 4098);
  }

  /** Storing a name leaves the bytes behind its terminator as they were. */
  lemma NameKeepsTail(stored: Name, n: CString, k: nat)
    requires k < 16
    ensures CopyName(stored, n)[k] == if k < |n| && k < 15 then n[k] else if k <= |n| then 0 else stored[k]
  {
  }

  /** A new record is marked with 1, an overwritten one keeps its name and mark; the reserved bytes stay. */
  lemma WrittenRecord(v: Volume, n: CString, data: seq<byte>)
    requires Accepts(v, Write(n, data))
    ensures var i, e := PickSlot(v.table, n), Staged(v, Write(n, data))[PickSlot(v.table, n)];
            && e.size == |data| && e.reserved == v.table[i].reserved
            && if i == FindEntry(v.table, n) then e.name == v.table[i].name && e.used == v.table[i].used
               else e.used == 1
  {
  }

  lemma ZeroRecord(k: nat)
    requires k < 36
    ensures PackEntry(ZERO_ENTRY)[k] == 0
  {
    assert LE32(0) == Zeros(4);
    assert ZERO_ENTRY.name + LE32(0) == Zeros(20);
    assert Zeros(20) + LE32(0) == Zeros(24);
    assert Zeros(24) + [0] == Zeros(25);
    assert Zeros(25) + ZERO_ENTRY.reserved == Zeros(36);
  }

  /** A delete zeroes the 36 bytes of the record of that name and touches no other record. */
  lemma DeletedRecord(v: Volume, n: CString, i: nat, k: nat)
    requires Accepts(v, Delete(n)) && i < 32 && k < 36
    ensures i == FindEntry(v.table, n) ==> PackEntry(Staged(v, Delete(n))[i])[k] == 0
    ensures i != FindEntry(v.table, n) ==> Staged(v, Delete(n))[i] == v.table[i]
  {
    ZeroRecord(k);
  }
}
