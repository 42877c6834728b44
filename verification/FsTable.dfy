/** The file table of fs.c: 32 packed 36-byte records, of which one 512-byte sector is stored. */
module FsTable {
  import opened CTypes

  type Sector = s: seq<byte> | |s| == 512 witness seq(512, _ => 0)

  type Name = s: seq<byte> | |s| == 16 witness seq(16, _ => 0)

  type Pad = s: seq<byte> | |s| == 11 witness seq(11, _ => 0)

  datatype Entry = Entry(name: Name, start: uint32, size: uint32, used: byte, reserved: Pad)

  type Table = t: seq<Entry> | |t| == 32 witness seq(32, _ => ZERO_ENTRY)

  const ZERO_ENTRY := Entry(Zeros(16), 0, 0, 0, Zeros(11))

  /** The table of an empty volume. */
  function EmptyTable(): Table {
    seq(32, _ => ZERO_ENTRY)
  }

  /** Memory image of one packed record. */
  function PackEntry(e: Entry): (b: seq<byte>)
    ensures |b| == 36
  {
    e.name + LE32(e.start) + LE32(e.size) + [e.used] + e.reserved
  }

  function UnpackEntry(b: seq<byte>): Entry
    requires |b| == 36
  {
    Entry(b[..16], FromLE32(b[16..20]), FromLE32(b[20..24]), b[24], b[25..])
  }

  /** Memory image of consecutive records. */
  function Pack(es: seq<Entry>): (b: seq<byte>)
    ensures |b| == 36 * |es|
  {
    if es == [] then [] else PackEntry(es[0]) + Pack(es[1..])
  }

  function Unpack(b: seq<byte>, n: nat): (es: seq<Entry>)
    requires |b| == 36 * n
    ensures |es| == n
  {
    if n == 0 then [] else [UnpackEntry(b[..36])] + Unpack(b[36..], n - 1)
  }

  /** What `fs_store_table` hands to the disk: the first sector of the table's memory image. */
  function StoreSector(t: Table): Sector {
    Pack(t)[..512]
  }

  /** What `fs_load_table` leaves in memory: the sector laid over the front of the old image. */
  function LoadTable(s: Sector, t: Table): Table {
    Unpack(s + Pack(t)[512..], 32)
  }

  lemma UnpackPackEntry(e: Entry)
    ensures UnpackEntry(PackEntry(e)) == e
  {
    var b := PackEntry(e);
    assert b[..16] == e.name;
    assert b[16..20] == LE32(e.start);
    assert b[20..24] == LE32(e.size);
    assert b[25..] == e.reserved;
    FromLE32OfLE32(e.start);
    FromLE32OfLE32(e.size);
  }

  lemma PackUnpackEntry(b: seq<byte>)
    requires |b| == 36
    ensures PackEntry(UnpackEntry(b)) == b
  {
    LE32OfFromLE32(b[16..20]);
    LE32OfFromLE32(b[20..24]);
    assert b == b[..16] + b[16..20] + b[20..24] + [b[24]] + b[25..];
  }

  lemma {:induction false} PackUnpack(b: seq<byte>, n: nat)
    requires |b| == 36 * n
    ensures Pack(Unpack(b, n)) == b
  {
    if n == 0 {
    } else {
      PackUnpackEntry(b[..36]);
      PackUnpack(b[36..], n - 1);
      assert Unpack(b, n)[1..] == Unpack(b[36..], n - 1);
      assert b == b[..36] + b[36..];
    }
  }

  /** Loading a sector and storing the table again writes the same sector. */
  lemma StoreOfLoad(s: Sector, t: Table)
    ensures StoreSector(LoadTable(s, t)) == s
  {
    PackUnpack(s + Pack(t)[512..], 32);
  }

  lemma SliceBehind(a: seq<byte>, b: seq<byte>, x: nat)
    requires x + 36 <= |b|
    ensures (a + b)[|a| + x..|a| + x + 36] == b[x..x + 36]
  {
  }

  lemma {:induction false} PackAt(es: seq<Entry>, i: nat)
    requires i < |es|
    ensures Pack(es)[36 * i..36 * i + 36] == PackEntry(es[i])
  {
    if i == 0 {
    } else {
      PackAt(es[1..], i - 1);
      SliceBehind(PackEntry(es[0]), Pack(es[1..]), 36 * (i - 1));
    }
  }

  lemma {:induction false} UnpackAt(b: seq<byte>, n: nat, i: nat)
    requires |b| == 36 * n && i < n
    ensures Unpack(b, n)[i] == UnpackEntry(b[36 * i..36 * i + 36])
  {
    if i == 0 {
    } else {
      UnpackAt(b[36..], n - 1, i - 1);
      assert b[36..][36 * (i - 1)..36 * (i - 1) + 36] == b[36 * i..36 * i + 36];
    }
  }

  /**
   * A stored table comes back record for record in slots 0 to 13.  Slot 14 only gets the eight name
   * bytes that fit in the sector, and later slots keep whatever memory held.
   */
  lemma LoadOfStore(t: Table, u: Table, i: nat)
    requires i < 32
    ensures var r := LoadTable(StoreSector(t), u)[i];
            && (i < 14 ==> r == t[i])
            && (i == 14 ==> r == u[i].(name := t[i].name[..8] + u[i].name[8..]))
            && (14 < i ==> r == u[i])
  {
    var b := StoreSector(t) + Pack(u)[512..];
    UnpackAt(b, 32, i);
    if i < 14 {
      SameSlice(b, Pack(t), 36 * i);
      PackAt(t, i);
      UnpackPackEntry(t[i]);
    } else if i > 14 {
      SameSlice(b, Pack(u), 36 * i);
      PackAt(u, i);
      UnpackPackEntry(u[i]);
    } else {
      SplitRecord(t, u, b);
    }
  }

  lemma SameSlice(b: seq<byte>, c: seq<byte>, a: nat)
    requires a + 36 <= |b| == |c|
    requires forall k :: a <= k < a + 36 ==> b[k] == c[k]
    ensures b[a..a + 36] == c[a..a + 36]
  {
  }

  /** A record made of the first eight bytes of one and the rest of another. */
  lemma JoinedRecord(a: Entry, b: Entry, r: seq<byte>)
    requires |r| == 36 && r[..8] == PackEntry(a)[..8] && r[8..] == PackEntry(b)[8..]
    ensures UnpackEntry(r) == b.(name := a.name[..8] + b.name[8..])
  {
    var p := PackEntry(b);
    UnpackPackEntry(b);
    assert r[..8] == a.name[..8];
    assert forall k :: 8 <= k < 36 ==> r[k] == r[8..][k - 8] == p[8..][k - 8] == p[k];
    assert r[..16] == a.name[..8] + b.name[8..];
    assert r[16..20] == p[16..20] && r[20..24] == p[20..24] && r[25..] == p[25..];
  }

  lemma SameParts(x: seq<byte>, y: seq<byte>, z: seq<byte>, a: nat)
    requires a + 36 <= |x| == |y| == |z|
    requires x[..a + 8] == y[..a + 8] && x[a + 8..] == z[a + 8..]
    ensures x[a..a + 36][..8] == y[a..a + 36][..8]
    ensures x[a..a + 36][8..] == z[a..a + 36][8..]
  {
    assert forall k :: 0 <= k < a + 8 ==> x[k] == x[..a + 8][k] == y[..a + 8][k] == y[k];
    assert forall k :: a + 8 <= k < |x| ==> x[k] == x[a + 8..][k - a - 8] == z[a + 8..][k - a - 8] == z[k];
  }

  /** Bytes 504 to 539 of the reloaded image: eight from the sector, the rest from memory. */
  lemma SplitRecord(t: Table, u: Table, b: seq<byte>)
    requires b == StoreSector(t) + Pack(u)[512..]
    ensures UnpackEntry(b[504..540]) == u[14].(name := t[14].name[..8] + u[14].name[8..])
  {
    PackAt(t, 14);
    PackAt(u, 14);
    SameParts(b, Pack(t), Pack(u), 504);
    JoinedRecord(t[14], u[14], b[504..540]);
  }
}
