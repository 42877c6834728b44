/** What `fs_list_files` shows: the cached records of the used slots, and the files they stand for. */
module FsListing {
  import opened CTypes
  import opened FsTable
  import opened Volume
  import opened VolumeProofs
  import opened VolumeTheorems

  datatype CacheEntry = CacheEntry(name: Name, start: uint32, size: uint32, used: byte)

  /** A cached record shows, field by field, what the record on disk says; its name ends behind 15 bytes. */
  predicate Mirrors(c: CacheEntry, e: Entry) {
    && c.start == e.start && c.size == e.size && c.used == e.used
    && c.name[15] == 0 && forall i :: 0 <= i < 15 ==> c.name[i] == e.name[i]
  }

  /** The cached view of a record. */
  function Cached(e: Entry): (c: CacheEntry)
    ensures Mirrors(c, e)
  {
    CacheEntry(e.name[15 := 0], e.start, e.size, e.used)
  }

  /** The used slots below `k`, in order. */
  function UsedSlots(t: Table, k: nat): (r: seq<nat>)
    requires k <= 32
    ensures |r| == CountUsed(t, k)
    ensures forall i :: 0 <= i < |r| ==> r[i] < k && t[r[i]].used != 0
    ensures forall i, j :: 0 <= i < j < |r| ==> r[i] < r[j]
  {
    if k == 0 then []
    else if t[k - 1].used != 0 then UsedSlots(t, k - 1) + [k - 1] else UsedSlots(t, k - 1)
  }

  /** None is missing. */
  lemma {:induction false} EverySlotIsThere(t: Table, k: nat, j: nat) returns (i: nat)
    requires j < k <= 32 && t[j].used != 0
    ensures i < |UsedSlots(t, k)| && UsedSlots(t, k)[i] == j
    decreases k
  {
    if j == k - 1 {
      i := |UsedSlots(t, k)| - 1;
    } else {
      i := EverySlotIsThere(t, k - 1, j);
    }
  }

  lemma {:induction false} UsedSlotsPrefix(t: Table, i: nat, k: nat)
    requires i <= k <= 32
    ensures UsedSlots(t, i) <= UsedSlots(t, k)
    decreases k
  {
    if i < k {
      UsedSlotsPrefix(t, i, k - 1);
    }
  }

  /** The records mirror the used slots, in order, as many as there are. */
  predicate Lists(out: seq<CacheEntry>, t: Table) {
    |out| == |UsedSlots(t, 32)| && forall k :: 0 <= k < |out| ==> Mirrors(out[k], t[UsedSlots(t, 32)[k]])
  }

  lemma ShownName(c: CacheEntry, e: Entry)
    requires Mirrors(c, e) && |Terminated(e.name)| < 16
    ensures Terminated(c.name) == Terminated(e.name)
  {
    var n := Terminated(e.name);
    assert c.name[..|n|] == n;
    TerminatedIs(c.name, n);
  }

  /** One record of a healthy volume: the file in its slot, with its name and length. */
  lemma ShownFile(v: Volume, c: CacheEntry, j: nat)
    requires Healthy(v) && j < 32 && v.table[j].used != 0 && Mirrors(c, v.table[j])
    ensures var m, n := FileMap(v.table, v.disk), Terminated(v.table[j].name);
            Terminated(c.name) == n && n in m && c.size == |m[n]| && FindEntry(v.table, n) == j
  {
    var e := v.table[j];
    ShownName(c, e);
    assert NameIs(e.name, Terminated(e.name));
    OneMatch(v.table, Terminated(e.name), j);
    ReadOfEntry(v.disk, e);
  }

  /**
   * A full listing of a healthy volume: one record for each file, with its name and its length in bytes, and no
   * other record.
   */
  lemma ListingIsMap(v: Volume, out: seq<CacheEntry>)
    requires Healthy(v) && Lists(out, v.table)
    ensures var m := FileMap(v.table, v.disk);
            && |out| == |m|
            && (forall k :: 0 <= k < |out| ==>
                  Terminated(out[k].name) in m && out[k].size == |m[Terminated(out[k].name)]|)
            && (forall n :: n in m ==> exists k :: 0 <= k < |out| && Terminated(out[k].name) == n)
  {
    var m, slots := FileMap(v.table, v.disk), UsedSlots(v.table, 32);
    FullTable(v.table, v.disk);
    forall k | 0 <= k < |out| ensures Terminated(out[k].name) in m && out[k].size == |m[Terminated(out[k].name)]| {
      ShownFile(v, out[k], slots[k]);
    }
    forall n | n in m ensures exists k :: 0 <= k < |out| && Terminated(out[k].name) == n {
      NamesOfAreFound(v.table, n);
      var j := FindEntry(v.table, n);
      var k := EverySlotIsThere(v.table, 32, j);
      ShownFile(v, out[k], j);
      TerminatedIs(v.table[j].name, n);
    }
  }

  /** What a listing shows of each file. */
  function Shown(out: seq<CacheEntry>): (r: seq<(CString, nat)>)
    ensures |r| == |out| && forall k :: 0 <= k < |r| ==> r[k].0 == Terminated(out[k].name) && r[k].1 == out[k].size
  {
    seq(|out|, k requires 0 <= k < |out| => (Terminated(out[k].name), out[k].size))
  }

  lemma PairsOfMap(ps: seq<(CString, nat)>, m: map<CString, seq<byte>>)
    requires forall p :: p in ps ==> p.0 in m && p.1 == |m[p.0]|
    requires forall n :: n in m ==> (n, |m[n]|) in ps
    ensures (set p | p in ps) == set n | n in m :: (n, |m[n]|)
  {
  }

  /** The names and lengths shown are those of the files. */
  lemma ListingIsSet(v: Volume, out: seq<CacheEntry>)
    requires Healthy(v) && Lists(out, v.table)
    ensures var m := FileMap(v.table, v.disk); (set p | p in Shown(out)) == set n | n in m :: (n, |m[n]|)
  {
    var m, ps := FileMap(v.table, v.disk), Shown(out);
    ListingIsMap(v, out);
    forall n | n in m ensures (n, |m[n]|) in ps {
      var k :| 0 <= k < |out| && Terminated(out[k].name) == n;
      assert ps[k] == (n, |m[n]|);
    }
    PairsOfMap(ps, m);
  }
}
