/** The sector device behind ata.c: single-sector writes are atomic, every request may fail. */
module AtaDevice {
  import opened CTypes
  import opened FsTable
  import opened Volume

  class Device {
    var sectors: Disk
    const present: bool
    /** Every sector write that reached the medium, in order. */
    ghost var history: seq<SectorWrite>
    /** Requests the device answered with an error although they address the drive. */
    ghost var faults: nat

    constructor (sectors: Disk, present: bool)
      ensures this.sectors == sectors && this.present == present && history == [] && faults == 0
    {
      this.sectors, this.present := sectors, present;
      history, faults := [], 0;
    }

    /** The request addresses at least one sector and only sectors of the drive. */
    predicate Addresses(lba: uint32, count: byte)
      reads this
    {
      count != 0 && lba + count <= |sectors|
    }

    method ReadSectors(lba: uint32, count: byte) returns (r: int, data: seq<byte>)
      modifies this`faults
      ensures r == 0 || r == -1
      ensures r == 0 ==> present && Addresses(lba, count) && data == Flatten(sectors[lba..lba + count])
      ensures old(faults) <= faults
      ensures r == -1 && Addresses(lba, count) ==> old(faults) < faults
    {
      var healthy: bool := *;
      r, data := -1, [];
      if present && Addresses(lba, count) && healthy {
        r, data := 0, Flatten(sectors[lba..lba + count]);
      } else {
        faults := faults + 1;
      }
    }

    /** An error may be reported before or after the sector reached the medium. */
    method WriteSector(lba: uint32, data: Sector) returns (r: int, ghost reached: bool)
      modifies this`sectors, this`history, this`faults
      ensures r == 0 || r == -1
      ensures r == 0 ==> reached
      ensures reached ==> lba < |sectors|
      ensures sectors == if reached then Put(old(sectors), SectorWrite(lba, data)) else old(sectors)
      ensures history == old(history) + if reached then [SectorWrite(lba, data)] else []
      ensures old(faults) <= faults
      ensures r == -1 && lba < |sectors| ==> old(faults) < faults
    {
      var transferred: bool := *;
      var flushed: bool := *;
      r, reached := -1, false;
      if present && lba < |sectors| && transferred {
        sectors := sectors[lba := data];
        history := history + [SectorWrite(lba, data)];
        reached := true;
        r := if flushed then 0 else -1;
      }
      if r != 0 {
        faults := faults + 1;
      }
    }
  }
}
