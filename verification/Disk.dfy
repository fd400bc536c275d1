/** The block device behind the file system: 512-byte sectors, any access of which may fail. */
module Disk {
  import opened Bytes

  const SS: nat := 512
  const NO_SECTOR: nat := 0xFFFF_FFFF

  type Sector = s: seq<byte> | |s| == 512 witness seq(512, _ => 0)

  function Blank(): (s: Sector)
    ensures forall i :: 0 <= i < SS ==> s[i] == 0
  {
    seq(SS, _ => 0)
  }

  /** Result codes of the file system (the ones this model can produce). */
  datatype FResult =
    | Ok | DiskErr | IntErr | NoFile | Denied | InvalidObject | NoFilesystem | MkfsAborted | InvalidParameter

  /** `faults` counts failed accesses, so that contracts can say what holds when none failed. */
  class Drive {
    var sectors: seq<Sector>
    ghost var faults: nat
    /** Whether something has been written since the drive was last told to finish its writes. */
    ghost var unsynced: bool

    constructor (s: seq<Sector>)
      ensures sectors == s && faults == 0 && !unsynced
    {
      sectors := s;
      faults := 0;
      unsynced := false;
    }

    /** disk_read of one sector. After a failure the data are unreliable. */
    method Read(sect: nat) returns (res: FResult, data: Sector)
      modifies this`faults
      ensures res == Ok || res == DiskErr
      ensures res == Ok ==> faults == old(faults) && sect < |sectors| && data == sectors[sect]
      ensures res == DiskErr ==> faults == old(faults) + 1
    {
      var works: bool := *;
      if works && sect < |sectors| {
        return Ok, sectors[sect];
      }
      data := *;
      faults := faults + 1;
      return DiskErr, data;
    }

    /** disk_write of one sector. After a failure that sector holds anything. */
    method Write(sect: nat, data: Sector) returns (res: FResult)
      modifies this
      ensures res == Ok || res == DiskErr
      ensures |sectors| == |old(sectors)|
      ensures res == Ok ==> faults == old(faults) && sect < |sectors| && sectors == old(sectors)[sect := data]
      ensures res == DiskErr ==> faults == old(faults) + 1
      ensures forall s :: 0 <= s < |sectors| && s != sect ==> sectors[s] == old(sectors[s])
    {
      var works: bool := *;
      unsynced := true;
      if works && sect < |sectors| {
        sectors := sectors[sect := data];
        return Ok;
      }
      if sect < |sectors| {
        var junk: Sector := *;
        sectors := sectors[sect := junk];
      }
      faults := faults + 1;
      return DiskErr;
    }

    /** disk_read of a run of sectors. */
    method ReadRun(sect: nat, count: nat) returns (res: FResult, data: seq<byte>)
      modifies this`faults
      ensures res == Ok || res == DiskErr
      ensures |data| == count * SS
      ensures res == Ok ==> faults == old(faults) && sect + count <= |sectors|
                            && forall j :: 0 <= j < count ==> data[j * SS..(j + 1) * SS] == sectors[sect + j]
      ensures res == DiskErr ==> faults == old(faults) + 1
    {
      var works: bool := *;
      if works && sect + count <= |sectors| {
        var all := sectors;
        data := seq(count * SS, i requires 0 <= i < count * SS => all[sect + i / SS][i % SS]);
        forall j | 0 <= j < count ensures data[j * SS..(j + 1) * SS] == all[sect + j] {
          var part, sec := data[j * SS..(j + 1) * SS], all[sect + j];
          forall x | 0 <= x < SS ensures part[x] == sec[x] {
            assert (j * SS + x) / SS == j && (j * SS + x) % SS == x;
          }
        }
        return Ok, data;
      }
      data := seq(count * SS, _ => 0);
      faults := faults + 1;
      return DiskErr, data;
    }

    /** disk_write of a run of sectors. After a failure those sectors hold anything. */
    method WriteRun(sect: nat, count: nat, data: seq<byte>) returns (res: FResult)
      requires |data| == count * SS
      modifies this
      ensures res == Ok || res == DiskErr
      ensures |sectors| == |old(sectors)|
      ensures res == Ok ==> faults == old(faults) && sect + count <= |sectors|
                            && forall j :: 0 <= j < count ==> sectors[sect + j] == data[j * SS..(j + 1) * SS]
      ensures res == DiskErr ==> faults == old(faults) + 1
      ensures forall s :: 0 <= s < |sectors| && !(sect <= s < sect + count) ==> sectors[s] == old(sectors[s])
    {
      var works: bool := *;
      unsynced := true;
      if works && sect + count <= |sectors| {
        sectors := seq(|sectors|, s requires 0 <= s < |sectors| reads this =>
          if sect <= s < sect + count then data[(s - sect) * SS..(s - sect + 1) * SS] else sectors[s]);
        return Ok;
      }
      var junk: seq<Sector> := *;
      sectors := seq(|sectors|, s requires 0 <= s < |sectors| reads this =>
        if sect <= s < sect + count && s < |junk| then junk[s] else sectors[s]);
      faults := faults + 1;
      return DiskErr;
    }

    /** disk_ioctl(CTRL_SYNC): wait until pending writes are done. */
    method Sync() returns (res: FResult)
      modifies this`faults, this`unsynced
      ensures (res == Ok && faults == old(faults) && !unsynced) || (res == DiskErr && faults == old(faults) + 1)
    {
      var works: bool := *;
      if works {
        unsynced := false;
        return Ok;
      }
      faults := faults + 1;
      return DiskErr;
    }
  }
}
