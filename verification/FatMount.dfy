/**
 * Formatting a drive and mounting it again: what f_mkfs has written, find_volume accepts, and it finds the layout that
 * was planned, with every cluster free but the root directory's.
 */
module FatMount {
  import opened Bytes
  import opened Disk
  import opened FatLayout
  import opened FatTable
  import opened FatChains
  import opened DirEntry
  import opened FatVolume
  import opened Mkfs
  import opened BootSector

  // ---- formatting ----------------------------------------------------------------------------------

  /** The first FAT sector: the reserved entries, and on FAT32 the root directory's. */
  function FatStart(t: FatType): Sector {
    match t
    case Fat12 => StDword(Blank(), 0, 0xFF_FFF8)
    case Fat16 => StDword(Blank(), 0, 0xFFFF_FFF8)
    case Fat32 => StDword(StDword(StDword(Blank(), 0, 0xFFFF_FFF8), 4, 0xFFFF_FFFF), 8, 0x0FFF_FFFF)
  }

  /** The end of what has to be blank: the root directory is in front of the data area, or its first cluster. */
  function RootEnd(p: Plan): nat {
    p.Geo().database + if p.fmt == Fat32 then p.pau else 0
  }

  /** A drive whose boot sector, and partition table if it has one, are those f_mkfs has written for a plan. */
  ghost predicate Formatted(p: Plan, v: seq<Sector>) {
    && p.Sound() && |v| == p.bVol + p.szVol
    && Describes(v[p.bVol], p)
    && (p.bVol != 0 ==> Master(v[0], p.bVol))
  }

  /** What f_mkfs puts there for others: all of the boot sector, and its copy and that of FSINFO if no write failed. */
  ghost predicate Complete(p: Plan, v: seq<Sector>, tm: nat, whole: bool) {
    && p.bVol + 7 < |v| && HasHeader(v[p.bVol], p) && HasTail(v[p.bVol], p, tm)
    && (whole && p.fmt == Fat32 ==> v[p.bVol + 6] == v[p.bVol] && v[p.bVol + 7] == v[p.bVol + 1])
  }

  /** A drive just formatted to a plan; FSINFO may be missing, for its write errors go unnoticed. */
  ghost predicate Written(p: Plan, v: seq<Sector>, fsi: bool) {
    && Formatted(p, v) && RootEnd(p) <= |v|
    && (fsi && p.fmt == Fat32 ==> v[p.bVol + 1] == FsInfo(p.nClst - 1, 2))
    && v[p.Geo().fatbase] == FatStart(p.fmt)
    && (forall s :: p.Geo().fatbase < s < RootEnd(p) ==> v[s] == Blank())
  }

  /** A sector followed by blank ones, as one buffer. */
  function Run(first: Sector, n: nat): (d: seq<byte>)
    requires n > 0
    ensures |d| == n * SS && d[0 * SS..(0 + 1) * SS] == first
    ensures forall j :: 1 <= j < n ==> d[j * SS..(j + 1) * SS] == Blank()
  {
    var d := first + seq((n - 1) * SS, _ => 0);
    assert forall j :: 1 <= j < n ==> d[j * SS..(j + 1) * SS] == Blank() by {
      forall j | 1 <= j < n ensures d[j * SS..(j + 1) * SS] == Blank() {
        var part := d[j * SS..(j + 1) * SS];
        assert forall k :: 0 <= k < SS ==> part[k] == d[j * SS + k] == 0;
      }
    }
    d
  }

  /**
   * The filling loops of f_mkfs: count sectors, the first as given and the others blank, as many at a time as the
   * buffer takes.
   */
  method Fill(drive: Drive, start: nat, count: nat, first: Sector, szBuf: nat) returns (res: FResult)
    requires count > 0 && szBuf > 0
    modifies drive
    ensures |drive.sectors| == |old(drive.sectors)| && drive.faults >= old(drive.faults)
    ensures (res == Ok && drive.faults == old(drive.faults)) || (res == DiskErr && drive.faults > old(drive.faults))
    ensures forall s :: 0 <= s < |drive.sectors| && !(start <= s < start + count) ==>
      drive.sectors[s] == old(drive.sectors)[s]
    ensures res == Ok ==> start + count <= |drive.sectors| && drive.sectors[start] == first
    ensures res == Ok ==> forall s :: start < s < start + count ==> drive.sectors[s] == Blank()
  {
    var sect, nsect, buf := start, count, first;
    while nsect > 0
      invariant sect + nsect == start + count && sect >= start && |drive.sectors| == |old(drive.sectors)|
      invariant drive.faults == old(drive.faults)
      invariant forall s :: 0 <= s < |drive.sectors| && !(start <= s < start + count) ==>
        drive.sectors[s] == old(drive.sectors)[s]
      invariant sect <= |drive.sectors| || sect == start
      invariant buf == if sect == start then first else Blank()
      invariant sect > start ==> drive.sectors[start] == first
      invariant forall s :: start < s < sect ==> drive.sectors[s] == Blank()
    {
      var n := if nsect > szBuf then szBuf else nsect;
      ghost var v := drive.sectors;
      res := drive.WriteRun(sect, n, Run(buf, n));
      if res != Ok { return; }
      forall s | sect <= s < sect + n ensures drive.sectors[s] == if s == sect then buf else Blank() {
        assert drive.sectors[sect + (s - sect)] == Run(buf, n)[(s - sect) * SS..(s - sect + 1) * SS];
      }
      buf := Blank();
      sect, nsect := sect + n, nsect - n;
    }
    res := Ok;
  }

  /** The boot sector, and on FAT32 its copy and FSINFO twice; only the boot sector's own write is checked. */
  method WriteBoot(drive: Drive, p: Plan, tm: nat) returns (res: FResult)
    requires p.Sound() && |drive.sectors| == p.bVol + p.szVol
    modifies drive
    ensures |drive.sectors| == |old(drive.sectors)| && drive.faults >= old(drive.faults)
    ensures res == Ok || (res == DiskErr && drive.faults > old(drive.faults))
    ensures res == Ok ==> Describes(drive.sectors[p.bVol], p)
    ensures res == Ok && p.fmt == Fat32 && drive.faults == old(drive.faults) ==>
      drive.sectors[p.bVol + 1] == FsInfo(p.nClst - 1, 2)
    ensures res == Ok ==> Complete(p, drive.sectors, tm, drive.faults == old(drive.faults))
    ensures forall s :: 0 <= s < |drive.sectors| && (s < p.bVol || p.bVol + p.rsv <= s) ==>
      drive.sectors[s] == old(drive.sectors)[s]
  {
    hide Describes, FsInfo, PowerOfTwo, HasHeader, HasTail;
    var buf := MakeVbr(p, tm);
    res := drive.Write(p.bVol, buf);
    if res != Ok { return; }
    if p.fmt == Fat32 {
      var ignored := drive.Write(p.bVol + 6, buf);
      buf := FsInfo(p.nClst - 1, 2);
      ignored := drive.Write(p.bVol + 7, buf);
      ignored := drive.Write(p.bVol + 1, buf);
    }
  }

  /** FAT and root directory. */
  method WriteAreas(drive: Drive, p: Plan, szBuf: nat) returns (res: FResult)
    requires p.Sound() && |drive.sectors| == p.bVol + p.szVol && szBuf > 0
    modifies drive
    ensures |drive.sectors| == |old(drive.sectors)| && drive.faults >= old(drive.faults)
    ensures (res == Ok && drive.faults == old(drive.faults)) || (res == DiskErr && drive.faults > old(drive.faults))
    ensures forall s :: 0 <= s < |drive.sectors| && s < p.bVol + p.rsv ==> drive.sectors[s] == old(drive.sectors)[s]
    ensures res == Ok ==> RootEnd(p) <= |drive.sectors| && drive.sectors[p.bVol + p.rsv] == FatStart(p.fmt)
    ensures res == Ok ==> forall s :: p.bVol + p.rsv < s < RootEnd(p) ==> drive.sectors[s] == Blank()
    ensures forall s :: RootEnd(p) <= s < |drive.sectors| ==> drive.sectors[s] == old(drive.sectors)[s]
  {
    assert p.szFat > 0 && p.pau > 0 && (p.fmt == Fat32 ==> p.dir == 0) && (p.fmt != Fat32 ==> p.dir == 32);
    hide FatStart, Plan.Sound;
    var bFat := p.bVol + p.rsv;
    res := Fill(drive, bFat, p.szFat, FatStart(p.fmt), szBuf);
    if res != Ok { return; }
    ghost var v := drive.sectors;
    res := Fill(drive, bFat + p.szFat, if p.fmt == Fat32 then p.pau else p.dir, Blank(), szBuf);
    if res == Ok {
      assert drive.sectors[bFat] == v[bFat];
      forall s | bFat < s < RootEnd(p) ensures drive.sectors[s] == Blank() {
        if s < bFat + p.szFat { assert drive.sectors[s] == v[s]; }
      }
    }
  }

  /** Everything f_mkfs writes. */
  method WriteVolume(drive: Drive, p: Plan, szBuf: nat, tm: nat) returns (res: FResult)
    requires p.Sound() && |drive.sectors| == p.bVol + p.szVol && szBuf > 0
    modifies drive
    ensures |drive.sectors| == |old(drive.sectors)| && drive.faults >= old(drive.faults)
    ensures res == Ok || (res == DiskErr && drive.faults > old(drive.faults))
    ensures res == Ok ==> Written(p, drive.sectors, drive.faults == old(drive.faults)) && !drive.unsynced
    ensures res == Ok ==> Complete(p, drive.sectors, tm, drive.faults == old(drive.faults))
    ensures res == Ok && p.bVol != 0 ==> Partitioned(p, drive.sectors[0])
    ensures forall s :: 0 <= s < |drive.sectors| && (0 < s < p.bVol || RootEnd(p) <= s) ==>
      drive.sectors[s] == old(drive.sectors)[s]
  {
    hide Describes, FsInfo, Plan.Sound, Master, FatStart, HasHeader, HasTail, Partitioned;
    Reserved(p);
    res := WriteBoot(drive, p, tm);
    if res != Ok { return; }
    res := WriteAreas(drive, p, szBuf);
    if res != Ok { return; }
    res := WritePartition(drive, p);
    if res != Ok { return; }
    res := drive.Sync();
  }

  lemma Reserved(p: Plan)
    requires p.Sound()
    ensures p.rsv > 0 && (p.fmt == Fat32 ==> p.rsv == 32) && p.rsv < p.szVol && p.nClst >= 1 && p.szVol >= 128
  {
  }

  /** The partition table, unless the volume takes the whole drive. */
  method WritePartition(drive: Drive, p: Plan) returns (res: FResult)
    requires p.Sound() && |drive.sectors| == p.bVol + p.szVol
    modifies drive
    ensures |drive.sectors| == |old(drive.sectors)| && drive.faults >= old(drive.faults)
    ensures (res == Ok && drive.faults == old(drive.faults)) || (res == DiskErr && drive.faults > old(drive.faults))
    ensures forall s :: 0 <= s < |drive.sectors| && (p.bVol == 0 || s > 0) ==> drive.sectors[s] == old(drive.sectors)[s]
    ensures res == Ok && p.bVol != 0 ==> Master(drive.sectors[0], p.bVol) && Partitioned(p, drive.sectors[0])
  {
    hide Plan.Sound, Master, OnePartition;
    res := Ok;
    if p.bVol != 0 {
      var buf := MakeMbr(p);
      res := drive.Write(0, buf);
    }
  }

  /** The partition table for the volume, with the kind of system that goes with its FAT type and size. */
  ghost predicate Partitioned(p: Plan, s: Sector) {
    OnePartition(s, if p.fmt == Fat32 then 0x0C else if p.szVol >= 0x1_0000 then 0x06
                    else if p.fmt == Fat16 then 0x04 else 0x01, p.bVol, p.szVol)
  }

  /** No more than one bit is set: n is a power of two. */
  predicate OneBit(n: nat) {
    n == 1 || (n > 0 && n % 2 == 0 && OneBit(n / 2))
  }

  lemma {:induction false} OneBitValues(n: nat)
    requires OneBit(n) && n < 0x2_0000
    ensures n <= 128 ==> PowerOfTwo(n)
    ensures n > 128 ==>
      n == 256 || n == 512 || n == 1024 || n == 2048 || n == 4096 || n == 8192 || n == 16384 || n == 32768 || n == 65536
  {
    if n == 1 {
    } else {
      OneBitValues(n / 2);
    }
  }

  /** A cluster size in bytes that f_mkfs takes: none, or a power of two from a sector to 16 MB. */
  predicate GoodSize(au: nat) {
    au == 0 || (SS <= au <= 0x100_0000 && OneBit(au))
  }

  /** The powers of two, as far as they matter. */
  lemma {:induction false} OneBitExactly(n: nat)
    requires n <= 0x100_0000
    ensures OneBit(n) <==>
            n in {1, 2, 4, 8, 0x10, 0x20, 0x40, 0x80, 0x100, 0x200, 0x400, 0x800, 0x1000, 0x2000, 0x4000, 0x8000,
                  0x1_0000, 0x2_0000, 0x4_0000, 0x8_0000, 0x10_0000, 0x20_0000, 0x40_0000, 0x80_0000, 0x100_0000}
  {
    if n <= 1 {
    } else {
      OneBitExactly(n / 2);
    }
  }

  /** A cluster size is open, or a power of two from 512 bytes to 16 MiB. */
  lemma GoodSizes(au: nat)
    ensures GoodSize(au) <==>
            au in {0, 0x200, 0x400, 0x800, 0x1000, 0x2000, 0x4000, 0x8000,
                   0x1_0000, 0x2_0000, 0x4_0000, 0x8_0000, 0x10_0000, 0x20_0000, 0x40_0000, 0x80_0000, 0x100_0000}
  {
    if au <= 0x100_0000 { OneBitExactly(au); }
  }

  lemma SizeInSectors(au: nat)
    ensures GoodSize(0)
    ensures GoodSize(au) ==> au / SS > 128 || au / SS == 0 || PowerOfTwo(au / SS)
    ensures GoodSize(au) ==> (au / SS == 0 <==> au == 0)
  {
    if GoodSize(au) && au != 0 && au / SS <= 128 { OneBitValues(au); }
  }

  /**
   * f_mkfs. After a success the drive is formatted to a sound plan. With both FAT types allowed and the cluster size
   * left open a volume of at least 128 sectors is always formatted unless an access fails.
   */
  method Format(drive: Drive, opt: Options, au: nat, len: nat, tm: nat) returns (res: FResult, p: Plan)
    requires |drive.sectors| < NO_SECTOR
    modifies drive
    ensures |drive.sectors| == |old(drive.sectors)| && drive.faults >= old(drive.faults)
    ensures res == Ok || res == MkfsAborted || res == InvalidParameter
      || (res == DiskErr && drive.faults > old(drive.faults))
    ensures res == Ok ==>
      && Written(p, drive.sectors, drive.faults == old(drive.faults)) && p.bVol == (if opt.sfd then 0 else 63)
      && !drive.unsynced
    ensures res == Ok ==>
      GoodSize(au) && (au != 0 ==> p.pau == au / SS) && if p.fmt == Fat32 then opt.fat32 else opt.fat
    ensures res == Ok ==> Complete(p, drive.sectors, tm, drive.faults == old(drive.faults))
    ensures res == Ok && !opt.sfd ==> Partitioned(p, drive.sectors[0])
    ensures res == Ok ==>
      forall s :: 0 <= s < |drive.sectors| && (0 < s < p.bVol || RootEnd(p) <= s) ==>
        drive.sectors[s] == old(drive.sectors)[s]
    ensures res == MkfsAborted || res == InvalidParameter ==> drive.sectors == old(drive.sectors)
    ensures !GoodSize(au) ==> res == InvalidParameter
    ensures GoodSize(au) && len < 512 ==> res == MkfsAborted
    ensures res == InvalidParameter ==> !GoodSize(au) || au > 128 * 512 || !(opt.fat || opt.fat32)
    ensures var b: nat := if opt.sfd then 0 else 63;
            GoodSize(au) && len >= SS && |old(drive.sectors)| >= b + 128 && 512 <= au <= 128 * 512 ==>
              opt.fat && Succeeds(Fat16, au / 512, b, |old(drive.sectors)| - b) ==> res == Ok || res == DiskErr
    ensures opt.fat && opt.fat32 && au == 0 && len >= SS
            && |old(drive.sectors)| >= (if opt.sfd then 128 else 191) ==>
      res == Ok || res == DiskErr
  {
    hide GoodSize, Written, Plan.Sound, PowerOfTwo, Complete, Partitioned, Succeeds, RootEnd, Sized;
    p := Plan(Fat12, 0, 0, 0, 0, 0, 0, 0);
    SizeInSectors(au);
    if !GoodSize(au) { return InvalidParameter, p; }
    var szBuf := len / SS;
    if szBuf == 0 { return MkfsAborted, p; }
    var szVol := |drive.sectors|;
    var bVol := if opt.sfd then 0 else 63;
    if szVol < bVol { return MkfsAborted, p; }
    szVol := szVol - bVol;
    if szVol < 128 { return MkfsAborted, p; }
    res, p := Choose(opt, au / SS, bVol, szVol);
    if res != Ok { return; }
    res := WriteVolume(drive, p, szBuf, tm);
  }

  // ---- mounting ------------------------------------------------------------------------------------

  /** What mounting learns. */
  datatype Mounted = Mounted(geo: Geometry, lastClst: Dword, freeClst: Dword, fsiDisabled: bool)

  /** check_fs: read a sector and look whether it is a boot sector; 4 if it cannot be read. */
  method CheckFs(drive: Drive, sect: nat) returns (fmt: nat, win: Sector)
    modifies drive`faults
    ensures if fmt == 4 then drive.faults > old(drive.faults)
            else
              && drive.faults == old(drive.faults)
              && sect < |drive.sectors| && win == drive.sectors[sect] && fmt == BootKind(win)
  {
    hide BootKind;
    var res;
    res, win := drive.Read(sect);
    fmt := if res == Ok then BootKind(win) else 4;
  }

  /** Partition i of the table in sector 0 begins with a FAT boot sector. */
  ghost predicate Candidate(v: seq<Sector>, i: nat)
    requires |v| > 0 && i < 4
  {
    0 < PartitionStart(v[0], i) < |v| && BootKind(v[PartitionStart(v[0], i)]) == 0
  }

  lemma CandidateFacts(v: seq<Sector>, i: nat)
    requires |v| > 0 && i < 4
    ensures Candidate(v, i) <==> 0 < PartitionStart(v[0], i) < |v| && BootKind(v[PartitionStart(v[0], i)]) == 0
  {
  }

  /** Sector b is the boot sector meant: sector 0, or that of the first partition that has one. */
  ghost predicate FirstBoot(v: seq<Sector>, b: nat)
    requires |v| > 0
  {
    if BootKind(v[0]) == 0 then b == 0
    else BootKind(v[0]) == 2 && exists i: nat ::
      i < 4 && Candidate(v, i) && b == PartitionStart(v[0], i) && forall j :: 0 <= j < i ==> !Candidate(v, j)
  }

  ghost predicate NoBoot(v: seq<Sector>)
    requires |v| > 0
  {
    BootKind(v[0]) == 3 || (BootKind(v[0]) == 2 && forall j :: 0 <= j < 4 ==> !Candidate(v, j))
  }

  /** The search of find_volume for a boot sector: sector 0, or else the start of a partition. */
  method FindBoot(drive: Drive) returns (fmt: nat, bsect: nat, win: Sector)
    modifies drive`faults
    ensures drive.faults >= old(drive.faults) && (fmt == 4 ==> drive.faults > old(drive.faults))
    ensures drive.sectors == [] ==> fmt == 4
    ensures fmt < 2 ==> bsect < |drive.sectors| && win == drive.sectors[bsect] && BootKind(win) == 0
    ensures |drive.sectors| > 0 && BootKind(drive.sectors[0]) == 0 ==> fmt == 4 || (fmt < 2 && bsect == 0)
    ensures forall b :: 0 < b < |drive.sectors| && BootKind(drive.sectors[b]) == 0 && Master(drive.sectors[0], b) ==>
      if fmt < 2 then bsect == b else drive.faults > old(drive.faults)
    ensures drive.faults == old(drive.faults) ==>
      |drive.sectors| > 0 && if fmt < 2 then FirstBoot(drive.sectors, bsect) else NoBoot(drive.sectors)
  {
    hide BootKind, PartitionStart, Candidate;
    bsect := 0;
    fmt, win := CheckFs(drive, 0);
    if fmt == 2 {
      var mbr, i := win, 0;
      while true
        invariant 0 <= i < 4 && mbr == drive.sectors[0] && BootKind(mbr) == 2 && drive.faults >= old(drive.faults)
        invariant i > 0 && drive.faults == old(drive.faults) ==>
                    PartitionStart(mbr, 0) == 0
                    || !(PartitionStart(mbr, 0) < |drive.sectors|
                         && BootKind(drive.sectors[PartitionStart(mbr, 0)]) == 0)
        invariant drive.faults == old(drive.faults) ==> forall j :: 0 <= j < i ==> !Candidate(drive.sectors, j)
        decreases 4 - i
      {
        bsect := PartitionStart(mbr, i);
        fmt := 3;
        if bsect != 0 { fmt, win := CheckFs(drive, bsect); }
        CandidateFacts(drive.sectors, i);
        if fmt < 2 || i == 3 { return; }
        i := i + 1;
      }
    }
  }

  /** FAT type by number of clusters. */
  function TypeOf(nclst: nat): FatType {
    if nclst <= MAX_FAT12 then Fat12 else if nclst <= MAX_FAT16 then Fat16 else Fat32
  }

  /** What every accepted boot sector guarantees, whoever wrote it. */
  predicate Plausible(g: Geometry) {
    && (g.nFats == 1 || g.nFats == 2) && PowerOfTwo(g.csize)
    && (g.nFatent >= 3 ==> g.fsType == TypeOf(g.nFatent - 2))
    && (3 <= g.nFatent < 0x1000_0000 ==> TableBytes(g.fsType, g.nFatent) <= g.fsize * SS)
  }

  /** The numbers in a boot sector that find_volume works with. */
  datatype Fields = Fields(fasize: nat, nFats: nat, csize: nat, nRootdir: nat, tsect: nat, nrsv: nat)

  /** What a boot sector says: a size that does not fit the older, shorter field is in the longer one. */
  ghost function Said(s: Sector): Fields {
    Fields(if LdWord(s, 22) != 0 then LdWord(s, 22) else LdDword(s, 36), s[16], s[13], LdWord(s, 17),
           if LdWord(s, 19) != 0 then LdWord(s, 19) else LdDword(s, 32), LdWord(s, 14))
  }

  /** Each number by itself is acceptable. */
  ghost predicate Acceptable(s: Sector) {
    && LdWord(s, 11) == 512 && (s[16] == 1 || s[16] == 2) && (s[13] as int in {1, 2, 4, 8, 16, 32, 64, 128})
    && LdWord(s, 17) % 16 == 0 && LdWord(s, 14) != 0
  }

  /** Reading them, with the checks of each. */
  method ReadFields(win: Sector, ghost p: Plan) returns (ok: bool, f: Fields)
    ensures ok ==> (f.nFats == 1 || f.nFats == 2) && PowerOfTwo(f.csize) && f.nRootdir % 16 == 0 && f.nrsv > 0
    ensures ok ==> f.fasize < TWO32 && f.tsect < TWO32 && f.nrsv < 0x1_0000 && f.nRootdir < 0x1_0000
    ensures (ok <==> Acceptable(win)) && (ok ==> f == Said(win))
    ensures p.Sound() && Describes(win, p) ==>
      ok && f == Fields(p.szFat, 1, p.pau, if p.fmt == Fat32 then 0 else N_ROOTDIR, p.szVol, p.rsv)
  {
    if p.Sound() { SoundSizes(p); }
    hide Plan.Sound, LdDword, LdWord;
    f := Fields(0, 0, 0, 0, 0, 0);
    ok := false;
    if LdWord(win, BPB_BYTS_PER_SEC) != SS { return; }
    var fasize := LdWord(win, BPB_FATSZ16);
    if fasize == 0 { fasize := LdDword(win, BPB_FATSZ32); }
    var nFats: nat := win[BPB_NUM_FATS];
    if nFats != 1 && nFats != 2 { return; }
    var csize: nat := win[BPB_SEC_PER_CLUS];
    if csize == 0 || !PowerOfTwo(csize) { return; }
    var nRootdir := LdWord(win, BPB_ROOT_ENT_CNT);
    if nRootdir % (SS / SZDIRE) != 0 { return; }
    var tsect := LdWord(win, BPB_TOT_SEC16);
    if tsect == 0 { tsect := LdDword(win, BPB_TOT_SEC32); }
    var nrsv := LdWord(win, BPB_RSVD_SEC_CNT);
    if nrsv == 0 { return; }
    ok, f := true, Fields(fasize, nFats, csize, nRootdir, tsect, nrsv);
  }

  /** The sectors in front of the first cluster, and the number of clusters behind them. */
  ghost function SystemArea(f: Fields): nat {
    (f.nrsv + f.fasize * f.nFats % 0x1_0000_0000 + f.nRootdir / 16) % 0x1_0000_0000
  }

  ghost function Clusters(f: Fields): nat {
    if f.csize > 0 && f.tsect >= SystemArea(f) then (f.tsect - SystemArea(f)) / f.csize else 0
  }

  /** The layout that the numbers of a boot sector at this place mean. */
  ghost function Meant(s: Sector, bsect: nat): Geometry {
    var f, n := Said(s), Clusters(Said(s));
    var fatbase := (bsect + f.nrsv) % 0x1_0000_0000;
    var t := if n <= 0xFF5 then Fat12 else if n <= 0xFFF5 then Fat16 else Fat32;
    Geometry(t, f.nFats, f.csize, (n + 2) % 0x1_0000_0000, f.fasize, bsect, fatbase,
             if t == Fat32 then LdDword(s, 44)
             else (fatbase + f.fasize * f.nFats % 0x1_0000_0000) % 0x1_0000_0000,
             (bsect + SystemArea(f)) % 0x1_0000_0000)
  }

  /** They are those of a volume: there are clusters, the FAT has room for them, and the root directory is right. */
  ghost predicate Consistent(s: Sector, g: Geometry) {
    && Clusters(Said(s)) > 0
    && (if g.fsType == Fat32 then LdWord(s, 42) == 0 == LdWord(s, 17) else LdWord(s, 17) != 0)
    && g.fsize >= Wrap(Needed(g.fsType, g.nFatent) + SS - 1) / SS
  }

  lemma RootSaid(s: Sector)
    ensures Said(s).nRootdir == LdWord(s, 17)
  {
  }

  /** The same step by step. */
  lemma MeantBySteps(s: Sector, bsect: nat, f: Fields)
    requires f == Said(s) && f.csize > 0
    ensures var fasize := Wrap(f.fasize * f.nFats);
            var sysect := Wrap(f.nrsv + fasize + f.nRootdir / 16);
            var n := if f.tsect < sysect then 0 else (f.tsect - sysect) / f.csize;
            && Clusters(f) == n
            && Meant(s, bsect) ==
               Geometry(TypeOf(n), f.nFats, f.csize, Wrap(n + 2), f.fasize, bsect, Wrap(bsect + f.nrsv),
                        if TypeOf(n) == Fat32 then LdDword(s, 44) else Wrap(Wrap(bsect + f.nrsv) + fasize),
                        Wrap(bsect + sysect))
  {
    hide LdWord, LdDword, Said;
  }

  /** The analysis of the boot sector in find_volume, in 32-bit arithmetic. */
  method ReadParams(win: Sector, bsect: nat, ghost p: Plan) returns (res: FResult, g: Geometry)
    ensures res == Ok || res == NoFilesystem
    ensures res == Ok ==> Plausible(g) && g.volbase == bsect && g == Meant(win, bsect)
    ensures res == Ok <==> Acceptable(win) && Consistent(win, Meant(win, bsect))
    ensures p.Sound() && Describes(win, p) && bsect == p.bVol ==> res == Ok && g == p.Geo()
  {
    hide Describes, Plan.Sound, PowerOfTwo, LdDword, LdWord, Wrap, Needed, TypeOf, TableBytes, Plausible, Acceptable,
      Meant, Clusters, SystemArea, Said;
    ghost var mine := p.Sound() && Describes(win, p) && bsect == p.bVol;
    if mine {
      SoundSizes(p);
      DescribesTail(win, p);
    }
    g := Geometry(Fat12, 0, 0, 0, 0, 0, 0, 0, 0);
    res := NoFilesystem;
    var ok, f := ReadFields(win, p);
    if !ok { return; }
    PowerPositive(f.csize);
    MeantBySteps(win, bsect, f);
    RootSaid(win);
    var fasize := Wrap(f.fasize * f.nFats);
    var sysect := Wrap(f.nrsv + fasize + f.nRootdir / (SS / SZDIRE));
    if f.tsect < sysect { return; }
    var nclst := (f.tsect - sysect) / f.csize;
    if nclst == 0 { return; }
    g := Geometry(TypeOf(nclst), f.nFats, f.csize, Wrap(nclst + 2), f.fasize, bsect, Wrap(bsect + f.nrsv), 0,
      Wrap(bsect + sysect));
    ok, g := CheckSizes(win, g, fasize, f.nRootdir);
    if ok {
      res := Ok;
      PlausibleSizes(g, nclst);
    }
  }

  lemma DescribesTail(win: Sector, p: Plan)
    requires p.Sound() && Describes(win, p)
    ensures p.fmt == Fat32 ==> LdWord(win, BPB_FSVER32) == 0 && LdDword(win, BPB_ROOT_CLUS32) == 2
    ensures p.nClst == (p.szVol - p.System()) / p.pau && p.System() <= p.szVol
    ensures if p.fmt == Fat32 then p.dir == 0 else p.dir == N_ROOTDIR / (SS / SZDIRE)
  {
    hide LdWord, LdDword, TableBytes;
  }

  lemma PlausibleSizes(g: Geometry, nclst: nat)
    requires g.nFatent == Wrap(nclst + 2) && nclst < TWO32 && g.fsType == TypeOf(nclst)
    requires (g.nFats == 1 || g.nFats == 2) && PowerOfTwo(g.csize)
    requires g.fsize >= Wrap(Needed(g.fsType, g.nFatent) + SS - 1) / SS
    ensures Plausible(g)
  {
    hide PowerOfTwo, Needed, TableBytes;
    if 3 <= g.nFatent < 0x1000_0000 { EnoughFat(g.fsType, g.nFatent, g.fsize); }
  }

  lemma EnoughFat(t: FatType, n: nat, fsize: nat)
    requires 3 <= n < 0x1000_0000 && fsize >= Wrap(Needed(t, n) + SS - 1) / SS
    ensures TableBytes(t, n) <= fsize * SS
  {
    hide Wrap, Needed, TableBytes;
    NeededBytes(t, n);
    SectorsFor(TableBytes(t, n), fsize);
  }

  /** As long as nothing wraps around, what find_volume asks for is what the table takes, in whole sectors. */
  lemma NeededBytes(t: FatType, n: nat)
    requires n <= 0x1000_0000
    ensures Needed(t, n) == TableBytes(t, n) && Wrap(Needed(t, n) + SS - 1) == TableBytes(t, n) + SS - 1
  {
    hide Wrap;
    NoWrap(n * 3);
    NoWrap(n * 2);
    NoWrap(n * 4);
    assert TableBytes(t, n) <= n * 4;
    NoWrap(TableBytes(t, n) + SS - 1);
  }

  lemma SectorsFor(x: nat, n: nat)
    ensures n >= (x + SS - 1) / SS <==> x <= n * SS
  {
  }

  /** The part of it that depends on the FAT type, and the test whether the FAT is large enough. */
  method CheckSizes(win: Sector, g0: Geometry, fasize: nat, nRootdir: nat) returns (ok: bool, g: Geometry)
    ensures ok ==>
      g == g0.(dirbase := if g0.fsType == Fat32 then LdDword(win, BPB_ROOT_CLUS32) else Wrap(g0.fatbase + fasize))
    ensures ok <==> (if g0.fsType == Fat32 then LdWord(win, BPB_FSVER32) == 0 && nRootdir == 0 else nRootdir != 0)
                    && g0.fsize >= Wrap(Needed(g0.fsType, g0.nFatent) + SS - 1) / SS
  {
    ok, g := false, g0;
    var szbfat;
    if g.fsType == Fat32 {
      if LdWord(win, BPB_FSVER32) != 0 { return; }
      if nRootdir != 0 { return; }
      g := g.(dirbase := LdDword(win, BPB_ROOT_CLUS32));
      szbfat := Wrap(g.nFatent * 4);
    } else {
      if nRootdir == 0 { return; }
      g := g.(dirbase := Wrap(g.fatbase + fasize));
      szbfat := if g.fsType == Fat16 then Wrap(g.nFatent * 2) else Wrap(g.nFatent * 3) / 2 + g.nFatent % 2;
    }
    ok := !(g.fsize < Wrap(szbfat + SS - 1) / SS);
  }

  /** The FAT size find_volume asks for. */
  function Needed(t: FatType, n: nat): nat {
    match t
    case Fat12 => Wrap(n * 3) / 2 + n % 2
    case Fat16 => Wrap(n * 2)
    case Fat32 => Wrap(n * 4)
  }

  /** A sound plan's sums do not wrap around, and its FAT is as large as find_volume asks. */
  lemma SoundSizes(p: Plan)
    requires p.Sound()
    ensures p.szFat > 0 && p.rsv > 0 && p.pau > 0 && p.nClst > 0 && TypeOf(p.nClst) == p.fmt
    ensures Wrap(p.szFat * 1) == p.szFat && Wrap(p.System()) == p.System() <= p.szVol
    ensures Wrap(p.nClst + 2) == p.nClst + 2
    ensures Wrap(p.bVol + p.rsv) == p.bVol + p.rsv && Wrap(p.bVol + p.System()) == p.bVol + p.System()
    ensures Wrap(p.bVol + p.rsv + p.szFat) == p.bVol + p.rsv + p.szFat
    ensures p.szFat >= Wrap(Needed(p.fmt, p.nClst + 2) + SS - 1) / SS
  {
    hide TableBytes, Wrap, Needed;
    assert p.szFat <= p.System() <= p.szVol && p.nClst <= MAX_FAT32;
    NoWrap(p.szFat * 1);
    NoWrap(p.System());
    NoWrap(p.nClst + 2);
    NoWrap(p.bVol + p.rsv);
    NoWrap(p.bVol + p.System());
    NoWrap(p.bVol + p.rsv + p.szFat);
    LargeFat(p.fmt, p.nClst + 2, p.szFat);
  }

  lemma LargeFat(t: FatType, n: nat, szFat: nat)
    requires n <= MAX_FAT32 + 2 && TableBytes(t, n) <= szFat * SS
    ensures szFat >= Wrap(Needed(t, n) + SS - 1) / SS
  {
    hide Wrap, Needed, TableBytes;
    NeededBytes(t, n);
    SectorsFor(TableBytes(t, n), szFat);
  }

  /** What FSINFO says, if it is an FSINFO sector, has been taken over. */
  ghost predicate Remembered(s: Sector, m: Mounted) {
    forall f: Dword, l: Dword :: s == FsInfo(f, l) ==> m.freeClst == f && m.lastClst == l && !m.fsiDisabled
  }

  /** The boot sector at place b describes a volume. */
  ghost predicate Mountable(v: seq<Sector>, b: nat) {
    b < |v| && Acceptable(v[b]) && Consistent(v[b], Meant(v[b], b))
  }

  /** What FSINFO has to say, if the volume has one: its numbers are taken over if it has the signatures. */
  ghost predicate Informed(v: seq<Sector>, m: Mounted) {
    var b := m.geo.volbase;
    if b < |v| && m.geo.fsType == Fat32 && LdWord(v[b], 48) == 1 && b + 1 < |v| then
      var s := v[b + 1];
      && !m.fsiDisabled
      && if LdWord(s, 510) == 0xAA55 && LdDword(s, 0) == 0x41615252 && LdDword(s, 484) == 0x61417272 then
           m.freeClst == LdDword(s, 488) && m.lastClst == LdDword(s, 492)
         else m.freeClst == m.lastClst == 0xFFFF_FFFF
    else m.fsiDisabled && m.freeClst == m.lastClst == 0xFFFF_FFFF
  }

  /**
   * find_volume, for a drive not mounted yet. Whatever f_mkfs has formatted is found again, also when the volume has
   * been in use since: same FAT type, same layout, and the free count and last cluster that FSINFO says.
   */
  method FindVolume(drive: Drive, ghost p: Plan) returns (res: FResult, m: Mounted)
    modifies drive`faults
    ensures drive.faults >= old(drive.faults)
    ensures res == Ok || res == NoFilesystem || (res == DiskErr && drive.faults > old(drive.faults))
    ensures res == Ok ==> Plausible(m.geo) && m.geo.volbase < |drive.sectors|
    ensures drive.sectors == [] ==> res == DiskErr
    ensures res == Ok ==>
      Informed(drive.sectors, m)
      || (drive.faults > old(drive.faults) && m.fsiDisabled && m.freeClst == m.lastClst == UNKNOWN)
    ensures res == Ok ==> m.geo == Meant(drive.sectors[m.geo.volbase], m.geo.volbase)
    ensures drive.faults == old(drive.faults) ==>
      |drive.sectors| > 0
        && if res == Ok then
             FirstBoot(drive.sectors, m.geo.volbase) && Mountable(drive.sectors, m.geo.volbase)
           else
             NoBoot(drive.sectors)
               || exists b: nat :: FirstBoot(drive.sectors, b) && !Mountable(drive.sectors, b)
    ensures Formatted(p, drive.sectors) ==> if res == Ok then m.geo == p.Geo() else drive.faults > old(drive.faults)
    ensures Formatted(p, drive.sectors) && res == Ok && p.fmt != Fat32 ==>
      m.lastClst == m.freeClst == UNKNOWN && m.fsiDisabled
    ensures Formatted(p, drive.sectors) && drive.faults == old(drive.faults) && p.fmt == Fat32 ==>
      p.bVol + 1 < |drive.sectors| && Remembered(drive.sectors[p.bVol + 1], m)
  {
    hide Formatted, Describes, Master, FsInfo, BootKind, Plausible, Plan.Sound, Remembered, FirstBoot, NoBoot, Meant,
      Acceptable, Consistent;
    ghost var mine := Formatted(p, drive.sectors);
    if mine { FormattedFacts(p, drive.sectors); }
    m := Mounted(Geometry(Fat12, 0, 0, 0, 0, 0, 0, 0, 0), UNKNOWN, UNKNOWN, true);
    var fmt, bsect, win := FindBoot(drive);
    if fmt == 4 { return DiskErr, m; }
    if fmt >= 2 { return NoFilesystem, m; }
    assert mine ==> bsect == p.bVol;
    var geo;
    res, geo := ReadParams(win, bsect, p);
    if res != Ok { return; }
    m := m.(geo := geo);
    if geo.fsType == Fat32 && LdWord(win, BPB_FSINFO32) == 1 {
      m := ReadFsInfo(drive, m);
    }
  }

  /** The FSINFO part of find_volume. */
  method ReadFsInfo(drive: Drive, m0: Mounted) returns (m: Mounted)
    requires m0.freeClst == m0.lastClst == UNKNOWN && m0.fsiDisabled
    modifies drive`faults
    ensures drive.faults >= old(drive.faults) && m.geo == m0.geo
    ensures drive.faults == old(drive.faults) && m0.geo.volbase + 1 < |drive.sectors| ==>
      && Remembered(drive.sectors[m0.geo.volbase + 1], m) && !m.fsiDisabled
      && var s := drive.sectors[m0.geo.volbase + 1];
         if LdWord(s, 510) == 0xAA55 && LdDword(s, 0) == 0x41615252 && LdDword(s, 484) == 0x61417272 then
           m.freeClst == LdDword(s, 488) && m.lastClst == LdDword(s, 492)
         else m.freeClst == m.lastClst == 0xFFFF_FFFF
    ensures m0.geo.volbase + 1 >= |drive.sectors| ==> drive.faults > old(drive.faults)
    ensures drive.faults > old(drive.faults) ==> m == m0
  {
    hide FsInfo, LdDword, LdWord;
    m := m0;
    var res, win := drive.Read(m.geo.volbase + 1);
    if res != Ok { return; }
    m := m.(fsiDisabled := false);
    forall f: Dword, l: Dword { FsInfoReads(f, l); }
    if LdWord(win, BS_55AA) == 0xAA55 && LdDword(win, 0) == 0x41615252 && LdDword(win, FSI_STRUC_SIG) == 0x61417272 {
      m := m.(freeClst := LdDword(win, FSI_FREE_COUNT), lastClst := LdDword(win, FSI_NXT_FREE));
    }
  }

  lemma FormattedFacts(p: Plan, v: seq<Sector>)
    requires Formatted(p, v)
    ensures p.Sound() && p.bVol + 1 < |v| && Describes(v[p.bVol], p) && BootKind(v[p.bVol]) == 0
    ensures (p.bVol != 0 ==> 0 < p.bVol && Master(v[0], p.bVol))
    ensures p.fmt == Fat32 ==> LdWord(v[p.bVol], BPB_FSINFO32) == 1 && 1 <= p.nClst <= MAX_FAT32
    ensures |v| == p.bVol + p.szVol
  {
    hide FsInfo, LdWord, LdDword, BootKind, Master;
  }

  // ---- the fresh table -----------------------------------------------------------------------------

  lemma FatStartBytes(t: FatType, k: nat)
    requires k < SS
    ensures FatStart(t)[k] as int ==
            if k == 0 then 0xF8
            else if k < (if t == Fat12 then 3 else if t == Fat16 then 4 else 11) then 0xFF
            else if t == Fat32 && k == 11 then 0x0F else 0
  {
    hide StDword, FatStart;
    StartSector();
    match t {
      case Fat12 => DwordBytes(Blank(), 0, 0xFF_FFF8);
      case Fat16 => DwordBytes(Blank(), 0, 0xFFFF_FFF8);
      case Fat32 => FatStart32(k);
    }
  }

  lemma StartSector()
    ensures FatStart(Fat12) == StDword(Blank(), 0, 0xFF_FFF8) && FatStart(Fat16) == StDword(Blank(), 0, 0xFFFF_FFF8)
  {
    hide StDword;
  }

  lemma FatStart32(k: nat)
    requires k < SS
    ensures FatStart(Fat32)[k] as int ==
            if k == 0 then 0xF8 else if k < 11 then 0xFF else if k == 11 then 0x0F else 0
  {
    hide StDword, LdDword, LdWord;
    var a := StDword(Blank(), 0, 0xFFFF_FFF8);
    var b := StDword(a, 4, 0xFFFF_FFFF);
    FirstDword(k);
    DwordByte(a, 4, 0xFFFF_FFFF, k);
    DwordByte(b, 8, 0x0FFF_FFFF, k);
  }

  lemma FirstDword(k: nat)
    requires k < SS
    ensures StDword(Blank(), 0, 0xFFFF_FFF8)[k] as int == if k == 0 then 0xF8 else if k < 4 then 0xFF else 0
  {
    hide StDword, LdDword, LdWord;
    DwordByte(Blank(), 0, 0xFFFF_FFF8, k);
  }

  /** A byte of a sector after a number has been stored in it. */
  lemma DwordByte(s: seq<byte>, i: nat, v: nat, k: nat)
    requires i + 4 <= |s| && k < |s|
    ensures StDword(s, i, v)[k] as int ==
            if k == i then v % 0x100 else if k == i + 1 then v / 0x100 % 0x100
            else if k == i + 2 then v / 0x1_0000 % 0x100 else if k == i + 3 then v / 0x1_0000 / 0x100 % 0x100
            else s[k] as int
  {
    hide StDword, LdDword, LdWord;
    DwordBytes(s, i, v);
  }

  lemma DwordBytes(s: seq<byte>, i: nat, v: nat)
    requires i + 4 <= |s|
    ensures var r := StDword(s, i, v);
            && r[i] as int == v % 0x100 && r[i + 1] as int == v / 0x100 % 0x100
            && r[i + 2] as int == v / 0x1_0000 % 0x100 && r[i + 3] as int == v / 0x1_0000 / 0x100 % 0x100
  {
  }

  lemma FreshByte(p: Plan, v: seq<Sector>, fsi: bool, k: nat)
    requires Written(p, v, fsi) && Fits(p.Geo(), v) && k < p.szFat * SS
    ensures FatByte(p.Geo(), v, k) == if k < SS then FatStart(p.fmt)[k] else 0
  {
    hide Describes, Master, FsInfo, FatStart, Plan.Sound;
  }

  /**
   * Of a fresh table the first two entries are reserved, with the kind of medium and all bits set; every other one is
   * free, except that of FAT32's root directory, which is one cluster.
   */
  lemma FreshEntry(p: Plan, v: seq<Sector>, fsi: bool, c: nat)
    requires Written(p, v, fsi) && Fits(p.Geo(), v) && c < p.nClst + 2
    ensures Entry(p.Geo(), v, c) ==
            if c == 0 then (match p.fmt case Fat12 => 0xFF8 case Fat16 => 0xFFF8 case Fat32 => 0xFFF_FFF8)
            else if c == 1 then (match p.fmt case Fat12 => 0xFFF case Fat16 => 0xFFFF case Fat32 => 0xFFF_FFFF)
            else if p.fmt == Fat32 && c == 2 then 0xFFF_FFFF else 0
  {
    hide Written, FatStart, FatByte, Geometry.Valid, Table, TableBytes;
    var g, k := p.Geo(), EntryAt(p.fmt, c);
    EntryFits(g, c);
    forall j | k <= j < k + EntryBytes(p.fmt)
      ensures FatByte(g, v, j) as int ==
              if j == 0 then 0xF8
              else if j < (if p.fmt == Fat12 then 3 else if p.fmt == Fat16 then 4 else 11) then 0xFF
              else if p.fmt == Fat32 && j == 11 then 0x0F else 0
    {
      FreshByte(p, v, fsi, j);
      if j < SS { FatStartBytes(p.fmt, j); }
    }
  }

  lemma {:induction false} AllZeros(s: seq<nat>)
    requires forall i :: 0 <= i < |s| ==> s[i] == 0
    ensures Zeros(s) == |s|
  {
    if s == [] {
    } else {
      AllZeros(s[..|s| - 1]);
    }
  }

  /** The files of a fresh volume: none, or FAT32's root directory. */
  function FreshChains(p: Plan): Chains {
    if p.fmt == Fat32 then map[2 := [2]] else map[]
  }

  /** A fresh table is well formed, and its number of free clusters is the one f_mkfs put into FSINFO. */
  lemma FreshTable(p: Plan, v: seq<Sector>, fsi: bool)
    requires Written(p, v, fsi) && Fits(p.Geo(), v)
    ensures var f := Table(p.Geo(), v);
            && WellFormed(f, if p.fmt == Fat32 then map[2 := [2]] else map[]) && |f| == p.nClst + 2
            && FreeCount(f) == p.nClst - if p.fmt == Fat32 then 1 else 0
  {
    var f := Table(p.Geo(), v);
    forall c | 2 <= c < |f| ensures f[c] == if p.fmt == Fat32 && c == 2 then 0x0FFF_FFFF else 0 {
      FreshEntry(p, v, fsi, c);
    }
    assert 16 <= p.nClst <= MAX_FAT32;
    hide *;
    FreshShape(f, p.fmt == Fat32);
  }

  lemma FreshShape(f: seq<nat>, root: bool)
    requires 18 <= |f| <= MAX_FAT32 + 2
    requires forall c :: 2 <= c < |f| ==> f[c] == if root && c == 2 then 0x0FFF_FFFF else 0
    ensures WellFormed(f, if root then map[2 := [2]] else map[]) && FreeCount(f) == |f| - 2 - if root then 1 else 0
  {
    if root {
      var m: Chains := map[2 := [2]];
      assert m[2][0] == 2;
      assert Owned(m, 2);
      FreeCountUpdate(f, 2, 0);
      AllZeros(f[2 := 0][2..]);
    } else {
      AllZeros(f[2..]);
    }
  }

  /**
   * Mounting a formatted drive, fresh or in use: the volume is valid and shows the drive as it is, its table is as well
   * formed as the one there, and on FAT32 it knows the free count that FSINFO says.
   */
  method Mount(drive: Drive, ghost p: Plan, ghost m: Chains) returns (res: FResult, vol: Volume?)
    requires Formatted(p, drive.sectors) && |drive.sectors| < NO_SECTOR
    modifies drive`faults
    ensures drive.faults >= old(drive.faults)
    ensures res != Ok ==> drive.faults > old(drive.faults)
    ensures res == Ok ==> vol != null && fresh(vol) && vol.drive == drive && vol.Valid() && vol.geo == p.Geo()
    ensures res == Ok ==> vol.view == drive.sectors && vol.winsect == NO_SECTOR && !vol.wflag && fresh(vol.win)
    ensures res == Ok ==> vol.chains == m && (WellFormed(vol.fat, m) ==> vol.Tidy())
    ensures res == Ok ==> (vol.counted <==> vol.freeClst == FreeCount(vol.fat))
    ensures res == Ok && p.fmt != Fat32 ==> vol.lastClst == vol.freeClst == UNKNOWN && vol.fsiDisabled
    ensures res == Ok && p.fmt == Fat32 && drive.faults == old(drive.faults) ==>
      p.bVol + 1 < |drive.sectors|
        && forall f: Dword, l: Dword :: drive.sectors[p.bVol + 1] == FsInfo(f, l) ==>
             vol.freeClst == f && vol.lastClst == l
  {
    FormattedFacts(p, drive.sectors);
    SoundGeometry(p);
    hide Formatted, Plan.Sound, Volume.Valid, WellFormed, Describes, Master, FsInfo, Table, Geometry.Valid;
    vol := null;
    var found;
    res, found := FindVolume(drive, p);
    if res != Ok { return; }
    assert OffMirror(p.Geo(), drive.sectors) == drive.sectors;
    vol := new Volume(found.geo, drive, found.lastClst, found.freeClst, found.fsiDisabled, m);
  }
}
