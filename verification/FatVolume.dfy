/**
 * The mounted volume: one write-back sector window over the drive, the packed FAT behind it, and the cluster allocator
 * on top. Every access of the drive may fail; contracts say what survives a failure.
 */
module FatVolume {
  import opened Bytes
  import opened Disk
  import opened FatLayout
  import opened FatTable
  import opened FatChains
  import opened DirEntry

  const DISK_ERROR: nat := 0xFFFF_FFFF

  class Volume {
    const geo: Geometry
    const drive: Drive
    const win: array<byte>
    var winsect: nat
    var wflag: bool
    var lastClst: Dword
    var freeClst: Dword
    var fsiDisabled: bool
    var fsiDirty: bool

    /** The sectors as the file system sees them: the drive, less the mirror, with a dirty window laid over it. */
    ghost var view: seq<Sector>
    /** The allocation table as a flat array. */
    ghost var fat: seq<nat>
    /** The chains that account for the table, if it is well formed. */
    ghost var chains: Chains
    /** Whether the free count was exact when the volume was mounted. */
    ghost const counted: bool
    /** Failed accesses before mounting; as long as there are no more, the FAT copies agree. */
    ghost const faults0: nat

    ghost predicate Valid()
      reads `winsect, `wflag, `view, `fat, win, drive`sectors, drive`faults
      ensures Valid() ==> geo.Valid() && Fits(geo, view) && |view| < NO_SECTOR && win.Length == SS
      ensures Valid() ==> |fat| == geo.nFatent && 3 <= geo.nFatent <= Modulus(geo.fsType) - 9 < 0x1000_0000
    {
      && Sound()
      && Fits(geo, view) && |view| == |drive.sectors| && fat == Table(geo, view)
      && drive.faults >= faults0
      && (drive.faults == faults0 ==> Mirrored())
    }

    /** The table is well formed, and a free count that was exact is so still. */
    ghost predicate Tidy()
      reads `fat, `freeClst, `chains
    {
      TidyAt(fat, chains, freeClst)
    }

    /** The window belongs to its sector, and `view` is what window and drive show together. */
    ghost predicate Sound()
      reads `winsect, `wflag, `view, win, drive`sectors
    {
      && geo.Valid() && geo.database <= |drive.sectors| < NO_SECTOR
      && win.Length == SS
      && !geo.InMirror(winsect)
      && (winsect < |drive.sectors| || (winsect == NO_SECTOR && !wflag))
      && (!wflag && winsect != NO_SECTOR ==> win[..] == drive.sectors[winsect])
      && view == (var v := OffMirror(geo, drive.sectors); if wflag then v[winsect := win[..]] else v)
    }

    /** Both copies of the FAT agree, except where the window still has to be written back. */
    ghost predicate Mirrored()
      requires Sound()
      reads `winsect, `wflag, `view, win, drive`sectors
    {
      geo.nFats == 2 ==>
        forall s: nat :: geo.InFat(s) && !(wflag && s == winsect) ==> drive.sectors[s + geo.fsize] == drive.sectors[s]
    }

    /**
     * Once the window is clean, every sector is on the drive as the file system sees it, and the copies of the FAT
     * agree unless an access failed.
     */
    lemma SyncedMirror()
      requires Valid() && !wflag
      ensures forall s :: 0 <= s < |view| && !geo.InMirror(s) ==> drive.sectors[s] == view[s]
      ensures geo.nFats == 2 && drive.faults == faults0 ==>
        drive.sectors[geo.fatbase + geo.fsize..geo.FatEnd()] == drive.sectors[geo.fatbase..geo.fatbase + geo.fsize]
    {
      if geo.nFats == 2 && drive.faults == faults0 {
        var a, b := drive.sectors[geo.fatbase..geo.fatbase + geo.fsize],
          drive.sectors[geo.fatbase + geo.fsize..geo.FatEnd()];
        forall i | 0 <= i < geo.fsize ensures a[i] == b[i] {
          assert geo.InFat(geo.fatbase + i);
        }
      }
    }

    constructor (g: Geometry, d: Drive, last: Dword, free: Dword, disabled: bool, ghost m: Chains)
      requires Fits(g, d.sectors) && |d.sectors| < NO_SECTOR && !g.InMirror(NO_SECTOR)
      requires g.nFats == 2 ==> forall s: nat :: g.InFat(s) ==> d.sectors[s + g.fsize] == d.sectors[s]
      ensures Valid() && geo == g && drive == d && !wflag && winsect == NO_SECTOR && fresh(win)
      ensures view == OffMirror(g, d.sectors)
      ensures lastClst == last && freeClst == free && fsiDisabled == disabled && !fsiDirty
      ensures chains == m && (counted <==> free == FreeCount(fat)) && (WellFormed(fat, m) ==> Tidy())
    {
      geo, drive := g, d;
      win := new byte[SS];
      winsect, wflag := NO_SECTOR, false;
      lastClst, freeClst, fsiDisabled, fsiDirty := last, free, disabled, false;
      view := OffMirror(g, d.sectors);
      fat := Table(g, OffMirror(g, d.sectors));
      chains := m;
      counted := free == FreeCount(Table(g, OffMirror(g, d.sectors)));
      faults0 := d.faults;
    }

    // ---- the window ------------------------------------------------------------------------------

    /** sync_window: write a dirty window back, and to the second FAT as well; failures there go unnoticed. */
    method SyncWindow() returns (res: FResult)
      requires Valid()
      modifies `wflag, drive
      ensures Valid() && drive.faults >= old(drive.faults)
      ensures res == Ok || (res == DiskErr && drive.faults > old(drive.faults))
      ensures res == Ok ==> !wflag
      ensures old(!wflag) ==> res == Ok && drive.sectors == old(drive.sectors)
    {
      hide Fits, Table, OffMirror, Mirrored;
      res := Ok;
      if wflag {
        ghost var d, n := drive.sectors, drive.faults;
        res := drive.Write(winsect, win[..]);
        if res == Ok {
          wflag := false;
          if geo.InFat(winsect) {
            Reflect();
          }
        }
        WrittenBack(d);
        if drive.faults == n { MirrorCaughtUp(d); }
      }
    }

    /** The copies of the FAT agree again when a sector of it was written back to both. */
    twostate lemma MirrorCaughtUp(d: seq<Sector>)
      requires old(Sound()) && old(drive.sectors) == d && old(wflag) && Sound() && !wflag && unchanged(`winsect)
      requires |drive.sectors| == |d| && winsect < |d|
      requires forall s :: 0 <= s < |d| && s != winsect && !(geo.nFats == 2 && s == winsect + geo.fsize) ==>
        drive.sectors[s] == d[s]
      requires geo.nFats == 2 && geo.InFat(winsect) ==> drive.sectors[winsect + geo.fsize] == drive.sectors[winsect]
      requires !geo.InFat(winsect) ==> drive.sectors == d[winsect := drive.sectors[winsect]]
      ensures old(Mirrored()) ==> Mirrored()
    {
    }

    /**
     * What the file system sees stays when the window has gone to its sector, with or without a mirror, or writing it
     * has failed.
     */
    lemma WrittenBack(d: seq<Sector>)
      requires geo.Valid() && |drive.sectors| == |d| && winsect < |d| && win.Length == SS && !geo.InMirror(winsect)
      requires view == OffMirror(geo, d)[winsect := win[..]]
      requires forall s :: 0 <= s < |d| && s != winsect && !geo.InMirror(s) ==> drive.sectors[s] == d[s]
      requires !wflag ==> drive.sectors[winsect] == win[..]
      ensures view == (var v := OffMirror(geo, drive.sectors); if wflag then v[winsect := win[..]] else v)
    {
    }

    /** The copying loop of sync_window: the window sector goes to every further FAT copy. */
    method Reflect()
      requires geo.Valid() && geo.database <= |drive.sectors| && geo.InFat(winsect) && win.Length == SS
      modifies drive
      ensures |drive.sectors| == |old(drive.sectors)| && drive.faults >= old(drive.faults)
      ensures forall s :: 0 <= s < |drive.sectors| && !(geo.nFats == 2 && s == winsect + geo.fsize) ==>
        drive.sectors[s] == old(drive.sectors[s])
      ensures geo.nFats == 2 && drive.faults == old(drive.faults) ==> drive.sectors[winsect + geo.fsize] == win[..]
    {
      var wsect, nf := winsect, geo.nFats;
      while nf >= 2
        invariant 1 <= nf <= geo.nFats
        invariant wsect == winsect + (if nf == geo.nFats then 0 else geo.fsize)
        invariant drive.faults >= old(drive.faults)
        invariant |drive.sectors| == |old(drive.sectors)|
        invariant nf == geo.nFats ==> drive.sectors == old(drive.sectors)
        invariant forall s :: 0 <= s < |drive.sectors| && s != winsect + geo.fsize ==>
          drive.sectors[s] == old(drive.sectors[s])
        invariant nf == 1 && geo.nFats == 2 && drive.faults == old(drive.faults) ==>
          drive.sectors[winsect + geo.fsize] == win[..]
      {
        wsect := wsect + geo.fsize;
        var ignored := drive.Write(wsect, win[..]);
        nf := nf - 1;
      }
    }

    /** move_window: bring a sector into the window, writing back the one it displaces. */
    method MoveWindow(sector: nat) returns (res: FResult)
      requires Valid() && !geo.InMirror(sector) && sector != NO_SECTOR
      modifies `winsect, `wflag, win, drive
      ensures Valid() && drive.faults >= old(drive.faults)
      ensures res == Ok || (res == DiskErr && drive.faults > old(drive.faults))
      ensures res == Ok ==> winsect == sector && sector < |view| && win[..] == view[sector]
      ensures winsect == old(winsect) || winsect == sector || winsect == NO_SECTOR
      ensures old(!wflag) ==> !wflag
    {
      res := Ok;
      if sector != winsect {
        res := SyncWindow();
        if res == Ok {
          var data;
          res, data := drive.Read(sector);
          forall i | 0 <= i < SS { win[i] := data[i]; }
          assert win[..] == data;
          winsect := if res == Ok then sector else NO_SECTOR;
        }
      }
    }

    /** Any change of the window's contents, with the bookkeeping it needs. */
    method Touch()
      requires winsect < |view| && win.Length == SS
      modifies `wflag, `view, `fat
      ensures wflag && view == old(view)[winsect := win[..]]
      ensures Fits(geo, view) ==> fat == Table(geo, view)
    {
      wflag := true;
      view := view[winsect := win[..]];
      fat := if Fits(geo, view) then Table(geo, view) else [];
    }

    // ---- entries of the table --------------------------------------------------------------------

    /** move_window to the sector that holds byte k of the FAT. */
    method MoveToFatByte(k: nat) returns (res: FResult)
      requires Valid() && k < geo.fsize * SS
      modifies `winsect, `wflag, win, drive
      ensures Valid() && drive.faults >= old(drive.faults)
      ensures res == Ok || (res == DiskErr && drive.faults > old(drive.faults))
      ensures res == Ok ==>
        winsect == geo.fatbase + k / SS && win[..] == view[winsect] && win[k % SS] == FatByte(geo, view, k)
      ensures winsect == old(winsect) || geo.InFat(winsect) || winsect == NO_SECTOR
      ensures old(!wflag) ==> !wflag
    {
      res := MoveWindow(geo.fatbase + k / SS);
    }

    /** get_fat: the entry of a cluster, INT_ERROR for a number that is no cluster, DISK_ERROR if the drive fails. */
    method GetFat(clst: nat) returns (val: nat)
      requires Valid()
      modifies `winsect, `wflag, win, drive
      ensures Valid() && drive.faults >= old(drive.faults)
      ensures !InRange(fat, clst) ==> val == INT_ERROR
      ensures InRange(fat, clst) ==>
        (val == fat[clst] && val < Modulus(geo.fsType) <= 0x1000_0000)
          || (val == DISK_ERROR && drive.faults > old(drive.faults))
      ensures winsect == old(winsect) || geo.InFat(winsect) || winsect == NO_SECTOR
      ensures old(!wflag) ==> !wflag
    {
      if clst < 2 || clst >= geo.nFatent {
        return INT_ERROR;
      }
      TableEntry(clst);
      if geo.fsType == Fat12 {
        val := GetFat12(clst);
      } else {
        val := GetFatAligned(clst);
      }
    }

    lemma TableEntry(c: nat)
      requires Valid() && c < geo.nFatent
      ensures fat == Table(geo, view) && fat[c] == Entry(geo, view, c)
    {
    }

    /** The FAT16 and FAT32 cases of get_fat. */
    method GetFatAligned(clst: nat) returns (val: nat)
      requires Valid() && geo.fsType != Fat12 && 2 <= clst < geo.nFatent
      modifies `winsect, `wflag, win, drive
      ensures Valid() && drive.faults >= old(drive.faults)
      ensures val == Entry(geo, view, clst) || (val == DISK_ERROR && drive.faults > old(drive.faults))
      ensures winsect == old(winsect) || geo.InFat(winsect) || winsect == NO_SECTOR
      ensures old(!wflag) ==> !wflag
    {
      hide Valid, Entry, Geometry.Valid, Modulus;
      EntryFits(geo, clst);
      EntryWord(geo, view, clst);
      var res := MoveToFatByte(EntryAt(geo.fsType, clst));
      if res != Ok {
        val := DISK_ERROR;
      } else if geo.fsType == Fat16 {
        val := LdWord(win[..], clst * 2 % SS);
      } else {
        val := LdDword(win[..], clst * 4 % SS) % 0x1000_0000;
      }
    }

    /** The FAT12 case of get_fat; the two bytes of an entry may lie in different sectors. */
    method GetFat12(clst: nat) returns (val: nat)
      requires Valid() && geo.fsType == Fat12 && 2 <= clst < geo.nFatent
      modifies `winsect, `wflag, win, drive
      ensures Valid() && drive.faults >= old(drive.faults)
      ensures val == Entry(geo, view, clst) || (val == DISK_ERROR && drive.faults > old(drive.faults))
      ensures winsect == old(winsect) || geo.InFat(winsect) || winsect == NO_SECTOR
      ensures old(!wflag) ==> !wflag
    {
      hide Valid, Geometry.Valid, Modulus, Decode12, FatByte;
      EntryFits(geo, clst);
      var bc := EntryAt(Fat12, clst);
      var res := MoveToFatByte(bc);
      if res != Ok { return DISK_ERROR; }
      var low := win[bc % SS];
      res := MoveToFatByte(bc + 1);
      if res != Ok { return DISK_ERROR; }
      val := Decode12(clst, low, win[(bc + 1) % SS]);
    }

    /** put_fat: replace one entry; the change may stay in the window. A failure can damage no other entry. */
    method PutFat(clst: nat, val: nat) returns (res: FResult)
      requires Valid()
      modifies `winsect, `wflag, `view, `fat, win, drive
      ensures Valid() && drive.faults >= old(drive.faults) && OffFat(geo, view) == old(OffFat(geo, view))
      ensures res == IntErr <==> !InRange(old(fat), clst)
      ensures res == IntErr ==> view == old(view) && fat == old(fat)
      ensures res == Ok ==> view == Put(geo, old(view), clst, val) && fat == old(fat)[clst := val % Modulus(geo.fsType)]
      ensures res == DiskErr ==>
        drive.faults > old(drive.faults) && forall d :: 0 <= d < |fat| && d != clst ==> fat[d] == old(fat)[d]
      ensures res == Ok || res == IntErr || res == DiskErr
      ensures winsect == old(winsect) || geo.InFat(winsect) || winsect == NO_SECTOR
    {
      hide Valid, OffFat, Put, Geometry.Valid, Table, PutLow;
      if clst < 2 || clst >= geo.nFatent {
        return IntErr;
      }
      ghost var v := view;
      TableEntry(clst);
      PutIsArrayUpdate(geo, v, clst, val);
      if geo.fsType == Fat12 { PutLowTable(geo, v, clst, val); }
      res := PutEntry(clst, val);
      TableEntry(clst);
    }

    /** put_fat of a cluster of the volume. */
    method PutEntry(clst: nat, val: nat) returns (res: FResult)
      requires Valid() && InRange(fat, clst)
      modifies `winsect, `wflag, `view, `fat, win, drive
      ensures Valid() && drive.faults >= old(drive.faults)
      ensures res == Ok || (res == DiskErr && drive.faults > old(drive.faults))
      ensures res == Ok ==> view == Put(geo, old(view), clst, val)
      ensures res == DiskErr ==> view == old(view) || (geo.fsType == Fat12 && view == PutLow(geo, old(view), clst, val))
      ensures winsect == old(winsect) || geo.InFat(winsect) || winsect == NO_SECTOR
    {
      hide Valid, OffFat, Put, Geometry.Valid, PutLow, PutHigh, PutAligned, Modulus;
      PutCases(geo, view, clst, val);
      if geo.fsType == Fat12 {
        res := PutFat12(clst, val);
      } else {
        res := PutFatAligned(clst, val);
      }
    }

    /** The FAT16 and FAT32 cases of put_fat. */
    method PutFatAligned(clst: nat, val: nat) returns (res: FResult)
      requires Valid() && geo.fsType != Fat12 && InRange(fat, clst)
      modifies `winsect, `wflag, `view, `fat, win, drive
      ensures Valid() && drive.faults >= old(drive.faults)
      ensures res == Ok ==> view == PutAligned(geo, old(view), clst, val)
      ensures res == Ok || (res == DiskErr && drive.faults > old(drive.faults) && view == old(view))
      ensures winsect == old(winsect) || geo.InFat(winsect) || winsect == NO_SECTOR
    {
      hide Valid, Geometry.Valid, PutAligned;
      EntryFits(geo, clst);
      res := MoveToFatByte(EntryAt(geo.fsType, clst));
      if res == Ok {
        PokeEntry(clst, val);
      }
    }

    /** Replacing one aligned entry in the window. */
    method PokeEntry(clst: nat, val: nat)
      requires Valid() && geo.fsType != Fat12 && InRange(fat, clst)
      requires winsect == geo.fatbase + EntryAt(geo.fsType, clst) / SS
      modifies `wflag, `view, `fat, win
      ensures Valid() && view == PutAligned(geo, old(view), clst, val)
    {
      hide PutWhole, Table, Modulus, TableBytes, Entry, FatByte;
      EntryFits(geo, clst);
      EntryInSector(geo, clst);
      assert win[..] == view[winsect];
      PokeWhole(EntryAt(geo.fsType, clst) % SS, val);
      Touch();
    }

    /** Storing a word or double word in the window. */
    method PokeWhole(o: nat, val: nat)
      requires geo.fsType != Fat12 && o + EntryBytes(geo.fsType) <= SS == win.Length
      modifies win
      ensures win[..] == PutWhole(geo, old(win[..]), o, val)
    {
      if geo.fsType == Fat16 {
        PutWord(win, o, val);
      } else {
        var kept := LdDword(win[..], o) / 0x1000_0000 * 0x1000_0000;
        PutDword(win, o, val % 0x1000_0000 + kept);
      }
    }

    /** Storing one FAT byte in the window. */
    method PokeByte(k: nat, b: byte)
      requires Valid() && k < geo.fsize * SS && winsect == geo.fatbase + k / SS
      modifies `wflag, `view, `fat, win
      ensures Valid() && view == SetFatByte(geo, old(view), k, b)
    {
      win[k % SS] := b;
      Touch();
    }

    /** The FAT12 case of put_fat: two byte updates, with the window moving in between if they straddle two sectors. */
    method PutFat12(clst: nat, val: nat) returns (res: FResult)
      requires Valid() && geo.fsType == Fat12 && InRange(fat, clst)
      modifies `winsect, `wflag, `view, `fat, win, drive
      ensures Valid() && drive.faults >= old(drive.faults)
      ensures res == Ok ==> view == PutHigh(geo, PutLow(geo, old(view), clst, val), clst, val)
      ensures res == DiskErr ==> view == old(view) || view == PutLow(geo, old(view), clst, val)
      ensures res == Ok || (res == DiskErr && drive.faults > old(drive.faults))
      ensures winsect == old(winsect) || geo.InFat(winsect) || winsect == NO_SECTOR
    {
      hide Valid, OffFat, Geometry.Valid, Modulus, PutLow, PutHigh;
      res := PutFat12Low(clst, val);
      if res == Ok {
        res := PutFat12High(clst, val);
      }
    }

    method PutFat12Low(clst: nat, val: nat) returns (res: FResult)
      requires Valid() && geo.fsType == Fat12 && InRange(fat, clst)
      modifies `winsect, `wflag, `view, `fat, win, drive
      ensures Valid() && drive.faults >= old(drive.faults)
      ensures res == Ok ==> view == PutLow(geo, old(view), clst, val)
      ensures res == Ok || (res == DiskErr && drive.faults > old(drive.faults) && view == old(view))
      ensures winsect == old(winsect) || geo.InFat(winsect) || winsect == NO_SECTOR
    {
      hide Valid, Geometry.Valid, LowByte12, HighByte12, SetFatByte, FatByte;
      EntryFits(geo, clst);
      var bc := EntryAt(Fat12, clst);
      res := MoveToFatByte(bc);
      if res == Ok {
        PokeByte(bc, LowByte12(clst, win[bc % SS], val));
      }
    }

    method PutFat12High(clst: nat, val: nat) returns (res: FResult)
      requires Valid() && geo.fsType == Fat12 && InRange(fat, clst)
      modifies `winsect, `wflag, `view, `fat, win, drive
      ensures Valid() && drive.faults >= old(drive.faults)
      ensures res == Ok ==> view == PutHigh(geo, old(view), clst, val)
      ensures res == Ok || (res == DiskErr && drive.faults > old(drive.faults) && view == old(view))
      ensures winsect == old(winsect) || geo.InFat(winsect) || winsect == NO_SECTOR
    {
      hide Valid, Geometry.Valid, LowByte12, HighByte12, SetFatByte, FatByte;
      EntryFits(geo, clst);
      var bc := EntryAt(Fat12, clst) + 1;
      res := MoveToFatByte(bc);
      if res == Ok {
        PokeByte(bc, HighByte12(clst, win[bc % SS], val));
      }
    }

    // ---- the cluster allocator -------------------------------------------------------------------

    /** The mark put_fat leaves for 0xFFFFFFFF. */
    function Eoc(): nat {
      Modulus(geo.fsType) - 1
    }

    lemma EocStored()
      ensures 0xFFFF_FFFF % Modulus(geo.fsType) == Eoc()
    {
    }

    /** The search loop of create_chain: the first free cluster after scl in cyclic order. */
    method FindFree(scl: nat) returns (ret: nat)
      requires Valid() && 1 <= scl < geo.nFatent
      modifies `winsect, `wflag, win, drive
      ensures Valid() && drive.faults >= old(drive.faults)
      ensures Searched(fat, scl, ret) || (ret == DISK_ERROR && drive.faults > old(drive.faults))
      ensures winsect == old(winsect) || geo.InFat(winsect) || winsect == NO_SECTOR
      ensures old(!wflag) ==> !wflag
    {
      hide Valid, OffFat, Geometry.Valid, Modulus;
      var ncl := scl;
      ghost var d := 0;
      while true
        invariant Valid() && drive.faults >= old(drive.faults) && (old(!wflag) ==> !wflag)
        invariant winsect == old(winsect) || geo.InFat(winsect) || winsect == NO_SECTOR
        invariant if d == 0 then ncl == scl else InRange(fat, ncl) && Dist(|fat|, scl, ncl) == d && ncl != scl
        invariant Scanned(fat, scl, d)
        decreases |fat| - d
      {
        ncl := ncl + 1;
        if ncl >= geo.nFatent {
          ncl := 2;
          if ncl > scl {
            ScanDone(fat, scl, d);
            return 0;
          }
        }
        ScanStep(fat, scl, ncl, d);
        d := d + 1;
        var cs := GetFat(ncl);
        if cs == 0 { return ncl; }
        if cs == INT_ERROR || cs == DISK_ERROR { return cs; }
        if ncl == scl {
          ScanDone(fat, scl, d);
          return 0;
        }
      }
    }

    /** The two put_fat calls of create_chain. */
    method LinkCluster(clst: nat, ncl: nat) returns (res: FResult)
      requires Valid() && InRange(fat, ncl) && (clst != 0 ==> InRange(fat, clst))
      modifies `winsect, `wflag, `view, `fat, win, drive
      ensures Valid() && drive.faults >= old(drive.faults) && OffFat(geo, view) == old(OffFat(geo, view))
      ensures res == Ok ==> fat == Linked(old(fat), clst, ncl, Eoc())
      ensures res == Ok || (res == DiskErr && drive.faults > old(drive.faults))
      ensures winsect == old(winsect) || geo.InFat(winsect) || winsect == NO_SECTOR
    {
      EocStored();
      res := PutFat(ncl, 0xFFFF_FFFF);
      if res == Ok && clst != 0 {
        SmallValue(geo, ncl);
        res := PutFat(clst, ncl);
      }
    }

    /** create_chain: follow the link of clst, or allocate a cluster and link it (clst 0: start a chain). */
    method CreateChain(clst: nat) returns (ncl: nat)
      requires Valid()
      modifies `winsect, `wflag, `view, `fat, win, drive, `lastClst, `freeClst, `fsiDirty, `chains
      ensures Valid() && drive.faults >= old(drive.faults) && OffFat(geo, view) == old(OffFat(geo, view))
      ensures old(Tidy()) && ncl != DISK_ERROR ==>
        Tidy() && if Takes(old(fat), clst, ncl) then Longer(old(chains), clst, ncl, chains) else chains == old(chains)
      ensures ncl == DISK_ERROR ==> drive.faults > old(drive.faults)
      ensures ncl == DISK_ERROR ==>
        lastClst == old(lastClst) && freeClst == old(freeClst) && fsiDirty == old(fsiDirty)
      ensures ncl != DISK_ERROR ==> Answer(old(fat), old(lastClst), clst, ncl)
      ensures ncl != DISK_ERROR ==>
        if clst != 0 && (!InRange(old(fat), clst) || old(fat)[clst] < 2) then ncl == INT_ERROR
        else if clst != 0 && old(fat)[clst] < |old(fat)| then ncl == old(fat)[clst]
        else if clst != 0 then NextFree(old(fat), clst, ncl)
        else NextFree(old(fat), if 2 <= old(lastClst) < |old(fat)| then old(lastClst) else 1, ncl)
      ensures ncl != DISK_ERROR && Takes(old(fat), clst, ncl) ==>
                && InRange(fat, ncl) && old(fat)[ncl] == 0 && (clst != 0 ==> InRange(fat, clst))
                && fat == Linked(old(fat), clst, ncl, Eoc())
                && lastClst == ncl && fsiDirty && freeClst == FreeBefore(geo.nFatent, old(freeClst))
      ensures ncl != DISK_ERROR && !Takes(old(fat), clst, ncl) ==>
                view == old(view) && fat == old(fat) && lastClst == old(lastClst) && freeClst == old(freeClst)
                  && fsiDirty == old(fsiDirty)
      ensures winsect == old(winsect) || geo.InFat(winsect) || winsect == NO_SECTOR
      ensures ncl != DISK_ERROR && !Takes(old(fat), clst, ncl) && old(!wflag) ==> !wflag
    {
      hide Valid, OffFat, Geometry.Valid, Modulus, WellFormed, Longer, Tidy, NextFree, Searched, Linked;
      ModulusBounds();
      var scl := clst;
      if clst == 0 {
        scl := lastClst;
        if scl == 0 || scl >= geo.nFatent { scl := 1; }
      } else {
        var cs := GetFat(clst);
        if cs < 2 { return INT_ERROR; }
        if cs == DISK_ERROR { return cs; }
        if cs < geo.nFatent { return cs; }
      }
      ncl := Allocate(clst, scl);
      if ncl != DISK_ERROR { SearchMeans(old(fat), scl, ncl); }
    }

    /** The part of create_chain that searches from scl, takes a cluster and accounts for it. */
    method Allocate(clst: nat, scl: nat) returns (ncl: nat)
      requires Valid() && 1 <= scl < geo.nFatent && (clst != 0 ==> InRange(fat, clst) && fat[clst] >= |fat|)
      modifies `winsect, `wflag, `view, `fat, win, drive, `lastClst, `freeClst, `fsiDirty, `chains
      ensures old(Tidy()) && ncl != DISK_ERROR ==>
        Tidy() && if ncl >= 2 then Longer(old(chains), clst, ncl, chains) else chains == old(chains)
      ensures Valid() && drive.faults >= old(drive.faults) && OffFat(geo, view) == old(OffFat(geo, view))
      ensures ncl == DISK_ERROR ==> drive.faults > old(drive.faults)
      ensures ncl != DISK_ERROR ==> Searched(old(fat), scl, ncl)
      ensures ncl != DISK_ERROR && ncl >= 2 ==>
                && InRange(fat, ncl) && old(fat)[ncl] == 0
                && fat == Linked(old(fat), clst, ncl, Eoc())
                && lastClst == ncl && fsiDirty && freeClst == FreeBefore(geo.nFatent, old(freeClst))
      ensures ncl < 2 ==> view == old(view) && fat == old(fat)
      ensures ncl < 2 || ncl == DISK_ERROR ==>
        lastClst == old(lastClst) && freeClst == old(freeClst) && fsiDirty == old(fsiDirty)
      ensures winsect == old(winsect) || geo.InFat(winsect) || winsect == NO_SECTOR
      ensures ncl < 2 ==> old(!wflag) ==> !wflag
    {
      hide Valid, OffFat, Geometry.Valid, Modulus, WellFormed, Longer, Linked, Searched, Takes, FreeCount, TidyAt;
      ncl := FindFree(scl);
      FoundFree(fat, scl, ncl);
      if ncl < 2 || ncl == DISK_ERROR { return; }
      var res := LinkCluster(clst, ncl);
      if res == Ok {
        lastClst := ncl;
        if freeClst <= geo.nFatent - 2 {
          freeClst := if freeClst == 0 then UNKNOWN else freeClst - 1;
        }
        fsiDirty := true;
        Enchain(old(fat), old(freeClst), clst, ncl);
      } else {
        ncl := DISK_ERROR;
      }
    }

    lemma ModulusBounds()
      requires Valid()
      ensures Eoc() >= |fat| && 3 <= |fat| <= UNKNOWN
    {
    }

    /** The table f with its chains and free count is tidy. */
    ghost predicate TidyAt(f: seq<nat>, m: Chains, free: Dword) {
      WellFormed(f, m) && |f| >= 3 && (counted ==> free == FreeCount(f))
    }

    /** The chains after a cluster was taken. */
    ghost method Enchain(f: seq<nat>, free: Dword, clst: nat, ncl: nat)
      requires Valid() && |f| == |fat| && InRange(f, ncl) && f[ncl] == 0
      requires (clst != 0 ==> InRange(f, clst) && f[clst] >= |f|)
      requires fat == Linked(f, clst, ncl, Eoc()) && freeClst == FreeBefore(|f|, free)
      modifies `chains
      ensures TidyAt(f, old(chains), free) ==> Tidy() && Longer(old(chains), clst, ncl, chains)
    {
      hide Valid, WellFormed, Longer, Linked, Modulus, FreeCount, Eoc;
      ModulusBounds();
      if WellFormed(f, chains) {
        chains := CreateKeepsChains(f, chains, clst, ncl, Eoc());
        if free == FreeCount(f) { CreateKeepsCount(f, clst, ncl, Eoc(), free); }
      }
    }

    /**
     * One turn of the loop of remove_chain: free clst unless it is free or broken, and answer what it was linked to.
     */
    method FreeStep(clst: nat) returns (res: FResult, nxt: nat)
      requires Valid() && InRange(fat, clst)
      modifies `winsect, `wflag, `view, `fat, win, drive, `freeClst, `fsiDirty
      ensures Valid() && drive.faults >= old(drive.faults) && OffFat(geo, view) == old(OffFat(geo, view))
      ensures res == DiskErr ==> drive.faults > old(drive.faults)
      ensures res != DiskErr ==> nxt == old(fat)[clst] && res == (if nxt == 1 then IntErr else Ok)
      ensures res != DiskErr && nxt <= 1 ==> fat == old(fat) && freeClst == old(freeClst)
      ensures res != DiskErr && nxt > 1 ==>
        fat == old(fat)[clst := 0] && freeClst == FreeAfter(geo.nFatent, old(freeClst), 1)
      ensures freeClst >= old(freeClst) && (fsiDirty <==> old(fsiDirty) || freeClst != old(freeClst))
      ensures winsect == old(winsect) || geo.InFat(winsect) || winsect == NO_SECTOR
    {
      hide Valid, OffFat, Geometry.Valid, Modulus;
      nxt := GetFat(clst);
      if nxt == 0 { return Ok, nxt; }
      if nxt == INT_ERROR { return IntErr, nxt; }
      if nxt == DISK_ERROR { return DiskErr, nxt; }
      res := PutFat(clst, 0);
      if res == Ok && freeClst < geo.nFatent - 2 {
        freeClst := freeClst + 1;
        fsiDirty := true;
      }
    }

    /** The loop of remove_chain, over a table with any contents. */
    method FreeChain(start: nat) returns (res: FResult)
      requires Valid() && InRange(fat, start)
      modifies `winsect, `wflag, `view, `fat, win, drive, `freeClst, `fsiDirty
      ensures Valid() && drive.faults >= old(drive.faults) && OffFat(geo, view) == old(OffFat(geo, view))
      ensures res == DiskErr ==> drive.faults > old(drive.faults)
      ensures res != DiskErr ==>
        var r := FreeFrom(old(fat), start);
        fat == r.fat && freeClst == FreeAfter(geo.nFatent, old(freeClst), r.freed)
          && res == (if r.sound then Ok else IntErr)
      ensures freeClst >= old(freeClst) && (fsiDirty <==> old(fsiDirty) || freeClst != old(freeClst))
      ensures winsect == old(winsect) || geo.InFat(winsect) || winsect == NO_SECTOR
    {
      hide Valid, OffFat, Geometry.Valid, Modulus;
      var clst := start;
      ghost var k := 0;
      while true
        invariant Valid() && drive.faults >= old(drive.faults) && OffFat(geo, view) == old(OffFat(geo, view))
        invariant winsect == old(winsect) || geo.InFat(winsect) || winsect == NO_SECTOR
        invariant InRange(fat, clst)
        invariant freeClst == FreeAfter(geo.nFatent, old(freeClst), k)
        invariant freeClst >= old(freeClst) && (fsiDirty <==> old(fsiDirty) || freeClst != old(freeClst))
        invariant var r := FreeFrom(fat, clst); FreeFrom(old(fat), start) == r.(freed := r.freed + k)
        decreases geo.nFatent - 2 - FreeCount(fat)
      {
        ghost var f := fat;
        var nxt;
        res, nxt := FreeStep(clst);
        if res != Ok || nxt == 0 { return; }
        FreeCountUpdate(f, clst, 0);
        k := k + 1;
        clst := nxt;
        if clst >= geo.nFatent { return; }
      }
    }

    /** remove_chain: free clst and all that follows; pclst, if not 0, becomes the end of its chain. */
    method RemoveChain(clst: nat, pclst: nat) returns (res: FResult)
      requires Valid()
      modifies `winsect, `wflag, `view, `fat, win, drive, `freeClst, `fsiDirty, `chains
      ensures Valid() && drive.faults >= old(drive.faults) && OffFat(geo, view) == old(OffFat(geo, view))
      ensures old(Tidy()) && Allowed(old(fat), Remove(clst, pclst)) && res != DiskErr ==>
        res == Ok && Tidy() && Shorter(old(chains), clst, chains)
      ensures !InRange(old(fat), clst) || (pclst != 0 && !InRange(old(fat), pclst)) ==>
                res == IntErr && view == old(view) && fat == old(fat) && freeClst == old(freeClst)
      ensures InRange(old(fat), clst) && (pclst == 0 || InRange(old(fat), pclst)) ==>
                if res == DiskErr then drive.faults > old(drive.faults)
                else
                  var r := FreeFrom(if pclst == 0 then old(fat) else old(fat)[pclst := Eoc()], clst);
                  fat == r.fat && freeClst == FreeAfter(geo.nFatent, old(freeClst), r.freed)
                    && res == (if r.sound then Ok else IntErr)
      ensures fsiDirty <==> old(fsiDirty) || freeClst != old(freeClst)
      ensures winsect == old(winsect) || geo.InFat(winsect) || winsect == NO_SECTOR
    {
      hide Valid, OffFat, Geometry.Valid, Modulus, WellFormed, Shorter, FreeFrom, Allowed;
      AllowedFacts(clst, pclst);
      if clst < 2 || clst >= geo.nFatent { return IntErr; }
      if pclst != 0 {
        EocStored();
        res := PutFat(pclst, 0xFFFF_FFFF);
        if res != Ok { return; }
      }
      res := FreeChain(clst);
      if res != DiskErr && Allowed(old(fat), Remove(clst, pclst)) {
        Unchain(old(fat), old(freeClst), clst, pclst);
      }
    }

    lemma AllowedFacts(clst: nat, pclst: nat)
      requires Valid()
      ensures Allowed(fat, Remove(clst, pclst)) ==> InRange(fat, clst) && (pclst != 0 ==> InRange(fat, pclst))
      ensures Eoc() >= |fat| && 3 <= |fat| <= UNKNOWN
    {
    }

    /** The chains after the rest of one was freed. */
    ghost method Unchain(f: seq<nat>, free: Dword, clst: nat, pclst: nat)
      requires 3 <= |f| <= UNKNOWN && Eoc() >= |f| && Allowed(f, Remove(clst, pclst))
      requires var r := FreeFrom(Closed(f, pclst, Eoc()), clst);
               fat == r.fat && freeClst == FreeAfter(|f|, free, r.freed)
      modifies `chains
      ensures WellFormed(f, old(chains)) && (counted ==> free == FreeCount(f)) ==>
                Tidy() && Shorter(old(chains), clst, chains) && FreeFrom(Closed(f, pclst, Eoc()), clst).sound
    {
      hide WellFormed, Shorter, FreeFrom, Modulus;
      if WellFormed(f, chains) {
        chains := RemoveKeepsChains(f, chains, clst, pclst, Eoc());
        if free == FreeCount(f) { RemoveKeepsCount(f, clst, pclst, Eoc(), free); }
      }
    }

    // ---- file data, which bypasses the window ------------------------------------------------------

    /** clust2sect: first sector of a cluster, 0 for a number that is no cluster. */
    function Clust2Sect(clst: nat): nat {
      if clst < 2 || clst >= geo.nFatent then 0 else (clst - 2) * geo.csize + geo.database
    }

    /** disk_write of data sectors that are not in the window. */
    method WriteData(sect: nat, count: nat, data: seq<byte>) returns (res: FResult)
      requires Valid() && geo.database <= sect && |data| == count * SS && !(sect <= winsect < sect + count)
      modifies drive, `view
      ensures Valid() && |view| == |old(view)| && drive.faults >= old(drive.faults)
      ensures forall s :: 0 <= s < |view| && !(sect <= s < sect + count) ==> view[s] == old(view)[s]
      ensures res == Ok || (res == DiskErr && drive.faults > old(drive.faults))
      ensures res == Ok ==>
        sect + count <= |view| && forall j :: 0 <= j < count ==> view[sect + j] == data[j * SS..(j + 1) * SS]
    {
      hide Table, Modulus, TableBytes, OffMirror;
      ghost var d, v := drive.sectors, view;
      res := drive.WriteRun(sect, count, data);
      var u := OffMirror(geo, drive.sectors);
      view := if wflag then u[winsect := win[..]] else u;
      DataRun(d, v, sect, count);
    }

    /** Only data sectors have changed on the drive, none of them in the window. */
    lemma DataRun(d: seq<Sector>, v: seq<Sector>, sect: nat, count: nat)
      requires geo.Valid() && Fits(geo, v) && |d| == |drive.sectors| == |v| < NO_SECTOR && win.Length == SS
      requires fat == Table(geo, v) && !geo.InMirror(winsect) && (winsect < |d| || (winsect == NO_SECTOR && !wflag))
      requires !wflag && winsect != NO_SECTOR ==> win[..] == d[winsect]
      requires v == (var u := OffMirror(geo, d); if wflag then u[winsect := win[..]] else u)
      requires view == (var u := OffMirror(geo, drive.sectors); if wflag then u[winsect := win[..]] else u)
      requires geo.database <= sect && !(sect <= winsect < sect + count)
      requires forall s :: 0 <= s < |d| && !(sect <= s < sect + count) ==> drive.sectors[s] == d[s]
      requires drive.faults >= faults0
      requires drive.faults == faults0 && geo.nFats == 2 ==>
        forall s: nat :: geo.InFat(s) && !(wflag && s == winsect) && s + geo.fsize < |d| ==> d[s + geo.fsize] == d[s]
      ensures Valid() && forall s :: 0 <= s < |v| && !(sect <= s < sect + count) ==> view[s] == v[s]
      ensures forall s :: sect <= s < sect + count && s < |v| ==> view[s] == drive.sectors[s]
    {
      hide Table;
      TableKept(geo, v, view);
    }

    /** disk_read of data sectors that are not waiting in the window. */
    method ReadData(sect: nat, count: nat) returns (res: FResult, data: seq<byte>)
      requires Valid() && geo.database <= sect && !(sect <= winsect < sect + count)
      modifies drive`faults
      ensures Valid() && drive.faults >= old(drive.faults) && |data| == count * SS
      ensures res == Ok || (res == DiskErr && drive.faults > old(drive.faults))
      ensures res == Ok ==>
        sect + count <= |view| && forall j :: 0 <= j < count ==> data[j * SS..(j + 1) * SS] == view[sect + j]
    {
      hide Table, Modulus, TableBytes;
      res, data := drive.ReadRun(sect, count);
    }

    // ---- directory entries and FSINFO --------------------------------------------------------------

    /** The volume keeps free count and last cluster in the sector behind the boot sector. */
    predicate UsesFsInfo()
      reads `fsiDisabled
    {
      geo.fsType == Fat32 && !fsiDisabled
    }

    /** A sector outside the FAT copies that the window may be used to change: a directory's, or FSINFO. */
    ghost predicate Plain(s: nat)
      reads `view
    {
      s < |view| && !geo.InFat(s) && !geo.InMirror(s)
    }

    /** Replacing the window's sector, outside the FAT. */
    method Rewrite(data: Sector)
      requires Valid() && Plain(winsect)
      modifies `wflag, `view, win
      ensures Valid() && wflag && win[..] == data && view == old(view)[winsect := data]
    {
      CopyInto(win, 0, data);
      assert win[..] == data;
      wflag := true;
      view := view[winsect := win[..]];
      TableKept(geo, old(view), view);
    }

    /** The clean window, pointed at another sector, becomes that sector's new contents. */
    method Aim(s: nat)
      requires Valid() && !wflag && Plain(s)
      modifies `winsect, `wflag, `view
      ensures Valid() && wflag && winsect == s && view == old(view)[s := win[..]]
    {
      hide Table, Modulus, TableBytes;
      winsect, wflag := s, true;
      view := view[s := win[..]];
      TableKept(geo, old(view), view);
    }

    /** Blanking the clean window: it belongs to no sector until it is pointed at one. */
    method BlankWindow()
      requires Valid() && !wflag
      modifies `winsect, win
      ensures Valid() && winsect == NO_SECTOR && win[..] == Blank()
    {
      winsect := NO_SECTOR;
      forall i | 0 <= i < SS { win[i] := 0; }
      assert win[..] == Blank();
    }

    /**
     * The part of dir_next that fills a new cluster of a directory with zeros; the window ends up at its first sector.
     */
    method ClearCluster(clst: nat) returns (res: FResult)
      requires Valid() && InRange(fat, clst) && geo.csize > 0 && geo.database <= Clust2Sect(clst)
      requires Clust2Sect(clst) + geo.csize <= |view|
      modifies `winsect, `wflag, `view, win, drive
      ensures drive.faults >= old(drive.faults)
      ensures res == Ok || (res == DiskErr && drive.faults > old(drive.faults))
      ensures res == Ok ==> Valid() && |view| == |old(view)| && winsect == Clust2Sect(clst)
      ensures res == Ok ==> forall s :: 0 <= s < |view| ==>
        view[s] == if Clust2Sect(clst) <= s < Clust2Sect(clst) + geo.csize then Blank() else old(view)[s]
    {
      hide Valid, Geometry.Valid, Modulus, Table, Clust2Sect;
      res := SyncWindow();
      if res != Ok { return; }
      BlankWindow();
      var first, n := Clust2Sect(clst), 0;
      while n < geo.csize
        invariant 0 <= n <= geo.csize && Valid() && !wflag && win[..] == Blank() && res == Ok
        invariant drive.faults >= old(drive.faults)
        invariant |view| == |old(view)|
        invariant forall s :: 0 <= s < |view| ==> view[s] == if first <= s < first + n then Blank() else old(view)[s]
        invariant n > 0 ==> winsect == first + n - 1
      {
        DataPlain(first + n);
        Aim(first + n);
        res := SyncWindow();
        if res != Ok { return; }
        n := n + 1;
      }
      DataPlain(first);
      assert view[first] == Blank();
      StandFor(first);
    }

    lemma DataPlain(s: nat)
      requires Valid() && geo.database <= s < |view|
      ensures Plain(s)
    {
    }

    /** The window may as well stand for any sector that is what it holds. */
    method StandFor(s: nat)
      requires Valid() && !wflag && Plain(s) && view[s] == win[..]
      modifies `winsect
      ensures Valid() && winsect == s
    {
      hide Table, Modulus, TableBytes;
      winsect := s;
    }

    /**
     * The FSINFO part of sync_fs: the window becomes the FSINFO sector, which is written at once; a failure goes
     * unnoticed.
     */
    method WriteFsInfo()
      requires Valid() && !wflag && Plain(geo.volbase + 1)
      modifies `winsect, `view, `fsiDirty, win, drive
      ensures drive.faults >= old(drive.faults)
      ensures drive.faults == old(drive.faults) ==>
        Valid() && view == old(view)[geo.volbase + 1 := FsInfo(freeClst, lastClst)]
      ensures winsect == geo.volbase + 1 && !fsiDirty
    {
      hide FsInfo, Valid, Plain;
      CleanFacts();
      var data := FsInfo(freeClst, lastClst);
      CopyInto(win, 0, data);
      assert win[..] == data;
      winsect := geo.volbase + 1;
      var ignored := drive.Write(winsect, win[..]);
      fsiDirty := false;
      view := view[winsect := data];
      if drive.faults == old(drive.faults) { Rewritten(old(drive.sectors), old(view)); }
    }

    /** Both copies of the FAT agree on these sectors. */
    ghost predicate Agreeing(d: seq<Sector>) {
      geo.nFats == 2 ==> forall s: nat :: geo.InFat(s) && s + geo.fsize < |d| ==> d[s + geo.fsize] == d[s]
    }

    /** With a clean window the volume shows what is on the drive. */
    lemma CleanFacts()
      requires Valid() && !wflag
      ensures geo.Valid() && Fits(geo, view) && |view| == |drive.sectors| < NO_SECTOR && win.Length == SS
      ensures view == OffMirror(geo, drive.sectors) && fat == Table(geo, view) && drive.faults >= faults0
      ensures drive.faults == faults0 ==> Agreeing(drive.sectors)
      ensures forall s: nat :: Plain(s) ==> s < |view| && !geo.InFat(s) && !geo.InMirror(s)
    {
    }

    /** The window's sector, which is not the FAT's, has been written to the drive. */
    lemma Rewritten(d: seq<Sector>, v: seq<Sector>)
      requires geo.Valid() && Fits(geo, v) && |v| == |d| < NO_SECTOR && win.Length == SS && v == OffMirror(geo, d)
      requires winsect < |d| && !geo.InFat(winsect) && !geo.InMirror(winsect) && !wflag
      requires drive.sectors == d[winsect := win[..]] && view == v[winsect := win[..]] && fat == Table(geo, v)
      requires drive.faults >= faults0 && (drive.faults == faults0 ==> Agreeing(d))
      ensures Valid()
    {
      hide Table, OffMirror;
      OneSector(d, winsect, win[..]);
      TableKept(geo, v, view);
    }

    lemma OneSector(d: seq<Sector>, s: nat, data: Sector)
      requires s < |d| && !geo.InMirror(s)
      ensures OffMirror(geo, d[s := data]) == OffMirror(geo, d)[s := data]
    {
    }

    /** sync_fs: write back the window, then FSINFO if it is out of date. */
    method SyncFs() returns (res: FResult)
      requires Valid() && (UsesFsInfo() ==> Plain(geo.volbase + 1))
      modifies `winsect, `wflag, `view, `fsiDirty, win, drive
      ensures drive.faults >= old(drive.faults)
      ensures res == Ok || (res == DiskErr && drive.faults > old(drive.faults))
      ensures drive.faults == old(drive.faults) ==> Valid() && !wflag && !drive.unsynced
      ensures drive.faults == old(drive.faults) ==>
        view == if UsesFsInfo() && old(fsiDirty) then old(view)[geo.volbase + 1 := FsInfo(freeClst, lastClst)]
                else old(view)
      ensures winsect == old(winsect) || (UsesFsInfo() && winsect == geo.volbase + 1)
    {
      hide Valid, FsInfo, Geometry.Valid;
      res := SyncWindow();
      if res == Ok {
        if geo.fsType == Fat32 && !fsiDisabled && fsiDirty {
          WriteFsInfo();
        }
        res := drive.Sync();
      }
    }
  }
}
