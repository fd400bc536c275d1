/**
 * Setting the log store up: on a drive without a file system format it, mount, and start with no logs; on one that has
 * been in use mount it, and all logs are there.
 */
module StorageInit {
  import opened Bytes
  import opened Wrappers
  import opened Disk
  import opened FatLayout
  import opened FatTable
  import opened FatChains
  import opened DirEntry
  import opened FatVolume
  import opened FileLayout
  import opened Mkfs
  import opened BootSector
  import opened FatMount
  import opened Catalogue
  import opened LogDir
  import opened LogStore

  /** FM_ANY. */
  const ANY := Options(true, true, true, false)

  /** The clusters of the root directory; before FAT32 it lies in front of the data area and has none. */
  function RootClusters(p: Plan): set<nat> {
    if p.fmt == Fat32 then {2} else {}
  }

  /** The first sector of the root directory. */
  function RootStart(p: Plan): nat { p.bVol + p.rsv + p.szFat }

  /** Entry i of the root directory. */
  function RootPlace(p: Plan, i: nat): Place {
    Place(RootStart(p) + i / 16, i % 16 * SZDIRE)
  }

  /** All entries of a fresh root directory, in the order in which they are taken. */
  function RootSlots(p: Plan): (s: seq<Place>) {
    seq(if p.fmt == Fat32 then 16 * p.pau else N_ROOTDIR, i requires 0 <= i => RootPlace(p, i))
  }

  /** The sectors of the root directory are behind the FAT and no file's. */
  lemma RootSector(p: Plan, s: nat)
    requires p.Sound() && RootStart(p) <= s < RootEnd(p)
    ensures var g := p.Geo();
            g.fatbase < s && !g.InFat(s) && !g.InMirror(s) && s != FsiSect(g) && Meta(g, RootClusters(p), s)
  {
    hide PowerOfTwo, TableBytes, Plan.TypeFits;
    if p.fmt == Fat32 {
      assert 2 in RootClusters(p) && s == DataSect(p.Geo(), 2, s - RootStart(p));
    }
  }

  /** On FAT32 they are those of its first cluster. */
  lemma RootIsCluster(p: Plan)
    requires p.Sound() && p.fmt == Fat32
    ensures Numbers([2]) && RootSlots(p) == AllSlots(p.Geo(), [2])
  {
    hide PowerOfTwo, TableBytes, Plan.TypeFits;
    var g := p.Geo();
    assert DataSect(g, 2, 0) == RootStart(p);
    assert [2][..1 - 1] == [];
    assert AllSlots(g, [2]) == AllSlots(g, []) + ClusterSlots(g, 2);
    assert RootSlots(p) == ClusterSlots(g, 2);
  }

  lemma RootInOrder(p: Plan)
    ensures |RootSlots(p)| == if p.fmt == Fat32 then 16 * p.pau else 512
    ensures forall i :: 0 <= i < |RootSlots(p)| ==>
      RootSlots(p)[i] == Place(p.bVol + p.rsv + p.szFat + i / 16, i % 16 * 32)
  {
  }

  lemma RootPlaceRange(p: Plan, i: nat)
    requires i < |RootSlots(p)| && (p.fmt != Fat32 ==> p.dir == 32) && (p.fmt == Fat32 ==> p.dir == 0)
    ensures var q := RootPlace(p, i); RootStart(p) <= q.sect < RootEnd(p) && q.ofs + SZDIRE <= SS && q.ofs % SZDIRE == 0
  {
  }

  /** Every entry of a fresh root directory is blank and clear of FAT, FSINFO and file data. */
  lemma RootSlot(p: Plan, v: seq<Sector>, fsi: bool, i: nat)
    requires Written(p, v, fsi) && i < |RootSlots(p)|
    ensures Slot(p.Geo(), RootClusters(p), |v|, RootPlace(p, i)) && v[RootPlace(p, i).sect] == Blank()
  {
    assert p.Placed();
    hide Describes, Master, FsInfo, FatStart, Plan.Sound, RootClusters, RootSlots, Meta, FsiSect, RootEnd, RootStart,
      RootPlace;
    RootPlaceRange(p, i);
    RootSector(p, RootPlace(p, i).sect);
  }

  lemma PlacesDiffer(p: Plan, i: nat, j: nat)
    requires i != j
    ensures RootPlace(p, i) != RootPlace(p, j)
  {
  }

  /** The root directory is not too long, and on FAT32 the limit is a multiple of a cluster. */
  lemma RootFits(p: Plan)
    requires p.Sound()
    ensures |RootSlots(p)| * SZDIRE <= MAX_DIR
    ensures p.fmt == Fat32 ==> p.Geo().csize > 0 && 4096 % p.Geo().csize == 0
  {
    hide TableBytes, Plan.TypeFits;
  }

  /** A fresh directory has no files. */
  lemma NoFiles(p: Plan, v: seq<Sector>)
    requires forall q :: q in RootSlots(p) ==> q.sect < |v| && v[q.sect] == Blank()
    ensures Catalogued(Listing(v, RootSlots(p)), map[]) && Indexed(map[], RootSlots(p), map[])
  {
    hide RootSlots, Catalogued;
    var places := RootSlots(p);
    forall k | 0 <= k < |places| ensures Listing(v, places)[k][0] == 0 {
      assert places[k] in places;
    }
    CataloguedFresh(Listing(v, places));
  }

  /** A freshly mounted volume is the shelf of a store without logs, every root entry unused. */
  lemma FreshStore(p: Plan, v: seq<Sector>, fsi: bool, f: seq<nat>)
    requires Written(p, v, fsi) && |v| < NO_SECTOR && |f| == p.nClst + 2 && WellFormed(f, FreshChains(p))
    ensures Shelf(p.Geo(), RootClusters(p), f, |v|, NO_SECTOR)
    ensures Store(p.Geo(), RootClusters(p), f, v, map[], RootSlots(p), map[])
    ensures RootSlots(p) != [] && forall q :: q in RootSlots(p) ==> q.sect < |v| && v[q.sect] == Blank()
  {
    SoundGeometry(p);
    assert p.fmt == Fat32 ==> FreshChains(p)[2] == [2];
    var n := |RootSlots(p)|;
    hide Describes, Master, FsInfo, FatStart, Slot, Written;
    forall i: nat | i < n
      ensures Slot(p.Geo(), RootClusters(p), |v|, RootPlace(p, i)) && RootPlace(p, i).sect < |v|
      ensures v[RootPlace(p, i).sect] == Blank()
    {
      RootSlot(p, v, fsi, i);
    }
    forall i: nat, j: nat | i < j < n ensures RootPlace(p, i) != RootPlace(p, j) { PlacesDiffer(p, i, j); }
  }

  /** The table of a fresh volume, and its free count. */
  lemma FreshVolume(p: Plan, v: seq<Sector>, fsi: bool)
    requires Written(p, v, fsi)
    ensures p.Geo().Valid() && Fits(p.Geo(), v) && Formatted(p, v)
    ensures var f := Table(p.Geo(), v); WellFormed(f, FreshChains(p)) && |f| == p.nClst + 2
    ensures fsi && p.fmt == Fat32 ==>
      p.bVol + 1 < |v| && v[p.bVol + 1] == FsInfo(p.nClst - 1, 2) && p.nClst - 1 == FreeCount(Table(p.Geo(), v))
    ensures p.nClst < 0x1000_0000
  {
    SoundGeometry(p);
    FreshTable(p, v, fsi);
  }

  /** All chains of a fresh volume are the root directory's. */
  lemma OnlyRoot(p: Plan)
    ensures Accounted(FreshChains(p), RootClusters(p), map[])
  {
  }

  /** The store over a volume just formatted. */
  method NewStore(vol: Volume, p: Plan, ghost fsi: bool, names: Names) returns (store: Logs)
    requires Written(p, vol.view, fsi) && |vol.view| < NO_SECTOR && names.Lawful()
    requires vol.Valid() && vol.Tidy() && vol.geo == p.Geo() && vol.winsect == NO_SECTOR
    requires vol.chains == FreshChains(p) && |vol.fat| == p.nClst + 2 && WellFormed(vol.fat, FreshChains(p))
    ensures fresh(store) && store.Valid() && store.fs == vol && store.origin == vol.view && store.names == names
    ensures store.files == map[] && store.logs == map[] && store.receipts == {} && store.places == RootSlots(p)
    ensures forall q :: q in store.places ==> q.sect < |vol.view| && vol.view[q.sect] == Blank()
  {
    hide Volume.Valid, Volume.Tidy, Accounted, Written, WellFormed, Shelf, Store, Logs.Valid, Plan.Sound, RootSlots,
      Catalogued, Indexed, Listing, Names.Lawful;
    assert p.Sound() by { WrittenSound(p, vol.view, fsi); }
    FreshStore(p, vol.view, fsi, vol.fat);
    RootFits(p);
    NoFiles(p, vol.view);
    if p.fmt == Fat32 { RootIsCluster(p); }
    OnlyRoot(p);
    store := new Logs(vol, RootSlots(p), names, if p.fmt == Fat32 then 2 else 0, map[], map[], [2], RootClusters(p),
                      map[], {});
  }

  lemma WrittenSound(p: Plan, v: seq<Sector>, fsi: bool)
    requires Written(p, v, fsi)
    ensures p.Sound()
  {
  }

  /**
   * The branch of storage_initialize for a drive without a file system. It gives a store without logs over a
   * well-formed FAT, ready to be written to; it fails only if an access fails or the drive is too small.
   */
  method FormatAndMount(drive: Drive, tm: nat, names: Names)
    returns (code: Code, store: Logs?, ghost p: Plan)
    requires |drive.sectors| < NO_SECTOR && names.Lawful()
    modifies drive
    ensures drive.faults >= old(drive.faults)
    ensures code == Success || code == Fail
    ensures code == Fail ==> drive.faults > old(drive.faults) || |old(drive.sectors)| < 128 + 63
    ensures code == Success ==> store != null && fresh(store) && fresh(store.fs) && store.fs.drive == drive
    ensures code == Success ==>
      && store.Valid() && store.names == names && store.files == map[] && store.logs == map[] && store.receipts == {}
      && !store.fs.wflag
    ensures code == Success ==> store.fs.geo == p.Geo() && Formatted(p, store.origin)
    ensures code == Success ==>
      forall q :: q in store.places ==> q.sect < |store.fs.view| && store.fs.view[q.sect] == Blank()
    ensures code == Success ==>
      && p.bVol == 63 && p.bVol + p.szVol == |old(drive.sectors)|
      && |store.places| == (if p.fmt == Fat32 then 16 * p.pau else 512)
      && forall i :: 0 <= i < |store.places| ==>
           store.places[i] == Place(63 + p.rsv + p.szFat + i / 16, i % 16 * 32)
    ensures code == Success ==> WellFormed(store.fs.fat, FreshChains(p))
    ensures code == Success && store.fs.geo.fsType == Fat32 && drive.faults == old(drive.faults) ==>
      store.fs.freeClst == FreeCount(store.fs.fat)
  {
    hide Volume.Valid, Volume.Tidy, Accounted, Written, WellFormed, Shelf, Store, Logs.Valid, Plan.Sound, Formatted,
      FsInfo, Table, RootSlots, Fits, FreeCount, Catalogued, Indexed, Listing, Names.Lawful, Complete, Partitioned,
      RootEnd, Succeeds, GoodSize;
    store := null;
    var res, plan := Format(drive, ANY, 0, SS, tm);
    p := plan;
    if res != Ok { return Fail, store, p; }
    ghost var fsi := drive.faults == old(drive.faults);
    FreshVolume(p, drive.sectors, fsi);
    var vol;
    res, vol := Mount(drive, p, FreshChains(p));
    if res != Ok { return Fail, store, p; }
    vol.TableEntry(0);
    RootInOrder(p);
    store := NewStore(vol, plan, fsi, names);
    code := Success;
  }

  /** Boot sector and partition table are in front of the FAT, and not FSINFO. */
  lemma StillFormatted(p: Plan, v: seq<Sector>, w: seq<Sector>)
    requires Formatted(p, v) && SameFront(p.Geo(), v, w)
    ensures Formatted(p, w)
  {
    hide Describes, Master;
    assert p.rsv > 0;
  }

  /**
   * The other branch, for a drive that was formatted and used before: a new store over it has all the logs the last one
   * had when it had written everything back, and honours all its receipts. Only a failed access prevents it.
   */
  method Restart(last: Logs, ghost p: Plan) returns (code: Code, store: Logs?)
    requires last.Valid() && !last.fs.wflag && last.fs.geo == p.Geo() && Formatted(p, last.origin)
    modifies last.fs.drive`faults
    ensures last.fs.drive.faults >= old(last.fs.drive.faults)
    ensures code == Success || (code == Fail && last.fs.drive.faults > old(last.fs.drive.faults))
    ensures code == Success ==> store != null && fresh(store) && fresh(store.fs) && store.fs.drive == last.fs.drive
    ensures code == Success ==>
      store.Valid() && !store.fs.wflag && store.fs.geo == p.Geo() && Formatted(p, store.origin)
    ensures code == Success ==>
      && store.files == last.files && store.logs == last.logs && store.receipts == last.receipts
      && store.names == last.names && store.places == last.places
  {
    hide Volume.Valid, Volume.Tidy, Listed, Accounted, WellFormed, Shelf, Store, Logs.Valid, Logs.Sound, Plan.Sound,
      Formatted, FsInfo, Table, Honoured, SameFront, FreeCount, Fits, Meta, AllSlots, Catalogued, Indexed, Listing,
      Names.Lawful;
    store := null;
    AtRest(last, p);
    StillFormatted(p, last.origin, last.fs.view);
    var res, vol := Mount(last.fs.drive, p, last.fs.chains);
    if res != Ok { return Fail, store; }
    vol.TableEntry(0);
    ShelfMoved(p.Geo(), last.dirs, last.fs.fat, |last.fs.view|, last.fs.winsect, NO_SECTOR);
    store := new Logs(vol, last.places, last.names, last.tail, last.files, last.index, last.dirChain, last.dirs,
                      last.logs, last.receipts);
    code := Success;
  }

  /** A store that has written everything back: what it shows is on the drive. */
  lemma AtRest(s: Logs, p: Plan)
    requires s.Valid() && !s.fs.wflag && s.fs.geo == p.Geo()
    ensures s.fs.drive.sectors == s.fs.view && |s.fs.view| < NO_SECTOR && s.fs.geo.Valid()
    ensures s.fs.Valid() && Shelf(s.fs.geo, s.dirs, s.fs.fat, |s.fs.view|, s.fs.winsect)
    ensures Store(s.fs.geo, s.dirs, s.fs.fat, s.fs.view, s.index, s.places, s.logs)
    ensures WellFormed(s.fs.fat, s.fs.chains) && Accounted(s.fs.chains, s.dirs, s.logs)
    ensures s.DirListed(s.fs.chains) && Honoured(s.logs, s.receipts) && SameFront(s.fs.geo, s.origin, s.fs.view)
    ensures Catalogued(Listing(s.fs.view, s.places), s.files) && Indexed(s.index, s.places, s.files)
    ensures s.names.Lawful()
    ensures Meta(s.fs.geo, s.dirs, NO_SECTOR) && Fits(s.fs.geo, s.fs.view)
    ensures s.fs.fat == Table(s.fs.geo, s.fs.view)
  {
    hide Shelf, Store, Accounted, Logs.DirListed, Honoured, SameFront, WellFormed, Catalogued, Indexed, Listing,
      Names.Lawful;
    s.fs.SyncedMirror();
    s.fs.TableEntry(0);
    assert s.fs.geo.nFats == 1;
  }
}
