/**
 * An open file: a cursor, a current cluster and a private sector buffer over the volume, together standing for a byte
 * sequence. Whole sectors bypass the buffer in both directions.
 */
module FatFile {
  import opened Bytes
  import opened Disk
  import opened FatLayout
  import opened FatTable
  import opened FatChains
  import opened DirEntry
  import opened FatVolume
  import opened FileLayout

  const MAX_SIZE: nat := 0xFFFF_FFFF

  class File {
    const fs: Volume
    const buf: array<byte>
    var readable: bool
    var writable: bool
    var dirty: bool      // FA_DIRTY: buf has to be written back
    var modified: bool   // FA_MODIFIED: the directory entry has to be updated
    var err: FResult     // what made the file object unusable
    var sclust: nat
    var objsize: nat
    var fptr: nat
    var clust: nat
    var sect: nat        // the sector in buf, 0 for none

    /** Where the file's directory entry is. */
    const dirSect: nat
    const dirOfs: nat

    /** The file's clusters in order, and its bytes. */
    ghost var chain: seq<nat>
    ghost var content: seq<byte>
    /** The clusters of directories, which the window may visit. */
    ghost const dirs: set<nat>

    /** Volume, clusters and buffer together hold the content. */
    ghost predicate Core()
      reads this, buf, fs, fs.win, fs.drive
    {
      && fs.Valid() && fs.Tidy() && Listed(fs.chains, chain) && buf != fs.win
      && Placed(fs.geo, dirs, fs.fat, |fs.view|, fs.winsect, chain, sclust)
      && objsize == |content| <= MAX_SIZE
      && Image(fs.geo, chain, fs.view, sect, dirty, buf[..], content)
    }

    /** The current cluster is the one with the file's k-th sector. */
    ghost predicate Here(k: nat)
      reads this
    {
      HasSect(fs.geo, chain, k) && clust == chain[k / fs.geo.csize]
    }

    /** The buffer holds the file's k-th sector. */
    ghost predicate Loaded(k: nat)
      reads this
    {
      Chain(fs.geo, chain) && HasSect(fs.geo, chain, k) && sect == FileSect(fs.geo, chain, k)
    }

    /**
     * The cursor: the current cluster is the one with the byte before fptr, and within a sector buf holds that sector.
     */
    ghost predicate Cursor()
      reads this
    {
      && fptr <= objsize
      && (fptr > 0 ==> Here((fptr - 1) / SS))
      && (fptr % SS != 0 ==> Loaded(fptr / SS))
    }

    ghost predicate Valid()
      reads this, buf, fs, fs.win, fs.drive
    {
      Core() && Cursor()
    }

    /** Only this file has changed on the volume since the old state. */
    twostate predicate OnlyMine()
      reads this, fs
    {
      OnlyFile(fs.geo, old(chain), old(fs.fat), old(fs.view), chain, fs.fat, fs.view)
    }

    /**
     * The end of f_open: a file object for the directory entry (start, size), at the top of the file with nothing
     * buffered.
     */
    constructor Open(vol: Volume, ds: nat, dofs: nat, start: nat, size: nat, read: bool, write: bool, created: bool,
                     ghost ch: seq<nat>, ghost bytes: seq<byte>, ghost dcl: set<nat>)
      requires vol.Valid() && vol.Tidy() && Listed(vol.chains, ch)
      requires Placed(vol.geo, dcl, vol.fat, |vol.view|, vol.winsect, ch, start)
      requires size == |bytes| <= MAX_SIZE && Holds(vol.geo, ch, vol.view, bytes)
      ensures Valid() && fs == vol && chain == ch && content == bytes && dirs == dcl && dirSect == ds && dirOfs == dofs
      ensures fresh(buf)
      ensures fptr == 0 && readable == read && writable == write && modified == created && !dirty && err == Ok
      ensures sect == 0
    {
      fs := vol;
      buf := new byte[SS](_ => 0);
      readable, writable, dirty, modified, err := read, write, false, created, Ok;
      sclust, objsize, fptr, clust, sect := start, size, 0, 0, 0;
      dirSect, dirOfs := ds, dofs;
      chain, content, dirs := ch, bytes, dcl;
    }

    // ---- other open files ----------------------------------------------------------------------------

    /**
     * What another open file of the volume stands for, dirty buffer and all, is not disturbed by reading, writing or
     * seeking in this one, and their clusters stay apart.
     */
    twostate lemma OtherStays(other: File)
      requires other.fs == fs && other.dirs == dirs && old(Valid()) && old(other.Valid())
      requires old(Apart(chain, other.chain))
      requires unchanged(other) && unchanged(other.buf) && Valid() && OnlyMine()
      ensures other.Valid() && Apart(chain, other.chain) && other.content == old(other.content)
    {
      hide Volume.Valid, Image, WellFormed, Geometry.Valid, IsChain, Apart, Listed, Meta, Mine, DataFits, HasSect,
        FileSect;
      OtherPlaced(fs.geo, dirs, old(fs.fat), old(fs.chains), old(chain), fs.fat, fs.chains, chain, |fs.view|,
        old(fs.winsect), fs.winsect, sclust,
                  other.chain, other.sclust);
      assert other.buf[..] == old(other.buf[..]);
      OtherImage(fs.geo, dirs, chain, {}, old(fs.view), fs.view, other.chain, other.sect, other.dirty, other.buf[..],
                 other.content);
    }

    /** Nor by Sync, which changes a directory sector and FSINFO besides. */
    twostate lemma OtherStaysSynced(other: File, tm: nat)
      requires other.fs == fs && other.dirs == dirs && old(Valid()) && old(other.Valid())
      requires old(Apart(chain, other.chain))
      requires unchanged(other) && unchanged(other.buf) && Valid() && Entered(tm) && fs.fat == old(fs.fat)
      requires chain == old(chain)
      requires EntryPlace(fs.geo, dirs, |fs.view|, dirSect, dirOfs) && FsiReserved(fs.geo)
      ensures other.Valid() && Apart(chain, other.chain) && other.content == old(other.content)
    {
      hide Volume.Valid, Image, WellFormed, Geometry.Valid, IsChain, Apart, Listed, Mine, DataFits, HasSect, FileSect,
        OnlyData, Updated;
      SyncedPlaces();
      OtherPlaced(fs.geo, dirs, old(fs.fat), old(fs.chains), old(chain), fs.fat, fs.chains, chain, |fs.view|,
        old(fs.winsect), fs.winsect, sclust,
                  other.chain, other.sclust);
      assert other.buf[..] == old(other.buf[..]);
      OtherImage(fs.geo, dirs, chain, {dirSect, FsiSect(fs.geo)}, old(fs.view), fs.view, other.chain, other.sect,
        other.dirty, other.buf[..],
                 other.content);
    }

    lemma SyncedPlaces()
      requires EntryPlace(fs.geo, dirs, |fs.view|, dirSect, dirOfs) && FsiReserved(fs.geo) && fs.Valid()
      ensures Meta(fs.geo, dirs, dirSect) && Meta(fs.geo, dirs, FsiSect(fs.geo))
    {
    }

    // ---- pieces shared by reading, writing and seeking ---------------------------------------------

    /** Write back the buffer if it is dirty. */
    method Flush() returns (res: FResult)
      requires Core()
      modifies `dirty, fs`view, fs.drive
      ensures fs.drive.faults >= old(fs.drive.faults)
      ensures res == Ok || (res == DiskErr && fs.drive.faults > old(fs.drive.faults))
      ensures res == Ok ==> Core() && !dirty && OnlyMine()
    {
      hide Volume.Valid, Volume.Tidy, Placed, IsChain, Geometry.Valid;
      res := Ok;
      if dirty {
        BufferAway(fs.geo, dirs, fs.fat, fs.view, fs.winsect, chain, sclust, sect, dirty, buf[..], content);
        ImageFlushed(fs.geo, chain, fs.view, sect, buf[..], content);
        hide Image, OnlyFile;
        res := fs.WriteData(sect, 1, buf[..]);
        if res == Ok {
          assert buf[..] == buf[..][0 * SS..(0 + 1) * SS] == fs.view[sect + 0];
          assert fs.view == old(fs.view)[sect := buf[..]];
          dirty := false;
          OnlyOne(fs.geo, chain, fs.fat, old(fs.view), fs.view, sect);
        }
      } else {
        OnlyNone(fs.geo, chain, fs.fat, fs.view);
      }
    }

    /**
     * create_chain behind the i-th cluster of the chain (i = -1: for an empty chain): the next cluster, which may be a
     * free one that now becomes the file's.
     */
    method Follow(c: nat, ghost i: int) returns (clst: nat)
      requires Core() && IthCluster(chain, c, i)
      modifies `sclust, `chain, fs, fs.win, fs.drive
      ensures fs.drive.faults >= old(fs.drive.faults)
      ensures clst == DISK_ERROR ==> fs.drive.faults > old(fs.drive.faults)
      ensures clst != DISK_ERROR ==> Core() && OnlyMine()
      ensures clst != DISK_ERROR && clst >= 2 ==> i + 1 < |chain| && chain[i + 1] == clst
      ensures clst != DISK_ERROR && (clst < 2 || i + 1 < |old(chain)|) ==> chain == old(chain) && fs.fat == old(fs.fat)
      ensures clst < 2 ==> fs.view == old(fs.view) && i + 1 == |chain|
      ensures clst != DISK_ERROR ==> clst < fs.geo.nFatent
      ensures clst == 0 ==> Full(fs.fat)
      ensures clst != 1
    {
      hide Volume.Valid, Volume.Tidy, Listed, WellFormed, Longer, Geometry.Valid, Placed, Image, OnlyFile, IsChain,
        Chain, OffFat, Answer, Takes,
        Linked, IthCluster, Full, Broken, Modulus;
      PlacedFacts();
      TidyFacts();
      ghost var f, v, win, last, m := fs.fat, fs.view, fs.winsect, fs.lastClst, fs.chains;
      clst := fs.CreateChain(c);
      if clst != DISK_ERROR {
        FollowOutcome(fs.geo, dirs, f, v, win, chain, sclust, sect, dirty, buf[..], content, c, i, last, clst, fs.Eoc(),
                      fs.fat, fs.view, fs.winsect);
        FollowListed(f, m, c, i, last, clst, fs.chains);
        Adopt(clst, NextChain(chain, i, clst));
      }
    }

    lemma TidyFacts()
      requires Core()
      ensures WellFormed(fs.fat, fs.chains) && Listed(fs.chains, chain)
    {
    }

    /**
     * What create_chain behind a cluster of the file means for the chains of the volume; on a well-formed table it
     * never answers 1.
     */
    lemma FollowListed(f: seq<nat>, m: Chains, c: nat, i: int, last: nat, clst: nat, n: Chains)
      requires WellFormed(f, m) && IsChain(f, chain) && Listed(m, chain) && IthCluster(chain, c, i)
      requires Answer(f, last, c, clst)
      requires |f| >= 2 && if Takes(f, c, clst) then InRange(f, clst) && Longer(m, c, clst, n) else n == m
      ensures Listed(n, NextChain(chain, i, clst)) && clst != 1 && clst < |f|
    {
      hide WellFormed, Longer, FirstStop;
      if i >= 0 { Used(f, chain, i); }
      if clst <= 1 { SearchFailed(f, last, c, clst); }
      forall d | InRange(f, d) ensures f[d] != 1 { NeverIllegal(f, m, d); }
      if i + 1 == |chain| {
        if clst >= 2 { LinkedListed(f, m, chain, clst, n); }
      } else {
        assert f[chain[i]] == chain[i + 1] && InRange(f, chain[i + 1]);
      }
    }

    /** Recording a cluster create_chain has answered: the first one becomes the file's start. */
    method Adopt(clst: nat, ghost dh: seq<nat>)
      requires fs.Valid() && fs.Tidy() && Listed(fs.chains, dh) && buf != fs.win && objsize == |content| <= MAX_SIZE
      requires Placed(fs.geo, dirs, fs.fat, |fs.view|, fs.winsect, dh,
                      if sclust == 0 && clst >= 2 then clst else sclust)
      requires Image(fs.geo, dh, fs.view, sect, dirty, buf[..], content)
      modifies `sclust, `chain
      ensures Core() && chain == dh
    {
      hide Volume.Valid, Volume.Tidy, Listed, Placed, Image;
      chain := dh;
      if sclust == 0 && clst >= 2 { sclust := clst; }
    }

    lemma BufferSize()
      requires Core()
      ensures buf.Length == SS
    {
    }

    lemma PlacedFacts()
      requires Core()
      ensures fs.geo.Valid() && Chain(fs.geo, chain) && IsChain(fs.fat, chain) && |fs.fat| == fs.geo.nFatent
      ensures fs.geo.csize > 0
      ensures fs.geo.database > 0 && sclust == (if chain == [] then 0 else chain[0])
    {
    }

    /** f_write on a cluster boundary: go to the next cluster of the chain, stretching it if it has ended. */
    method NextForWrite() returns (res: FResult, full: bool)
      requires Core() && Cursor() && fptr % SS == 0 && fs.geo.csize > 0 && fptr / SS % fs.geo.csize == 0
      modifies `clust, `sclust, `chain, fs, fs.win, fs.drive
      ensures fs.drive.faults >= old(fs.drive.faults)
      ensures res == Ok || (res == DiskErr && fs.drive.faults > old(fs.drive.faults))
      ensures res != DiskErr ==> Core() && OnlyMine()
      ensures res == Ok && !full ==> Here(fptr / SS)
      ensures full ==> res == Ok && Full(fs.fat) && Cursor()
    {
      hide Volume.Valid, Volume.Tidy, Placed, Image, OnlyFile, Full;
      PlacedFacts();
      var clst;
      if fptr == 0 {
        clst := sclust;
        OnlyNone(fs.geo, chain, fs.fat, fs.view);
        if clst == 0 {
          clst := Follow(0, -1);
        }
      } else {
        NextCluster(fptr, fs.geo.csize);
        clst := Follow(clust, (fptr - 1) / SS / fs.geo.csize);
      }
      if clst == 0 { return Ok, true; }
      assert clst != 1;  // so the source's exit for a broken table is not taken
      if clst == DISK_ERROR { return DiskErr, false; }
      clust := clst;
      return Ok, false;
    }

    /**
     * disk_write of whole sectors straight from the caller, from the file's k-th sector on; a buffer that holds one of
     * them is refilled.
     */
    method WriteWhole(s: nat, cc: nat, data: seq<byte>, ghost k: nat) returns (res: FResult)
      requires Core() && !dirty && Loadable(k) && s == FileSect(fs.geo, chain, k)
      requires cc > 0 && k % fs.geo.csize + cc <= fs.geo.csize && |data| == cc * SS
      requires fptr == k * SS <= objsize && fptr + |data| <= MAX_SIZE
      modifies `objsize, `content, buf, fs`view, fs.drive
      ensures fs.drive.faults >= old(fs.drive.faults)
      ensures res == Ok || (res == DiskErr && fs.drive.faults > old(fs.drive.faults))
      ensures res == Ok ==> Core() && OnlyMine() && content == Overwrite(old(content), fptr, data)
    {
      hide Volume.Valid, Volume.Tidy, Listed, Chain, HasSect, FileSect, Overwrite, OnlyFile, Placed, Image;
      BufferSize();
      AwayRun(fs.geo, dirs, fs.fat, |fs.view|, fs.winsect, chain, sclust, k, cc);
      Away(fs.geo, dirs, fs.fat, |fs.view|, fs.winsect, chain, sclust, k);
      ghost var v, b := fs.view, buf[..];
      res := fs.WriteData(s, cc, data);
      if res == Ok {
        OnlyRun(fs.geo, chain, fs.fat, v, fs.view, k, cc);
        if s <= sect < s + cc { Refill(cc, data, sect - s); }
        ImageDirect(fs.geo, chain, v, fs.view, sect, b, buf[..], content, k, cc, data);
        Grow(fptr, data);
      }
    }

    /** Sector i of the data goes into the buffer. */
    method Refill(cc: nat, data: seq<byte>, i: nat)
      requires i < cc && |data| == cc * SS && buf.Length == SS
      modifies buf
      ensures buf[..] == data[i * SS..(i + 1) * SS]
    {
      CopyInto(buf, 0, data[i * SS..(i + 1) * SS]);
      assert buf[..] == data[i * SS..(i + 1) * SS];
    }

    /** The file has a k-th sector. */
    ghost predicate Loadable(k: nat)
      reads this
    {
      Chain(fs.geo, chain) && HasSect(fs.geo, chain, k)
    }

    /** The bookkeeping of the for-increment: the size follows the cursor. */
    method Grow(p: nat, data: seq<byte>)
      requires fs.Valid() && fs.Tidy() && Listed(fs.chains, chain) && buf != fs.win && objsize == |content|
      requires p <= objsize && p + |data| <= MAX_SIZE && objsize <= MAX_SIZE
      requires Placed(fs.geo, dirs, fs.fat, |fs.view|, fs.winsect, chain, sclust)
      requires Image(fs.geo, chain, fs.view, sect, dirty, buf[..], Overwrite(content, p, data))
      modifies `objsize, `content
      ensures Core() && content == Overwrite(old(content), p, data)
    {
      hide Volume.Valid, Volume.Tidy, Placed, Image;
      if p + |data| > objsize { objsize := p + |data|; }
      content := Overwrite(content, p, data);
    }

    /** Bring the file's k-th sector into the buffer unless it is there already. */
    method Load(s: nat, ghost k: nat) returns (res: FResult)
      requires Core() && Loadable(k) && s == FileSect(fs.geo, chain, k)
      modifies `dirty, `sect, buf, fs`view, fs.drive
      ensures fs.drive.faults >= old(fs.drive.faults)
      ensures res == Ok || (res == DiskErr && fs.drive.faults > old(fs.drive.faults))
      ensures res == Ok ==> Core() && OnlyMine() && sect == s && (old(!dirty) ==> !dirty)
    {
      hide Volume.Valid, Volume.Tidy, IsChain, Geometry.Valid, Image, OnlyFile;
      res := Ok;
      if sect != s {
        res := Flush();
        if res == Ok {
          res := Fill(s, k);
        }
      } else {
        PlacedFacts();
        OnlyNone(fs.geo, chain, fs.fat, fs.view);
      }
    }

    /** disk_read of a sector of the file into a clean buffer. */
    method Fill(s: nat, ghost k: nat) returns (res: FResult)
      requires Core() && Loadable(k) && s == FileSect(fs.geo, chain, k) && !dirty
      modifies `sect, buf, fs.drive`faults
      ensures fs.drive.faults >= old(fs.drive.faults)
      ensures res == Ok || (res == DiskErr && fs.drive.faults > old(fs.drive.faults))
      ensures res == Ok ==> Core() && sect == s
    {
      hide Volume.Valid, Volume.Tidy, IsChain, Geometry.Valid, Placed, Image;
      BufferSize();
      Away(fs.geo, dirs, fs.fat, |fs.view|, fs.winsect, chain, sclust, k);
      PlacedFacts();
      ImageLoaded(fs.geo, chain, fs.view, sect, buf[..], content, k);
      var data;
      res, data := fs.ReadData(s, 1);
      if res == Ok {
        assert data == data[0 * SS..(0 + 1) * SS] == fs.view[s + 0];
      }
      forall j | 0 <= j < SS { buf[j] := data[j]; }
      assert buf[..] == data;
      sect := s;
    }

    /**
     * Put bytes into the buffer at place off of the file's k-th sector; at the growing edge the sector was not read
     * before.
     */
    method StorePart(s: nat, off: nat, data: seq<byte>, ghost k: nat)
      requires Core() && Loadable(k) && s == FileSect(fs.geo, chain, k)
      requires sect == s || (!dirty && k * SS == objsize)
      requires data != [] && off + |data| <= SS && fptr == k * SS + off <= objsize && fptr + |data| <= MAX_SIZE
      modifies `sect, `dirty, `objsize, `content, buf
      ensures Core() && sect == s && content == Overwrite(old(content), fptr, data)
    {
      hide Volume.Valid, Volume.Tidy, IsChain, Geometry.Valid, Overwrite, Splice, Placed, Image;
      PlacedFacts();
      ImagePatched(fs.geo, chain, fs.view, sect, dirty, buf[..], content, k, off, data);
      CopyInto(buf, off, data);
      sect := s;
      dirty := true;
      Grow(fptr, data);
    }

    /** The cursor moves on by n bytes. */
    method Move(n: nat)
      requires Core() && n > 0 && fptr + n <= objsize && Here((fptr + n - 1) / SS)
      requires (fptr + n) % SS != 0 ==> Loaded((fptr + n) / SS)
      modifies `fptr
      ensures Valid() && fptr == old(fptr) + n
    {
      hide Volume.Valid, Volume.Tidy, Placed, Image;
      fptr := fptr + n;
    }

    /** One pass of f_write's loop from within a sector: the rest of the sector, or what is left. */
    method WriteMiddle(data: seq<byte>) returns (n: nat)
      requires Valid() && fptr % SS != 0 && data != [] && fptr + |data| <= MAX_SIZE
      modifies `fptr, `sect, `dirty, `objsize, `content, buf
      ensures Valid() && 0 < n <= |data|
      ensures content == Overwrite(old(content), old(fptr), data[..n]) && fptr == old(fptr) + n
    {
      hide Volume.Valid, Volume.Tidy, Placed, Image, Overwrite, Core, Listed, FileSect, HasSect, Chain;
      ValidFacts();
      n := if SS - fptr % SS > |data| then |data| else SS - fptr % SS;
      SameSector(fptr, n);
      StorePart(sect, fptr % SS, data[..n], fptr / SS);
      CoreFacts();
      Move(n);
    }

    /** f_write on a sector boundary with at least a sector to write: as many whole sectors as the cluster takes. */
    method WriteDirect(s: nat, csect: nat, data: seq<byte>) returns (res: FResult, n: nat)
      requires Core() && !dirty && AtSector(s, csect) && |data| >= SS && fptr + |data| <= MAX_SIZE
      modifies `fptr, `objsize, `content, buf, fs`view, fs.drive
      ensures fs.drive.faults >= old(fs.drive.faults)
      ensures res == Ok || (res == DiskErr && fs.drive.faults > old(fs.drive.faults))
      ensures res == Ok ==> Valid() && OnlyMine() && 0 < n <= |data|
      ensures res == Ok ==> content == Overwrite(old(content), old(fptr), data[..n]) && fptr == old(fptr) + n
    {
      hide Volume.Valid, Volume.Tidy, Placed, Image, OnlyFile, Overwrite, IsChain, Geometry.Valid;
      var cc := |data| / SS;
      if csect + cc > fs.geo.csize { cc := fs.geo.csize - csect; }
      n := cc * SS;
      res := WriteWhole(s, cc, data[..n], fptr / SS);
      if res == Ok {
        LastOfRun(fptr / SS, cc);
        Move(n);
      }
    }

    /**
     * f_write on a sector boundary with less than a sector to write: into the buffer, after reading the sector unless
     * the file ends here.
     */
    method WriteBuffered(s: nat, csect: nat, data: seq<byte>) returns (res: FResult)
      requires Core() && !dirty && AtSector(s, csect) && 0 < |data| < SS && fptr + |data| <= MAX_SIZE
      modifies `fptr, `sect, `dirty, `objsize, `content, buf, fs`view, fs.drive
      ensures fs.drive.faults >= old(fs.drive.faults)
      ensures res == Ok || (res == DiskErr && fs.drive.faults > old(fs.drive.faults))
      ensures res == Ok ==> Valid() && OnlyMine()
      ensures res == Ok ==> content == Overwrite(old(content), old(fptr), data) && fptr == old(fptr) + |data|
    {
      hide Volume.Valid, Volume.Tidy, Placed, Image, OnlyFile, Overwrite, IsChain, Geometry.Valid, Core, FileSect;
      CoreFacts();
      res := Ok;
      if fptr < objsize {
        res := Load(s, fptr / SS);
        if res != Ok { return; }
      } else {
        PlacedFacts();
        OnlyNone(fs.geo, chain, fs.fat, fs.view);
      }
      StorePart(s, 0, data, fptr / SS);
      CoreFacts();
      Move(|data|);
    }

    /** The cursor is on a sector boundary, clust is the cluster there and s the sector, the csect-th of the cluster. */
    ghost predicate AtSector(s: nat, csect: nat)
      reads this
    {
      && fptr % SS == 0 && fptr <= objsize
      && Loadable(fptr / SS) && Here(fptr / SS)
      && csect == fptr / SS % fs.geo.csize && s == FileSect(fs.geo, chain, fptr / SS)
    }

    /** The sector at the cursor, from the current cluster. */
    method Locate() returns (s: nat, csect: nat)
      requires Core() && fptr % SS == 0 && fptr <= objsize && Here(fptr / SS)
      ensures AtSector(s, csect)
    {
      hide Volume.Valid, Volume.Tidy, Placed, Image, IsChain, Geometry.Valid, HasSect, Volume.Clust2Sect;
      PlacedFacts();
      csect := fptr / SS % fs.geo.csize;
      SectorNumber(fptr / SS);
      s := fs.Clust2Sect(clust);
      assert s != 0;  // so the source's exit for an invalid cluster is not taken
      s := s + csect;
    }

    /** clust2sect of the current cluster, plus the offset in it, is the file's k-th sector. */
    lemma SectorNumber(k: nat)
      requires Chain(fs.geo, chain) && Here(k) && fs.geo.database > 0
      ensures fs.Clust2Sect(clust) > 0 && fs.Clust2Sect(clust) + k % fs.geo.csize == FileSect(fs.geo, chain, k)
    {
    }

    /** The rest of a pass of f_write's loop on a sector boundary, once the current cluster is the right one. */
    method WriteSector(data: seq<byte>) returns (res: FResult, n: nat)
      requires Core() && fptr % SS == 0 && fptr <= objsize && Here(fptr / SS) && data != [] && fptr + |data| <= MAX_SIZE
      modifies `fptr, `sect, `dirty, `objsize, `content, buf, fs`view, fs.drive
      ensures fs.drive.faults >= old(fs.drive.faults)
      ensures res == Ok || (res == DiskErr && fs.drive.faults > old(fs.drive.faults))
      ensures res == Ok ==> Valid() && OnlyMine() && 0 < n <= |data|
      ensures res == Ok ==> content == Overwrite(old(content), old(fptr), data[..n]) && fptr == old(fptr) + n
    {
      hide Volume.Valid, Volume.Tidy, Placed, Image, OnlyFile, Overwrite, IsChain, Geometry.Valid, HasSect, FileSect;
      n := 0;
      PlacedFacts();
      ghost var v := fs.view;
      res := Flush();
      if res != Ok { return; }
      ghost var v1 := fs.view;
      var s, csect := Locate();
      if |data| / SS > 0 {
        res, n := WriteDirect(s, csect, data);
      } else {
        assert data[..|data|] == data;
        n := |data|;
        res := WriteBuffered(s, csect, data);
      }
      if res == Ok {
        OnlyFileTrans(fs.geo, chain, fs.fat, v, chain, fs.fat, v1, chain, fs.fat, fs.view);
      }
    }

    /** After cc sectors of one cluster the byte before the cursor is still in it. */
    lemma LastOfRun(k: nat, cc: nat)
      requires Here(k) && cc > 0 && k % fs.geo.csize + cc <= fs.geo.csize
      ensures Here((k * SS + cc * SS - 1) / SS) && (k * SS + cc * SS) % SS == 0
    {
      DivStay(k, cc - 1, fs.geo.csize);
      assert (k * SS + cc * SS - 1) / SS == k + cc - 1;
    }

    /** The current cluster becomes the one with the sector at the cursor, if there is or can be one. */
    method Reach() returns (res: FResult, full: bool)
      requires Valid() && fptr % SS == 0
      modifies `clust, `sclust, `chain, fs, fs.win, fs.drive
      ensures fs.drive.faults >= old(fs.drive.faults)
      ensures res == Ok || (res == DiskErr && fs.drive.faults > old(fs.drive.faults))
      ensures res == Ok ==> Core() && OnlyMine()
      ensures res == Ok && !full ==> Here(fptr / SS)
      ensures res == Ok && full ==> Cursor() && Full(fs.fat)
    {
      hide Volume.Valid, Volume.Tidy, Placed, Image, OnlyFile, IsChain, Geometry.Valid, FileSect, Full;
      PlacedFacts();
      if fptr / SS % fs.geo.csize == 0 {
        res, full := NextForWrite();
      } else {
        SameCluster(fptr, fs.geo.csize);
        OnlyNone(fs.geo, chain, fs.fat, fs.view);
        res, full := Ok, false;
      }
    }

    /** One pass of f_write's loop; n = 0 means the volume is full. */
    method WriteStep(data: seq<byte>) returns (res: FResult, n: nat)
      requires Valid() && data != [] && fptr + |data| <= MAX_SIZE
      modifies `fptr, `clust, `sclust, `chain, `sect, `dirty, `objsize, `content, buf, fs, fs.win, fs.drive
      ensures fs.drive.faults >= old(fs.drive.faults)
      ensures res == Ok || (res == DiskErr && fs.drive.faults > old(fs.drive.faults))
      ensures res == Ok ==> Valid() && OnlyMine() && n <= |data|
      ensures res == Ok ==> content == Overwrite(old(content), old(fptr), data[..n]) && fptr == old(fptr) + n
      ensures res == Ok && n == 0 ==> Full(fs.fat)
    {
      hide Volume.Valid, Volume.Tidy, Placed, Image, OnlyFile, Overwrite, IsChain, Geometry.Valid, FileSect, Full, Core,
        Cursor;
      ghost var ch, f, v := chain, fs.fat, fs.view;
      ValidFacts();
      if fptr % SS != 0 {
        OnlyNone(fs.geo, ch, f, v);
        n := WriteMiddle(data);
        return Ok, n;
      }
      var full;
      n := 0;
      res, full := Reach();
      if res != Ok { return; }
      if full {
        OverwriteNothing(content, fptr);
        assert data[..0] == [];
        return;
      }
      ghost var ch1, f1, v1 := chain, fs.fat, fs.view;
      res, n := WriteSector(data);
      if res == Ok {
        OnlyFileTrans(fs.geo, ch, f, v, ch1, f1, v1, ch1, f1, fs.view);
      }
    }

    /** The loop of f_write. */
    method WriteLoop(data: seq<byte>) returns (res: FResult, bw: nat)
      requires Valid() && fptr + |data| <= MAX_SIZE
      modifies `fptr, `clust, `sclust, `chain, `sect, `dirty, `objsize, `content, buf, fs, fs.win, fs.drive
      ensures fs.drive.faults >= old(fs.drive.faults)
      ensures res == Ok || (res == DiskErr && fs.drive.faults > old(fs.drive.faults))
      ensures res == Ok ==> Valid() && OnlyMine() && bw <= |data|
      ensures res == Ok ==> content == Overwrite(old(content), old(fptr), data[..bw]) && fptr == old(fptr) + bw
      ensures res == Ok && bw < |data| ==> Full(fs.fat)
    {
      hide Volume.Valid, Volume.Tidy, Placed, Image, OnlyFile, Overwrite, IsChain, Geometry.Valid, FileSect, Full,
        HasSect, Cursor, Core;
      res, bw := Ok, 0;
      ghost var p, c0 := fptr, content;
      ghost var ch, f, v := chain, fs.fat, fs.view;
      ValidFacts();
      OnlyNone(fs.geo, chain, f, v);
      OverwriteNothing(content, p);
      assert data[..0] == [];
      while bw < |data|
        invariant Valid() && OnlyFile(fs.geo, ch, f, v, chain, fs.fat, fs.view)
        invariant fs.drive.faults >= old(fs.drive.faults)
        invariant bw <= |data| && fptr == p + bw && p <= |c0| && res == Ok
        invariant content == Overwrite(c0, p, data[..bw])
      {
        ghost var ch1, f1, v1 := chain, fs.fat, fs.view;
        var n;
        res, n := WriteStep(data[bw..]);
        if res != Ok { return; }
        OnlyFileTrans(fs.geo, ch, f, v, ch1, f1, v1, chain, fs.fat, fs.view);
        OverwriteTwice(c0, p, data[..bw], data[bw..][..n]);
        assert data[..bw] + data[bw..][..n] == data[..bw + n];
        bw := bw + n;
        if n == 0 { return; }
      }
    }

    lemma ValidFacts()
      requires Valid()
      ensures Chain(fs.geo, chain) && fptr <= objsize == |content| <= MAX_SIZE && Core()
    {
    }

    /**
     * f_write. On success the bytes reported as written, and no others, have replaced what was at the cursor, the file
     * growing if they reach past its end; all are written unless the volume is full or the size would pass 4 GiB - 1.
     */
    method Write(data: seq<byte>) returns (res: FResult, bw: nat)
      requires Valid() && |data| <= 0xFFFF_FFFF
      modifies this, buf, fs, fs.win, fs.drive
      ensures fs.drive.faults >= old(fs.drive.faults)
      ensures old(err) != Ok ==> res == old(err)
      ensures old(err) == Ok && !old(writable) ==> res == Denied
      ensures old(err) == Ok && old(writable) ==>
        res == err && (res == Ok || (res == DiskErr && fs.drive.faults > old(fs.drive.faults)))
      ensures old(err) != Ok || !old(writable) ==> Valid() && content == old(content) && fptr == old(fptr) && bw == 0
      ensures res == Ok ==> Valid() && OnlyMine() && modified && bw <= |data|
      ensures res == Ok ==> content == Overwrite(old(content), old(fptr), data[..bw]) && fptr == old(fptr) + bw
      ensures res == Ok && bw < |data| ==> Full(fs.fat) || fptr == MAX_SIZE
      ensures readable == old(readable) && writable == old(writable)
    {
      hide Volume.Valid, Volume.Tidy, Placed, Image, OnlyFile, Overwrite, IsChain, Geometry.Valid, FileSect, Full,
        HasSect, Cursor, Core;
      bw := 0;
      if err != Ok { return err, 0; }
      if !writable { return Denied, 0; }
      ValidFacts();
      var btw := |data|;
      if (fptr + btw) % 0x1_0000_0000 < fptr { btw := MAX_SIZE - fptr; }
      res, bw := WriteLoop(data[..btw]);
      if res == Ok {
        assert data[..btw][..bw] == data[..bw];
        SetModified();
      } else {
        err := res;
      }
    }

    /** Set FA_MODIFIED. */
    method SetModified()
      requires Valid()
      modifies `modified
      ensures Valid() && modified
    {
      hide Volume.Valid, Volume.Tidy, Placed, Image;
      modified := true;
    }

    // ---- reading -----------------------------------------------------------------------------------

    /** f_read on a cluster boundary: follow the chain by one cluster. */
    method NextForRead() returns (res: FResult)
      requires fptr % SS == 0 && fs.geo.csize > 0 && fptr / SS % fs.geo.csize == 0
      requires Core() && Cursor() && fptr < objsize
      modifies `clust, fs`winsect, fs`wflag, fs.win, fs.drive
      ensures fs.drive.faults >= old(fs.drive.faults)
      ensures res == Ok || (res == DiskErr && fs.drive.faults > old(fs.drive.faults))
      ensures res == Ok ==> Core() && Here(fptr / SS)
      ensures old(!fs.wflag) ==> !fs.wflag
    {
      hide Volume.Valid, Volume.Tidy, Placed, Image, IsChain, Geometry.Valid, FileSect, Cursor, Core, Listed, Chain;
      NextExists();
      PlacedFacts();
      HasFirst();
      if fptr == 0 {
        assert sclust >= 2;  // so the source's exit for a broken chain is not taken
        GoTo(sclust, 0);
        return Ok;
      }
      ghost var i := NextIndex();
      var clst := LinkAfter(clust, i);
      if clst == DISK_ERROR { return DiskErr; }
      GoTo(clst, fptr / SS);
      return Ok;
    }

    lemma NextIndex() returns (i: nat)
      requires fptr % SS == 0 && fs.geo.csize > 0 && fptr / SS % fs.geo.csize == 0
      requires Core() && Cursor() && 0 < fptr < objsize
      ensures i + 1 < |chain| && clust == chain[i] && i + 1 == fptr / SS / fs.geo.csize
      ensures HasSect(fs.geo, chain, fptr / SS)
    {
      hide Core, FileSect, Chain, Loaded, HasSect, Here, Cursor;
      NextExists();
      HereFacts();
      NextCluster(fptr, fs.geo.csize);
      i := (fptr - 1) / SS / fs.geo.csize;
    }

    lemma HereFacts()
      requires fs.geo.csize > 0 && fptr > 0
      requires Cursor()
      ensures (fptr - 1) / SS / fs.geo.csize < |chain| && clust == chain[(fptr - 1) / SS / fs.geo.csize]
      ensures HasSect(fs.geo, chain, fptr / SS) ==> fptr / SS / fs.geo.csize < |chain|
    {
    }

    /** Make c the current cluster. */
    method GoTo(c: nat, ghost k: nat)
      requires HasSect(fs.geo, chain, k) && c == chain[k / fs.geo.csize]
      requires Core()
      modifies `clust
      ensures Core() && Here(k)
    {
      hide Volume.Valid, Volume.Tidy, Placed, Image;
      clust := c;
    }

    /** get_fat of a cluster of the chain that is not the last. */
    method LinkAfter(c: nat, ghost i: nat) returns (clst: nat)
      requires Core() && i + 1 < |chain| && c == chain[i]
      modifies fs`winsect, fs`wflag, fs.win, fs.drive
      ensures fs.drive.faults >= old(fs.drive.faults) && Core()
      ensures (clst == DISK_ERROR && fs.drive.faults > old(fs.drive.faults))
        || (clst == chain[i + 1] && 2 <= clst < fs.geo.nFatent < DISK_ERROR)
      ensures old(!fs.wflag) ==> !fs.wflag
    {
      hide Volume.Valid, Volume.Tidy, Placed, Image, IsChain, Geometry.Valid;
      PlacedFacts();
      ghost var win := fs.winsect;
      ChainLink(fs.geo, fs.fat, chain, i);
      clst := fs.GetFat(c);
      PlacedMoved(fs.geo, dirs, fs.fat, |fs.view|, win, chain, sclust, fs.winsect);
    }

    lemma NextExists()
      requires Core() && fptr < objsize
      ensures HasSect(fs.geo, chain, fptr / SS)
    {
      SectExists(fptr);
    }

    /** disk_read of whole sectors straight to the caller; a dirty buffer that holds one of them is laid over. */
    method ReadWhole(s: nat, cc: nat, ghost k: nat) returns (res: FResult, data: seq<byte>)
      requires Core() && Loadable(k) && s == FileSect(fs.geo, chain, k)
      requires cc > 0 && k % fs.geo.csize + cc <= fs.geo.csize && fptr == k * SS && fptr + cc * SS <= objsize
      modifies fs.drive`faults
      ensures Core() && fs.drive.faults >= old(fs.drive.faults)
      ensures res == Ok || (res == DiskErr && fs.drive.faults > old(fs.drive.faults))
      ensures res == Ok ==> data == content[fptr..fptr + cc * SS]
    {
      hide Volume.Valid, Volume.Tidy, Listed, IsChain, Geometry.Valid, Placed, Image, HasSect, FileSect, DataFits,
        Chain;
      PlacedFacts();
      BufferSize();
      AwayRun(fs.geo, dirs, fs.fat, |fs.view|, fs.winsect, chain, sclust, k, cc);
      Away(fs.geo, dirs, fs.fat, |fs.view|, fs.winsect, chain, sclust, k);
      ghost var raw;
      res, data := fs.ReadData(s, cc);
      raw := data;
      if dirty && s <= sect < s + cc {
        data := Splice(data, (sect - s) * SS, buf[..]);
      }
      if res == Ok {
        ImageRun(fs.geo, chain, fs.view, sect, dirty, buf[..], content, k, cc, raw);
      }
    }

    /** The bytes at the cursor, from the buffer. */
    method ReadPart(n: nat) returns (data: seq<byte>)
      requires Core() && Loaded(fptr / SS) && fptr % SS + n <= SS && fptr + n <= objsize
      ensures data == content[fptr..fptr + n]
    {
      hide Volume.Valid, Volume.Tidy, IsChain, Geometry.Valid;
      PlacedFacts();
      FileSectBound(fs.geo, |fs.view|, chain, fptr / SS);
      ImagePart(fs.geo, chain, fs.view, sect, dirty, buf[..], content, fptr / SS, fptr % SS, n);
      data := buf[fptr % SS..fptr % SS + n];
    }

    /** The rest of a pass of f_read's loop on a sector boundary. */
    method ReadSector(btr: nat) returns (res: FResult, data: seq<byte>)
      requires Core() && fptr % SS == 0 && Here(fptr / SS) && 0 < btr && fptr + btr <= objsize
      modifies `fptr, `sect, `dirty, buf, fs`view, fs.drive
      ensures fs.drive.faults >= old(fs.drive.faults)
      ensures res == Ok || (res == DiskErr && fs.drive.faults > old(fs.drive.faults))
      ensures res == Ok ==> Valid() && OnlyMine() && 0 < |data| <= btr
      ensures res == Ok && old(!dirty) ==> !dirty
      ensures res == Ok ==> fptr == old(fptr) + |data| <= |content| && data == content[old(fptr)..fptr]
    {
      hide Volume.Valid, Volume.Tidy, Placed, Image, OnlyFile, IsChain, Geometry.Valid, HasSect, FileSect, Core, Chain,
        Cursor, Listed;
      data := [];
      PlacedFacts();
      CoreFacts();
      var s, csect := Locate();
      if btr / SS > 0 {
        OnlyNone(fs.geo, chain, fs.fat, fs.view);
        res, data := ReadDirect(s, csect, btr);
      } else {
        res := Load(s, fptr / SS);
        if res == Ok {
          data := ReadPart(btr);
          Move(btr);
        }
      }
    }

    /** f_read on a sector boundary with at least a sector to read: as many whole sectors as the cluster has. */
    method ReadDirect(s: nat, csect: nat, btr: nat) returns (res: FResult, data: seq<byte>)
      requires Core() && AtSector(s, csect) && SS <= btr && fptr + btr <= objsize
      modifies `fptr, fs.drive`faults
      ensures fs.drive.faults >= old(fs.drive.faults)
      ensures res == Ok || (res == DiskErr && fs.drive.faults > old(fs.drive.faults))
      ensures res == Ok ==> Valid() && 0 < |data| <= btr
      ensures res == Ok ==> fptr == old(fptr) + |data| <= |content| && data == content[old(fptr)..fptr]
    {
      hide Volume.Valid, Volume.Tidy, Placed, Image, OnlyFile, IsChain, Geometry.Valid;
      var cc := btr / SS;
      if csect + cc > fs.geo.csize { cc := fs.geo.csize - csect; }
      res, data := ReadWhole(s, cc, fptr / SS);
      if res == Ok {
        LastOfRun(fptr / SS, cc);
        Move(cc * SS);
      }
    }

    /** From within a sector, the bytes up to its end are in it. */
    lemma SameSector(p: nat, n: nat)
      requires p % SS != 0 && 0 < n <= SS - p % SS
      ensures (p + n - 1) / SS == p / SS == (p - 1) / SS && ((p + n) % SS != 0 ==> (p + n) / SS == p / SS)
    {
    }

    /** One pass of f_read's loop from within a sector: the rest of the sector, or what is wanted. */
    method ReadMiddle(btr: nat) returns (data: seq<byte>)
      requires Valid() && fptr % SS != 0 && 0 < btr && fptr + btr <= objsize
      modifies `fptr
      ensures Valid() && 0 < |data| <= btr
      ensures fptr == old(fptr) + |data| <= |content| && data == content[old(fptr)..fptr]
    {
      hide Volume.Valid, Volume.Tidy, Placed, Image, FileSect, Chain, Listed, HasSect, Core;
      ValidFacts();
      var n := if SS - fptr % SS > btr then btr else SS - fptr % SS;
      SameSector(fptr, n);
      data := ReadPart(n);
      Move(n);
    }

    /** One pass of f_read's loop. */
    method ReadStep(btr: nat) returns (res: FResult, data: seq<byte>)
      requires Valid() && 0 < btr && fptr + btr <= objsize
      modifies `fptr, `clust, `sect, `dirty, buf, fs`winsect, fs`wflag, fs`view, fs.win, fs.drive
      ensures fs.drive.faults >= old(fs.drive.faults)
      ensures res == Ok || (res == DiskErr && fs.drive.faults > old(fs.drive.faults))
      ensures res == Ok ==> Valid() && OnlyMine() && 0 < |data| <= btr
      ensures res == Ok && old(!dirty) ==> !dirty
      ensures res == Ok ==> fptr == old(fptr) + |data| <= |content| && data == content[old(fptr)..fptr]
      ensures old(!fs.wflag) ==> !fs.wflag
    {
      hide Volume.Valid, Volume.Tidy, Placed, Image, OnlyFile, IsChain, Geometry.Valid, FileSect, Core, Chain, Cursor,
        HasSect, Here;
      PlacedFacts();
      ReadFacts();
      res, data := Ok, [];
      if fptr % SS != 0 {
        OnlyNone(fs.geo, chain, fs.fat, fs.view);
        data := ReadMiddle(btr);
        return;
      }
      if fptr / SS % fs.geo.csize == 0 {
        res := NextForRead();
        if res != Ok { return; }
      } else {
        StillHere();
      }
      res, data := ReadSector(btr);
    }

    lemma ReadFacts()
      requires Valid()
      ensures Core() && Cursor() && fptr <= objsize
    {
    }

    /** Within a cluster the current one is that of the next byte, too. */
    lemma StillHere()
      requires Cursor() && fs.geo.csize > 0 && fptr % SS == 0 && fptr / SS % fs.geo.csize != 0
      ensures Here(fptr / SS)
    {
      hide FileSect, Chain;
      SameCluster(fptr, fs.geo.csize);
    }

    /** The loop of f_read. */
    method ReadLoop(btr: nat) returns (res: FResult, data: seq<byte>)
      requires Valid() && fptr + btr <= objsize
      modifies `fptr, `clust, `sect, `dirty, buf, fs`winsect, fs`wflag, fs`view, fs.win, fs.drive
      ensures fs.drive.faults >= old(fs.drive.faults)
      ensures res == Ok || (res == DiskErr && fs.drive.faults > old(fs.drive.faults))
      ensures res == Ok ==> Valid() && OnlyMine()
      ensures res == Ok && old(!dirty) ==> !dirty
      ensures res == Ok ==> |data| == btr && fptr == old(fptr) + btr <= |content| && data == content[old(fptr)..fptr]
      ensures old(!fs.wflag) ==> !fs.wflag
    {
      hide Volume.Valid, Volume.Tidy, Placed, Image, OnlyFile, IsChain, Geometry.Valid, FileSect, HasSect, Cursor, Core;
      res, data := Ok, [];
      ghost var p, v := fptr, fs.view;
      ValidFacts();
      OnlyNone(fs.geo, chain, fs.fat, v);
      while |data| < btr
        invariant Valid() && OnlyFile(fs.geo, chain, fs.fat, v, chain, fs.fat, fs.view)
        invariant fs.drive.faults >= old(fs.drive.faults)
        invariant |data| <= btr && fptr == p + |data| && p + btr <= objsize == |content| && res == Ok
        invariant data == content[p..fptr] && (old(!dirty) ==> !dirty) && (old(!fs.wflag) ==> !fs.wflag)
      {
        ghost var v1 := fs.view;
        var part;
        res, part := ReadStep(btr - |data|);
        if res != Ok { return; }
        OnlyFileTrans(fs.geo, chain, fs.fat, v, chain, fs.fat, v1, chain, fs.fat, fs.view);
        assert content[p..fptr] == content[p..p + |data|] + content[p + |data|..fptr];
        data := data + part;
      }
    }

    /** f_read: the bytes at the cursor, cut at the end of the file. */
    method Read(btr: nat) returns (res: FResult, data: seq<byte>)
      requires Valid()
      modifies `fptr, `clust, `sect, `dirty, `err, buf, fs`winsect, fs`wflag, fs`view, fs.win, fs.drive
      ensures fs.drive.faults >= old(fs.drive.faults)
      ensures old(err) != Ok ==> res == old(err)
      ensures old(err) == Ok && !readable ==> res == Denied
      ensures old(err) == Ok && readable ==>
        res == err && (res == Ok || (res == DiskErr && fs.drive.faults > old(fs.drive.faults)))
      ensures old(err) != Ok || !readable ==> Valid() && fptr == old(fptr) && data == []
      ensures res == Ok ==> Valid() && OnlyMine() && old(fptr) <= |content|
      ensures res == Ok && old(!dirty) ==> !dirty
      ensures res == Ok ==> |data| == (if btr < |content| - old(fptr) then btr else |content| - old(fptr))
      ensures res == Ok ==> fptr == old(fptr) + |data| && data == content[old(fptr)..old(fptr) + |data|]
      ensures old(!fs.wflag) ==> !fs.wflag
    {
      hide Volume.Valid, Volume.Tidy, Placed, Image, OnlyFile, IsChain, Geometry.Valid, FileSect, HasSect, Cursor, Core;
      data := [];
      if err != Ok { return err, []; }
      if !readable { return Denied, []; }
      ValidFacts();
      var remain := objsize - fptr;
      res, data := ReadLoop(if btr > remain then remain else btr);
      if res != Ok { err := res; }
    }

    // ---- seeking -----------------------------------------------------------------------------------

    /** pos is the first byte of cluster c of the chain. */
    ghost predicate ClusterAt(pos: nat, c: nat)
      reads this
    {
      && fs.geo.csize > 0 && pos % SS == 0 && pos / SS % fs.geo.csize == 0
      && pos / SS / fs.geo.csize < |chain| && c == chain[pos / SS / fs.geo.csize]
    }

    /** The cluster at pos is not the last. */
    ghost predicate MoreAfter(pos: nat)
      reads this
    {
      fs.geo.csize > 0 && pos / SS / fs.geo.csize + 1 < |chain|
    }

    lemma RoomAfter(pos: nat, rem: nat, c: nat)
      requires ClusterAt(pos, c) && rem > SS * fs.geo.csize && pos + rem <= objsize
      requires Core()
      ensures MoreAfter(pos)
    {
      hide Core, FileSect;
      SectExists(pos + SS * fs.geo.csize);
      NextAligned(pos, fs.geo.csize);
    }

    lemma SectExists(pos: nat)
      requires Core() && pos < objsize
      ensures HasSect(fs.geo, chain, pos / SS)
    {
      CoversSect(fs.geo, chain, |content|, pos);
    }

    /** pos is the end of the chain's last cluster, which is the current one. */
    ghost predicate AtEnd(pos: nat)
      reads this
    {
      && fs.geo.csize > 0 && pos > 0 && pos % SS == 0 && pos / SS % fs.geo.csize == 0
      && pos / SS / fs.geo.csize == |chain| && clust == Tail(chain)
    }

    /** The next cluster for f_lseek: a writable file stretches its chain, any other only follows it. */
    method SeekNext(ghost i: nat) returns (clst: nat)
      requires i < |chain| && clust == chain[i] && (writable || i + 1 < |chain|)
      requires Core()
      modifies `sclust, `chain, fs, fs.win, fs.drive
      ensures fs.drive.faults >= old(fs.drive.faults)
      ensures clst == DISK_ERROR ==> fs.drive.faults > old(fs.drive.faults)
      ensures clst != DISK_ERROR ==> Core() && OnlyMine() && clst < fs.geo.nFatent
      ensures clst != DISK_ERROR && clst >= 2 ==> i + 1 < |chain| && chain[i + 1] == clst
      ensures clst != DISK_ERROR && (clst < 2 || i + 1 < |old(chain)|) ==> chain == old(chain) && fs.fat == old(fs.fat)
      ensures clst < 2 ==> i + 1 == |chain|
      ensures clst == 0 ==> Full(fs.fat)
      ensures clst != 1
      ensures !old(writable) && old(!fs.wflag) ==> !fs.wflag
    {
      hide Volume.Valid, Volume.Tidy, Placed, Image, OnlyFile, IsChain, Geometry.Valid, Full;
      if writable {
        clst := Follow(clust, i);
      } else {
        PlacedFacts();
        OnlyNone(fs.geo, chain, fs.fat, fs.view);
        clst := LinkAfter(clust, i);
      }
    }

    lemma NextAt(pos: nat, c: nat, next: nat)
      requires ClusterAt(pos, c)
      requires pos / SS / fs.geo.csize + 1 < |chain| && next == chain[pos / SS / fs.geo.csize + 1]
      ensures ClusterAt(pos + SS * fs.geo.csize, next)
    {
      NextAligned(pos, fs.geo.csize);
    }

    /** One step of f_lseek's loop, of one cluster; full when the chain has ended and could not be stretched. */
    method SeekStep(pos: nat) returns (res: FResult, full: bool)
      requires ClusterAt(pos, clust) && (writable || pos / SS / fs.geo.csize + 1 < |chain|)
      requires Core()
      modifies `clust, `sclust, `chain, fs, fs.win, fs.drive
      ensures fs.drive.faults >= old(fs.drive.faults)
      ensures res == Ok || (res == DiskErr && fs.drive.faults > old(fs.drive.faults))
      ensures res == Ok ==> Core() && OnlyMine()
      ensures res == Ok && pos / SS / fs.geo.csize + 1 < |old(chain)| ==>
        chain == old(chain) && fs.fat == old(fs.fat) && !full
      ensures res == Ok ==>
        if full then Full(fs.fat) && AtEnd(pos + SS * fs.geo.csize) else ClusterAt(pos + SS * fs.geo.csize, clust)
      ensures !old(writable) && old(!fs.wflag) ==> !fs.wflag
    {
      hide Volume.Valid, Volume.Tidy, Placed, Image, OnlyFile, IsChain, Geometry.Valid, Full;
      NextAligned(pos, fs.geo.csize);
      full := false;
      var clst := SeekNext(pos / SS / fs.geo.csize);
      if clst == 0 { return Ok, true; }
      if clst == DISK_ERROR { return DiskErr, false; }
      assert 2 <= clst < fs.geo.nFatent;  // so the source's exit for a broken table is not taken
      GoTo(clst, (pos + SS * fs.geo.csize) / SS);
      return Ok, false;
    }

    /** The loop of f_lseek: from cluster boundary pos towards pos + rem, as far as there are clusters. */
    method SeekWalk(start: nat, ofs: nat) returns (res: FResult, pos: nat, rem: nat)
      requires ClusterAt(start, clust) && ofs > 0 && (writable || start + ofs <= objsize)
      requires Core()
      modifies `clust, `sclust, `chain, fs, fs.win, fs.drive
      ensures fs.drive.faults >= old(fs.drive.faults)
      ensures res == Ok || (res == DiskErr && fs.drive.faults > old(fs.drive.faults))
      ensures res == Ok ==> Core() && OnlyMine()
      ensures res == Ok && start + ofs <= objsize ==> chain == old(chain) && fs.fat == old(fs.fat) && rem > 0
      ensures res == Ok && rem > 0 ==> ClusterAt(pos, clust) && rem <= SS * fs.geo.csize && pos + rem == start + ofs
      ensures res == Ok && rem == 0 ==> Full(fs.fat) && AtEnd(pos) && pos < start + ofs
      ensures !old(writable) && old(!fs.wflag) ==> !fs.wflag
    {
      hide Volume.Valid, Volume.Tidy, Placed, Image, OnlyFile, IsChain, Geometry.Valid, Full, Core;
      res, pos, rem := Ok, start, ofs;
      ghost var ch, f, v := chain, fs.fat, fs.view;
      CoreFacts();
      OnlyNone(fs.geo, ch, f, v);
      while rem > SS * fs.geo.csize
        invariant ClusterAt(pos, clust) && rem > 0 && pos + rem == start + ofs && res == Ok
        invariant Core() && OnlyFile(fs.geo, ch, f, v, chain, fs.fat, fs.view)
        invariant fs.drive.faults >= old(fs.drive.faults)
        invariant start + ofs <= objsize ==> chain == ch && fs.fat == f
        invariant !writable && old(!fs.wflag) ==> !fs.wflag
        decreases rem
      {
        ghost var ch1, f1, v1 := chain, fs.fat, fs.view;
        if start + ofs <= objsize { RoomAfter(pos, rem, clust); }
        var full;
        res, full := SeekStep(pos);
        rem, pos := rem - SS * fs.geo.csize, pos + SS * fs.geo.csize;
        if res != Ok { return; }
        OnlyFileTrans(fs.geo, ch, f, v, ch1, f1, v1, chain, fs.fat, fs.view);
        if full {
          rem := 0;
          return;
        }
      }
    }

    lemma CoreFacts()
      requires Core()
      ensures Chain(fs.geo, chain) && objsize == |content| <= MAX_SIZE && fs.geo.csize > 0
    {
    }

    /**
     * Where f_lseek starts to walk: at the cursor's cluster if the goal is not before it, else at the first cluster,
     * which an empty file has to get first.
     */
    method SeekStart(ofs: nat) returns (res: FResult, start: nat, none: bool)
      requires Valid() && ofs > 0 && (writable || ofs <= objsize)
      modifies `clust, `sclust, `chain, fs, fs.win, fs.drive
      ensures fs.drive.faults >= old(fs.drive.faults)
      ensures res == Ok || (res == DiskErr && fs.drive.faults > old(fs.drive.faults))
      ensures res == Ok ==> Core() && OnlyMine()
      ensures res == Ok && ofs <= objsize ==> chain == old(chain) && fs.fat == old(fs.fat) && !none
      ensures res == Ok ==> if none then Full(fs.fat) else start < ofs && ClusterAt(start, clust)
      ensures !old(writable) && old(!fs.wflag) ==> !fs.wflag
    {
      hide Volume.Valid, Volume.Tidy, Placed, Image, OnlyFile, IsChain, Geometry.Valid, Full, Core, ClusterAt,
        ClusterNo, ClusterStart, HasSect, FileSect;
      ValidFacts();
      CoreFacts();
      res, start, none := Ok, 0, false;
      if fptr > 0 && ClusterNo(ofs - 1, fs.geo.csize) >= ClusterNo(fptr - 1, fs.geo.csize) {
        start := ClusterStart(fptr - 1, fs.geo.csize);
        Resume(ofs);
        OnlyNone(fs.geo, chain, fs.fat, fs.view);
      } else {
        res, none := FirstCluster();
      }
    }

    /** The cursor's own cluster begins at a cluster boundary not after the goal. */
    lemma Resume(ofs: nat)
      requires fs.geo.csize > 0 && fptr > 0 && ofs > 0
      requires ClusterNo(ofs - 1, fs.geo.csize) >= ClusterNo(fptr - 1, fs.geo.csize)
      requires Cursor()
      ensures var start := ClusterStart(fptr - 1, fs.geo.csize); start < ofs && ClusterAt(start, clust)
    {
      AlignDown(fptr - 1, fs.geo.csize);
      AlignAhead(fptr - 1, ofs - 1, fs.geo.csize);
    }

    /** Make the file's first cluster the current one, allocating it if the file has none. */
    method FirstCluster() returns (res: FResult, none: bool)
      requires Core()
      modifies `clust, `sclust, `chain, fs, fs.win, fs.drive
      ensures fs.drive.faults >= old(fs.drive.faults)
      ensures res == Ok || (res == DiskErr && fs.drive.faults > old(fs.drive.faults))
      ensures res == Ok ==> Core() && OnlyMine()
      ensures res == Ok && objsize > 0 ==> chain == old(chain) && fs.fat == old(fs.fat) && !none
      ensures res == Ok ==> if none then Full(fs.fat) else ClusterAt(0, clust)
      ensures old(objsize) > 0 && old(!fs.wflag) ==> !fs.wflag
    {
      hide Volume.Valid, Volume.Tidy, Placed, Image, OnlyFile, IsChain, Geometry.Valid, Full, Core;
      PlacedFacts();
      HasFirst();
      OnlyNone(fs.geo, chain, fs.fat, fs.view);
      var clst := sclust;
      if clst == 0 {
        clst := Follow(0, -1);
        assert clst != 1;  // so the source's exit for a broken table is not taken
        if clst == DISK_ERROR { return DiskErr, false; }
        if clst == 0 { return Ok, true; }
      }
      assert HasSect(fs.geo, chain, 0);
      GoTo(clst, 0);
      return Ok, false;
    }

    lemma HasFirst()
      requires Core()
      ensures objsize > 0 ==> chain != []
      ensures chain != [] ==> 2 <= sclust < fs.geo.nFatent < DISK_ERROR
    {
      PlacedFacts();
      if objsize > 0 { CoversSect(fs.geo, chain, |content|, 0); }
      hide Core, HasSect;
      FirstSect(fs.geo, chain);
    }

    /**
     * The cursor goes to a place the file reaches or is extended to; a partial sector there is brought into the buffer.
     */
    method SeekFinish(pos: nat, rem: nat) returns (res: FResult)
      requires if rem > 0 then ClusterAt(pos, clust) && rem <= SS * fs.geo.csize else AtEnd(pos)
      requires Core() && pos + rem <= MAX_SIZE
      modifies `fptr, `objsize, `content, `modified, `dirty, `sect, buf, fs`view, fs.drive
      ensures fs.drive.faults >= old(fs.drive.faults)
      ensures res == Ok || (res == DiskErr && fs.drive.faults > old(fs.drive.faults))
      ensures res == Ok ==> Valid() && OnlyMine() && fptr == pos + rem
      ensures res == Ok && old(!dirty) ==> !dirty
      ensures modified <==> old(modified) || pos + rem > old(objsize)
      ensures res == Ok ==>
        old(content) <= content && |content| == (if pos + rem > old(objsize) then pos + rem else old(objsize))
    {
      hide Volume.Valid, Volume.Tidy, Placed, Image, OnlyFile, IsChain, Geometry.Valid;
      res := Ok;
      PlacedFacts();
      LastByte(pos, rem);
      Extend(pos + rem);
      if (pos + rem) % SS != 0 {
        var nsect := fs.Clust2Sect(clust);
        SectorNumber((pos + rem) / SS);
        assert nsect != 0;  // so the source's exit for an invalid cluster is not taken
        nsect := nsect + rem / SS;
        res := Load(nsect, (pos + rem) / SS);
        if res != Ok { return; }
      } else {
        OnlyNone(fs.geo, chain, fs.fat, fs.view);
      }
      SetPointer(pos + rem);
    }

    lemma LastByte(pos: nat, rem: nat)
      requires if rem > 0 then ClusterAt(pos, clust) && rem <= SS * fs.geo.csize else AtEnd(pos)
      ensures pos + rem > 0 && Here((pos + rem - 1) / SS)
      ensures (pos + rem) % SS != 0 ==> Here((pos + rem) / SS) && (pos + rem) / SS % fs.geo.csize == rem / SS
    {
      hide FileSect, Chain;
      if rem > 0 {
        SameRest(pos, rem);
        WithinAligned(pos, rem, fs.geo.csize);
      } else {
        NextCluster(pos, fs.geo.csize);
      }
    }

    lemma SameRest(pos: nat, rem: nat)
      requires pos % SS == 0
      ensures (pos + rem) % SS == rem % SS
    {
    }

    /** Growing the file without writing: the new bytes are whatever the clusters held. */
    method Extend(size: nat)
      requires size > 0 && HasSect(fs.geo, chain, (size - 1) / SS) && size <= MAX_SIZE
      requires Core()
      modifies `objsize, `content, `modified
      ensures Core() && old(content) <= content && |content| == if size > old(objsize) then size else old(objsize)
      ensures modified <==> old(modified) || size > old(objsize)
    {
      hide Volume.Valid, Volume.Tidy, Placed, IsChain, Geometry.Valid;
      if size > objsize {
        ImageExtended(fs.geo, chain, fs.view, sect, dirty, buf[..], content, size);
        content := Extended(fs.geo, chain, Shown(fs.view, sect, dirty, buf[..]), content, size);
        objsize := size;
        modified := true;
      }
    }

    method SetPointer(p: nat)
      requires p <= objsize && (p > 0 ==> Here((p - 1) / SS)) && (p % SS != 0 ==> Loaded(p / SS))
      requires Core()
      modifies `fptr
      ensures Valid() && fptr == p
    {
      hide Volume.Valid, Volume.Tidy, Placed, Image;
      fptr := p;
    }

    /**
     * f_lseek. Within the file it only moves the cursor: to the byte asked for, whether it walked on from the current
     * cluster or from the first. Beyond the end it stops there unless the file is writable; then the file grows, as far
     * as there are free clusters, and keeps the bytes it had.
     */
    method Seek(ofs0: nat) returns (res: FResult)
      requires Valid() && ofs0 <= MAX_SIZE
      modifies this, buf, fs, fs.win, fs.drive
      ensures fs.drive.faults >= old(fs.drive.faults)
      ensures old(err) != Ok ==> res == old(err) && Valid() && fptr == old(fptr) && content == old(content)
      ensures old(err) == Ok ==>
        res == err && (res == Ok || (res == DiskErr && fs.drive.faults > old(fs.drive.faults)))
      ensures res == Ok ==> Valid() && OnlyMine() && old(content) <= content
      ensures res == Ok && old(!dirty) ==> !dirty
      ensures res == Ok && (ofs0 <= old(objsize) || !old(writable)) ==> chain == old(chain) && fs.fat == old(fs.fat)
      ensures res == Ok ==> (modified <==> old(modified) || fptr > old(objsize))
      ensures res == Ok && ofs0 <= old(objsize) ==> fptr == ofs0 && content == old(content)
      ensures res == Ok && ofs0 > old(objsize) && !old(writable) ==> fptr == old(objsize) && content == old(content)
      ensures res == Ok && ofs0 > old(objsize) && old(writable) ==> fptr == ofs0 || (fptr < ofs0 && Full(fs.fat))
      ensures res == Ok ==> |content| == if fptr > old(objsize) then fptr else old(objsize)
      ensures readable == old(readable) && writable == old(writable)
      ensures !old(writable) && old(!fs.wflag) ==> !fs.wflag
    {
      hide Volume.Valid, Volume.Tidy, Placed, Image, OnlyFile, IsChain, Geometry.Valid, Full, Cursor, Core, ClusterAt,
        AtEnd;
      if err != Ok { return err; }
      ValidFacts();
      var ofs := if ofs0 > objsize && !writable then objsize else ofs0;
      res := SeekTo(ofs);
      if res != Ok { err := res; }
    }

    /** f_lseek after its checks. */
    method SeekTo(ofs: nat) returns (res: FResult)
      requires Valid() && ofs <= MAX_SIZE && (writable || ofs <= objsize)
      modifies `fptr, `objsize, `content, `modified, `dirty, `sect, `clust, `sclust, `chain, buf, fs, fs.win, fs.drive
      ensures fs.drive.faults >= old(fs.drive.faults)
      ensures res == Ok || (res == DiskErr && fs.drive.faults > old(fs.drive.faults))
      ensures res == Ok ==> Valid() && OnlyMine() && old(content) <= content
      ensures res == Ok && old(!dirty) ==> !dirty
      ensures res == Ok ==> (modified <==> old(modified) || fptr > old(objsize))
      ensures res == Ok && ofs <= old(objsize) ==>
        fptr == ofs && content == old(content) && chain == old(chain) && fs.fat == old(fs.fat)
      ensures res == Ok && ofs > old(objsize) ==> fptr == ofs || (fptr < ofs && Full(fs.fat))
      ensures res == Ok ==> |content| == if fptr > old(objsize) then fptr else old(objsize)
      ensures !old(writable) && old(!fs.wflag) ==> !fs.wflag
    {
      hide Volume.Valid, Volume.Tidy, Placed, Image, OnlyFile, IsChain, Geometry.Valid, Full, Core, ClusterAt, AtEnd;
      ghost var ch, f, v := chain, fs.fat, fs.view;
      ValidFacts();
      if ofs == 0 {
        OnlyNone(fs.geo, ch, f, v);
        SetPointer(0);
        return Ok;
      }
      var start, none;
      res, start, none := SeekStart(ofs);
      if res != Ok { return; }
      if none {
        SetPointer(0);
        return;
      }
      ghost var ch1, f1, v1 := chain, fs.fat, fs.view;
      var pos, rem;
      res, pos, rem := SeekWalk(start, ofs - start);
      if res != Ok { return; }
      OnlyFileTrans(fs.geo, ch, f, v, ch1, f1, v1, chain, fs.fat, fs.view);
      ghost var v2 := fs.view;
      res := SeekFinish(pos, rem);
      if res == Ok {
        OnlyFileTrans(fs.geo, ch, f, v, chain, fs.fat, v2, chain, fs.fat, fs.view);
      }
    }

    // ---- opening for append --------------------------------------------------------------------------

    /** The FA_SEEKEND part of f_open: follow the chain to the last byte and buffer the partial sector there. */
    method SeekEnd() returns (res: FResult)
      requires Valid() && fptr == 0 && !dirty && sect == 0
      modifies `fptr, `sect, `clust, buf, fs`winsect, fs`wflag, fs.win, fs.drive
      ensures fs.drive.faults >= old(fs.drive.faults)
      ensures res == Ok || (res == DiskErr && fs.drive.faults > old(fs.drive.faults))
      ensures res == Ok ==> Valid() && fptr == objsize
    {
      hide Volume.Valid, Volume.Tidy, Placed, Image, OnlyFile, IsChain, Geometry.Valid, Core, FileSect, ClusterAt;
      ValidFacts();
      CoreFacts();
      res := Ok;
      if objsize > 0 {
        var clst, pos, ofs;
        res, clst, pos, ofs := WalkToEnd();
        if res == Ok {
          res := Land(clst, pos, ofs);
        }
      }
    }

    /** The cursor goes ofs bytes into cluster clst, which starts at pos. */
    method Land(clst: nat, pos: nat, ofs: nat) returns (res: FResult)
      requires 0 < ofs <= SS * fs.geo.csize && pos + ofs == objsize && ClusterAt(pos, clst)
      requires Core() && !dirty
      modifies `fptr, `sect, `clust, buf, fs.drive`faults
      ensures fs.drive.faults >= old(fs.drive.faults)
      ensures res == Ok || (res == DiskErr && fs.drive.faults > old(fs.drive.faults))
      ensures res == Ok ==> Valid() && fptr == objsize
    {
      hide Volume.Valid, Volume.Tidy, Placed, Image, OnlyFile, IsChain, Geometry.Valid, FileSect;
      res := Ok;
      PlacedFacts();
      GoTo(clst, pos / SS);
      LastByte(pos, ofs);
      SectAdd(pos, ofs);
      hide ClusterAt, HasSect, Core, Cursor;
      if ofs % SS != 0 {
        var sc := fs.Clust2Sect(clust);
        SectorNumber((pos + ofs) / SS);
        assert sc != 0;  // so the source's exit for an invalid cluster is not taken
        res := Fill(sc + ofs / SS, (pos + ofs) / SS);
      }
      if res == Ok {
        SetPointer(pos + ofs);
      }
    }

    /**
     * The loop of the FA_SEEKEND part: the last cluster with bytes of the file, where it starts and how much of it is
     * used.
     */
    method WalkToEnd() returns (res: FResult, clst: nat, pos: nat, ofs: nat)
      requires Core() && objsize > 0
      modifies fs`winsect, fs`wflag, fs.win, fs.drive
      ensures fs.drive.faults >= old(fs.drive.faults) && Core()
      ensures res == Ok || (res == DiskErr && fs.drive.faults > old(fs.drive.faults))
      ensures res == Ok ==> 0 < ofs <= SS * fs.geo.csize && pos + ofs == objsize && ClusterAt(pos, clst)
    {
      hide Volume.Valid, Volume.Tidy, Placed, Image, OnlyFile, IsChain, Geometry.Valid, Core, ClusterAt;
      AtFirst();
      res, clst, pos, ofs := Ok, sclust, 0, objsize;
      var bcs := SS * fs.geo.csize;
      while ofs > bcs
        invariant Core() && fs.drive.faults >= old(fs.drive.faults)
        invariant 0 < ofs && pos + ofs == objsize && ClusterAt(pos, clst) && res == Ok
        decreases ofs
      {
        clst := StepToEnd(clst, pos, ofs);
        if clst == DISK_ERROR { return DiskErr, clst, pos, ofs; }
        ofs, pos := ofs - bcs, pos + bcs;
      }
    }

    lemma AtFirst()
      requires Core() && objsize > 0
      ensures fs.geo.csize > 0 && ClusterAt(0, sclust)
    {
      hide Volume.Valid, Volume.Tidy, Image, Core, Listed, IsChain, Geometry.Valid;
      PlacedFacts();
      HasFirst();
    }

    /** One step of that loop. */
    method StepToEnd(c: nat, pos: nat, ofs: nat) returns (clst: nat)
      requires ClusterAt(pos, c) && ofs > SS * fs.geo.csize && pos + ofs <= objsize
      requires Core()
      modifies fs`winsect, fs`wflag, fs.win, fs.drive
      ensures fs.drive.faults >= old(fs.drive.faults) && Core()
      ensures if clst == DISK_ERROR then fs.drive.faults > old(fs.drive.faults)
        else ClusterAt(pos + SS * fs.geo.csize, clst)
    {
      hide Volume.Valid, Volume.Tidy, Placed, Image, OnlyFile, IsChain, Geometry.Valid, Core;
      RoomAfter(pos, ofs, c);
      clst := LinkAfter(c, pos / SS / fs.geo.csize);
      assert clst > 1;  // so the source's exit for a broken chain is not taken
      if clst != DISK_ERROR {
        NextAt(pos, c, clst);
      }
    }

    // ---- closing -----------------------------------------------------------------------------------

    /**
     * f_sync, and with it f_close: flush the buffer and bring directory entry and FSINFO up to date, if anything was
     * written.
     */
    method Sync(tm: nat) returns (res: FResult)
      requires EntryPlace(fs.geo, dirs, |fs.view|, dirSect, dirOfs) && FsiReserved(fs.geo)
      requires Valid()
      modifies `dirty, `modified, fs`winsect, fs`wflag, fs`view, fs`fsiDirty, fs.win, fs.drive
      ensures fs.drive.faults >= old(fs.drive.faults)
      ensures res == Ok || (res == DiskErr && fs.drive.faults > old(fs.drive.faults))
      ensures old(!modified) ==>
        res == Ok && Valid() && dirty == old(dirty) && fs.view == old(fs.view)
          && fs.drive.faults == old(fs.drive.faults) && fs.wflag == old(fs.wflag)
      ensures old(modified) && fs.drive.faults == old(fs.drive.faults) ==>
        Valid() && !dirty && !modified && !fs.wflag && !fs.drive.unsynced
      ensures old(modified) && fs.drive.faults == old(fs.drive.faults) ==> Entered(tm)
    {
      hide Volume.Valid, Volume.Tidy, Placed, Image, OnlyFile, IsChain, Geometry.Valid, Updated, Core, OnlyData;
      res := Ok;
      if !modified { return; }
      SyncFacts();
      ghost var v := fs.view;
      res := Flush();
      if res != Ok { return; }
      ghost var v1 := fs.view;
      OnlyMineAt(v, v1);
      res := PutEntry(tm);
      if res != Ok { return; }
      res := SyncVolume();
      if fs.drive.faults == old(fs.drive.faults) {
        OnlyDataAll(fs.geo, chain, dirSect, FsiSect(fs.geo), v, v1, fs.view, fs.fat);
      }
      ClearModified();
    }

    /** The directory entry says what the file is, and beside it and FSINFO only the file's own sectors have changed. */
    twostate predicate Entered(tm: nat)
      reads this, fs
    {
      && dirSect < |fs.view| == |old(fs.view)| && dirOfs + SZDIRE <= SS
      && fs.view[dirSect] == Updated(fs.geo.fsType, old(fs.view)[dirSect], dirOfs, sclust, objsize, tm)
      && OnlyData(fs.geo, chain, {dirSect, FsiSect(fs.geo)}, old(fs.view), fs.view)
    }

    lemma SyncFacts()
      requires EntryPlace(fs.geo, dirs, |fs.view|, dirSect, dirOfs)
      requires Valid()
      ensures Core() && Cursor() && Chain(fs.geo, chain) && !Mine(fs.geo, chain, dirSect)
    {
      if Mine(fs.geo, chain, dirSect) { MineNotMeta(fs.geo, dirs, chain, |fs.view|, dirSect); }
    }

    lemma OnlyMineAt(v: seq<Sector>, w: seq<Sector>)
      requires EntryPlace(fs.geo, dirs, |v|, dirSect, dirOfs) && OnlyFile(fs.geo, chain, fs.fat, v, chain, fs.fat, w)
      requires !Mine(fs.geo, chain, dirSect)
      ensures |w| == |v| && w[dirSect] == v[dirSect]
    {
    }

    /** The directory entry's sector comes into the window and gets the file's start, size and time. */
    method PutEntry(tm: nat) returns (res: FResult)
      requires EntryPlace(fs.geo, dirs, |fs.view|, dirSect, dirOfs)
      requires Core()
      modifies fs`winsect, fs`wflag, fs`view, fs.win, fs.drive
      ensures fs.drive.faults >= old(fs.drive.faults)
      ensures res == Ok || (res == DiskErr && fs.drive.faults > old(fs.drive.faults))
      ensures res == Ok ==> Core()
      ensures res == Ok ==>
        fs.view == old(fs.view)[dirSect := Updated(fs.geo.fsType, old(fs.view)[dirSect], dirOfs, sclust, objsize, tm)]
    {
      hide Volume.Valid, Volume.Tidy, Placed, Image, IsChain, Geometry.Valid, Updated;
      ghost var v, w := fs.view, fs.winsect;
      res := fs.MoveWindow(dirSect);
      if res != Ok { return; }
      fs.Rewrite(Updated(fs.geo.fsType, fs.win[..], dirOfs, sclust, objsize, tm));
      ImageBesides(fs.geo, dirs, fs.fat, w, sclust, chain, v, fs.view, sect, dirty, buf[..], content, dirSect);
    }

    /** sync_fs for a volume with this file open. */
    method SyncVolume() returns (res: FResult)
      requires FsiReserved(fs.geo)
      requires Core()
      modifies fs`winsect, fs`wflag, fs`view, fs`fsiDirty, fs.win, fs.drive
      ensures fs.drive.faults >= old(fs.drive.faults)
      ensures res == Ok || (res == DiskErr && fs.drive.faults > old(fs.drive.faults))
      ensures fs.drive.faults == old(fs.drive.faults) ==>
        Core() && !fs.wflag && !fs.drive.unsynced && |fs.view| == |old(fs.view)|
      ensures fs.drive.faults == old(fs.drive.faults) ==>
        forall s :: 0 <= s < |fs.view| && s != FsiSect(fs.geo) ==> fs.view[s] == old(fs.view)[s]
    {
      hide Volume.Valid, Volume.Tidy, Placed, Image, IsChain, Geometry.Valid, FsInfo;
      FsInfoPlace();
      ghost var v, w := fs.view, fs.winsect;
      res := fs.SyncFs();
      if fs.drive.faults == old(fs.drive.faults) {
        if fs.geo.fsType == Fat32 {
          ImageBesides(fs.geo, dirs, fs.fat, w, sclust, chain, v, fs.view, sect, dirty, buf[..], content,
                       FsiSect(fs.geo));
        }
      }
    }

    lemma FsInfoPlace()
      requires FsiReserved(fs.geo)
      requires Core()
      ensures fs.UsesFsInfo() ==> fs.Plain(FsiSect(fs.geo))
      ensures Meta(fs.geo, dirs, FsiSect(fs.geo))
    {
    }

    /** Clear FA_MODIFIED. */
    method ClearModified()
      modifies `modified
      ensures !modified && (old(Valid()) ==> Valid())
    {
      hide Volume.Valid, Volume.Tidy, Placed, Image;
      modified := false;
    }
  }
}
