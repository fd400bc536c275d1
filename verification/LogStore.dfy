/**
 * The log store on top of the file system: named files that grow until they are deleted. What a write has reported (an
 * offset and a number of bytes) can be read back later, whatever is done to any log in between but deleting this one.
 */
module LogStore {
  import opened Bytes
  import opened Wrappers
  import opened Disk
  import opened FatLayout
  import opened FatTable
  import opened FatChains
  import opened DirEntry
  import opened FatVolume
  import opened FileLayout
  import opened FatFile
  import opened Catalogue
  import opened LogDir
  import L = LongName
  import N = NameSearch

  const STORAGE_LOG_LEN: nat := 32

  /** Return codes of the store. */
  datatype Code = Success | Fail | Inval | Size

  /** A successful write: to a log, at an offset, of some bytes. */
  datatype Receipt = Receipt(home: Home, offset: nat, bytes: seq<byte>)

  // ---- one log as an open file ---------------------------------------------------------------------

  /** An open file whose buffer is clean is stored as it reads. */
  lemma FileStored(file: File)
    requires file.Valid() && !file.dirty && FsiReserved(file.fs.geo)
    ensures Shelf(file.fs.geo, file.dirs, file.fs.fat, |file.fs.view|, file.fs.winsect)
    ensures Stored(file.fs.geo, file.dirs, file.fs.fat, file.fs.view, Log(file.chain, file.content))
    ensures file.sclust == Start(file.chain) && file.objsize == |file.content| <= MAX_SIZE
    ensures file.fs.Valid() && file.fs.Tidy() && Listed(file.fs.chains, file.chain)
  {
  }

  lemma AppendIsEnd(s: seq<byte>, d: seq<byte>)
    ensures Overwrite(s, |s|, d) == s + d
  {
  }

  lemma OnlySize(g: Geometry, ch: seq<nat>, f: seq<nat>, v: seq<Sector>, dh: seq<nat>, e: seq<nat>, w: seq<Sector>)
    requires OnlyFile(g, ch, f, v, dh, e, w)
    ensures |w| == |v| && Chain(g, dh)
  {
  }

  /** Seek to the end, write, close: the middle of storage_write_data, on an open file. */
  method AppendTo(file: File, data: seq<byte>, tm: nat) returns (res: FResult, bw: nat, offset: nat)
    requires Slot(file.fs.geo, file.dirs, |file.fs.view|, Place(file.dirSect, file.dirOfs)) && FsiReserved(file.fs.geo)
    requires file.fptr == 0 && !file.dirty && file.sect == 0 && file.err == Ok && file.writable && |data| <= 0xFFFF_FFFF
    requires file.Valid() && !Unused(file.fs.view, Place(file.dirSect, file.dirOfs))
    modifies file, file.buf, file.fs, file.fs.win, file.fs.drive
    ensures file.fs.drive.faults >= old(file.fs.drive.faults)
    ensures res == Ok && file.fs.drive.faults == old(file.fs.drive.faults) ==>
      && file.fs.Valid() && file.fs.Tidy() && Listed(file.fs.chains, file.chain)
      && Shelf(file.fs.geo, file.dirs, file.fs.fat, |file.fs.view|, file.fs.winsect)
      && bw <= |data| && file.content == old(file.content) + data[..bw] && offset == |old(file.content)|
      && (bw < |data| ==> Full(file.fs.fat) || offset + bw == MAX_SIZE)
      && OnlyLog(file.fs.geo, Place(file.dirSect, file.dirOfs), old(file.chain), old(file.fs.fat), old(file.fs.view),
        file.chain, file.fs.fat, file.fs.view)
      && Described(file.fs.geo, file.fs.view, Place(file.dirSect, file.dirOfs), Log(file.chain, file.content))
      && Stored(file.fs.geo, file.dirs, file.fs.fat, file.fs.view, Log(file.chain, file.content))
      && Touched(ShownAt(old(file.fs.view), Place(file.dirSect, file.dirOfs)),
        ShownAt(file.fs.view, Place(file.dirSect, file.dirOfs)))
      && SameBirth(ShownAt(old(file.fs.view), Place(file.dirSect, file.dirOfs)),
        ShownAt(file.fs.view, Place(file.dirSect, file.dirOfs)))
      && Stamp(ShownAt(file.fs.view, Place(file.dirSect, file.dirOfs))) == tm % 0x1_0000_0000
      && !file.fs.wflag && !file.fs.drive.unsynced
    ensures res != Ok ==> file.fs.drive.faults > old(file.fs.drive.faults)
  {
    hide Volume.Valid, Volume.Tidy, Listed, Accounted, File.Valid, File.Core, Shelf, OnlyLog, OnlyFile, OnlyData,
      Overwrite, Full, Updated, EntryPlace, ShownAt, Touched, SameBirth, Stamp;
    ghost var ch, f, v, s := file.chain, file.fs.fat, file.fs.view, file.content;
    bw, offset := 0, 0;
    res := file.SeekEnd();
    if res != Ok { return; }
    file.ValidFacts();
    offset := file.fptr;
    res, bw := file.Write(data);
    if res != Ok { return; }
    ghost var v1 := file.fs.view;
    OnlySize(file.fs.geo, ch, f, v, file.chain, file.fs.fat, v1);
    res := file.Sync(tm);
    if res == Ok && file.fs.drive.faults == old(file.fs.drive.faults) {
      FileStored(file);
      AppendIsEnd(s, data[..bw]);
      WriteOnly(file.fs.geo, file.dirs, Place(file.dirSect, file.dirOfs), ch, f, v, file.chain, file.fs.fat, v1,
                file.fs.view, file.objsize, tm);
      StartFits(file.fs.geo, file.chain);
      WriteStamped(file.fs.geo, file.dirs, Place(file.dirSect, file.dirOfs), ch, f, v, file.chain, file.fs.fat, v1,
                   file.fs.view, Start(file.chain), file.objsize, tm);
    }
  }

  /** Cluster numbers fit the entry's fields. */
  lemma StartFits(g: Geometry, ch: seq<nat>)
    requires g.Valid() && Chain(g, ch)
    ensures Start(ch) < 0x1_0000_0000 && (g.fsType != Fat32 ==> Start(ch) < 0x1_0000)
  {
  }

  /** The part of s from ofs on, at most n bytes of it. */
  function Slice(s: seq<byte>, ofs: nat, n: nat): seq<byte> {
    if ofs >= |s| then [] else if n < |s| - ofs then s[ofs..ofs + n] else s[ofs..]
  }

  /** What f_read returns once f_lseek has moved to ofs, or to the end. */
  lemma SliceRead(s: seq<byte>, ofs: nat, n: nat, p: nat, d: seq<byte>)
    requires p == (if ofs <= |s| then ofs else |s|)
    requires |d| == (if n < |s| - p then n else |s| - p) && d == s[p..p + |d|]
    ensures d == Slice(s, ofs, n)
  {
  }

  /** A file that was only read has changed nothing. */
  lemma ReadOnly(g: Geometry, dirs: set<nat>, p: Place, ch: seq<nat>, f: seq<nat>, v: seq<Sector>, w: seq<Sector>)
    requires Slot(g, dirs, |v|, p) && DataFits(g, |v|) && |v| < NO_SECTOR && forall c :: c in dirs ==> c !in ch
    requires OnlyFile(g, ch, f, v, ch, f, w)
    ensures OnlyLog(g, p, ch, f, v, ch, f, w) && w[p.sect] == v[p.sect]
  {
    if Mine(g, ch, p.sect) { MineNotMeta(g, dirs, ch, |v|, p.sect); }
  }

  /** f_lseek and f_read of a file open for reading. */
  method SeekRead(file: File, ofs: nat, len: nat) returns (res: FResult, data: seq<byte>)
    requires !file.dirty && file.err == Ok && file.readable && !file.writable && !file.modified && ofs <= 0xFFFF_FFFF
    requires file.Valid()
    modifies file, file.buf, file.fs, file.fs.win, file.fs.drive
    ensures file.fs.drive.faults >= old(file.fs.drive.faults)
    ensures res == Ok || (res == DiskErr && file.fs.drive.faults > old(file.fs.drive.faults))
    ensures res == Ok ==> file.Valid() && !file.dirty && !file.modified && (old(!file.fs.wflag) ==> !file.fs.wflag)
    ensures res == Ok ==> data == Slice(old(file.content), ofs, len) && file.content == old(file.content)
    ensures res == Ok ==> file.chain == old(file.chain) && file.fs.fat == old(file.fs.fat)
    ensures res == Ok ==>
      OnlyFile(file.fs.geo, file.chain, file.fs.fat, old(file.fs.view), file.chain, file.fs.fat, file.fs.view)
  {
    hide Volume.Valid, Volume.Tidy, Listed, File.Valid, File.Core, OnlyFile, Slice, WellFormed;
    ghost var v := file.fs.view;
    file.ValidFacts();
    data := [];
    res := file.Seek(ofs);
    if res != Ok { return; }
    ghost var v1, p := file.fs.view, file.fptr;
    res, data := file.Read(len);
    if res != Ok { return; }
    SliceRead(file.content, ofs, len, p, data);
    OnlyFileTrans(file.fs.geo, file.chain, file.fs.fat, v, file.chain, file.fs.fat, v1, file.chain, file.fs.fat,
                  file.fs.view);
  }

  /** Seek, read, close: the middle of storage_read_data, on an open file. */
  method ReadFrom(file: File, ofs: nat, len: nat) returns (res: FResult, data: seq<byte>)
    requires Slot(file.fs.geo, file.dirs, |file.fs.view|, Place(file.dirSect, file.dirOfs)) && FsiReserved(file.fs.geo)
    requires !file.dirty && file.err == Ok && file.readable && !file.writable && !file.modified && ofs <= 0xFFFF_FFFF
    requires file.Valid()
    modifies file, file.buf, file.fs, file.fs.win, file.fs.drive
    ensures file.fs.drive.faults >= old(file.fs.drive.faults)
    ensures res == Ok || res == DiskErr
    ensures res == Ok && old(!file.fs.wflag) ==> !file.fs.wflag
    ensures res == Ok ==>
      && file.fs.Valid() && file.fs.Tidy() && Listed(file.fs.chains, file.chain)
      && Shelf(file.fs.geo, file.dirs, file.fs.fat, |file.fs.view|, file.fs.winsect)
      && data == Slice(old(file.content), ofs, len) && file.content == old(file.content)
      && file.chain == old(file.chain)
      && OnlyLog(file.fs.geo, Place(file.dirSect, file.dirOfs), file.chain, old(file.fs.fat), old(file.fs.view),
        file.chain, file.fs.fat, file.fs.view)
      && Stored(file.fs.geo, file.dirs, file.fs.fat, file.fs.view, Log(file.chain, file.content))
      && file.dirSect < |old(file.fs.view)| == |file.fs.view|
      && file.fs.view[file.dirSect] == old(file.fs.view)[file.dirSect]
    ensures res != Ok ==> file.fs.drive.faults > old(file.fs.drive.faults)
  {
    hide Volume.Valid, Volume.Tidy, Listed, Accounted, File.Valid, File.Core, Shelf, OnlyLog, OnlyFile, OnlyData,
      Updated, EntryPlace, Stored, Slice, Meta, WellFormed, DataFits, FsiReserved;
    ghost var f, v := file.fs.fat, file.fs.view;
    res, data := SeekRead(file, ofs, len);
    if res != Ok { return; }
    file.ValidFacts();
    OnlySize(file.fs.geo, file.chain, f, v, file.chain, f, file.fs.view);
    res := file.Sync(0);
    FileStored(file);
    ReadOnly(file.fs.geo, file.dirs, Place(file.dirSect, file.dirOfs), file.chain, f, v, file.fs.view);
  }

  // ---- the store -----------------------------------------------------------------------------------

  /** What a write has reported is in the log. */
  predicate Kept(logs: map<Home, Log>, r: Receipt) {
    r.home in logs && r.offset + |r.bytes| <= |logs[r.home].bytes|
      && logs[r.home].bytes[r.offset..r.offset + |r.bytes|] == r.bytes
  }

  ghost predicate Honoured(logs: map<Home, Log>, rs: set<Receipt>) {
    forall r :: r in rs ==> Kept(logs, r)
  }

  /** Appending honours all earlier receipts, and the new one. */
  lemma AppendHonours(logs: map<Home, Log>, rs: set<Receipt>, n: Home, l: Log, d: seq<byte>)
    requires Honoured(logs, rs) && n in logs && l.bytes == logs[n].bytes + d
    ensures Honoured(logs[n := l], rs + {Receipt(n, |logs[n].bytes|, d)})
  {
    forall r | r in rs ensures Kept(logs[n := l], r) {
      assert Kept(logs, r);
      if r.home == n {
        assert l.bytes[r.offset..r.offset + |r.bytes|] == logs[n].bytes[r.offset..r.offset + |r.bytes|];
      }
    }
  }

  /** Reading the place a receipt names gives the bytes written there. */
  lemma ReceiptReads(logs: map<Home, Log>, rs: set<Receipt>, r: Receipt)
    requires Honoured(logs, rs) && r in rs
    ensures r.home in logs && Slice(logs[r.home].bytes, r.offset, |r.bytes|) == r.bytes
  {
    assert Kept(logs, r);
  }

  /** strnlen: the place of the first 0, or the length. */
  function Strnlen(s: seq<byte>): (n: nat)
    ensures n <= |s| && (n < |s| <==> 0 in s) && (n < |s| ==> s[n] == 0) && forall i :: 0 <= i < n ==> s[i] != 0
  {
    if s == [] || s[0] == 0 then 0 else 1 + Strnlen(s[1..])
  }

  /** The name goes into the buffer, with a terminator; what is behind it is left as it was. */
  method NameBuffer(name: seq<L.Wchar>) returns (lfnbuf: array<L.Wchar>)
    requires |name| <= L.MAX_LFN
    ensures fresh(lfnbuf) && lfnbuf.Length == L.MAX_LFN + 1 && L.Buffered(lfnbuf[..], name)
  {
    lfnbuf := new L.Wchar[L.MAX_LFN + 1];
    forall i | 0 <= i < |name| { lfnbuf[i] := name[i]; }
    lfnbuf[|name|] := 0;
  }

  class Logs {
    const fs: Volume
    /** What create_name, gen_numname and ff_wtoupper make of names. */
    const names: Names
    /** All entries of the directory, in order. */
    var places: seq<Place>
    /** The last cluster of the directory, 0 if it is in front of the data area and cannot grow. */
    var tail: nat
    /** The logs by the place of their short entry in the directory: their names, entries and contents. */
    ghost var files: map<Home, FileName>
    ghost var index: map<Home, Block>
    ghost var logs: map<Home, Log>
    ghost var dirChain: seq<nat>
    ghost var dirs: set<nat>
    /** All successful writes so far to logs that have not been deleted. */
    ghost var receipts: set<Receipt>
    /** The sectors when the store was set up. */
    ghost const origin: seq<Sector>

    ghost predicate Valid()
      reads this, fs, fs.win, fs.drive
    {
      Sound(logs) && Catalogued(List(), files) && Indexed(index, places, files) && names.Lawful()
    }

    /** The directory as the volume shows it. */
    ghost function List(): (s: seq<L.Entry>)
      reads `places, fs`view
    {
      Listing(fs.view, places)
    }

    /**
     * The store is valid but for the names in the directory, and for the chains on the volume, which are those of the
     * logs named instead.
     */
    ghost predicate Sound(owners: map<Home, Log>)
      reads this, fs, fs.win, fs.drive
    {
      && fs.Valid() && Shelf(fs.geo, dirs, fs.fat, |fs.view|, fs.winsect)
      && Store(fs.geo, dirs, fs.fat, fs.view, index, places, logs)
      && fs.Tidy() && Accounted(fs.chains, dirs, owners) && DirListed(fs.chains)
      && Honoured(logs, receipts) && SameFront(fs.geo, origin, fs.view)
    }

    /** The directory is no longer than it may be; its clusters are one of the volume's chains, and hold its entries. */
    ghost predicate DirListed(m: Chains)
      reads `tail, `places, `dirChain, `dirs
    {
      && |places| * SZDIRE <= MAX_DIR
      && (tail != 0 ==>
        && dirChain != [] && tail == dirChain[|dirChain| - 1] && Listed(m, dirChain)
        && (forall c :: c in dirChain ==> c in dirs)
        && Numbers(dirChain) && places == AllSlots(fs.geo, dirChain)
        && fs.geo.csize > 0 && 4096 % fs.geo.csize == 0)
    }

    /** A store over a volume that has some logs already, and for which there may be receipts. */
    constructor (vol: Volume, pls: seq<Place>, nms: Names, last: nat, ghost fls: map<Home, FileName>,
                 ghost ind: map<Home, Block>, ghost dch: seq<nat>, ghost dcl: set<nat>, ghost ls: map<Home, Log>,
                 ghost rs: set<Receipt>)
      requires vol.Valid() && Shelf(vol.geo, dcl, vol.fat, |vol.view|, vol.winsect)
      requires Store(vol.geo, dcl, vol.fat, vol.view, ind, pls, ls) && vol.Tidy() && Accounted(vol.chains, dcl, ls)
      requires Catalogued(Listing(vol.view, pls), fls) && Indexed(ind, pls, fls) && nms.Lawful()
      requires |pls| * SZDIRE <= MAX_DIR
      requires last != 0 ==>
        && dch != [] && last == dch[|dch| - 1] && Listed(vol.chains, dch) && (forall c :: c in dch ==> c in dcl)
        && Numbers(dch) && pls == AllSlots(vol.geo, dch)
        && vol.geo.csize > 0 && 4096 % vol.geo.csize == 0
      requires Honoured(ls, rs)
      ensures Valid() && fs == vol && places == pls && names == nms && tail == last
      ensures files == fls && index == ind && logs == ls && receipts == rs
      ensures dirChain == dch && dirs == dcl && origin == vol.view
    {
      hide Volume.Valid, Volume.Tidy, Store, Shelf, Accounted, Listed, AllSlots, Honoured, Catalogued, Indexed, Listing,
        Names.Lawful;
      fs, places, names, tail := vol, pls, nms, last;
      files, index, dirChain, dirs, logs, receipts, origin := fls, ind, dch, dcl, ls, rs, vol.view;
    }

    lemma StoreFacts(n: Home)
      requires Sound(logs) && n in index
      ensures n in logs && Filed(fs.geo, dirs, fs.fat, fs.view, index[n], logs[n]) && fs.Valid()
      ensures Shelf(fs.geo, dirs, fs.fat, |fs.view|, fs.winsect)
    {
    }

    /** Every file in the directory is a log. */
    lemma SameNames()
      requires Valid()
      ensures files.Keys == index.Keys == logs.Keys
    {
      hide Volume.Valid, Volume.Tidy, Listed, Accounted, Shelf, Honoured, SameFront, DirListed, Catalogued,
        Names.Lawful, Filed, AllApart, Directory;
    }

    lemma TidyFacts()
      requires Sound(logs)
      ensures fs.Tidy() && WellFormed(fs.fat, fs.chains) && Accounted(fs.chains, dirs, logs) && DirListed(fs.chains)
    {
    }

    /**
     * No cluster leaks: what is in use belongs to a log or a directory; and a free count that was exact is so still.
     */
    lemma NoLeak(c: nat)
      requires Valid() && InRange(fs.fat, c)
      ensures fs.fat[c] != 0 <==> c in dirs || exists n :: n in logs && c in logs[n].chain
      ensures fs.counted ==> fs.freeClst == FreeCount(fs.fat)
    {
      hide Volume.Valid, WellFormed, Honoured, AllApart, Directory, Holds, Described, Slot, Meta, Listed, SameFront,
        Catalogued, Indexed, Names.Lawful, DirListed;
      if fs.fat[c] != 0 {
        NothingLost(fs.fat, fs.chains, dirs, logs, c);
      } else {
        forall n | n in logs ensures c !in logs[n].chain { FreeNotOn(fs.fat, logs[n].chain, c); }
      }
    }

    /** The entry's sector comes into the window. */
    method Visit(p: Place, ghost owners: map<Home, Log>) returns (res: FResult)
      requires Slot(fs.geo, dirs, |fs.view|, p)
      requires Sound(owners)
      modifies fs`winsect, fs`wflag, fs.win, fs.drive
      ensures fs.drive.faults >= old(fs.drive.faults) && (old(!fs.wflag) ==> !fs.wflag)
      ensures (res == Ok || (res == DiskErr && fs.drive.faults > old(fs.drive.faults)))
      ensures res == Ok ==> Sound(owners) && fs.winsect == p.sect < |fs.view| && fs.win[..] == fs.view[p.sect]
    {
      hide Volume.Valid, Volume.Tidy, Listed, Accounted, Store, Honoured, Geometry.Valid, SameFront, DirListed;
      res := fs.MoveWindow(p.sect);
    }

    // ---- looking for a name --------------------------------------------------------------------------

    /** The window shows the short entry of the log n, as f_open needs it. */
    ghost predicate Reopened(n: Home)
      reads `index, `places, fs, fs.win
    {
      && n in index && n < |places| && index[n] != [] && Short(index[n]) == places[n]
      && fs.winsect == places[n].sect < |fs.view| && fs.win[..] == fs.view[fs.winsect]
    }

    /**
     * dir_find: the first file in the directory that the query means, and where its entries begin; or that there is
     * none.
     */
    method DirFind(lfnbuf: array<L.Wchar>, q: N.Query, ghost m: seq<L.Wchar>)
      returns (res: FResult, at: nat, blk: Option<nat>)
      requires lfnbuf.Length == L.MAX_LFN + 1 && L.Buffered(lfnbuf[..], m) && forall i :: 0 <= i < |m| ==> m[i] != 0
      requires Valid()
      modifies fs`winsect, fs`wflag, fs.win, fs.drive
      ensures fs.drive.faults >= old(fs.drive.faults) && (old(!fs.wflag) ==> !fs.wflag)
      ensures res == Ok || res == NoFile || (res == DiskErr && fs.drive.faults > old(fs.drive.faults))
      ensures res == Ok ==> Valid() && FoundAs(names.up, q, m, files, at) && Reopened(at)
      ensures res == Ok && !q.nolfn ==> files[at].First(at) == match blk case None => at as int case Some(b) => b
      ensures res == NoFile ==> Valid() && NotFound(names.up, q, m, files)
    {
      hide Volume.Valid, Volume.Tidy, Listed, Accounted, Shelf, Store, Honoured, SameFront, DirListed, Slot, Sound,
        Catalogued, Indexed, N.FirstAnswer, N.Scanning, FoundAs, NotFound, Listing, L.Buffered, N.RunStart, Reopened;
      ghost var dirs, b := List(), None;
      var s := N.Scan(0xFF, 0xFF, None);
      N.ScanStarts(names.up, lfnbuf[..], q, dirs);
      at, blk := 0, None;
      NotEmpty();
      while true
        invariant Valid() && fs.drive.faults >= old(fs.drive.faults) && (old(!fs.wflag) ==> !fs.wflag)
        invariant at < |places| == |dirs| && dirs == List()
        invariant N.Scanning(names.up, lfnbuf[..], q, dirs, at, s, b)
        decreases |places| - at
      {
        SlotAt(at, logs);
        res := Visit(places[at], logs);
        if res != Ok { return; }
        var e := EntryHere(at);
        var r;
        r, s, b := N.FindStep(names.up, lfnbuf, q, e, at, s, dirs, b);
        if r == N.Hit {
          SearchFinds(names.up, lfnbuf[..], q, m, dirs, files, at);
          FoundHere(q, m, at);
          blk := s.blk;
          return;
        }
        if r == N.Ends {
          SearchFails(names.up, lfnbuf[..], q, m, dirs, files);
          return NoFile, at, blk;
        }
        at := at + 1;
        if at * SZDIRE >= MAX_DIR || at == |places| {
          LongEnough();
          N.ScanEnds(names.up, lfnbuf[..], q, dirs, at, s, b);
          SearchFails(names.up, lfnbuf[..], q, m, dirs, files);
          return NoFile, at, blk;
        }
      }
    }

    lemma LongEnough()
      requires Sound(logs)
      ensures |places| * SZDIRE <= MAX_DIR
    {
    }

    /** The directory's entry at k, from the window. */
    method EntryHere(k: nat) returns (e: L.Entry)
      requires k < |places| && places[k].ofs + SZDIRE <= SS == fs.win.Length
      requires fs.winsect == places[k].sect < |fs.view| && fs.win[..] == fs.view[fs.winsect]
      ensures |List()| == |places| && e == List()[k]
    {
      e := fs.win[places[k].ofs..places[k].ofs + SZDIRE];
      assert e == fs.win[..][places[k].ofs..places[k].ofs + SZDIRE];
    }

    lemma FoundHere(q: N.Query, m: seq<L.Wchar>, k: nat)
      requires Valid() && FoundAs(names.up, q, m, files, k)
      requires k < |places| && fs.winsect == places[k].sect < |fs.view| && fs.win[..] == fs.view[fs.winsect]
      ensures Reopened(k)
      ensures files[k].First(k) == match N.RunStart(List(), k) case None => k as int case Some(b) => b
    {
      hide Sound, Catalogued, N.RunStart, Listing, Means;
      BlockOfFile(List(), files, k);
    }

    lemma NotEmpty()
      requires Sound(logs)
      ensures places != [] && index.Keys == logs.Keys
    {
    }

    lemma SlotAt(k: nat, owners: map<Home, Log>)
      requires Sound(owners) && k < |places|
      ensures Slot(fs.geo, dirs, |fs.view|, places[k]) && places[k].ofs + SZDIRE <= SS && fs.win.Length == SS
    {
      hide AllFiled, AllApart, Accounted, Honoured, SameFront, DirListed, Shelf, Meta;
    }

    // ---- creating a log ----------------------------------------------------------------------------

    /** There is no room for that many entries in a row, and the directory cannot grow. */
    ghost predicate NoRoom(need: nat)
      reads `places, `tail, fs`view, fs`fat
    {
      Crowded(fs.view, places, need) && (tail == 0 || |places| * SZDIRE >= MAX_DIR || Full(fs.fat))
    }

    /** The part of dir_next that gives a directory another cluster, filled with unused entries. */
    method Stretch() returns (res: FResult)
      requires |places| * SZDIRE < MAX_DIR
      requires Valid()
      modifies `places, `tail, `dirChain, `dirs, fs, fs.win, fs.drive
      ensures fs.drive.faults >= old(fs.drive.faults)
      ensures res == Ok || (res == DiskErr && fs.drive.faults > old(fs.drive.faults))
        || (res == Denied && (old(tail) == 0 || old(Full(fs.fat))))
      ensures res == Denied ==> Valid() && places == old(places) && (old(!fs.wflag) ==> !fs.wflag)
      ensures res == Denied ==> fs.view == old(fs.view) && fs.fat == old(fs.fat) && tail == old(tail)
      ensures res == Ok ==> Valid() && old(places) < places && |places| >= |old(places)| + 16
      ensures res == Ok ==> old(tail) != 0 && !old(Full(fs.fat))
      ensures res == Ok ==> forall q :: q in old(places) ==> (Unused(fs.view, q) <==> Unused(old(fs.view), q))
      ensures res == Ok ==> forall i :: |old(places)| <= i < |places| ==> Unused(fs.view, places[i])
    {
      hide Volume.Valid, Volume.Tidy, Listed, Accounted, Store, Shelf, Honoured, WellFormed, DirListed, Full, Answer,
        SameFront, Catalogued, Indexed, Listing, Names.Lawful;
      if tail == 0 { return Denied; }
      TailFacts();
      ghost var f, v, win, m, last := fs.fat, fs.view, fs.winsect, fs.chains, fs.lastClst;
      var clst := fs.GetFat(tail);
      if clst == DISK_ERROR { return DiskErr; }
      assert clst >= fs.geo.nFatent;  // the directory ends here
      clst := fs.CreateChain(tail);
      if clst == DISK_ERROR { return DiskErr; }
      AnswerAtEnd(f, m, last, tail, clst);
      if clst == 0 {
        WindowMoved(win);
        return Denied;
      }
      ghost var v1 := fs.view;
      SameSize(fs.geo, v, v1);
      ClusterPlace(clst);
      res := fs.ClearCluster(clst);
      if res == Ok {
        ClearedOnly(fs.geo, v, v1, fs.view, clst);
        FreeNotFull(f, clst);
        Adopt(f, v, win, m, clst);
      }
    }

    lemma FreeNotFull(f: seq<nat>, c: nat)
      requires InRange(f, c) && f[c] == 0
      ensures !Full(f)
    {
    }

    lemma TailFacts()
      requires Sound(logs) && tail != 0
      ensures InRange(fs.fat, tail) && fs.fat[tail] >= |fs.fat| && |fs.fat| == fs.geo.nFatent
      ensures WellFormed(fs.fat, fs.chains) && fs.geo.Valid()
      ensures DataFits(fs.geo, |fs.view|)
    {
      hide Store, Honoured, Accounted, Volume.Valid, Meta, DataFits, Disjoint, Owned, SameFront, AllSlots;
      LastOfChain(fs.fat, fs.chains, dirChain[0]);
      ChainAt(fs.fat, fs.chains, dirChain[0]);
    }

    /** Nothing but the window has changed, and that shows a FAT sector. */
    lemma WindowMoved(win: nat)
      requires Shelf(fs.geo, dirs, fs.fat, |fs.view|, win) && Store(fs.geo, dirs, fs.fat, fs.view, index, places, logs)
      requires fs.Valid() && fs.Tidy() && Accounted(fs.chains, dirs, logs) && DirListed(fs.chains)
      requires Honoured(logs, receipts) && SameFront(fs.geo, origin, fs.view)
      requires fs.winsect == win || fs.geo.InFat(fs.winsect) || fs.winsect == NO_SECTOR
      ensures Sound(logs)
    {
      hide Volume.Valid, Volume.Tidy, Store, Accounted, DirListed, Honoured, SameFront;
    }

    lemma ClusterPlace(c: nat)
      requires fs.Valid() && InRange(fs.fat, c) && DataFits(fs.geo, |fs.view|) && fs.geo.Valid()
      ensures fs.geo.csize > 0 && fs.Clust2Sect(c) == DataSect(fs.geo, c, 0) >= fs.geo.database
      ensures fs.Clust2Sect(c) + fs.geo.csize <= |fs.view|
    {
      hide Volume.Valid, Geometry.Valid, DataFits;
      ClusterBounds(fs.geo, |fs.view|, c);
    }

    /** The new cluster belongs to the directory. */
    method Adopt(ghost f: seq<nat>, ghost v: seq<Sector>, ghost win: nat, ghost m: Chains, c: nat)
      requires Shelf(fs.geo, dirs, f, |v|, win) && Store(fs.geo, dirs, f, v, index, places, logs)
      requires Honoured(logs, receipts) && SameFront(fs.geo, origin, v) && |places| * SZDIRE < MAX_DIR
      requires WellFormed(f, m) && Accounted(m, dirs, logs) && tail != 0 && DirListed(m) && InRange(f, tail)
      requires Catalogued(Listing(v, places), files) && Indexed(index, places, files) && names.Lawful()
      requires fs.Valid() && fs.Tidy() && InRange(f, c) && f[c] == 0 && |f| == fs.geo.nFatent
      requires fs.fat == Linked(f, tail, c, fs.Eoc()) && Longer(m, tail, c, fs.chains)
      requires OnlyCluster(fs.geo, c, v, fs.view) && fs.winsect == DataSect(fs.geo, c, 0)
      requires forall s :: 0 <= s < |fs.view| && Within(fs.geo, c, s) ==> fs.view[s] == Blank()
      modifies `places, `tail, `dirChain, `dirs
      ensures Valid() && old(places) < places && |places| >= |old(places)| + 16
      ensures forall q :: q in old(places) ==> (Unused(fs.view, q) <==> Unused(v, q))
      ensures forall i :: |old(places)| <= i < |places| ==> Unused(fs.view, places[i])
    {
      hide Volume.Valid, Volume.Tidy, Listed, Accounted, Store, Shelf, Honoured, WellFormed, Longer, OnlyCluster,
        Linked, Within, Grew, DataSect, ClusterSlots, SameFront, AllSlots, Unused, Numbers, Catalogued, Indexed,
        Names.Lawful, ShownAt, Listing;
      StretchFacts(f, v, win);
      StretchedSize(fs.geo, dirs, f, v, c, fs.view, win);
      LinkedGrew(f, dirChain, c, fs.Eoc());
      StoreStretched(fs.geo, dirs, f, v, index, places, logs, dirChain, c, fs.fat, fs.view, win);
      ShelfStretched(fs.geo, dirs, f, |v|, win, tail, c, fs.Eoc());
      AccountedStretched(f, m, dirs, logs, dirChain, c, fs.chains);
      FrontStretched(fs.geo, origin, v, c, fs.view);
      StillFits();
      AllSlotsMore(fs.geo, dirChain, c);
      BlankSlots(c);
      ListingLonger(v, ClusterSlots(fs.geo, c));
      IndexedLonger(index, places, places + ClusterSlots(fs.geo, c), files);
      dirs, dirChain := dirs + {c}, dirChain + [c];
      tail, places := c, places + ClusterSlots(fs.geo, c);
    }

    /** A directory that has not reached the limit can take another cluster. */
    lemma StillFits()
      requires tail != 0 && Numbers(dirChain) && places == AllSlots(fs.geo, dirChain) && |places| * SZDIRE < MAX_DIR
      requires fs.geo.csize > 0 && 4096 % fs.geo.csize == 0
      ensures (|places| + 16 * fs.geo.csize) * SZDIRE <= MAX_DIR
    {
      hide AllSlots;
      AllSlotsCount(fs.geo, dirChain);
      OneMoreFits(fs.geo.csize, |dirChain|);
    }

    /** The directory goes on with entries that were never used. */
    lemma ListingLonger(v: seq<Sector>, more: seq<Place>)
      requires Catalogued(Listing(v, places), files)
      requires forall q :: q in places ==> ShownAt(fs.view, q) == ShownAt(v, q)
      requires forall q :: q in more ==> ShownAt(fs.view, q)[0] == 0
      ensures Catalogued(Listing(fs.view, places + more), files)
    {
      hide Catalogued, ShownAt;
      var dirs0, dirs := Listing(v, places), Listing(fs.view, places + more);
      assert forall k :: 0 <= k < |places| ==> (places + more)[k] in places && dirs[k] == dirs0[k];
      assert forall k :: |places| <= k < |dirs| ==> (places + more)[k] in more;
      CataloguedLonger(dirs0, dirs, files);
    }

    lemma StretchFacts(f: seq<nat>, v: seq<Sector>, win: nat)
      requires Shelf(fs.geo, dirs, f, |v|, win) && Store(fs.geo, dirs, f, v, index, places, logs)
      ensures fs.geo.Valid() && fs.geo.csize > 0 && DataFits(fs.geo, |v|) && |v| < NO_SECTOR
      ensures forall k, c :: k in logs && c in logs[k].chain ==> c !in dirs
      ensures fs.Eoc() > 0
    {
      hide Meta, DataFits, AllApart, Directory, Holds, IsChain, Standing, Described, Chain;
    }

    lemma BlankSlots(c: nat)
      requires fs.geo.csize > 0 && DataFits(fs.geo, |fs.view|) && 2 <= c < fs.geo.nFatent
      requires forall s :: 0 <= s < |fs.view| && Within(fs.geo, c, s) ==> fs.view[s] == Blank()
      ensures forall q :: q in ClusterSlots(fs.geo, c) ==> Unused(fs.view, q) && ShownAt(fs.view, q)[0] == 0
    {
      hide DataFits, ClusterSlots;
      forall i: nat | i < 16 * fs.geo.csize
        ensures Unused(fs.view, ClusterSlots(fs.geo, c)[i]) && ShownAt(fs.view, ClusterSlots(fs.geo, c)[i])[0] == 0
      {
        SlotSect(fs.geo, c, i);
        DataSectBound(fs.geo, |fs.view|, c, i / 16);
      }
    }

    /**
     * dir_alloc: the end of the first run of unused entries that is long enough; the directory grows if there is none.
     */
    method DirAlloc(need: nat) returns (res: FResult, at: nat)
      requires 0 < need <= 16
      requires Valid()
      modifies `places, `tail, `dirChain, `dirs, fs, fs.win, fs.drive
      ensures fs.drive.faults >= old(fs.drive.faults)
      ensures res == Ok || (res == DiskErr && fs.drive.faults > old(fs.drive.faults))
        || (res == Denied && old(NoRoom(need)))
      ensures old(NoRoom(need)) ==> res != Ok
      ensures res == Denied ==> Valid() && places == old(places) && (old(!fs.wflag) ==> !fs.wflag)
      ensures res == Ok ==> Valid() && Room(fs.view, places, at, need) && L.FirstRoom(List(), at, need)
    {
      hide Volume.Valid, Volume.Tidy, Listed, Accounted, Store, Shelf, Honoured, DirListed, SameFront, Full, Unused,
        Room, Crowded, Sound, Combed, Slot, Catalogued, Indexed, Names.Lawful, Listing, L.FirstRoom;
      ghost var grown, size := false, |places|;
      var n := 0;
      at := 0;
      NotEmpty();
      SearchStart(fs.view, places, need);
      while true
        invariant Valid() && fs.drive.faults >= old(fs.drive.faults)
        invariant at < |places| && n < need && n <= at
        invariant Combed(fs.view, places, at, n, need)
        invariant !grown ==>
          places == old(places) && fs.view == old(fs.view) && fs.fat == old(fs.fat) && tail == old(tail)
            && (old(!fs.wflag) ==> !fs.wflag)
        invariant grown ==> size <= at <= size + n < size + 16 <= |places|
        invariant grown ==> forall i :: size <= i < |places| ==> Unused(fs.view, places[i])
        invariant grown ==> !old(NoRoom(need))
        decreases !grown, |places| - at
      {
        SlotAt(at, logs);
        res := Visit(places[at], logs);
        if res != Ok { return; }
        HereFacts(places[at]);
        SearchStep(fs.view, places, at, n, need);
        NoneBefore(fs.view, places, at, n, need);
        n := if UnusedHere(places[at]) then n + 1 else 0;
        assert grown ==> at + 1 <= size + n;
        if n == need {
          RoomReached(fs.view, places, at, need);
          RoomHere(at, need);
          return;
        }
        LongEnough();
        if (at + 1) * SZDIRE >= MAX_DIR {
          SearchEnds(fs.view, places, at + 1, n, need);
          return Denied, at;
        }
        if at + 1 == |places| {
          SearchEnds(fs.view, places, at + 1, n, need);
          ghost var v, ps := fs.view, places;
          res := Stretch();
          if res != Ok { return; }
          SearchStretched(v, ps, n, need, fs.view, places);
          grown := true;
        }
        at := at + 1;
      }
    }

    lemma RoomHere(at: nat, need: nat)
      requires Sound(logs) && Room(fs.view, places, at, need)
      requires forall e :: 0 <= e < at ==> !Room(fs.view, places, e, need)
      ensures L.FirstRoom(List(), at, need)
    {
      hide Volume.Valid, Volume.Tidy, Accounted, Honoured, DirListed, SameFront, AllFiled, AllApart, Shelf, Room,
        L.FirstRoom, Directory, Listing;
      RoomListed(fs.geo, dirs, fs.view, places, at, need);
    }

    /** The entry in the window is unused. */
    predicate UnusedHere(p: Place)
      requires p.ofs < fs.win.Length
      reads fs.win
    {
      Idle(fs.win[p.ofs])
    }

    lemma HereFacts(p: Place)
      requires p.sect < |fs.view| && fs.win[..] == fs.view[p.sect] && p.ofs < fs.win.Length == SS
      ensures UnusedHere(p) <==> Unused(fs.view, p)
    {
    }

    /** The store after an entry that is no log's, or FSINFO, was written. */
    lemma Besides(p: Place, v: seq<Sector>, win: nat, owners: map<Home, Log>)
      requires Shelf(fs.geo, dirs, fs.fat, |v|, win) && Store(fs.geo, dirs, fs.fat, v, index, places, logs)
      requires Slot(fs.geo, dirs, |v|, p) && forall m :: m in index ==> p !in index[m]
      requires OnlyLog(fs.geo, p, [], fs.fat, v, [], fs.fat, fs.view) && SameFront(fs.geo, origin, v)
      requires fs.Valid() && fs.Tidy() && Accounted(fs.chains, dirs, owners) && DirListed(fs.chains)
      requires Honoured(logs, receipts) && Meta(fs.geo, dirs, fs.winsect)
      ensures Sound(owners)
    {
      hide Volume.Valid, Volume.Tidy, Listed, Accounted, Shelf, Store, Honoured, DirListed, SameFront, OnlyLog, Slot,
        DataFits, Meta;
      ShelfFacts(fs.geo, dirs, fs.fat, |v|, win);
      StoreBesides(fs.geo, dirs, fs.fat, v, index, places, logs, p, fs.view, win);
      FrontKept(fs.geo, dirs, origin, p, [], fs.fat, v, [], fs.fat, fs.view);
      ShelfMoved(fs.geo, dirs, fs.fat, |v|, win, fs.winsect);
    }

    lemma PlainSlot(p: Place, owners: map<Home, Log>)
      requires Sound(owners) && Slot(fs.geo, dirs, |fs.view|, p)
      ensures fs.Plain(p.sect) && p.ofs + SZDIRE <= SS && |fs.view| < NO_SECTOR && fs.win.Length == SS
      ensures Meta(fs.geo, dirs, p.sect)
    {
    }

    lemma NobodysPlace(p: Place)
      requires Sound(logs) && Unused(fs.view, p)
      ensures forall m :: m in index ==> p !in index[m]
    {
      hide Volume.Valid, Volume.Tidy, Accounted, Honoured, DirListed, SameFront, Filed, Unused, Shelf, Directory;
      forall m | m in index ensures p !in index[m] {
        Nobodys(fs.geo, dirs, fs.fat, fs.view, index[m], logs[m], p);
      }
    }

    /** Only entry k of the directory has changed. */
    lemma OneChanged(k: nat, v: seq<Sector>, owners: map<Home, Log>)
      requires Sound(owners) && k < |places| && OnlyLog(fs.geo, places[k], [], fs.fat, v, [], fs.fat, fs.view)
      ensures SameBut(Listing(v, places), List(), k, k)
    {
      hide Volume.Valid, Volume.Tidy, Accounted, Honoured, DirListed, SameFront, AllFiled, AllApart, Slot, OnlyLog,
        DataFits, Meta;
      assert |fs.view| == |v| by { OnlyLogGrew(fs.geo, places[k], [], fs.fat, v, [], fs.fat, fs.view); }
      hide Listing;
      ListingKept(fs.geo, dirs, fs.fat, v, places, k, [], [], fs.fat, fs.view);
    }

    /** An entry of a long name is written where none is in use; everything else stays. */
    method WriteEntry(k: nat, e: L.Entry) returns (res: FResult)
      requires k < |places| && !Idle(e[0]) && Unused(fs.view, places[k])
      requires Sound(logs)
      modifies fs`winsect, fs`wflag, fs`view, fs.win, fs.drive
      ensures fs.drive.faults >= old(fs.drive.faults)
      ensures res == Ok || (res == DiskErr && fs.drive.faults > old(fs.drive.faults))
      ensures res == Ok ==> Sound(logs) && SameBut(old(List()), List(), k, k) && List()[k] == e
      ensures res == Ok ==> |fs.view| == |old(fs.view)|
    {
      hide Volume.Valid, Volume.Tidy, Listed, Accounted, Shelf, Store, Honoured, DirListed, SameFront, Slot, OnlyLog,
        Sound;
      SlotAt(k, logs);
      NobodysPlace(places[k]);
      res := Visit(places[k], logs);
      if res != Ok { return; }
      ghost var v, w := fs.view, fs.winsect;
      PlainSlot(places[k], logs);
      VisitFacts(logs);
      fs.Rewrite(Splice(fs.win[..], places[k].ofs, e));
      EntryOnly(fs.geo, places[k], fs.fat, v, fs.view);
      Besides(places[k], v, w, logs);
      OneChanged(k, v, logs);
      assert ShownAt(fs.view, places[k]) == e;
    }

    lemma VisitFacts(owners: map<Home, Log>)
      requires Sound(owners)
      ensures fs.Valid() && Shelf(fs.geo, dirs, fs.fat, |fs.view|, fs.winsect)
      ensures Store(fs.geo, dirs, fs.fat, fs.view, index, places, logs)
      ensures fs.Tidy() && Accounted(fs.chains, dirs, owners) && DirListed(fs.chains)
      ensures Honoured(logs, receipts) && SameFront(fs.geo, origin, fs.view)
    {
    }

    /** The storing loop of dir_register: the entries of the long name, last part first, from entry q on. */
    method WriteLong(q: nat, lfnbuf: array<L.Wchar>, nent0: nat, sum: byte, ghost name: seq<L.Wchar>)
      returns (res: FResult)
      requires L.Storable(name) && L.Buffered(lfnbuf[..], name) && nent0 == L.Entries(|name|) && q + nent0 < |places|
      requires forall k :: q <= k <= q + nent0 ==> Unused(fs.view, places[k])
      requires Sound(logs)
      modifies fs`winsect, fs`wflag, fs`view, fs.win, fs.drive
      ensures fs.drive.faults >= old(fs.drive.faults)
      ensures res == Ok || (res == DiskErr && fs.drive.faults > old(fs.drive.faults))
      ensures res == Ok ==> Sound(logs) && LongUpTo(old(List()), List(), q, q + nent0, name, sum)
      ensures res == Ok ==> Unused(fs.view, places[q + nent0])
    {
      hide Volume.Valid, Volume.Tidy, Listed, Accounted, Shelf, Store, Honoured, DirListed, SameFront, Slot, Unused,
        Sound, L.Holds, Listing, L.Storable, L.Buffered, LongUpTo;
      var at, nent := q, nent0;
      res := Ok;
      NothingYet(q, name, sum);
      while nent > 0
        invariant 0 <= nent <= nent0 && at == q + nent0 - nent && Sound(logs) && res == Ok
        invariant fs.drive.faults >= old(fs.drive.faults)
        invariant forall k :: at <= k <= q + nent0 ==> Unused(fs.view, places[k])
        invariant LongUpTo(old(List()), List(), q, at, name, sum)
      {
        ghost var dirs0, v := List(), fs.view;
        var dir := new byte[SZDIRE];
        L.PutLfn(lfnbuf, dir, nent, sum, name);
        OrderInUse(dir[..], name, nent, sum);
        res := WriteEntry(at, dir[..]);
        if res != Ok { return; }
        LongMore(old(List()), dirs0, List(), q, at, name, sum);
        StillUnused(v, at);
        at, nent := at + 1, nent - 1;
      }
    }

    lemma NothingYet(q: nat, name: seq<L.Wchar>, sum: byte)
      requires q <= |places|
      ensures LongUpTo(List(), List(), q, q, name, sum)
    {
    }

    lemma OrderInUse(e: L.Entry, name: seq<L.Wchar>, k: nat, sum: byte)
      requires L.Storable(name) && 1 <= k <= L.Entries(|name|) && L.Holds(e, name, k, sum)
      ensures !Idle(e[0])
    {
    }

    lemma StillUnused(v: seq<Sector>, at: nat)
      requires Sound(logs) && |v| == |fs.view| && SameBut(Listing(v, places), List(), at, at)
      ensures forall k :: 0 <= k < |places| && k != at ==> (Unused(v, places[k]) <==> Unused(fs.view, places[k]))
    {
      hide Volume.Valid, Volume.Tidy, Accounted, Honoured, DirListed, SameFront, AllFiled, AllApart, Shelf, Slot,
        Unused, ShownAt;
      forall k | 0 <= k < |places| && k != at ensures Unused(v, places[k]) <==> Unused(fs.view, places[k]) {
        assert Listing(v, places)[k] == List()[k];
        UnusedListed(fs.geo, dirs, v, places[k]);
        UnusedListed(fs.geo, dirs, fs.view, places[k]);
      }
    }

    /**
     * The rest of dir_register, and the initialisation in f_open: the entry at the end of the run becomes the short
     * one.
     */
    method WriteShort(at: nat, sfn: seq<byte>, nt: byte, tm: nat, ghost x: FileName, ghost dirs0: seq<L.Entry>)
      returns (res: FResult)
      requires |sfn| == 11 && GoodFirst(sfn[0]) && x.sfn == sfn && !Taken(files, sfn)
      requires at < |places| && Unused(fs.view, places[at]) && Prepared(dirs0, List(), at, x)
      requires forall m :: m in index ==> Foreign(places[x.First(at)..at + 1], index[m])
      requires Sound(logs) && Catalogued(dirs0, files) && Indexed(index, places, files) && names.Lawful()
      modifies `files, `index, `logs, fs`winsect, fs`wflag, fs`view, fs.win, fs.drive
      ensures fs.drive.faults >= old(fs.drive.faults)
      ensures res == Ok || (res == DiskErr && fs.drive.faults > old(fs.drive.faults))
      ensures res == Ok ==> Valid() && at !in old(logs) && logs == old(logs)[at := Log([], [])]
      ensures res == Ok ==> files == old(files)[at := x] && Reopened(at) && Fresh(List()[at], nt, tm)
    {
      hide Volume.Valid, Volume.Tidy, Listed, Accounted, Shelf, Store, Honoured, DirListed, SameFront, Slot, Unused,
        Created, Described, OnlyLog, Sound, Catalogued, Indexed, Names.Lawful, Prepared, Listing, IsFile, Foreign,
        ShownAt, Taken, Filed, Fresh;
      SlotAt(at, logs);
      res := Visit(places[at], logs);
      if res != Ok { return; }
      ghost var v, w, before := fs.view, fs.winsect, files;
      PlainSlot(places[at], logs);
      VisitFacts(logs);
      LongInUse(dirs0, at, x, v);
      FreshHome(dirs0, List(), at, x);
      fs.Rewrite(Created(fs.win[..], places[at].ofs, sfn, nt, tm));
      CreateOnly(fs.geo, places[at], fs.fat, v, fs.view, sfn, nt, tm);
      FreshHere(fs.geo.fsType, v[places[at].sect], fs.view, places[at], sfn, nt, tm);
      Register(at, x, v, w);
      Completed(dirs0, at, x, v, before);
    }

    /** The directory has the new file. */
    lemma Completed(dirs0: seq<L.Entry>, at: nat, x: FileName, v: seq<Sector>, before: map<Home, FileName>)
      requires Sound(logs) && at < |places| && files == before[at := x]
      requires OnlyLog(fs.geo, places[at], [], fs.fat, v, [], fs.fat, fs.view)
      requires Catalogued(dirs0, before) && Prepared(dirs0, Listing(v, places), at, x)
      requires |x.sfn| == 11 && GoodFirst(x.sfn[0]) && !Taken(before, x.sfn)
      requires ShownAt(fs.view, places[at])[..11] == x.sfn && IsFile(ShownAt(fs.view, places[at]))
      ensures Catalogued(List(), files)
    {
      hide Sound, OnlyLog, Catalogued, Prepared, IsFile, ShownAt, SameBut, Taken;
      OneChanged(at, v, logs);
      CataloguedNew(dirs0, Listing(v, places), List(), before, at, x);
    }

    /** The entries of the long name are in use by now. */
    lemma LongInUse(dirs0: seq<L.Entry>, at: nat, x: FileName, v: seq<Sector>)
      requires at < |places| && v == fs.view && Prepared(dirs0, List(), at, x)
      requires Sound(logs)
      ensures 0 <= x.First(at) <= at && forall k :: x.First(at) <= k < at ==> !Unused(v, places[k])
    {
      hide Volume.Valid, Volume.Tidy, Accounted, Honoured, DirListed, SameFront, AllFiled, AllApart, Shelf, Slot,
        Unused, ShownAt, Listing, L.Unused, L.Holds, L.SumOf;
      forall k | x.First(at) <= k < at ensures !Unused(v, places[k]) {
        var i: nat := k;
        UnusedListed(fs.geo, dirs, v, places[i]);
        OrderInUse(List()[i], x.title.value, at - i, L.SumOf(x.sfn));
        IdleUnused(List()[i]);
      }
    }

    lemma IdleUnused(e: L.Entry)
      ensures L.Unused(e) <==> Idle(e[0])
    {
    }

    /** No file's short entry is there yet. */
    lemma FreshHome(dirs0: seq<L.Entry>, dirs1: seq<L.Entry>, at: nat, x: FileName)
      requires Catalogued(dirs0, files) && Indexed(index, places, files) && Prepared(dirs0, dirs1, at, x)
      ensures at !in files && at !in index
    {
      hide Catalogued, LongUpTo, L.FirstRoom;
      PreparedFree(dirs0, dirs1, files, at, x);
    }

    /** The entries up to place at are the new log's. */
    method Register(at: nat, ghost x: FileName, ghost v: seq<Sector>, ghost win: nat)
      requires at !in index && 0 <= x.First(at) <= at < |places| && at !in files
      requires forall m :: m in index ==> Foreign(places[x.First(at)..at + 1], index[m])
      requires forall k :: x.First(at) <= k < at ==> !Unused(v, places[k])
      requires Shelf(fs.geo, dirs, fs.fat, |v|, win) && Store(fs.geo, dirs, fs.fat, v, index, places, logs)
      requires OnlyLog(fs.geo, places[at], [], fs.fat, v, [], fs.fat, fs.view)
      requires Described(fs.geo, fs.view, places[at], Log([], [])) && Indexed(index, places, files)
      requires fs.Valid() && fs.Tidy() && Accounted(fs.chains, dirs, logs) && DirListed(fs.chains)
      requires Honoured(logs, receipts) && SameFront(fs.geo, origin, v) && fs.winsect == places[at].sect
      requires fs.win[..] == fs.view[fs.winsect]
      modifies `files, `index, `logs
      ensures Sound(logs) && Indexed(index, places, files) && at !in old(logs) && Reopened(at)
      ensures logs == old(logs)[at := Log([], [])] && files == old(files)[at := x]
    {
      hide Volume.Valid, Volume.Tidy, Listed, Accounted, Shelf, Store, Honoured, DirListed, SameFront, Slot, Unused,
        Described, OnlyLog, Standing, Foreign, Directory, DataFits, Indexed, Filed;
      var q := x.First(at);
      ghost var b := places[q..at + 1];
      StoreParts(v);
      RunStanding(fs.geo, dirs, v, places, at, at + 1 - q);
      ShortSlot(fs.geo, dirs, v, b);
      StoreGrown(fs.geo, dirs, fs.fat, v, index, places, logs, at, b, fs.view, win);
      ShelfFacts(fs.geo, dirs, fs.fat, |v|, win);
      FrontKept(fs.geo, dirs, origin, places[at], [], fs.fat, v, [], fs.fat, fs.view);
      SlotFacts(fs.geo, dirs, |v|, places[at]);
      ShelfMoved(fs.geo, dirs, fs.fat, |v|, win, fs.winsect);
      GrownHonours(logs, receipts, at);
      AccountedNew(fs.chains, dirs, logs, at);
      IndexedMore(index, places, files, at, x);
      files, index, logs := files[at := x], index[at := b], logs[at := Log([], [])];
    }

    lemma StoreParts(v: seq<Sector>)
      requires Store(fs.geo, dirs, fs.fat, v, index, places, logs)
      ensures Directory(fs.geo, dirs, |v|, places) && index.Keys == logs.Keys
    {
    }

    /** The log would have to be created, and there is no short name or no room for it. */
    ghost predicate NoPlace(w: Wanted)
      reads `files, `places, `tail, fs`view, fs`fat
    {
      && NotFound(names.up, N.Query(w.fn, w.loss, false), w.name, files)
      && (names.ShortFor(files, w).None? || NoRoom(w.Need()))
    }

    /** The short name of a new log: if the name does not fit into one, the first numbered one that is not taken. */
    method PickName(w: Wanted, lfnbuf: array<L.Wchar>) returns (res: FResult, sfn: seq<byte>)
      requires w.Proper() && NotFound(names.up, N.Query(w.fn, w.loss, false), w.name, files)
      requires lfnbuf.Length == L.MAX_LFN + 1 && L.Buffered(lfnbuf[..], w.name)
      requires Valid()
      modifies fs`winsect, fs`wflag, fs.win, fs.drive
      ensures fs.drive.faults >= old(fs.drive.faults) && (old(!fs.wflag) ==> !fs.wflag)
      ensures res == Ok || (res == Denied && names.ShortFor(files, w).None?)
        || (res == DiskErr && fs.drive.faults > old(fs.drive.faults))
      ensures res == Ok || res == Denied ==> Valid()
      ensures res == Ok ==>
        names.ShortFor(files, w) == Some(sfn) && |sfn| == 11 && GoodFirst(sfn[0]) && !Taken(files, sfn)
    {
      hide Sound, Catalogued, Indexed, FoundAs, Reopened, L.Buffered;
      sfn := w.fn;
      if !w.loss { return Ok, sfn; }
      names.FreeName(files, w, 1);
      var n := 1;
      while n < 100
        invariant 1 <= n <= 100 && Valid() && names.FreeFrom(files, w, n) == names.FreeFrom(files, w, 1)
        invariant fs.drive.faults >= old(fs.drive.faults) && (old(!fs.wflag) ==> !fs.wflag)
      {
        sfn := names.numbered(w.fn, w.name, n);
        var at, blk;
        res, at, blk := DirFind(lfnbuf, N.Query(sfn, false, true), w.name);
        if res == NoFile {
          NotTaken(sfn, w.name);
          return Ok, sfn;
        }
        if res != Ok { return; }
        TakenHere(sfn, w.name, at);
        n := n + 1;
      }
      return Denied, sfn;
    }

    lemma NotTaken(sfn: seq<byte>, m: seq<L.Wchar>)
      requires NotFound(names.up, N.Query(sfn, false, true), m, files)
      ensures !Taken(files, sfn)
    {
    }

    lemma TakenHere(sfn: seq<byte>, m: seq<L.Wchar>, at: nat)
      requires FoundAs(names.up, N.Query(sfn, false, true), m, files, at)
      ensures Taken(files, sfn)
    {
    }

    /**
     * dir_register and the initialisation in f_open: the first run of unused entries that is long enough takes the
     * name, and a new empty log is there.
     */
    method Create(w: Wanted, lfnbuf: array<L.Wchar>, tm: nat) returns (res: FResult, at: nat)
      requires w.Proper() && |w.name| < STORAGE_LOG_LEN
      requires NotFound(names.up, N.Query(w.fn, w.loss, false), w.name, files)
      requires lfnbuf.Length == L.MAX_LFN + 1 && L.Buffered(lfnbuf[..], w.name)
      requires Valid()
      modifies `files, `index, `logs, `places, `tail, `dirChain, `dirs, fs, fs.win, fs.drive
      ensures fs.drive.faults >= old(fs.drive.faults)
      ensures res == Ok || (res == DiskErr && fs.drive.faults > old(fs.drive.faults))
        || (res == Denied && old(NoPlace(w)))
      ensures old(NoPlace(w)) ==> res != Ok
      ensures res == Denied ==> Valid() && files == old(files) && logs == old(logs) && (old(!fs.wflag) ==> !fs.wflag)
      ensures res == Ok ==> Valid() && at !in old(logs) && logs == old(logs)[at := Log([], [])] && Reopened(at)
      ensures res == Ok ==> old(names.ShortFor(files, w)).Some?
      ensures res == Ok ==>
        files == old(files)[at := FileName(old(names.ShortFor(files, w)).value, if w.long then Some(w.name) else None)]
      ensures res == Ok ==> at < |places| && Fresh(List()[at], w.nt, tm)
    {
      hide Sound, NoRoom, Fresh, Catalogued, Indexed, Names.ShortFor, NotFound, L.Buffered, L.Storable, Reopened, Taken,
        Names.Lawful;
      at := 0;
      var sfn;
      res, sfn := PickName(w, lfnbuf);
      if res == Ok {
        res, at := Enter(w, sfn, lfnbuf, tm);
      }
    }

    /** Once the short name is known: room for the entries of the name is found, and they are written. */
    method Enter(w: Wanted, sfn: seq<byte>, lfnbuf: array<L.Wchar>, tm: nat) returns (res: FResult, at: nat)
      requires w.Proper() && |w.name| < STORAGE_LOG_LEN && |sfn| == 11 && GoodFirst(sfn[0]) && !Taken(files, sfn)
      requires lfnbuf.Length == L.MAX_LFN + 1 && L.Buffered(lfnbuf[..], w.name)
      requires Valid()
      modifies `files, `index, `logs, `places, `tail, `dirChain, `dirs, fs, fs.win, fs.drive
      ensures fs.drive.faults >= old(fs.drive.faults)
      ensures res == Ok || (res == DiskErr && fs.drive.faults > old(fs.drive.faults))
        || (res == Denied && old(NoRoom(w.Need())))
      ensures old(NoRoom(w.Need())) ==> res != Ok
      ensures res == Denied ==> Valid() && files == old(files) && logs == old(logs) && (old(!fs.wflag) ==> !fs.wflag)
      ensures res == Ok ==> Valid() && at !in old(logs) && logs == old(logs)[at := Log([], [])] && Reopened(at)
      ensures res == Ok ==> files == old(files)[at := FileName(sfn, if w.long then Some(w.name) else None)]
      ensures res == Ok ==> at < |places| && Fresh(List()[at], w.nt, tm)
    {
      hide Sound, NoRoom, Fresh, Unused, Slot, Foreign, Room, Catalogued, Indexed, L.Buffered, L.Storable, L.FirstRoom,
        L.SumOf, Listing, LongUpTo, Prepared, Reopened, Taken, Names.Lawful;
      var nlen := L.NameLength(lfnbuf, w.name);
      var nent := if w.long then (nlen + 12) / 13 + 1 else 1;
      res, at := DirAlloc(nent);
      if res != Ok { return; }
      ghost var dirs0, x := List(), FileName(sfn, if w.long then Some(w.name) else None);
      RoomNobodys(at, nent);
      res := WriteTitle(w, sfn, lfnbuf, at, nent);
      if res != Ok { return; }
      PreparedFirst(dirs0, List(), at, x);
      res := WriteShort(at, sfn, w.nt, tm, x, dirs0);
    }

    lemma PreparedFirst(dirs0: seq<L.Entry>, dirs: seq<L.Entry>, at: nat, x: FileName)
      requires Prepared(dirs0, dirs, at, x)
      ensures 0 <= x.First(at) <= at
    {
      hide LongUpTo, L.FirstRoom;
    }

    /** The entries of the long name, if there is to be one. */
    method WriteTitle(w: Wanted, sfn: seq<byte>, lfnbuf: array<L.Wchar>, at: nat, nent: nat) returns (res: FResult)
      requires w.Proper() && |sfn| == 11 && L.Buffered(lfnbuf[..], w.name)
      requires nent == w.Need() <= at + 1 <= |places| && L.FirstRoom(List(), at, nent)
      requires forall k :: at + 1 - nent <= k <= at ==> Unused(fs.view, places[k])
      requires Sound(logs)
      modifies fs`winsect, fs`wflag, fs`view, fs.win, fs.drive
      ensures fs.drive.faults >= old(fs.drive.faults)
      ensures res == Ok || (res == DiskErr && fs.drive.faults > old(fs.drive.faults))
      ensures res == Ok ==>
        && Sound(logs) && Unused(fs.view, places[at])
        && Prepared(old(List()), List(), at, FileName(sfn, if w.long then Some(w.name) else None))
    {
      hide Sound, Unused, L.Buffered, L.Storable, L.FirstRoom, L.SumOf, Listing, LongUpTo, Prepared;
      res := Ok;
      if w.long {
        var sum := L.SumSfn(L.ShortEntry(sfn, w.nt));
        SfnOf(sfn, w.nt);
        res := WriteLong(at + 1 - nent, lfnbuf, nent - 1, sum, w.name);
        if res != Ok { return; }
      }
      IsPrepared(old(List()), List(), w, at, sfn);
    }

    lemma SfnOf(sfn: seq<byte>, nt: byte)
      requires |sfn| == 11
      ensures L.ShortEntry(sfn, nt)[..11] == sfn
    {
    }

    lemma IsPrepared(dirs0: seq<L.Entry>, dirs: seq<L.Entry>, w: Wanted, at: nat, sfn: seq<byte>)
      requires w.Proper() && w.Need() <= at + 1 && at < |dirs| && L.FirstRoom(dirs0, at, w.Need())
      requires if w.long then LongUpTo(dirs0, dirs, at + 1 - w.Need(), at, w.name, L.SumOf(sfn)) else dirs == dirs0
      ensures Prepared(dirs0, dirs, at, FileName(sfn, if w.long then Some(w.name) else None))
    {
      hide L.FirstRoom, LongUpTo, L.Storable, L.SumOf;
    }

    lemma RoomNobodys(at: nat, need: nat)
      requires Sound(logs) && Room(fs.view, places, at, need) && need > 0
      ensures need <= at + 1 <= |places| && forall k :: at + 1 - need <= k <= at ==> Unused(fs.view, places[k])
      ensures forall m :: m in index ==> Foreign(places[at + 1 - need..at + 1], index[m])
    {
      hide Volume.Valid, Volume.Tidy, Accounted, Honoured, DirListed, SameFront, Filed, Unused, Shelf, Directory,
        Foreign;
      RoomForeign(fs.geo, dirs, fs.fat, fs.view, index, logs, places, at, need);
    }

    lemma ListedLog(n: Home)
      requires Sound(logs) && n in index
      ensures n in logs && Listed(fs.chains, logs[n].chain) && fs.Tidy()
    {
      NotEmpty();
    }

    lemma FiledSlot(n: Home)
      requires Sound(logs) && n in index
      ensures index[n] != [] && Slot(fs.geo, dirs, |fs.view|, Short(index[n])) && FsiReserved(fs.geo)
    {
      hide Volume.Valid, Volume.Tidy, Listed, Accounted, Honoured, SameFront, DirListed, Described, Stored, AllApart,
        Directory, Slot;
    }

    /** The end of f_open, once the window shows the directory entry: a file object for it. */
    method OpenHere(n: Home, read: bool, write: bool, created: bool) returns (file: File)
      requires Reopened(n)
      requires Sound(logs)
      ensures file.Valid() && file.fs == fs && file.dirs == dirs && fresh(file) && fresh(file.buf)
      ensures n in logs && file.chain == logs[n].chain && file.content == logs[n].bytes
      ensures Place(file.dirSect, file.dirOfs) == Short(index[n]) && !Unused(fs.view, Short(index[n]))
      ensures file.fptr == 0 && file.readable == read && file.writable == write && file.modified == created
      ensures !file.dirty && file.err == Ok && file.sect == 0
    {
      hide Volume.Valid, Volume.Tidy, Listed, Accounted, Store, Honoured, IsChain, Holds, Geometry.Valid, Standing,
        SameFront, DirListed;
      StoreFacts(n);
      ListedLog(n);
      var p := places[n];
      file := new File.Open(fs, p.sect, p.ofs, LdClust(fs.geo.fsType, fs.win[..], p.ofs), LdSize(fs.win[..], p.ofs),
        read, write, created, logs[n].chain, logs[n].bytes, dirs);
    }

    /** The chains of the volume after one log has grown. */
    lemma AccountedKept(n: Home, l: Log, f: seq<nat>, v: seq<Sector>, m: Chains)
      requires n in index && n in logs && WellFormed(f, m) && Accounted(m, dirs, logs) && DirListed(m) && fs.Tidy()
      requires Listed(fs.chains, l.chain)
      requires index[n] != [] && OnlyLog(fs.geo, Short(index[n]), logs[n].chain, f, v, l.chain, fs.fat, fs.view)
      requires Store(fs.geo, dirs, fs.fat, fs.view, index, places, logs[n := l])
      ensures Accounted(fs.chains, dirs, logs[n := l]) && DirListed(fs.chains)
    {
      hide WellFormed, Standing, Directory, Holds, IsChain, Described, Chain, DataFits, Apart, OnlyLog, AllSlots;
      assert Listed(m, logs[n].chain);
      OnlyLogGrew(fs.geo, Short(index[n]), logs[n].chain, f, v, l.chain, fs.fat, fs.view);
      OthersStay(f, m, logs[n].chain, fs.fat, fs.chains, l.chain);
      forall k | k in logs && k != n ensures Apart(l.chain, logs[k].chain) {
        assert logs[n := l][k] == logs[k];
      }
      AccountedGrown(f, m, dirs, logs, n, l);
      assert Filed(fs.geo, dirs, fs.fat, fs.view, index[n], l);
      if tail != 0 && l.chain != [] { assert l.chain[0] in l.chain && dirChain[0] in dirChain; }
    }

    /** A write has ended well: the log has grown, and there is a receipt for it. */
    ghost method Record(n: Home, l: Log, d: seq<byte>, f: seq<nat>, v: seq<Sector>, win: nat, m: Chains)
      requires n in index && Shelf(fs.geo, dirs, f, |v|, win) && Store(fs.geo, dirs, f, v, index, places, logs)
      requires Honoured(logs, receipts) && SameFront(fs.geo, origin, v)
      requires fs.Valid() && Shelf(fs.geo, dirs, fs.fat, |fs.view|, fs.winsect) && n in logs && index[n] != []
      requires OnlyLog(fs.geo, Short(index[n]), logs[n].chain, f, v, l.chain, fs.fat, fs.view)
      requires Filed(fs.geo, dirs, fs.fat, fs.view, index[n], l)
      requires l.bytes == logs[n].bytes + d
      requires WellFormed(f, m) && Accounted(m, dirs, logs) && DirListed(m) && fs.Tidy() && Listed(fs.chains, l.chain)
      modifies `logs, `receipts
      ensures Sound(logs) && logs == old(logs)[n := l]
      ensures receipts == old(receipts) + {Receipt(n, |old(logs)[n].bytes|, d)}
    {
      hide Volume.Valid, Volume.Tidy, Listed, Accounted, Shelf, Honoured, OnlyLog, Filed, Store, SameFront, DirListed,
        DataFits, Slot;
      StoreKept(fs.geo, dirs, f, v, index, places, logs, n, l, fs.fat, fs.view, win);
      AccountedKept(n, l, f, v, m);
      AppendHonours(logs, receipts, n, l, d);
      FrontRecorded(n, l.chain, f, v, win);
      receipts := receipts + {Receipt(n, |logs[n].bytes|, d)};
      logs := logs[n := l];
    }

    lemma FrontRecorded(n: Home, dh: seq<nat>, f: seq<nat>, v: seq<Sector>, win: nat)
      requires n in index && Shelf(fs.geo, dirs, f, |v|, win) && Store(fs.geo, dirs, f, v, index, places, logs)
      requires n in logs && index[n] != [] && SameFront(fs.geo, origin, v)
      requires OnlyLog(fs.geo, Short(index[n]), logs[n].chain, f, v, dh, fs.fat, fs.view)
      ensures SameFront(fs.geo, origin, fs.view)
    {
      hide Shelf, OnlyLog, SameFront, Stored, Described, Slot, Directory, DataFits;
      ShelfFacts(fs.geo, dirs, f, |v|, win);
      assert Filed(fs.geo, dirs, f, v, index[n], logs[n]);
      ShortSlot(fs.geo, dirs, v, index[n]);
      FrontKept(fs.geo, dirs, origin, Short(index[n]), logs[n].chain, f, v, dh, fs.fat, fs.view);
    }

    /** Writing to a log or reading it keeps the catalogue. */
    lemma StillCatalogued(n: Home, dh: seq<nat>, f: seq<nat>, v: seq<Sector>, ch: seq<nat>, win: nat)
      requires Catalogued(Listing(v, places), files) && Indexed(index, places, files) && n in index && index[n] != []
      requires Directory(fs.geo, dirs, |v|, places) && Shelf(fs.geo, dirs, f, |v|, win)
      requires OnlyLog(fs.geo, Short(index[n]), ch, f, v, dh, fs.fat, fs.view)
      requires Touched(ShownAt(v, Short(index[n])), ShownAt(fs.view, Short(index[n])))
      requires forall c :: c in dirs ==> c !in dh
      ensures Catalogued(List(), files)
    {
      hide Catalogued, Directory, Shelf, OnlyLog, Touched, ShownAt, DataFits, SameBut;
      ShelfFacts(fs.geo, dirs, f, |v|, win);
      assert Short(index[n]) == places[n];
      ListingKept(fs.geo, dirs, f, v, places, n, dh, ch, fs.fat, fs.view);
      CataloguedTouched(Listing(v, places), List(), files, n);
    }

    /** The log n, whose entry is in the window, grows by the bytes reported. */
    method Extend(n: Home, data: seq<byte>, created: bool, tm: nat) returns (res: FResult, bw: nat, offset: nat)
      requires Reopened(n) && |data| <= 0xFFFF_FFFF
      requires Valid()
      modifies `logs, `receipts, fs, fs.win, fs.drive
      ensures fs.drive.faults >= old(fs.drive.faults) && n in old(logs)
      ensures res != Ok ==> fs.drive.faults > old(fs.drive.faults)
      ensures res == Ok && fs.drive.faults == old(fs.drive.faults) ==>
        && Valid() && n in logs && logs == old(logs)[n := logs[n]] && offset == |old(logs)[n].bytes| && bw <= |data|
        && logs[n].bytes == old(logs)[n].bytes + data[..bw]
        && receipts == old(receipts) + {Receipt(n, offset, data[..bw])}
        && (bw < |data| ==> Full(fs.fat) || offset + bw == MAX_SIZE)
        && !fs.wflag && !fs.drive.unsynced
        && n < |places| && Stamp(List()[n]) == tm % 0x1_0000_0000 && SameBirth(old(List())[n], List()[n])
    {
      hide Volume.Valid, Volume.Tidy, Listed, Accounted, File.Valid, Shelf, Store, Honoured, OnlyLog, Full,
        EntryPlace, DirListed, WellFormed, FsiReserved, Slot, Described, Stored, Unused, SameFront, Standing, Meta,
        Catalogued, Indexed, ShownAt, Touched, Names.Lawful, Directory, SameBirth, Stamp;
      var file := OpenHere(n, false, true, created);
      StoreFacts(n);
      FiledSlot(n);
      TidyFacts();
      StoreParts(fs.view);
      ghost var f, v, w, m := fs.fat, fs.view, fs.winsect, fs.chains;
      res, bw, offset := AppendTo(file, data, tm);
      if res == Ok && fs.drive.faults == old(fs.drive.faults) {
        Refiled(n, f, v, w, file.chain, fs.fat, fs.view, file.content);
        StoredFacts(fs.geo, dirs, fs.fat, fs.view, Log(file.chain, file.content));
        StillCatalogued(n, file.chain, f, v, logs[n].chain, w);
        Record(n, Log(file.chain, file.content), data[..bw], f, v, w, m);
      }
    }

    /** The log whose short entry was rewritten is filed again. */
    lemma Refiled(n: Home, f: seq<nat>, v: seq<Sector>, win: nat, dh: seq<nat>, e: seq<nat>, w: seq<Sector>,
                  bytes: seq<byte>)
      requires n in index && n in logs && Filed(fs.geo, dirs, f, v, index[n], logs[n])
      requires Shelf(fs.geo, dirs, f, |v|, win)
      requires OnlyLog(fs.geo, Short(index[n]), logs[n].chain, f, v, dh, e, w)
      requires Described(fs.geo, w, Short(index[n]), Log(dh, bytes)) && Stored(fs.geo, dirs, e, w, Log(dh, bytes))
      ensures Filed(fs.geo, dirs, e, w, index[n], Log(dh, bytes))
    {
      hide Shelf, OnlyLog, Described, Stored, Slot, DataFits, Standing;
      ShelfFacts(fs.geo, dirs, f, |v|, win);
      ShortSlot(fs.geo, dirs, v, index[n]);
      StoredFacts(fs.geo, dirs, e, w, Log(dh, bytes));
      StandingKept(fs.geo, dirs, f, v, index[n], Short(index[n]), dh, logs[n].chain, e, w);
    }

    /** Reading has ended well: nothing of the store has changed. */
    lemma Unchanged(n: Home, f: seq<nat>, v: seq<Sector>, win: nat, m: Chains)
      requires n in index && Shelf(fs.geo, dirs, f, |v|, win) && Store(fs.geo, dirs, f, v, index, places, logs)
      requires Honoured(logs, receipts) && SameFront(fs.geo, origin, v) && index[n] != []
      requires fs.Valid() && Shelf(fs.geo, dirs, fs.fat, |fs.view|, fs.winsect) && n in logs
      requires Filed(fs.geo, dirs, f, v, index[n], logs[n])
      requires OnlyLog(fs.geo, Short(index[n]), logs[n].chain, f, v, logs[n].chain, fs.fat, fs.view)
      requires Stored(fs.geo, dirs, fs.fat, fs.view, logs[n])
      requires fs.view[Short(index[n]).sect] == v[Short(index[n]).sect]
      requires WellFormed(f, m) && Accounted(m, dirs, logs) && DirListed(m) && fs.Tidy()
      requires Listed(fs.chains, logs[n].chain)
      ensures Sound(logs)
    {
      hide Volume.Valid, Volume.Tidy, Listed, Accounted, Shelf, Honoured, OnlyLog, Store, Stored, SameFront, DirListed,
        Standing, DataFits, Slot;
      assert Described(fs.geo, v, Short(index[n]), logs[n]);
      OnlyLogGrew(fs.geo, Short(index[n]), logs[n].chain, f, v, logs[n].chain, fs.fat, fs.view);
      StillDescribed(fs.geo, v, fs.view, Short(index[n]), logs[n]);
      Refiled(n, f, v, win, logs[n].chain, fs.fat, fs.view, logs[n].bytes);
      hide Filed;
      StoreKept(fs.geo, dirs, f, v, index, places, logs, n, logs[n], fs.fat, fs.view, win);
      AccountedKept(n, logs[n], f, v, m);
      FrontRecorded(n, logs[n].chain, f, v, win);
      assert logs[n := logs[n]] == logs;
    }

    /** f_lseek, f_read and f_close on the log n, whose entry is in the window. */
    method Retrieve(n: Home, offset: nat, len: nat) returns (res: FResult, data: seq<byte>)
      requires offset <= 0xFFFF_FFFF && Reopened(n)
      requires Valid()
      modifies fs, fs.win, fs.drive
      ensures fs.drive.faults >= old(fs.drive.faults)
      ensures res == Ok ==> Valid() && n in logs && data == Slice(logs[n].bytes, offset, len)
      ensures res != Ok ==> fs.drive.faults > old(fs.drive.faults)
      ensures res == Ok ==> old(!fs.wflag) ==> !fs.wflag
    {
      hide Volume.Valid, Volume.Tidy, Listed, Accounted, File.Valid, Shelf, Store, Honoured, OnlyLog, Stored,
        EntryPlace, DirListed, SameFront, Standing, Described, Slot, Catalogued, Indexed, Listing, ShownAt, Touched,
        Names.Lawful, Directory, Unused;
      data := [];
      var file := OpenHere(n, true, false, false);
      StoreFacts(n);
      FiledSlot(n);
      TidyFacts();
      StoreParts(fs.view);
      ghost var f, v, w, m := fs.fat, fs.view, fs.winsect, fs.chains;
      res, data := ReadFrom(file, offset, len);
      if res == Ok {
        StoredFacts(fs.geo, dirs, fs.fat, fs.view, logs[n]);
        SameEntry(v, fs.view, Short(index[n]));
        StillCatalogued(n, logs[n].chain, f, v, logs[n].chain, w);
        Unchanged(n, f, v, w, m);
      }
    }

    lemma SameEntry(v: seq<Sector>, w: seq<Sector>, p: Place)
      requires p.sect < |v| == |w| && w[p.sect] == v[p.sect]
      ensures Touched(ShownAt(v, p), ShownAt(w, p))
    {
    }

    // ---- writing to a log ----------------------------------------------------------------------------

    /** The name means the log n, which was there, or else has been given that name. */
    ghost predicate Opened(before: map<Home, FileName>, w: Wanted, n: Home)
      reads `files
    {
      && FoundAs(names.up, N.Query(w.fn, w.loss, false), w.name, files, n)
      && if NotFound(names.up, N.Query(w.fn, w.loss, false), w.name, before)
         then n !in before && names.ShortFor(before, w).Some?
           && files == before[n := FileName(names.ShortFor(before, w).value, if w.long then Some(w.name) else None)]
         else files == before
    }

    /** The entry of the log that the name means is brought into the window; a log that does not exist is created. */
    method Find(w: Wanted, tm: nat) returns (res: FResult, n: Home, created: bool)
      requires w.Proper() && |w.name| < STORAGE_LOG_LEN
      requires Valid()
      modifies `files, `index, `logs, `places, `tail, `dirChain, `dirs, fs, fs.win, fs.drive
      ensures fs.drive.faults >= old(fs.drive.faults)
      ensures res == Ok ==> Valid() && Reopened(n) && Opened(old(files), w, n)
      ensures res == Ok ==> logs == if n in old(logs) then old(logs) else old(logs)[n := Log([], [])]
      ensures res == Ok ==> (created <==> n !in old(files)) && n < |places| && (created ==> Fresh(List()[n], w.nt, tm))
      ensures old(NoPlace(w)) ==> res != Ok
      ensures res != Ok ==>
        fs.drive.faults > old(fs.drive.faults)
        || (old(NoPlace(w)) && Valid() && files == old(files) && logs == old(logs) && (old(!fs.wflag) ==> !fs.wflag))
    {
      hide Sound, Catalogued, Indexed, Names.Lawful, NoRoom, Reopened, FoundAs, NotFound, L.Buffered, L.Storable,
        Names.ShortFor, Means, Fresh, Listing;
      created := false;
      SameNames();
      NameUnits(w);
      var lfnbuf := NameBuffer(w.name);
      var blk;
      res, n, blk := DirFind(lfnbuf, N.Query(w.fn, w.loss, false), w.name);
      if res == Ok {
        FoundSome(names.up, N.Query(w.fn, w.loss, false), w.name, files, n);
        StillThere(n);
      } else if res == NoFile {
        created := true;
        ShortName(w);
        res, n := Create(w, lfnbuf, tm);
        if res == Ok { FoundNew(names.up, w, old(files), n, files[n]); }
      }
    }

    lemma StillThere(n: Home)
      requires Reopened(n)
      ensures n < |places|
    {
    }

    lemma NameUnits(w: Wanted)
      requires w.Proper()
      ensures |w.name| <= L.MAX_LFN && forall i :: 0 <= i < |w.name| ==> w.name[i] != 0
    {
    }

    lemma ShortName(w: Wanted)
      ensures !w.loss ==> names.ShortFor(files, w) == Some(w.fn)
    {
    }

    /**
     * f_open for appending, f_write and f_close on the log that the name means, which is created if need be. Unless an
     * access of the drive fails, the bytes reported go behind what the log held, which stays, and so does every other
     * log; and it fails exactly if the log does not exist and cannot be created.
     */
    method Append(w: Wanted, data: seq<byte>, tm: nat) returns (res: FResult, bw: nat, offset: nat, ghost n: Home)
      requires w.Proper() && |w.name| < STORAGE_LOG_LEN && |data| <= 0xFFFF_FFFF
      requires Valid()
      modifies this, fs, fs.win, fs.drive
      ensures fs.drive.faults >= old(fs.drive.faults)
      ensures res == Ok && fs.drive.faults == old(fs.drive.faults) ==>
        && Valid() && Opened(old(files), w, n) && n in logs && offset == |BytesOf(old(logs), n)| && bw <= |data|
        && logs[n].bytes == BytesOf(old(logs), n) + data[..bw]
        && (forall m :: m in old(logs) && m != n ==> m in logs && logs[m] == old(logs)[m])
        && logs.Keys == old(logs).Keys + {n}
        && receipts == old(receipts) + {Receipt(n, offset, data[..bw])}
        && (bw < |data| ==> Full(fs.fat) || offset + bw == MAX_SIZE)
        && !fs.wflag && !fs.drive.unsynced
        && n < |places| && Stamp(List()[n]) == tm % 0x1_0000_0000
        && (n !in old(files) ==> List()[n][12] == w.nt && LdDword(List()[n], 14) == tm % 0x1_0000_0000)
      ensures old(NoPlace(w)) ==> res != Ok
      ensures res != Ok ==>
        fs.drive.faults > old(fs.drive.faults)
        || (old(NoPlace(w)) && Valid() && files == old(files) && logs == old(logs) && receipts == old(receipts)
            && (old(!fs.wflag) ==> !fs.wflag))
    {
      hide Sound, Catalogued, Indexed, Names.Lawful, Full, NoPlace, Reopened, Opened, SameBirth, Stamp, Fresh, LdDword,
        Listing;
      bw, offset := 0, 0;
      var home, created;
      res, home, created := Find(w, tm);
      n := home;
      if res == Ok {
        ghost var e := List()[n];
        res, bw, offset := Extend(home, data, created, tm);
        if res == Ok && fs.drive.faults == old(fs.drive.faults) && created { StartKept(e, List()[n], w.nt, tm); }
      }
    }

    lemma StartKept(e: L.Entry, d: L.Entry, nt: byte, tm: nat)
      requires Fresh(e, nt, tm) && SameBirth(e, d)
      ensures d[12] == nt && LdDword(d, 14) == tm % 0x1_0000_0000
    {
    }

    // ---- deleting a log ----------------------------------------------------------------------------

    /** The log is none of the store's any more; its entries and clusters still have to go. */
    method ForgetEntry(n: Home)
      requires Valid() && n in index
      modifies `files, `index, `logs, `receipts
      ensures Sound(old(logs)) && Indexed(index, places, files)
      ensures index == old(index) - {n} && logs == old(logs) - {n} && files == old(files) - {n}
      ensures receipts == set r | r in old(receipts) && r.home != n
      ensures forall m :: m in index ==> Foreign(old(index)[n], index[m])
      ensures forall m :: m in logs ==> Apart(old(logs)[n].chain, logs[m].chain)
    {
      hide Volume.Valid, Volume.Tidy, Listed, Accounted, Shelf, Store, SameFront, DirListed, Kept, Foreign, Apart,
        Catalogued, Names.Lawful;
      SameNames();
      StoreWithout(fs.geo, dirs, fs.fat, fs.view, index, places, logs, n);
      OthersHonoured(logs, receipts, n);
      files, index := files - {n}, index - {n};
      logs, receipts := logs - {n}, set r | r in receipts && r.home != n;
    }

    /** The receipts of all logs but n. */
    lemma OthersHonoured(ls: map<Home, Log>, rs: set<Receipt>, n: Home)
      requires Honoured(ls, rs)
      ensures Honoured(ls - {n}, set r | r in rs && r.home != n)
    {
      forall r | r in rs && r.home != n ensures Kept(ls - {n}, r) { assert Kept(ls, r); }
    }

    /** dir_remove: every entry of the block is marked as deleted. */
    method MarkDeleted(from: nat, last: nat, ghost owners: map<Home, Log>) returns (res: FResult)
      requires Sound(owners) && from <= last < |places|
      requires forall m :: m in index ==> Foreign(places[from..last + 1], index[m])
      modifies fs`winsect, fs`wflag, fs`view, fs.win, fs.drive
      ensures fs.drive.faults >= old(fs.drive.faults)
      ensures res == Ok || (res == DiskErr && fs.drive.faults > old(fs.drive.faults))
      ensures res == Ok ==> Sound(owners) && |fs.view| == |old(fs.view)| && Erased(old(List()), List(), from, last)
    {
      hide Volume.Valid, Volume.Tidy, Listed, Accounted, Shelf, Store, Honoured, DirListed, SameFront, Slot, Foreign,
        Sound, Listing;
      var i := from;
      res := Ok;
      while i <= last
        invariant from <= i <= last + 1 && Sound(owners) && fs.drive.faults >= old(fs.drive.faults) && res == Ok
        invariant |fs.view| == |old(fs.view)| && Erased(old(List()), List(), from, i - 1)
      {
        forall m | m in index ensures places[i] !in index[m] { Outside(from, last, i, index[m]); }
        ghost var dirs0 := List();
        res := MarkOne(i, owners);
        if res != Ok { return; }
        ErasedMore(old(List()), dirs0, List(), from, i);
        i := i + 1;
      }
    }

    lemma Outside(from: nat, last: nat, i: nat, c: Block)
      requires from <= i <= last < |places| && Foreign(places[from..last + 1], c)
      ensures places[i] !in c
    {
      assert places[from..last + 1][i - from] == places[i];
    }

    method MarkOne(k: nat, ghost owners: map<Home, Log>) returns (res: FResult)
      requires Sound(owners) && k < |places| && forall m :: m in index ==> places[k] !in index[m]
      modifies fs`winsect, fs`wflag, fs`view, fs.win, fs.drive
      ensures fs.drive.faults >= old(fs.drive.faults)
      ensures res == Ok || (res == DiskErr && fs.drive.faults > old(fs.drive.faults))
      ensures res == Ok ==> Sound(owners) && |fs.view| == |old(fs.view)|
      ensures res == Ok ==> SameBut(old(List()), List(), k, k) && List()[k] == old(List())[k][0 := L.DDEM]
    {
      hide Volume.Valid, Volume.Tidy, Listed, Accounted, Shelf, Store, Honoured, DirListed, SameFront, Slot, OnlyLog,
        Sound;
      SlotAt(k, owners);
      res := Visit(places[k], owners);
      if res != Ok { return; }
      ghost var v, w := fs.view, fs.winsect;
      PlainSlot(places[k], owners);
      VisitFacts(owners);
      fs.Rewrite(fs.win[..][places[k].ofs := L.DDEM]);
      EntryOnly(fs.geo, places[k], fs.fat, v, fs.view);
      Besides(places[k], v, w, owners);
      OneChanged(k, v, owners);
      assert ShownAt(fs.view, places[k]) == ShownAt(v, places[k])[0 := L.DDEM];
    }

    /** The log's clusters have been freed: nothing is left of it. */
    lemma Released(n: Home, owners: map<Home, Log>, f: seq<nat>, v: seq<Sector>, win: nat, m: Chains)
      requires n in owners && owners[n].chain != [] && logs == owners - {n} && WellFormed(f, m)
      requires Shelf(fs.geo, dirs, f, |v|, win) && Store(fs.geo, dirs, f, v, index, places, logs)
      requires Accounted(m, dirs, owners) && DirListed(m) && Honoured(logs, receipts) && SameFront(fs.geo, origin, v)
      requires (forall k :: k in logs ==> Apart(owners[n].chain, logs[k].chain))
      requires forall c :: c in dirs ==> c !in owners[n].chain
      requires fs.Valid() && fs.Tidy() && OffFat(fs.geo, fs.view) == OffFat(fs.geo, v)
      requires Freed(f, owners[n].chain, fs.fat) && Shorter(m, owners[n].chain[0], fs.chains)
      requires fs.winsect == win || fs.geo.InFat(fs.winsect) || fs.winsect == NO_SECTOR
      ensures Sound(logs)
    {
      hide Volume.Valid, Volume.Tidy, Accounted, Shelf, Store, Honoured, SameFront, Apart, Freed, Shorter, OffFat,
        WellFormed, DataFits, AllSlots, Listed;
      var ch := owners[n].chain;
      ShelfFacts(fs.geo, dirs, f, |v|, win);
      SameSize(fs.geo, v, fs.view);
      StoreFreed(fs.geo, dirs, f, v, index, places, logs, ch, fs.fat, fs.view);
      ShelfFreed(fs.geo, dirs, f, |v|, win, ch, fs.fat, fs.winsect);
      FrontFreed(fs.geo, origin, v, fs.view);
      forall k | k in owners && k != n ensures Apart(ch, owners[k].chain) { assert k in logs; }
      AccountedFreed(f, m, dirs, owners, n, fs.chains);
      if tail != 0 { DirectoryListed(m, ch[0], ch); }
    }

    lemma DirectoryListed(m: Chains, h: nat, ch: seq<nat>)
      requires tail != 0 && DirListed(m) && h in ch && forall c :: c in dirs ==> c !in ch
      ensures Listed(m - {h}, dirChain)
    {
      hide AllSlots;
      assert dirChain[0] in dirChain;
    }

    /** remove_chain of the log's first cluster, once its entries are gone. */
    method FreeLog(n: Home, dclst: nat, ghost owners: map<Home, Log>) returns (res: FResult)
      requires Sound(owners) && n in owners && logs == owners - {n} && dclst == Start(owners[n].chain)
      requires (forall k :: k in logs ==> Apart(owners[n].chain, logs[k].chain))
      requires forall c :: c in dirs ==> c !in owners[n].chain
      modifies fs, fs.win, fs.drive
      ensures fs.drive.faults >= old(fs.drive.faults)
      ensures res == Ok || (res == DiskErr && fs.drive.faults > old(fs.drive.faults))
      ensures res == Ok ==> Sound(logs) && |fs.view| == |old(fs.view)| && Freed(old(fs.fat), owners[n].chain, fs.fat)
      ensures res == Ok ==> List() == old(List())
    {
      hide Volume.Valid, Listed, Shelf, Store, Honoured, SameFront, Apart, Freed, Shorter, OffFat, WellFormed, IsChain,
        DataFits, DirListed, FreeFrom, Allowed, Directory, Listing;
      TidySound(owners);
      assert Listed(fs.chains, owners[n].chain);
      hide Accounted;
      StoreParts(fs.view);
      ghost var f, v, w, m, ch := fs.fat, fs.view, fs.winsect, fs.chains, owners[n].chain;
      FirstCluster(f, m, ch);
      res := Ok;
      if dclst != 0 {
        RemovalAllowed(f, m, ch);
        res := fs.RemoveChain(dclst, 0);
        if res == DiskErr { return; }
        RemovalFrees(f, m, ch);
        SameSize(fs.geo, v, fs.view);
        ListingFreed(fs.geo, dirs, v, fs.view, places);
        Released(n, owners, f, v, w, m);
      } else {
        AccountedForgotten(f, m, dirs, owners, n);
        NoneFreed(f);
      }
    }

    /** That chain is one that starts with its first cluster, so remove_chain may free it. */
    lemma RemovalAllowed(f: seq<nat>, m: Chains, ch: seq<nat>)
      requires WellFormed(f, m) && Listed(m, ch) && ch != []
      ensures Allowed(f, Remove(ch[0], 0)) && InRange(f, ch[0])
    {
      hide WellFormed, IsChain;
      StartInRange(f, m, ch[0]);
      forall d | InRange(f, d) ensures f[d] != ch[0] { NoPredecessor(f, m, ch[0], d); }
    }

    lemma RemovalFrees(f: seq<nat>, m: Chains, ch: seq<nat>)
      requires WellFormed(f, m) && Listed(m, ch) && ch != [] && InRange(f, ch[0])
      ensures Freed(f, ch, FreeFrom(f, ch[0]).fat)
    {
      hide WellFormed, FreeFrom, IsChain;
      ChainAt(f, m, ch[0]);
      FreeFromChain(f, ch);
    }

    /** Only an empty file has start 0. */
    lemma FirstCluster(f: seq<nat>, m: Chains, ch: seq<nat>)
      requires WellFormed(f, m) && Listed(m, ch)
      ensures Start(ch) == 0 <==> ch == []
    {
      hide WellFormed;
      if ch != [] { StartInRange(f, m, ch[0]); }
    }

    lemma NoneFreed(f: seq<nat>)
      ensures Freed(f, [], f)
    {
    }

    lemma TidySound(owners: map<Home, Log>)
      requires Sound(owners)
      ensures fs.Tidy() && WellFormed(fs.fat, fs.chains) && Accounted(fs.chains, dirs, owners) && fs.Valid()
      ensures Store(fs.geo, dirs, fs.fat, fs.view, index, places, logs)
    {
    }

    /** sync_fs for the store. */
    method SyncStore(p: Place) returns (res: FResult)
      requires Slot(fs.geo, dirs, |fs.view|, p) && forall m :: m in index ==> p !in index[m]
      requires Sound(logs)
      modifies fs`winsect, fs`wflag, fs`view, fs`fsiDirty, fs.win, fs.drive
      ensures fs.drive.faults >= old(fs.drive.faults)
      ensures res == Ok || (res == DiskErr && fs.drive.faults > old(fs.drive.faults))
      ensures fs.drive.faults == old(fs.drive.faults) ==>
        Sound(logs) && !fs.wflag && !fs.drive.unsynced && List() == old(List())
    {
      hide Volume.Valid, Volume.Tidy, Listed, Accounted, Shelf, Store, Honoured, SameFront, Slot, DirListed, FsInfo,
        OnlyLog, Directory, Listing;
      FsInfoPlace(p);
      StoreParts(fs.view);
      ghost var v, w := fs.view, fs.winsect;
      res := fs.SyncFs();
      if fs.drive.faults == old(fs.drive.faults) {
        Synced(p, v, w);
        ListingSynced(fs.geo, dirs, v, fs.view, places);
      }
    }

    lemma FsInfoPlace(p: Place)
      requires Sound(logs) && Slot(fs.geo, dirs, |fs.view|, p)
      ensures fs.UsesFsInfo() ==> fs.Plain(fs.geo.volbase + 1)
      ensures p.sect < |fs.view| && p.ofs + SZDIRE <= SS
    {
    }

    /** FSINFO may have been rewritten, and the window shows it. */
    lemma Synced(p: Place, v: seq<Sector>, win: nat)
      requires Shelf(fs.geo, dirs, fs.fat, |v|, win) && Store(fs.geo, dirs, fs.fat, v, index, places, logs)
      requires Slot(fs.geo, dirs, |v|, p) && forall m :: m in index ==> p !in index[m]
      requires SameFront(fs.geo, origin, v)
      requires fs.Valid() && fs.Tidy() && Accounted(fs.chains, dirs, logs) && DirListed(fs.chains)
      requires Honoured(logs, receipts)
      requires |fs.view| == |v| && forall s :: 0 <= s < |v| && s != FsiSect(fs.geo) ==> fs.view[s] == v[s]
      requires fs.winsect == win || fs.winsect == FsiSect(fs.geo)
      ensures Sound(logs)
    {
      hide Volume.Valid, Volume.Tidy, Listed, Accounted, Store, Honoured, SameFront, DirListed;
      assert OnlyLog(fs.geo, p, [], fs.fat, v, [], fs.fat, fs.view);
      assert Meta(fs.geo, dirs, FsiSect(fs.geo)) && Meta(fs.geo, dirs, fs.winsect);
      hide OnlyLog, Shelf, Slot, Meta;
      Besides(p, v, win, logs);
    }

    /** The log's first cluster, from its entry in the window. */
    lemma StartRead(n: Home)
      requires Valid() && Reopened(n)
      ensures n in logs && places[n].ofs + SZDIRE <= SS == |fs.win[..]|
      ensures LdClust(fs.geo.fsType, fs.win[..], places[n].ofs) == Start(logs[n].chain)
      ensures Slot(fs.geo, dirs, |fs.view|, places[n]) && index[n] != [] && Short(index[n]) == places[n]
      ensures forall c :: c in dirs ==> c !in logs[n].chain
    {
      hide Volume.Tidy, Listed, Accounted, Shelf, AllApart, Directory, Honoured, SameFront, DirListed, Slot, Unused,
        Catalogued, Indexed, Names.Lawful;
    }

    lemma BlockPlaces(n: Home)
      requires Valid() && n in files
      ensures n in index && n < |places| && 0 <= files[n].First(n) <= n
      ensures index[n] == places[files[n].First(n)..n + 1]
    {
      hide Sound, Catalogued, Names.Lawful;
    }

    /**
     * f_unlink of the log that the name means: its entries become unused and its clusters free, it is forgotten with
     * its receipts, and every other log stays, with its receipts.
     */
    method Delete(w: Wanted) returns (res: FResult, ghost n: Home)
      requires w.Proper()
      requires Valid()
      modifies this, fs, fs.win, fs.drive
      ensures fs.drive.faults >= old(fs.drive.faults)
      ensures res == NoFile ==> old(NotFound(names.up, N.Query(w.fn, w.loss, false), w.name, files))
      ensures res == NoFile ==>
        && Valid() && files == old(files) && logs == old(logs) && receipts == old(receipts)
        && (old(!fs.wflag) ==> !fs.wflag)
      ensures res == Ok ==> old(FoundAs(names.up, N.Query(w.fn, w.loss, false), w.name, files, n)) && n in old(logs)
      ensures res == Ok && fs.drive.faults == old(fs.drive.faults) ==>
        && Valid() && files == old(files) - {n} && logs == old(logs) - {n}
        && receipts == (set r | r in old(receipts) && r.home != n)
        && Freed(old(fs.fat), old(logs)[n].chain, fs.fat) && !fs.wflag && !fs.drive.unsynced
        && Erased(old(List()), List(), old(files)[n].First(n), n)
      ensures res != Ok && res != NoFile ==> fs.drive.faults > old(fs.drive.faults)
    {
      hide Sound, Catalogued, Indexed, Names.Lawful, FoundAs, NotFound, L.Buffered, L.Storable, Slot, Foreign, Apart,
        Freed, Reopened, Listing, Erased;
      NameUnits(w);
      var lfnbuf := NameBuffer(w.name);
      var at, blk;
      res, at, blk := DirFind(lfnbuf, N.Query(w.fn, w.loss, false), w.name);
      n := at;
      if res != Ok { return; }
      FoundSome(names.up, N.Query(w.fn, w.loss, false), w.name, files, at);
      BlockPlaces(at);
      StartRead(at);
      var from := match blk case None => at case Some(b) => b;
      var dclst := LdClust(fs.geo.fsType, fs.win[..], places[at].ofs);
      ghost var owners, before, dirs0 := logs, files, List();
      ForgetEntry(at);
      NotThereAny(places[from..at + 1]);
      res := MarkDeleted(from, at, owners);
      if res != Ok { return; }
      CataloguedRemoved(dirs0, List(), before, at);
      SlotAt(at, owners);
      res := FreeLog(at, dclst, owners);
      if res != Ok { return; }
      SlotAt(at, logs);
      res := SyncStore(places[at]);
    }

    lemma NotThereAny(b: Block)
      requires b != [] && forall m :: m in index ==> Foreign(b, index[m])
      ensures forall m :: m in index ==> Short(b) !in index[m]
    {
      hide Foreign;
      forall m | m in index ensures Short(b) !in index[m] { NotThere(b, index[m]); }
    }

    // ---- the calls of the storage interface ----------------------------------------------------------

    /** A name ends at its first 0, or with the buffer. */
    lemma NameEnds(filename: seq<byte>)
      ensures forall k :: 0 <= k <= |filename| && 0 !in filename[..k] && (k == |filename| || filename[k] == 0) ==>
        k == Strnlen(filename)
    {
      forall k | 0 <= k <= |filename| && 0 !in filename[..k] && (k == |filename| || filename[k] == 0)
        ensures k == Strnlen(filename)
      {
        NoZero(filename, k);
      }
    }

    lemma NoZero(s: seq<byte>, k: nat)
      requires k <= |s| && 0 !in s[..k]
      ensures forall i :: 0 <= i < k ==> s[i] != 0
    {
      forall i | 0 <= i < k ensures s[i] != 0 { assert s[i] in s[..k]; }
    }

    lemma NobodyFound(w: Wanted)
      requires NotFound(names.up, N.Query(w.fn, w.loss, false), w.name, files)
      ensures forall m :: !FoundAs(names.up, N.Query(w.fn, w.loss, false), w.name, files, m)
    {
      hide Means;
    }

    lemma CreatedProper(name: seq<byte>)
      requires Valid() && |name| < STORAGE_LOG_LEN && names.create(name).Some?
      ensures names.create(name).value.Proper() && |names.create(name).value.name| < STORAGE_LOG_LEN
    {
      hide Sound, Catalogued, Indexed, Wanted.Proper;
    }

    /**
     * storage_write_data. A name with a slash anywhere in its buffer is invalid, one that fills the buffer too long,
     * and one that f_open refuses fails. After a success without failed accesses the log that the name means has grown
     * by the bytes reported, at the offset reported, nothing else has changed, and all of it is on the drive. A log
     * that exists or can be created takes the data unless an access fails; one that cannot be created fails.
     */
    method WriteData(filename: seq<byte>, buf: seq<byte>, bytesToWrite: nat, tm: nat)
      returns (code: Code, bw: nat, offset: nat, ghost n: Home)
      requires |filename| == STORAGE_LOG_LEN && |buf| <= 0xFFFF_FFFF
      requires Valid()
      modifies this, fs, fs.win, fs.drive
      ensures fs.drive.faults >= old(fs.drive.faults)
      ensures code == Inval <==> 0x2F in filename
      ensures code == Size <==> 0x2F !in filename && 0 !in filename
      ensures code == Inval || code == Size ==>
        Valid() && files == old(files) && logs == old(logs) && receipts == old(receipts) && fs.wflag == old(fs.wflag)
      ensures code == Success && fs.drive.faults == old(fs.drive.faults) ==>
        && Valid() && Grown(n, buf, bytesToWrite, bw, offset) && !fs.wflag && !fs.drive.unsynced
        && n < |places| && Stamp(List()[n]) == tm % 0x1_0000_0000
        && forall k :: 0 <= k < |filename| && 0 !in filename[..k] && filename[k] == 0 ==>
             var w := names.create(filename[..k]); w.Some? && Opened(old(files), w.value, n)
      ensures forall k :: 0 <= k < |filename| && 0 !in filename[..k] && filename[k] == 0 ==>
        var w := names.create(filename[..k]);
        if w.None? || old(NoPlace(w.value)) then code != Success
        else code == Fail ==> fs.drive.faults > old(fs.drive.faults)
      ensures code == Fail ==>
        fs.drive.faults > old(fs.drive.faults)
        || (Valid() && files == old(files) && logs == old(logs) && receipts == old(receipts)
            && (old(!fs.wflag) ==> !fs.wflag))
    {
      hide Sound, Catalogued, Indexed, Names.Lawful, Full, NoPlace, Opened, Strnlen;
      bw, offset, n := 0, 0, 0;
      NameEnds(filename);
      var len := if |buf| < bytesToWrite then |buf| else bytesToWrite;
      if 0x2F in filename { return Inval, bw, offset, n; }
      if Strnlen(filename) == STORAGE_LOG_LEN { return Size, bw, offset, n; }
      match names.create(filename[..Strnlen(filename)]) {
        case None => code := Fail;
        case Some(w) =>
          CreatedProper(filename[..Strnlen(filename)]);
          var res;
          res, bw, offset, n := Append(w, buf[..len], tm);
          code := if res == Ok then Success else Fail;
          assert bw <= len ==> buf[..len][..bw] == buf[..bw];
      }
    }

    /**
     * The log n, and no other, has grown by the first bw bytes of buf, at offset; short only if the volume or the file
     * is full.
     */
    twostate predicate Grown(n: Home, buf: seq<byte>, bytesToWrite: nat, bw: nat, offset: nat)
      reads this, fs
    {
      && n in logs && offset == |BytesOf(old(logs), n)|
      && bw <= |buf| && bw <= bytesToWrite
      && (bw < |buf| && bw < bytesToWrite ==> Full(fs.fat) || offset + bw == MAX_SIZE)
      && logs[n].bytes == BytesOf(old(logs), n) + buf[..bw]
      && (forall m :: m in old(logs) && m != n ==> m in logs && logs[m] == old(logs)[m])
      && logs.Keys == old(logs).Keys + {n}
      && receipts == old(receipts) + {Receipt(n, offset, buf[..bw])}
    }

    /**
     * storage_read_data. It returns what the log that the name means holds at the offset, and fails without a failed
     * access only if there is no such log. In particular what any earlier successful write has put at that offset is
     * read back as it was written, whatever has been written since and whichever other logs have been deleted.
     */
    method ReadData(filename: seq<byte>, offset: nat, bufLen: nat, bytesToRead: nat)
      returns (code: Code, data: seq<byte>, ghost n: Home)
      requires offset <= 0xFFFF_FFFF
      requires Valid()
      modifies fs, fs.win, fs.drive
      ensures fs.drive.faults >= old(fs.drive.faults)
      ensures code == Success || code == Fail
      ensures code == Success ==>
        && Valid() && n in logs && (old(!fs.wflag) ==> !fs.wflag)
        && data == Slice(logs[n].bytes, offset, if bufLen < bytesToRead then bufLen else bytesToRead)
      ensures code == Fail ==> fs.drive.faults > old(fs.drive.faults) || (Valid() && (old(!fs.wflag) ==> !fs.wflag))
      ensures forall k ::
        0 <= k <= |filename| && 0 !in filename[..k] && (k == |filename| || filename[k] == 0) ==>
          match names.create(filename[..k])
          case None => code == Fail
          case Some(w) =>
            && (code == Success ==> FoundAs(names.up, N.Query(w.fn, w.loss, false), w.name, files, n))
            && (code == Fail && fs.drive.faults == old(fs.drive.faults) ==>
              NotFound(names.up, N.Query(w.fn, w.loss, false), w.name, files))
            && (fs.drive.faults == old(fs.drive.faults) ==>
              forall r :: r in receipts && FoundAs(names.up, N.Query(w.fn, w.loss, false), w.name, files, r.home)
                          && r.offset == offset && |r.bytes| == bytesToRead <= bufLen ==>
                code == Success && data == r.bytes)
    {
      hide Sound, Catalogued, Indexed, FoundAs, NotFound, Reopened, Strnlen;
      data, n := [], 0;
      NameEnds(filename);
      var len := if bufLen < bytesToRead then bufLen else bytesToRead;
      AllRead();
      match names.create(filename[..Strnlen(filename)]) {
        case None => code := Fail;
        case Some(w) =>
          NameUnits(w);
          var lfnbuf := NameBuffer(w.name);
          var res, at, blk := DirFind(lfnbuf, N.Query(w.fn, w.loss, false), w.name);
          n := at;
          if res == Ok {
            forall m | FoundAs(names.up, N.Query(w.fn, w.loss, false), w.name, files, m) ensures m == at {
              FoundOnce(names.up, N.Query(w.fn, w.loss, false), w.name, files, m, at);
            }
            res, data := Retrieve(at, offset, len);
          } else if res == NoFile {
            NobodyFound(w);
          }
          code := if res == Ok then Success else Fail;
      }
    }

    lemma AllRead()
      requires Valid()
      ensures forall r :: r in receipts ==> r.home in logs && Slice(logs[r.home].bytes, r.offset, |r.bytes|) == r.bytes
    {
      hide Volume.Valid, Volume.Tidy, Listed, Accounted, Store, Shelf, SameFront, DirListed, Catalogued, Indexed, Slice;
      forall r | r in receipts ensures r.home in logs && Slice(logs[r.home].bytes, r.offset, |r.bytes|) == r.bytes {
        ReceiptReads(logs, receipts, r);
      }
    }

    /**
     * storage_del_data. Without a failed access it fails only if there is no such log, with nothing changed; after a
     * success the log that the name meant and its receipts are gone, its entries unused and its clusters free, and
     * nothing else has changed.
     */
    method DelData(filename: seq<byte>) returns (code: Code, ghost n: Home)
      requires Valid()
      modifies this, fs, fs.win, fs.drive
      ensures fs.drive.faults >= old(fs.drive.faults)
      ensures code == Success || code == Fail
      ensures code == Success ==> n in old(logs)
      ensures forall k ::
        0 <= k <= |filename| && 0 !in filename[..k] && (k == |filename| || filename[k] == 0) ==>
          match names.create(filename[..k])
          case None => code == Fail
          case Some(w) =>
            && (code == Success ==> old(FoundAs(names.up, N.Query(w.fn, w.loss, false), w.name, files, n)))
            && (code == Fail && fs.drive.faults == old(fs.drive.faults) ==>
              old(NotFound(names.up, N.Query(w.fn, w.loss, false), w.name, files)))
      ensures code == Success && fs.drive.faults == old(fs.drive.faults) ==>
        && Valid() && files == old(files) - {n} && logs == old(logs) - {n}
        && receipts == (set r | r in old(receipts) && r.home != n)
        && Freed(old(fs.fat), old(logs)[n].chain, fs.fat) && !fs.wflag && !fs.drive.unsynced
        && Erased(old(List()), List(), old(files)[n].First(n), n)
      ensures code == Fail ==>
        fs.drive.faults > old(fs.drive.faults)
        || (Valid() && files == old(files) && logs == old(logs) && receipts == old(receipts)
            && (old(!fs.wflag) ==> !fs.wflag))
    {
      hide Sound, Catalogued, Indexed, FoundAs, NotFound, Freed, Erased, Strnlen;
      n := 0;
      NameEnds(filename);
      match names.create(filename[..Strnlen(filename)]) {
        case None => code := Fail;
        case Some(w) =>
          var res;
          res, n := Delete(w);
          code := if res == Ok then Success else Fail;
      }
    }
  }

  /** The bytes of a log; a log that does not exist has none. */
  function BytesOf(logs: map<Home, Log>, n: Home): seq<byte> {
    if n in logs then logs[n].bytes else []
  }

  lemma GrownHonours(logs: map<Home, Log>, rs: set<Receipt>, n: Home)
    requires Honoured(logs, rs) && n !in logs
    ensures Honoured(logs[n := Log([], [])], rs)
  {
    forall r | r in rs ensures Kept(logs[n := Log([], [])], r) { assert Kept(logs, r); }
  }
}
