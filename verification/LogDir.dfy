/**
 * A directory of logs: where its entries are, which files they describe, and what becomes of all of them when one file
 * changes, an entry is written, the directory grows or a file goes.
 */
module LogDir {
  import opened Bytes
  import opened Wrappers
  import opened Disk
  import opened FatLayout
  import opened FatTable
  import opened FatChains
  import opened DirEntry
  import opened FileLayout
  import opened FatFile
  import opened Catalogue
  import L = LongName

  const MAX_DIR: nat := 0x20_0000

  /** A directory entry: its sector and the offset in it. */
  datatype Place = Place(sect: nat, ofs: nat)

  /** What a log consists of. */
  datatype Log = Log(chain: seq<nat>, bytes: seq<byte>)

  /** The directory entries of a file in order: those of its long name, then the short one. */
  type Block = seq<Place>

  // ---- the volume with its logs --------------------------------------------------------------------

  function Start(ch: seq<nat>): nat {
    if ch == [] then 0 else ch[0]
  }

  /** A place of an entry of 32 bytes in a directory sector. */
  ghost predicate Slot(g: Geometry, dirs: set<nat>, size: nat, p: Place) {
    EntryPlace(g, dirs, size, p.sect, p.ofs) && p.ofs % SZDIRE == 0 && p.sect >= g.fatbase
  }

  /** The first byte of an entry that dir_alloc may take: never used, or deleted. */
  predicate Idle(b: byte) { b == 0 || b as int == L.DDEM }

  predicate Unused(v: seq<Sector>, p: Place) {
    p.sect < |v| && p.ofs < SS && Idle(v[p.sect][p.ofs])
  }

  /** The entry at a place. */
  function ShownAt(v: seq<Sector>, p: Place): L.Entry {
    if p.sect < |v| && p.ofs + SZDIRE <= SS then v[p.sect][p.ofs..p.ofs + SZDIRE] else seq(SZDIRE, _ => 0)
  }

  /** What the directory holds. */
  function Listing(v: seq<Sector>, places: seq<Place>): (s: seq<L.Entry>)
    ensures |s| == |places| && forall k :: 0 <= k < |s| ==> s[k] == ShownAt(v, places[k])
  {
    seq(|places|, k requires 0 <= k < |places| => ShownAt(v, places[k]))
  }

  function Short(b: Block): Place
    requires b != []
  {
    b[|b| - 1]
  }

  /** The volume apart from its files. */
  ghost predicate Shelf(g: Geometry, dirs: set<nat>, f: seq<nat>, size: nat, win: nat) {
    && g.Valid() && |f| == g.nFatent && DataFits(g, size) && size < NO_SECTOR && FsiReserved(g)
    && Meta(g, dirs, win)
    && (forall c :: c in dirs ==> InRange(f, c) && f[c] != 0)
  }

  /** The file's clusters are on the volume and read as its bytes. */
  ghost predicate Stored(g: Geometry, dirs: set<nat>, f: seq<nat>, v: seq<Sector>, l: Log) {
    && Chain(g, l.chain) && IsChain(f, l.chain) && (forall c :: c in dirs ==> c !in l.chain)
    && DataFits(g, |v|) && Holds(g, l.chain, v, l.bytes) && |l.bytes| <= MAX_SIZE
  }

  /** The directory entry at p is in use and describes the file. */
  ghost predicate Described(g: Geometry, v: seq<Sector>, p: Place, l: Log) {
    && p.sect < |v| && p.ofs + SZDIRE <= SS && !Unused(v, p)
    && LdClust(g.fsType, v[p.sect], p.ofs) == Start(l.chain) && LdSize(v[p.sect], p.ofs) == |l.bytes|
  }

  /**
   * The entries are different ones of a directory, and all but the short one, which has to describe the file, are in
   * use.
   */
  ghost predicate Standing(g: Geometry, dirs: set<nat>, v: seq<Sector>, b: Block) {
    && b != []
    && (forall k :: 0 <= k < |b| ==> Slot(g, dirs, |v|, b[k]))
    && (forall k :: 0 <= k < |b| - 1 ==> !Unused(v, b[k]))
    && (forall j, k :: 0 <= j < k < |b| ==> b[j] != b[k])
  }

  ghost predicate Filed(g: Geometry, dirs: set<nat>, f: seq<nat>, v: seq<Sector>, b: Block, l: Log) {
    Standing(g, dirs, v, b) && Described(g, v, Short(b), l) && Stored(g, dirs, f, v, l)
  }

  ghost predicate AllFiled(g: Geometry, dirs: set<nat>, f: seq<nat>, v: seq<Sector>, index: map<Home, Block>,
                           logs: map<Home, Log>) {
    index.Keys == logs.Keys && forall n :: n in index ==> Filed(g, dirs, f, v, index[n], logs[n])
  }

  /** No entry belongs to both. */
  ghost predicate Foreign(a: Block, b: Block) {
    forall p :: p in a ==> p !in b
  }

  ghost predicate AllApart(index: map<Home, Block>, logs: map<Home, Log>) {
    && index.Keys == logs.Keys
    && (forall n, m :: n in index && m in index && n != m ==> Foreign(index[n], index[m]))
    && (forall n, m :: n in logs && m in logs && n != m ==> Apart(logs[n].chain, logs[m].chain))
  }

  /** The entries of the directory, all different. */
  ghost predicate Directory(g: Geometry, dirs: set<nat>, size: nat, places: seq<Place>) {
    && places != []
    && (forall k :: 0 <= k < |places| ==> Slot(g, dirs, size, places[k]))
    && (forall j, k :: 0 <= j < k < |places| ==> places[j] != places[k])
  }

  /** The index finds every log, and logs and directories are apart. */
  ghost predicate Store(g: Geometry, dirs: set<nat>, f: seq<nat>, v: seq<Sector>, index: map<Home, Block>,
                        places: seq<Place>, logs: map<Home, Log>) {
    AllFiled(g, dirs, f, v, index, logs) && AllApart(index, logs) && Directory(g, dirs, |v|, places)
  }

  /** The block of a log is that of the file in the directory. */
  ghost predicate Indexed(index: map<Home, Block>, places: seq<Place>, files: map<Home, FileName>) {
    && index.Keys == files.Keys
    && forall n :: n in files ==>
      n < |places| && 0 <= files[n].First(n) <= n && index[n] == places[files[n].First(n)..n + 1]
  }

  lemma IndexedLonger(index: map<Home, Block>, places: seq<Place>, more: seq<Place>, files: map<Home, FileName>)
    requires Indexed(index, places, files) && places <= more
    ensures Indexed(index, more, files)
  {
    forall n | n in files ensures n < |more| && index[n] == more[files[n].First(n)..n + 1] {
      assert more[files[n].First(n)..n + 1] == places[files[n].First(n)..n + 1];
    }
  }

  lemma IndexedMore(index: map<Home, Block>, places: seq<Place>, files: map<Home, FileName>, n: Home, x: FileName)
    requires Indexed(index, places, files) && n !in files && n < |places| && 0 <= x.First(n) <= n
    ensures Indexed(index[n := places[x.First(n)..n + 1]], places, files[n := x])
  {
  }

  /** Some log has this chain. */
  ghost predicate OfLog(logs: map<Home, Log>, ch: seq<nat>) {
    exists n :: n in logs && logs[n].chain == ch
  }

  /** The chains of the volume are those of the logs and of directories, and there are no others. */
  ghost predicate Accounted(m: Chains, dirs: set<nat>, logs: map<Home, Log>) {
    && (forall n :: n in logs ==> Listed(m, logs[n].chain))
    && (forall h :: h in m ==> OfLog(logs, m[h]) || forall c :: c in m[h] ==> c in dirs)
  }

  /** It stays so when a log grows, */
  lemma AccountedGrown(f: seq<nat>, m: Chains, dirs: set<nat>, logs: map<Home, Log>, n: Home, l: Log)
    requires WellFormed(f, m) && Accounted(m, dirs, logs) && n in logs && logs[n].chain <= l.chain
    requires forall k :: k in logs && k != n ==> Apart(l.chain, logs[k].chain)
    ensures Accounted(Renewed(m, l.chain), dirs, logs[n := l])
  {
    hide IsChain, Disjoint, Owned;
    var dh, x := l.chain, logs[n := l];
    var r := Renewed(m, dh);
    assert logs[n].chain != [] ==> logs[n].chain[0] == dh[0];
    forall k | k in x ensures Listed(r, x[k].chain) {
      if k != n {
        assert Apart(dh, logs[k].chain);
        assert dh != [] && logs[k].chain != [] ==> dh[0] in dh && logs[k].chain[0] in logs[k].chain;
      }
    }
    forall h | h in r ensures OfLog(x, r[h]) || forall c :: c in r[h] ==> c in dirs {
      if dh != [] && h == dh[0] {
        assert x[n].chain == r[h];
      } else if OfLog(logs, m[h]) {
        var k :| k in logs && logs[k].chain == m[h];
        assert x[k].chain == r[h];
      }
    }
  }

  /** and when there is a new one without clusters. */
  lemma AccountedNew(m: Chains, dirs: set<nat>, logs: map<Home, Log>, n: Home)
    requires Accounted(m, dirs, logs) && n !in logs
    ensures Accounted(m, dirs, logs[n := Log([], [])])
  {
    var x := logs[n := Log([], [])];
    forall h | h in m && OfLog(logs, m[h]) ensures OfLog(x, m[h]) {
      var k :| k in logs && logs[k].chain == m[h];
      assert x[k].chain == m[h];
    }
  }

  /** No cluster is lost: those in use are the logs' and the directories'. */
  lemma NothingLost(f: seq<nat>, m: Chains, dirs: set<nat>, logs: map<Home, Log>, c: nat)
    requires WellFormed(f, m) && Accounted(m, dirs, logs) && InRange(f, c) && f[c] != 0
    ensures c in dirs || exists n :: n in logs && c in logs[n].chain
  {
    var h, i := Locate(f, m, c);
    if OfLog(logs, m[h]) {
      var k :| k in logs && logs[k].chain == m[h];
      assert c in logs[k].chain;
    }
  }

  /** Only the file with the entry at p has changed: its entry, FSINFO, clusters it had and clusters that were free. */
  ghost predicate OnlyLog(g: Geometry, p: Place, ch: seq<nat>, f: seq<nat>, v: seq<Sector>, dh: seq<nat>, e: seq<nat>,
                          w: seq<Sector>) {
    && Grew(f, ch, e, dh) && |w| == |v| && Chain(g, dh)
    && (forall s :: 0 <= s < |v| && !g.InFat(s) && s != p.sect && s != FsiSect(g) && !Mine(g, dh, s) ==> w[s] == v[s])
    && p.sect < |v| && (forall k :: 0 <= k < SS && !(p.ofs <= k < p.ofs + SZDIRE) ==> w[p.sect][k] == v[p.sect][k])
  }

  lemma OnlyLogGrew(g: Geometry, p: Place, ch: seq<nat>, f: seq<nat>, v: seq<Sector>, dh: seq<nat>, e: seq<nat>,
                    w: seq<Sector>)
    requires OnlyLog(g, p, ch, f, v, dh, e, w)
    ensures Grew(f, ch, e, dh) && ch <= dh && |w| == |v|
  {
  }

  lemma ViewKept(g: Geometry, ch: seq<nat>, v: seq<Sector>, w: seq<Sector>, s: seq<byte>)
    requires Chain(g, ch) && DataFits(g, |v|) && |w| == |v| && Holds(g, ch, v, s)
    requires forall i: nat :: i < |v| && Mine(g, ch, i) ==> w[i] == v[i]
    ensures Holds(g, ch, w, s)
  {
    forall k: nat | HasSect(g, ch, k) && FileSect(g, ch, k) < |v|
      ensures w[FileSect(g, ch, k)] == v[FileSect(g, ch, k)]
    {
      assert Mine(g, ch, FileSect(g, ch, k));
    }
    HoldsSame(g, ch, v, w, s);
  }

  /** Another log's bytes stay. */
  lemma StoredKept(g: Geometry, dirs: set<nat>, f: seq<nat>, v: seq<Sector>, l: Log, p: Place, dh: seq<nat>,
                   ch: seq<nat>, e: seq<nat>, w: seq<Sector>)
    requires Stored(g, dirs, f, v, l) && Apart(ch, l.chain) && OnlyLog(g, p, ch, f, v, dh, e, w)
    requires Slot(g, dirs, |v|, p) && Meta(g, dirs, FsiSect(g)) && |v| < NO_SECTOR && g.Valid()
    ensures Stored(g, dirs, e, w, l) && Apart(dh, l.chain) && Apart(l.chain, dh)
  {
    GrewApart(f, ch, e, dh, l.chain);
    forall s: nat | s < |v| && Mine(g, l.chain, s) ensures w[s] == v[s] {
      MineIsData(g, l.chain, |v|, s);
      MineNotMeta(g, dirs, l.chain, |v|, s);
      if Mine(g, dh, s) { SectorsApart(g, dh, l.chain, s); }
    }
    ViewKept(g, l.chain, v, w, l.bytes);
  }

  /** Every other directory entry stays. */
  lemma EntryKept(g: Geometry, dirs: set<nat>, f: seq<nat>, v: seq<Sector>, q: Place, p: Place, dh: seq<nat>,
                  ch: seq<nat>, e: seq<nat>, w: seq<Sector>)
    requires Slot(g, dirs, |v|, q) && Slot(g, dirs, |v|, p) && p != q && OnlyLog(g, p, ch, f, v, dh, e, w)
    requires DataFits(g, |v|) && |v| < NO_SECTOR && forall c :: c in dirs ==> c !in dh
    ensures |w| == |v| && (Unused(w, q) <==> Unused(v, q)) && ShownAt(w, q) == ShownAt(v, q)
    ensures forall l :: Described(g, v, q, l) ==> Described(g, w, q, l)
  {
    hide Slot, Meta, DataFits;
    SlotFacts(g, dirs, |v|, q);
    SlotFacts(g, dirs, |v|, p);
    if q.sect == p.sect {
      OtherEntry(g.fsType, v[q.sect], w[q.sect], p.ofs, q.ofs);
      assert w[q.sect][q.ofs..q.ofs + SZDIRE] == v[q.sect][q.ofs..q.ofs + SZDIRE];
    } else {
      if Mine(g, dh, q.sect) { MineNotMeta(g, dirs, dh, |v|, q.sect); }
      assert w[q.sect] == v[q.sect];
    }
  }

  /** So only one entry of the directory changes. */
  lemma ListingKept(g: Geometry, dirs: set<nat>, f: seq<nat>, v: seq<Sector>, places: seq<Place>, k: nat, dh: seq<nat>,
                    ch: seq<nat>, e: seq<nat>, w: seq<Sector>)
    requires k < |places| && Directory(g, dirs, |v|, places) && OnlyLog(g, places[k], ch, f, v, dh, e, w)
    requires DataFits(g, |v|) && |v| < NO_SECTOR && forall c :: c in dirs ==> c !in dh
    ensures SameBut(Listing(v, places), Listing(w, places), k, k) && |w| == |v|
  {
    assert |w| == |v|;
    hide Slot, OnlyLog, DataFits, ShownAt, Unused;
    forall i | 0 <= i < |places| && i != k ensures ShownAt(w, places[i]) == ShownAt(v, places[i]) {
      assert places[i] != places[k];
      EntryKept(g, dirs, f, v, places[i], places[k], dh, ch, e, w);
    }
  }

  lemma SlotFacts(g: Geometry, dirs: set<nat>, size: nat, p: Place)
    requires Slot(g, dirs, size, p)
    ensures p.sect < size && p.ofs + SZDIRE <= SS && p.ofs % SZDIRE == 0 && !g.InFat(p.sect) && p.sect != FsiSect(g)
    ensures Meta(g, dirs, p.sect) && !g.InMirror(p.sect) && p.sect >= g.fatbase
  {
  }

  /** Entries other than the one at p, which may be the short one of the block, stay in use. */
  lemma StandingKept(g: Geometry, dirs: set<nat>, f: seq<nat>, v: seq<Sector>, b: Block, p: Place, dh: seq<nat>,
                     ch: seq<nat>, e: seq<nat>, w: seq<Sector>)
    requires Standing(g, dirs, v, b) && Slot(g, dirs, |v|, p) && (p !in b || p == Short(b))
    requires OnlyLog(g, p, ch, f, v, dh, e, w)
    requires DataFits(g, |v|) && |v| < NO_SECTOR && forall c :: c in dirs ==> c !in dh
    ensures Standing(g, dirs, w, b)
  {
    assert |w| == |v|;
    hide Slot, OnlyLog, DataFits, Unused;
    forall k | 0 <= k < |b| - 1 ensures !Unused(w, b[k]) {
      assert b[k] in b && b[k] != Short(b);
      EntryKept(g, dirs, f, v, b[k], p, dh, ch, e, w);
    }
  }

  lemma FiledKept(g: Geometry, dirs: set<nat>, f: seq<nat>, v: seq<Sector>, b: Block, l: Log, p: Place, dh: seq<nat>,
                  ch: seq<nat>, e: seq<nat>, w: seq<Sector>, win: nat)
    requires Filed(g, dirs, f, v, b, l) && Apart(ch, l.chain) && Slot(g, dirs, |v|, p) && p !in b
    requires OnlyLog(g, p, ch, f, v, dh, e, w) && Shelf(g, dirs, f, |v|, win) && forall c :: c in dirs ==> c !in dh
    ensures Filed(g, dirs, e, w, b, l) && Apart(dh, l.chain) && Apart(l.chain, dh)
  {
    ShelfFacts(g, dirs, f, |v|, win);
    hide OnlyLog, Slot, Described, Stored, Apart, Shelf, DataFits;
    assert Short(b) in b && Slot(g, dirs, |v|, Short(b));
    StandingKept(g, dirs, f, v, b, p, dh, ch, e, w);
    EntryKept(g, dirs, f, v, Short(b), p, dh, ch, e, w);
    StoredKept(g, dirs, f, v, l, p, dh, ch, e, w);
  }

  lemma ShelfFacts(g: Geometry, dirs: set<nat>, f: seq<nat>, size: nat, win: nat)
    requires Shelf(g, dirs, f, size, win)
    ensures g.Valid() && DataFits(g, size) && size < NO_SECTOR && Meta(g, dirs, FsiSect(g)) && FsiReserved(g)
    ensures g.csize > 0 && |f| == g.nFatent
  {
  }

  /** A change of one log leaves a store, with all other logs as they were. */
  lemma StoreKept(g: Geometry, dirs: set<nat>, f: seq<nat>, v: seq<Sector>, index: map<Home, Block>, places: seq<Place>,
                  logs: map<Home, Log>, n: Home, l: Log, e: seq<nat>, w: seq<Sector>, win: nat)
    requires Store(g, dirs, f, v, index, places, logs) && n in index && Shelf(g, dirs, f, |v|, win) && index[n] != []
    requires OnlyLog(g, Short(index[n]), logs[n].chain, f, v, l.chain, e, w) && Filed(g, dirs, e, w, index[n], l)
    ensures Store(g, dirs, e, w, index, places, logs[n := l])
  {
    hide Apart, OnlyLog, Shelf, Holds, IsChain, Chain, Described, Slot, DataFits, Directory, Standing, Foreign, Stored;
    var p := Short(index[n]);
    ShortSlot(g, dirs, v, index[n]);
    forall m | m in index && m != n ensures p !in index[m] { NotThere(index[n], index[m]); }
    StoredFacts(g, dirs, e, w, l);
    OthersKept(g, dirs, f, v, index, logs, n, p, logs[n].chain, l.chain, e, w, win);
    hide Filed;
  }

  lemma ShortSlot(g: Geometry, dirs: set<nat>, v: seq<Sector>, b: Block)
    requires Standing(g, dirs, v, b)
    ensures b != [] && Slot(g, dirs, |v|, Short(b)) && Short(b) in b
  {
    hide Slot;
  }

  lemma NotThere(a: Block, b: Block)
    requires Foreign(a, b) && a != []
    ensures Short(a) !in b
  {
    assert Short(a) in a;
  }

  lemma NoneThere(a: Block, b: Block)
    requires Foreign(a, b)
    ensures Foreign(b, a)
  {
  }

  lemma StoredFacts(g: Geometry, dirs: set<nat>, f: seq<nat>, v: seq<Sector>, l: Log)
    requires Stored(g, dirs, f, v, l)
    ensures (forall c :: c in dirs ==> c !in l.chain) && IsChain(f, l.chain) && Chain(g, l.chain)
  {
  }

  /** All logs but the one with name n are filed as before, and apart from its new chain. */
  lemma OthersKept(g: Geometry, dirs: set<nat>, f: seq<nat>, v: seq<Sector>, index: map<Home, Block>,
                   logs: map<Home, Log>, n: Home, p: Place, ch: seq<nat>, dh: seq<nat>, e: seq<nat>, w: seq<Sector>,
                   win: nat)
    requires AllFiled(g, dirs, f, v, index, logs) && Shelf(g, dirs, f, |v|, win) && OnlyLog(g, p, ch, f, v, dh, e, w)
    requires Slot(g, dirs, |v|, p) && (forall c :: c in dirs ==> c !in dh)
    requires forall m :: m in index && m != n ==> p !in index[m] && Apart(ch, logs[m].chain)
    ensures forall m :: m in index && m != n ==> Filed(g, dirs, e, w, index[m], logs[m])
    ensures forall m :: m in logs && m != n ==> Apart(dh, logs[m].chain) && Apart(logs[m].chain, dh)
    ensures |w| == |v|
  {
    assert |w| == |v|;
    hide Filed, Apart, OnlyLog, Shelf, Slot;
    forall m | m in index && m != n
      ensures Filed(g, dirs, e, w, index[m], logs[m]) && Apart(dh, logs[m].chain) && Apart(logs[m].chain, dh)
    {
      FiledKept(g, dirs, f, v, index[m], logs[m], p, dh, ch, e, w, win);
    }
  }

  lemma EmptyFiled(g: Geometry, dirs: set<nat>, f: seq<nat>, w: seq<Sector>, b: Block, win: nat)
    requires Standing(g, dirs, w, b) && Described(g, w, Short(b), Log([], [])) && Shelf(g, dirs, f, |w|, win)
    ensures Filed(g, dirs, f, w, b, Log([], []))
  {
    hide Standing, Described;
  }

  lemma NothingApart(ch: seq<nat>)
    ensures Apart([], ch) && Apart(ch, [])
  {
  }

  /** Writing an entry that is no log's, or FSINFO, changes no log. */
  lemma StoreBesides(g: Geometry, dirs: set<nat>, f: seq<nat>, v: seq<Sector>, index: map<Home, Block>,
                     places: seq<Place>, logs: map<Home, Log>, p: Place, w: seq<Sector>, win: nat)
    requires Store(g, dirs, f, v, index, places, logs) && Shelf(g, dirs, f, |v|, win) && Slot(g, dirs, |v|, p)
    requires (forall n :: n in index ==> p !in index[n]) && OnlyLog(g, p, [], f, v, [], f, w)
    ensures Store(g, dirs, f, w, index, places, logs) && |w| == |v|
  {
    assert |w| == |v|;
    hide OnlyLog, Slot, Shelf, Filed, Apart, Directory;
    forall n | n in index ensures Filed(g, dirs, f, w, index[n], logs[n]) {
      NothingApart(logs[n].chain);
      FiledKept(g, dirs, f, v, index[n], logs[n], p, [], [], f, w, win);
    }
  }

  /** A new empty log, once its short entry is written behind its long ones, leaves a store. */
  lemma StoreGrown(g: Geometry, dirs: set<nat>, f: seq<nat>, v: seq<Sector>, index: map<Home, Block>,
                   places: seq<Place>, logs: map<Home, Log>, n: Home, b: Block, w: seq<Sector>, win: nat)
    requires Store(g, dirs, f, v, index, places, logs) && n !in index && Shelf(g, dirs, f, |v|, win)
    requires Standing(g, dirs, v, b) && forall m :: m in index ==> Foreign(b, index[m])
    requires OnlyLog(g, Short(b), [], f, v, [], f, w) && Described(g, w, Short(b), Log([], []))
    ensures Store(g, dirs, f, w, index[n := b], places, logs[n := Log([], [])]) && |w| == |v|
  {
    hide OnlyLog, Described, Slot, Shelf, Filed, Apart, IsChain, Holds, Standing, DataFits, Foreign, Directory;
    ShortSlot(g, dirs, v, b);
    ShelfFacts(g, dirs, f, |v|, win);
    forall m | m in index ensures Short(b) !in index[m] && Foreign(index[m], b) {
      NotThere(b, index[m]);
      NoneThere(b, index[m]);
    }
    StoreBesides(g, dirs, f, v, index, places, logs, Short(b), w, win);
    StandingKept(g, dirs, f, v, b, Short(b), [], [], f, w);
    forall m | m in logs ensures Apart([], logs[m].chain) && Apart(logs[m].chain, []) { NothingApart(logs[m].chain); }
    EmptyFiled(g, dirs, f, w, b, win);
  }

  // ---- a directory that grows ----------------------------------------------------------------------

  /** A sector of cluster c. */
  predicate Within(g: Geometry, c: nat, s: nat)
    requires c >= 2
  {
    DataSect(g, c, 0) <= s < DataSect(g, c, 0) + g.csize
  }

  /** Outside the FAT only the sectors of cluster c have changed. */
  ghost predicate OnlyCluster(g: Geometry, c: nat, v: seq<Sector>, w: seq<Sector>)
    requires c >= 2
  {
    |w| == |v| && forall s :: 0 <= s < |v| && !g.InFat(s) && !Within(g, c, s) ==> w[s] == v[s]
  }

  lemma MetaElsewhere(g: Geometry, dirs: set<nat>, c: nat, s: nat)
    requires Meta(g, dirs, s) && s != NO_SECTOR && c >= 2 && c !in dirs
    ensures !Within(g, c, s)
  {
    assert DataSect(g, c, 0) >= g.database;
    if s >= g.database && Within(g, c, s) {
      var d, o: nat :| d in dirs && d >= 2 && o < g.csize && s == DataSect(g, d, o);
      DataSectInjective(g, d, o, c, s - DataSect(g, c, 0));
    }
  }

  lemma MineElsewhere(g: Geometry, ch: seq<nat>, c: nat, s: nat)
    requires Chain(g, ch) && Mine(g, ch, s) && c >= 2 && c !in ch
    ensures !Within(g, c, s)
  {
    hide DataSect;
    var k: nat :| HasSect(g, ch, k) && FileSect(g, ch, k) == s;
    assert ch[k / g.csize] in ch;
    if Within(g, c, s) { SameDataSect(g, ch[k / g.csize], k % g.csize, c, s); }
  }

  lemma SameDataSect(g: Geometry, d: nat, o: nat, c: nat, s: nat)
    requires d >= 2 && c >= 2 && o < g.csize && s == DataSect(g, d, o) && Within(g, c, s)
    ensures c == d
  {
    DataSectInjective(g, d, o, c, s - DataSect(g, c, 0));
  }

  lemma SlotStays(g: Geometry, dirs: set<nat>, more: set<nat>, size: nat, p: Place)
    requires Slot(g, dirs, size, p) && dirs <= more
    ensures Slot(g, more, size, p)
  {
    assert p.sect < g.database || p.sect == NO_SECTOR
      || exists c, o: nat :: c in more && c >= 2 && o < g.csize && p.sect == DataSect(g, c, o);
  }

  /** A log when the directory dc takes the free cluster ncl. */
  lemma FiledBesides(g: Geometry, dirs: set<nat>, f: seq<nat>, v: seq<Sector>, b: Block, l: Log, dc: seq<nat>, ncl: nat,
                     e: seq<nat>, w: seq<Sector>, win: nat)
    requires Filed(g, dirs, f, v, b, l) && Shelf(g, dirs, f, |v|, win) && Grew(f, dc, e, dc + [ncl])
    requires (forall c :: c in dc ==> c in dirs)
    requires 2 <= ncl < g.nFatent && f[ncl] == 0 && OnlyCluster(g, ncl, v, w)
    ensures Filed(g, dirs + {ncl}, e, w, b, l)
  {
    assert |w| == |v| && ncl !in dirs;
    hide Grew, OnlyCluster, IsChain, Holds, Geometry.Valid, DataFits, Meta, Unused;
    assert ncl in dc + [ncl];
    GrewApart(f, dc, e, dc + [ncl], l.chain);
    forall k | 0 <= k < |b|
      ensures Slot(g, dirs + {ncl}, |w|, b[k]) && w[b[k].sect] == v[b[k].sect] && (Unused(w, b[k]) <==> Unused(v, b[k]))
    {
      SlotStays(g, dirs, dirs + {ncl}, |v|, b[k]);
      SlotBesides(g, dirs, v, b[k], ncl, w);
    }
    BytesBesides(g, dirs, v, l, ncl, w);
  }

  /** An entry's sector is none of the new cluster's. */
  lemma SlotBesides(g: Geometry, dirs: set<nat>, v: seq<Sector>, q: Place, ncl: nat, w: seq<Sector>)
    requires Slot(g, dirs, |v|, q) && |v| < NO_SECTOR && ncl >= 2 && ncl !in dirs && OnlyCluster(g, ncl, v, w)
    ensures |w| == |v| && w[q.sect] == v[q.sect] && (Unused(w, q) <==> Unused(v, q)) && !Within(g, ncl, q.sect)
    ensures ShownAt(w, q) == ShownAt(v, q)
  {
    hide Meta, Within;
    MetaElsewhere(g, dirs, ncl, q.sect);
  }

  lemma BytesBesides(g: Geometry, dirs: set<nat>, v: seq<Sector>, l: Log, ncl: nat, w: seq<Sector>)
    requires Chain(g, l.chain) && DataFits(g, |v|) && |v| < NO_SECTOR && g.Valid() && Holds(g, l.chain, v, l.bytes)
    requires ncl >= 2 && ncl !in l.chain && OnlyCluster(g, ncl, v, w)
    ensures Holds(g, l.chain, w, l.bytes) && |w| == |v|
  {
    hide Holds, Chain, DataFits, Meta, Mine, Within, HasSect, FileSect;
    forall i: nat | i < |v| && Mine(g, l.chain, i) ensures w[i] == v[i] {
      MineIsData(g, l.chain, |v|, i);
      MineElsewhere(g, l.chain, ncl, i);
    }
    ViewKept(g, l.chain, v, w, l.bytes);
  }

  /** The entries of a directory cluster, in order. */
  function ClusterSlots(g: Geometry, c: nat): (s: seq<Place>)
    requires c >= 2
    ensures |s| == 16 * g.csize
  {
    seq(16 * g.csize, i requires 0 <= i => ClusterEntry(g, c, i))
  }

  function ClusterEntry(g: Geometry, c: nat, i: nat): Place
    requires c >= 2
  {
    Place(DataSect(g, c, 0) + i / 16, i % 16 * SZDIRE)
  }

  lemma SlotSect(g: Geometry, c: nat, i: nat)
    requires c >= 2 && i < 16 * g.csize
    ensures i / 16 < g.csize && ClusterSlots(g, c)[i].sect == DataSect(g, c, i / 16) && ClusterSlots(g, c)[i].ofs < SS
    ensures Within(g, c, DataSect(g, c, i / 16))
  {
  }

  lemma ClusterSlot(g: Geometry, dirs: set<nat>, size: nat, c: nat, i: nat)
    requires g.Valid() && DataFits(g, size) && size < NO_SECTOR && FsiReserved(g) && 2 <= c < g.nFatent && c in dirs
    requires i < 16 * g.csize
    ensures Slot(g, dirs, size, ClusterSlots(g, c)[i]) && Within(g, c, ClusterSlots(g, c)[i].sect)
  {
    hide DataSect, DataFits;
    SlotSect(g, c, i);
    DataSectBound(g, size, c, i / 16);
    assert ClusterSlots(g, c)[i].ofs == i % 16 * SZDIRE;
    DirectorySlot(g, dirs, size, c, i / 16, i % 16);
  }

  lemma DirectorySlot(g: Geometry, dirs: set<nat>, size: nat, c: nat, o: nat, i: nat)
    requires g.Valid() && FsiReserved(g) && c >= 2 && c in dirs && o < g.csize && i < 16
    requires g.database <= DataSect(g, c, o) < size < NO_SECTOR
    ensures Slot(g, dirs, size, Place(DataSect(g, c, o), i * SZDIRE))
  {
    hide DataSect;
  }

  /** They are different entries. */
  lemma FreshSlots(g: Geometry, dirs: set<nat>, size: nat, c: nat)
    requires g.Valid() && DataFits(g, size) && size < NO_SECTOR && FsiReserved(g) && 2 <= c < g.nFatent && c in dirs
    ensures Directory(g, dirs, size, ClusterSlots(g, c))
    ensures forall k :: 0 <= k < |ClusterSlots(g, c)| ==> Within(g, c, ClusterSlots(g, c)[k].sect)
  {
    hide Slot, Within, DataFits, DataSect;
    var s := ClusterSlots(g, c);
    forall k | 0 <= k < |s|
      ensures Slot(g, dirs, size, s[k]) && Within(g, c, s[k].sect)
    {
      ClusterSlot(g, dirs, size, c, k);
    }
    forall j, k | 0 <= j < k < |s| ensures s[j] != s[k] { SlotsDiffer(j, k); }
  }

  lemma SlotsDiffer(j: nat, k: nat)
    requires j < k
    ensures j / 16 != k / 16 || j % 16 * SZDIRE != k % 16 * SZDIRE
  {
  }

  predicate Numbers(dc: seq<nat>) {
    forall i :: 0 <= i < |dc| ==> dc[i] >= 2
  }

  /** All entries of a directory with these clusters. */
  function AllSlots(g: Geometry, dc: seq<nat>): (s: seq<Place>)
    requires Numbers(dc)
  {
    if dc == [] then [] else AllSlots(g, dc[..|dc| - 1]) + ClusterSlots(g, dc[|dc| - 1])
  }

  lemma AllSlotsMore(g: Geometry, dc: seq<nat>, c: nat)
    requires Numbers(dc) && c >= 2
    ensures Numbers(dc + [c]) && AllSlots(g, dc + [c]) == AllSlots(g, dc) + ClusterSlots(g, c)
  {
    assert (dc + [c])[..|dc|] == dc;
  }

  lemma {:induction false} AllSlotsCount(g: Geometry, dc: seq<nat>)
    requires Numbers(dc)
    ensures |AllSlots(g, dc)| == 16 * (g.csize * |dc|)
  {
    if dc == [] {
    } else {
      AllSlotsCount(g, dc[..|dc| - 1]);
      OneMore(g.csize, |dc|);
    }
  }

  lemma OneMore(c: nat, n: nat)
    requires n > 0
    ensures c * n == c * (n - 1) + c
  {
  }

  /** The limit on a directory's size is a multiple of a cluster: one that has not reached it can take another. */
  lemma OneMoreFits(c: nat, n: nat)
    requires c > 0 && 4096 % c == 0 && c * n < 4096
    ensures c * n + c <= 4096
  {
    var t := 4096 / c;
    assert c * t == 4096;
    if n >= t { Monotone(c, t, n); }
    Monotone(c, n + 1, t);
    assert c * (n + 1) == c * n + c;
  }

  lemma Monotone(c: nat, a: nat, b: nat)
    ensures a <= b ==> c * a <= c * b
  {
  }

  /** The store when the directory dc has taken the free cluster ncl. */
  lemma StoreStretched(g: Geometry, dirs: set<nat>, f: seq<nat>, v: seq<Sector>, index: map<Home, Block>,
                       places: seq<Place>, logs: map<Home, Log>, dc: seq<nat>, ncl: nat, e: seq<nat>, w: seq<Sector>,
                       win: nat)
    requires Store(g, dirs, f, v, index, places, logs) && Shelf(g, dirs, f, |v|, win) && Grew(f, dc, e, dc + [ncl])
    requires (forall c :: c in dc ==> c in dirs) && 2 <= ncl < g.nFatent && f[ncl] == 0 && OnlyCluster(g, ncl, v, w)
    ensures Store(g, dirs + {ncl}, e, w, index, places + ClusterSlots(g, ncl), logs)
    ensures |w| == |v| && forall q :: q in places ==>
      q.sect < |v| && (Unused(w, q) <==> Unused(v, q)) && ShownAt(w, q) == ShownAt(v, q)
  {
    hide Grew, OnlyCluster, Filed, Shelf, AllApart, Within, Unused, Slot, ShownAt;
    StretchedSize(g, dirs, f, v, ncl, w, win);
    forall n | n in index ensures Filed(g, dirs + {ncl}, e, w, index[n], logs[n]) {
      FiledBesides(g, dirs, f, v, index[n], logs[n], dc, ncl, e, w, win);
    }
    forall k | 0 <= k < |places|
      ensures Slot(g, dirs + {ncl}, |w|, places[k]) && (Unused(w, places[k]) <==> Unused(v, places[k]))
      ensures ShownAt(w, places[k]) == ShownAt(v, places[k])
      ensures !Within(g, ncl, places[k].sect) && places[k].sect < |v|
    {
      SlotStays(g, dirs, dirs + {ncl}, |v|, places[k]);
      SlotBesides(g, dirs, v, places[k], ncl, w);
      SlotFacts(g, dirs, |v|, places[k]);
    }
    FreshSlots(g, dirs + {ncl}, |w|, ncl);
    JoinedDirectory(g, dirs + {ncl}, |w|, places, ClusterSlots(g, ncl), ncl);
  }

  lemma JoinedDirectory(g: Geometry, dirs: set<nat>, size: nat, a: seq<Place>, b: seq<Place>, c: nat)
    requires a != [] && (forall k :: 0 <= k < |a| ==> Slot(g, dirs, size, a[k]))
    requires (forall j, k :: 0 <= j < k < |a| ==> a[j] != a[k]) && Directory(g, dirs, size, b) && c >= 2
    requires forall k :: 0 <= k < |a| ==> !Within(g, c, a[k].sect)
    requires forall k :: 0 <= k < |b| ==> Within(g, c, b[k].sect)
    ensures Directory(g, dirs, size, a + b)
  {
    hide Slot, Within;
    var s := a + b;
    forall j, k | 0 <= j < k < |s| ensures s[j] != s[k] {
      if j < |a| <= k { assert !Within(g, c, a[j].sect) && Within(g, c, b[k - |a|].sect); }
    }
  }

  lemma StretchedSize(g: Geometry, dirs: set<nat>, f: seq<nat>, v: seq<Sector>, ncl: nat, w: seq<Sector>, win: nat)
    requires Shelf(g, dirs, f, |v|, win) && 2 <= ncl < g.nFatent && f[ncl] == 0 && OnlyCluster(g, ncl, v, w)
    ensures |w| == |v| && g.Valid() && DataFits(g, |v|) && |v| < NO_SECTOR && FsiReserved(g) && ncl !in dirs
  {
  }

  lemma ShelfStretched(g: Geometry, dirs: set<nat>, f: seq<nat>, size: nat, win: nat, tail: nat, ncl: nat, eoc: nat)
    requires Shelf(g, dirs, f, size, win) && tail in dirs && InRange(f, ncl) && InRange(f, tail) && eoc > 0
    requires g.csize > 0
    ensures Shelf(g, dirs + {ncl}, Linked(f, tail, ncl, eoc), size, DataSect(g, ncl, 0))
  {
    assert ncl in dirs + {ncl};
  }

  /** Behind the end of a chain create_chain answers 0 only if no cluster is free, and else takes one. */
  lemma AnswerAtEnd(f: seq<nat>, m: Chains, last: nat, tail: nat, ncl: nat)
    requires WellFormed(f, m) && InRange(f, tail) && f[tail] >= |f| && Answer(f, last, tail, ncl)
    ensures if ncl == 0 then Full(f) else ncl >= 2 && Takes(f, tail, ncl)
  {
    hide WellFormed, FirstStop;
    if ncl <= 1 { SearchFailed(f, last, tail, ncl); }
    forall d | InRange(f, d) ensures f[d] != 1 { NeverIllegal(f, m, d); }
  }

  /** Taking a cluster and filling it has changed nothing else outside the FAT. */
  lemma ClearedOnly(g: Geometry, v: seq<Sector>, v1: seq<Sector>, w: seq<Sector>, c: nat)
    requires g.Valid() && c >= 2 && OffFat(g, v1) == OffFat(g, v) && |w| == |v1|
    requires forall s :: 0 <= s < |v1| && !Within(g, c, s) ==> w[s] == v1[s]
    ensures OnlyCluster(g, c, v, w)
  {
    assert |OffFat(g, v)| == |v| && |OffFat(g, v1)| == |v1|;
    forall s | 0 <= s < |v| && !g.InFat(s) ensures v1[s] == v[s] {
      assert OffFat(g, v)[s] == v[s] && OffFat(g, v1)[s] == v1[s];
    }
  }

  lemma ClusterBounds(g: Geometry, size: nat, c: nat)
    requires g.Valid() && DataFits(g, size) && 2 <= c < g.nFatent
    ensures g.csize > 0 && g.database <= DataSect(g, c, 0) && DataSect(g, c, 0) + g.csize <= size
  {
    hide DataFits, TableBytes, Modulus, DataSect;
    DataSectBound(g, size, c, g.csize - 1);
    DataSectNext(g, c);
  }

  lemma DataSectNext(g: Geometry, c: nat)
    requires g.csize > 0 && c >= 2
    ensures DataSect(g, c, g.csize - 1) + 1 == DataSect(g, c, 0) + g.csize && g.database <= DataSect(g, c, 0)
  {
  }

  lemma SameSize(g: Geometry, v: seq<Sector>, w: seq<Sector>)
    requires OffFat(g, w) == OffFat(g, v)
    ensures |w| == |v|
  {
    assert |OffFat(g, v)| == |v| && |OffFat(g, w)| == |w|;
  }

  /** Linking a cluster behind the end of the directory lets its chain grow. */
  lemma LinkedGrew(f: seq<nat>, dc: seq<nat>, ncl: nat, eoc: nat)
    requires dc != [] && InRange(f, ncl) && f[ncl] == 0 && InRange(f, dc[|dc| - 1])
    ensures Grew(f, dc, Linked(f, dc[|dc| - 1], ncl, eoc), dc + [ncl])
  {
    assert dc[|dc| - 1] in dc + [ncl] && ncl in dc + [ncl];
  }

  /** A longer directory still is one of the chains, and so are the logs'. */
  lemma AccountedStretched(f: seq<nat>, m: Chains, dirs: set<nat>, logs: map<Home, Log>, dc: seq<nat>, ncl: nat,
                           n: Chains)
    requires WellFormed(f, m) && Accounted(m, dirs, logs) && dc != [] && Listed(m, dc)
    requires (forall c :: c in dc ==> c in dirs)
    requires Longer(m, dc[|dc| - 1], ncl, n) && forall k, c :: k in logs && c in logs[k].chain ==> c !in dirs
    ensures Accounted(n, dirs + {ncl}, logs) && Listed(n, dc + [ncl])
  {
    hide WellFormed, Longer;
    LinkedListed(f, m, dc, ncl, n);
    assert dc[0] in dc;
    forall k | k in logs ensures Listed(n, logs[k].chain) {
      if logs[k].chain != [] { assert logs[k].chain[0] in logs[k].chain; }
    }
    forall h | h in n ensures OfLog(logs, n[h]) || forall c :: c in n[h] ==> c in dirs + {ncl} {
    }
  }

  // ---- room in a directory -------------------------------------------------------------------------

  /** The n entries up to place at are unused. */
  predicate Room(v: seq<Sector>, places: seq<Place>, at: nat, n: nat) {
    n <= at + 1 && at < |places| && forall i :: at + 1 - n <= i <= at ==> Unused(v, places[i])
  }

  /** No n entries in a row are. */
  ghost predicate Crowded(v: seq<Sector>, places: seq<Place>, n: nat) {
    forall at :: 0 <= at < |places| ==> !Room(v, places, at, n)
  }

  /** The entries before at have no room for need in a row; the last n of them are unused, and no more than those. */
  ghost predicate Combed(v: seq<Sector>, places: seq<Place>, at: nat, n: nat, need: nat) {
    && n < need && n <= at <= |places|
    && (forall i :: at - n <= i < at ==> Unused(v, places[i]))
    && (n < at ==> !Unused(v, places[at - n - 1]))
    && (forall e :: 0 <= e < at ==> !Room(v, places, e, need))
  }

  lemma SearchStart(v: seq<Sector>, places: seq<Place>, need: nat)
    requires need > 0
    ensures Combed(v, places, 0, 0, need)
  {
  }

  lemma SearchStep(v: seq<Sector>, places: seq<Place>, at: nat, n: nat, need: nat)
    requires Combed(v, places, at, n, need) && at < |places|
    ensures !Unused(v, places[at]) ==> Combed(v, places, at + 1, 0, need)
    ensures Unused(v, places[at]) ==>
      if n + 1 == need then Room(v, places, at, need) else Combed(v, places, at + 1, n + 1, need)
  {
    hide Unused;
    if Unused(v, places[at]) && n + 1 < need && n < at {
      assert !Unused(v, places[at - n - 1]);
    }
  }

  lemma NoneBefore(v: seq<Sector>, places: seq<Place>, at: nat, n: nat, need: nat)
    requires Combed(v, places, at, n, need)
    ensures forall e :: 0 <= e < at ==> !Room(v, places, e, need)
  {
  }

  /** A search that has come to the end has found no room. */
  lemma SearchEnds(v: seq<Sector>, places: seq<Place>, at: nat, n: nat, need: nat)
    requires Combed(v, places, at, n, need) && at == |places|
    ensures Crowded(v, places, need)
  {
    hide Unused, Room;
  }

  lemma RoomReached(v: seq<Sector>, places: seq<Place>, at: nat, need: nat)
    requires Room(v, places, at, need)
    ensures !Crowded(v, places, need)
  {
    hide Unused;
  }

  /** The directory holds as much room as the sectors show. */
  lemma RoomListed(g: Geometry, dirs: set<nat>, v: seq<Sector>, places: seq<Place>, at: nat, n: nat)
    requires Directory(g, dirs, |v|, places) && Room(v, places, at, n)
    requires forall e :: 0 <= e < at ==> !Room(v, places, e, n)
    ensures L.FirstRoom(Listing(v, places), at, n)
  {
    hide Slot, L.Unused, Unused, ShownAt;
    forall i | 0 <= i < |places| ensures Unused(v, places[i]) <==> L.Unused(Listing(v, places)[i]) {
      UnusedListed(g, dirs, v, places[i]);
    }
    forall e | 0 <= e < at ensures !L.Room(Listing(v, places), e, n) { assert !Room(v, places, e, n); }
  }

  lemma UnusedListed(g: Geometry, dirs: set<nat>, v: seq<Sector>, p: Place)
    requires Slot(g, dirs, |v|, p)
    ensures (Unused(v, p) <==> L.Unused(ShownAt(v, p))) && |ShownAt(v, p)| == 32 && ShownAt(v, p)[0] == v[p.sect][p.ofs]
  {
  }

  /** It goes on where it was when the directory has grown. */
  lemma SearchStretched(v: seq<Sector>, places: seq<Place>, n: nat, need: nat, w: seq<Sector>, more: seq<Place>)
    requires Combed(v, places, |places|, n, need) && places <= more
    requires forall q :: q in places ==> (Unused(w, q) <==> Unused(v, q))
    ensures Combed(w, more, |places|, n, need)
  {
    hide Unused;
    assert forall i :: 0 <= i < |places| ==> more[i] == places[i] && places[i] in places;
    forall e | 0 <= e < |places| ensures !Room(w, more, e, need) {
      assert !Room(v, places, e, need);
    }
  }

  // ---- what the volume shows once an entry is written ------------------------------------------------

  /** Writing to a file and closing it changes only that log. */
  lemma WriteOnly(g: Geometry, dirs: set<nat>, p: Place, ch: seq<nat>, f: seq<nat>, v: seq<Sector>, dh: seq<nat>,
                  e: seq<nat>, v1: seq<Sector>, w: seq<Sector>, size: nat, tm: nat)
    requires Slot(g, dirs, |v|, p) && g.Valid() && DataFits(g, |v|) && |v| < NO_SECTOR && !Unused(v, p)
    requires forall c :: c in dirs ==> c !in dh
    requires OnlyFile(g, ch, f, v, dh, e, v1) && OnlyData(g, dh, {p.sect, FsiSect(g)}, v1, w)
    requires w[p.sect] == Updated(g.fsType, v1[p.sect], p.ofs, Start(dh), size, tm) && size <= MAX_SIZE
    requires IsChain(e, dh) && |e| == g.nFatent
    ensures OnlyLog(g, p, ch, f, v, dh, e, w) && !Unused(w, p)
    ensures LdClust(g.fsType, w[p.sect], p.ofs) == Start(dh) && LdSize(w[p.sect], p.ofs) == size
    ensures Touched(ShownAt(v, p), ShownAt(w, p))
  {
    if Mine(g, dh, p.sect) { MineNotMeta(g, dirs, dh, |v|, p.sect); }
    UpdatedReads(g.fsType, v1[p.sect], p.ofs, Start(dh), size, tm);
    TouchedEntry(v, w, p);
  }

  /** The time of the last change. */
  ghost function Stamp(e: L.Entry): nat { LdDword(e, 22) }

  /** The flags of the name and the time of creation are the same. */
  ghost predicate SameBirth(e: L.Entry, d: L.Entry) { forall k :: 12 <= k < 18 ==> d[k] == e[k] }

  lemma StampHere(v: seq<Sector>, p: Place)
    requires p.sect < |v| && p.ofs + SZDIRE <= SS
    ensures Stamp(ShownAt(v, p)) == LdDword(v[p.sect], p.ofs + 22)
    ensures LdDword(ShownAt(v, p), 14) == LdDword(v[p.sect], p.ofs + 14)
  {
  }

  /** It is the time given; what the entry has had since its creation stays. */
  lemma WriteStamped(g: Geometry, dirs: set<nat>, p: Place, ch: seq<nat>, f: seq<nat>, v: seq<Sector>, dh: seq<nat>,
                     e: seq<nat>, v1: seq<Sector>, w: seq<Sector>, start: nat, size: nat, tm: nat)
    requires Slot(g, dirs, |v|, p) && DataFits(g, |v|) && |v| < NO_SECTOR && forall c :: c in dirs ==> c !in dh
    requires OnlyFile(g, ch, f, v, dh, e, v1) && p.sect < |w| && size <= MAX_SIZE && start < 0x1_0000_0000
    requires (g.fsType != Fat32 ==> start < 0x1_0000)
    requires w[p.sect] == Updated(g.fsType, v1[p.sect], p.ofs, start, size, tm)
    ensures Stamp(ShownAt(w, p)) == tm % 0x1_0000_0000 && SameBirth(ShownAt(v, p), ShownAt(w, p))
  {
    hide Updated, LdDword, Stamp, OnlyFile, LdClust, LdSize;
    EntryUntouched(g, dirs, p, ch, f, v, dh, e, v1);
    UpdatedReads(g.fsType, v1[p.sect], p.ofs, start, size, tm);
    StampHere(w, p);
    forall k | 12 <= k < 18 ensures ShownAt(w, p)[k] == ShownAt(v, p)[k] {
      assert w[p.sect][p.ofs + k] == v[p.sect][p.ofs + k];
    }
  }

  lemma EntryUntouched(g: Geometry, dirs: set<nat>, p: Place, ch: seq<nat>, f: seq<nat>, v: seq<Sector>, dh: seq<nat>,
                       e: seq<nat>, w: seq<Sector>)
    requires Slot(g, dirs, |v|, p) && DataFits(g, |v|) && |v| < NO_SECTOR && forall c :: c in dirs ==> c !in dh
    requires OnlyFile(g, ch, f, v, dh, e, w)
    ensures p.sect < |v| == |w| && p.ofs + SZDIRE <= SS && w[p.sect] == v[p.sect]
  {
    if Mine(g, dh, p.sect) { MineNotMeta(g, dirs, dh, |v|, p.sect); }
  }

  /** The entry of a new file: archive bit, flags, both times, and nothing else behind the name. */
  ghost predicate Fresh(e: L.Entry, nt: byte, tm: nat) {
    && e[11] == 0x20 && e[12] == nt && e[13] == 0
    && LdDword(e, 14) == tm % 0x1_0000_0000 == LdDword(e, 22)
    && (forall k :: 18 <= k < 22 || 26 <= k < 32 ==> e[k] == 0)
  }

  lemma FreshHere(t: FatType, sec: Sector, v: seq<Sector>, p: Place, sfn: seq<byte>, nt: byte, tm: nat)
    requires p.sect < |v| && p.ofs + SZDIRE <= SS && |sfn| == 11
    requires v[p.sect] == Created(sec, p.ofs, sfn, nt, tm)
    ensures Fresh(ShownAt(v, p), nt, tm)
  {
    hide Created, LdDword;
    CreatedReads(t, sec, p.ofs, sfn, nt, tm);
    StampHere(v, p);
    assert forall k :: 0 <= k < 32 ==> ShownAt(v, p)[k] == v[p.sect][p.ofs + k];
  }

  lemma TouchedEntry(v: seq<Sector>, w: seq<Sector>, p: Place)
    requires p.sect < |v| == |w| && p.ofs + SZDIRE <= SS
    requires forall k :: p.ofs <= k < p.ofs + 11 ==> w[p.sect][k] == v[p.sect][k]
    requires w[p.sect][p.ofs + DIR_ATTR] == Archived(v[p.sect][p.ofs + DIR_ATTR])
    ensures Touched(ShownAt(v, p), ShownAt(w, p))
  {
    EntryBytes(v, p);
    EntryBytes(w, p);
    assert w[p.sect][p.ofs..p.ofs + 11] == v[p.sect][p.ofs..p.ofs + 11];
    hide ShownAt;
  }

  /** The name and the attributes in an entry. */
  lemma EntryBytes(v: seq<Sector>, p: Place)
    requires p.sect < |v| && p.ofs + SZDIRE <= SS
    ensures ShownAt(v, p)[..11] == v[p.sect][p.ofs..p.ofs + 11]
    ensures ShownAt(v, p)[L.LDIR_ATTR] == v[p.sect][p.ofs + DIR_ATTR] && ShownAt(v, p)[0] == v[p.sect][p.ofs]
  {
  }

  /** Writing one entry changes no log's clusters. */
  lemma EntryOnly(g: Geometry, p: Place, f: seq<nat>, v: seq<Sector>, w: seq<Sector>)
    requires p.sect < |v| && p.ofs + SZDIRE <= SS && |w| == |v|
    requires forall s :: 0 <= s < |v| && s != p.sect ==> w[s] == v[s]
    requires forall k :: 0 <= k < SS && !(p.ofs <= k < p.ofs + SZDIRE) ==> w[p.sect][k] == v[p.sect][k]
    ensures OnlyLog(g, p, [], f, v, [], f, w)
  {
  }

  /** An unused entry is no log's. */
  lemma Nobodys(g: Geometry, dirs: set<nat>, f: seq<nat>, v: seq<Sector>, b: Block, l: Log, p: Place)
    requires Filed(g, dirs, f, v, b, l) && Unused(v, p)
    ensures p !in b
  {
    hide Slot, Stored, Unused;
    assert !Unused(v, Short(b));
    forall k | 0 <= k < |b| ensures b[k] != p {
    }
  }

  /** Nor are those of a run of them. */
  lemma RoomForeign(g: Geometry, dirs: set<nat>, f: seq<nat>, v: seq<Sector>, index: map<Home, Block>,
                    logs: map<Home, Log>, places: seq<Place>, at: nat, n: nat)
    requires AllFiled(g, dirs, f, v, index, logs) && Room(v, places, at, n)
    ensures forall m :: m in index ==> Foreign(places[at + 1 - n..at + 1], index[m])
  {
    hide Filed, Unused;
    var b := places[at + 1 - n..at + 1];
    forall m | m in index ensures Foreign(b, index[m]) {
      forall p | p in b ensures p !in index[m] {
        assert Unused(v, p);
        Nobodys(g, dirs, f, v, index[m], logs[m], p);
      }
    }
  }

  /** A run of entries of the directory, all but the last by now in use. */
  lemma RunStanding(g: Geometry, dirs: set<nat>, v: seq<Sector>, places: seq<Place>, at: nat, n: nat)
    requires Directory(g, dirs, |v|, places) && 0 < n <= at + 1 <= |places|
    requires forall k :: at + 1 - n <= k < at ==> !Unused(v, places[k])
    ensures Standing(g, dirs, v, places[at + 1 - n..at + 1]) && Short(places[at + 1 - n..at + 1]) == places[at]
  {
    hide Slot, Unused;
  }

  /** A created entry is that of an empty file. */
  lemma CreateOnly(g: Geometry, p: Place, f: seq<nat>, v: seq<Sector>, w: seq<Sector>, sfn: seq<byte>, nt: byte,
                   tm: nat)
    requires p.sect < |v| && p.ofs + SZDIRE <= SS && |sfn| == 11 && !Idle(sfn[0])
    requires w == v[p.sect := Created(v[p.sect], p.ofs, sfn, nt, tm)]
    ensures OnlyLog(g, p, [], f, v, [], f, w) && Described(g, w, p, Log([], []))
    ensures ShownAt(w, p)[..11] == sfn && IsFile(ShownAt(w, p))
  {
    CreatedReads(g.fsType, v[p.sect], p.ofs, sfn, nt, tm);
    CreatedFile(w, p, sfn);
  }

  lemma CreatedFile(w: seq<Sector>, p: Place, sfn: seq<byte>)
    requires p.sect < |w| && p.ofs + SZDIRE <= SS && |sfn| == 11 && !Idle(sfn[0])
    requires forall k :: 0 <= k < 11 ==> w[p.sect][p.ofs + k] == sfn[k]
    requires w[p.sect][p.ofs + DIR_ATTR] == AM_ARC
    ensures ShownAt(w, p)[..11] == sfn && IsFile(ShownAt(w, p))
  {
    EntryBytes(w, p);
    hide ShownAt;
    assert w[p.sect][p.ofs..p.ofs + 11] == sfn;
  }

  // ---- a log that goes -------------------------------------------------------------------------------

  /** Table e is table f with the clusters of ch freed. */
  ghost predicate Freed(f: seq<nat>, ch: seq<nat>, e: seq<nat>) {
    |e| == |f| && forall c :: 0 <= c < |f| ==> e[c] == if c in ch then 0 else f[c]
  }

  lemma FiledFreed(g: Geometry, dirs: set<nat>, f: seq<nat>, v: seq<Sector>, b: Block, l: Log, ch: seq<nat>,
                   e: seq<nat>, w: seq<Sector>)
    requires Filed(g, dirs, f, v, b, l) && Freed(f, ch, e) && Apart(ch, l.chain)
    requires g.Valid() && OffFat(g, w) == OffFat(g, v) && DataFits(g, |v|)
    ensures Filed(g, dirs, e, w, b, l)
  {
    SameSize(g, v, w);
    OffFatSame(g, v, w);
    StoredFacts(g, dirs, f, v, l);
    hide Slot, Holds, Unused, OffFat, DataFits, Meta, Mine, Chain, IsChain;
    forall k | 0 <= k < |b| ensures w[b[k].sect] == v[b[k].sect] && (Unused(w, b[k]) <==> Unused(v, b[k])) {
      SlotFacts(g, dirs, |v|, b[k]);
      UnusedSame(v, w, b[k]);
    }
    ChainFreed(f, ch, e, l.chain);
    forall i: nat | i < |v| && Mine(g, l.chain, i) ensures w[i] == v[i] {
      MineIsData(g, l.chain, |v|, i);
    }
    ViewKept(g, l.chain, v, w, l.bytes);
  }

  lemma StillDescribed(g: Geometry, v: seq<Sector>, w: seq<Sector>, p: Place, l: Log)
    requires |w| == |v| && Described(g, v, p, l) && w[p.sect] == v[p.sect]
    ensures Described(g, w, p, l)
  {
  }

  lemma UnusedSame(v: seq<Sector>, w: seq<Sector>, p: Place)
    requires |w| == |v| && p.sect < |v| && w[p.sect] == v[p.sect]
    ensures Unused(w, p) <==> Unused(v, p)
  {
  }

  lemma OffFatSame(g: Geometry, v: seq<Sector>, w: seq<Sector>)
    requires OffFat(g, w) == OffFat(g, v)
    ensures |w| == |v| && forall s :: 0 <= s < |v| && !g.InFat(s) ==> w[s] == v[s]
  {
    SameSize(g, v, w);
    forall s | 0 <= s < |v| && !g.InFat(s) ensures w[s] == v[s] {
      assert OffFat(g, v)[s] == v[s] && OffFat(g, w)[s] == w[s];
    }
  }

  lemma ChainFreed(f: seq<nat>, ch: seq<nat>, e: seq<nat>, other: seq<nat>)
    requires IsChain(f, other) && Freed(f, ch, e) && Apart(ch, other)
    ensures IsChain(e, other)
  {
    forall i | 0 <= i < |other| ensures e[other[i]] == f[other[i]] {
      assert other[i] in other;
    }
    SameEntries(f, e, other);
  }

  /** Freeing a chain that is no log's changes no log. */
  lemma StoreFreed(g: Geometry, dirs: set<nat>, f: seq<nat>, v: seq<Sector>, index: map<Home, Block>,
                   places: seq<Place>, logs: map<Home, Log>, ch: seq<nat>, e: seq<nat>, w: seq<Sector>)
    requires Store(g, dirs, f, v, index, places, logs) && Freed(f, ch, e) && g.Valid() && DataFits(g, |v|)
    requires OffFat(g, w) == OffFat(g, v) && forall n :: n in logs ==> Apart(ch, logs[n].chain)
    ensures Store(g, dirs, e, w, index, places, logs)
  {
    SameSize(g, v, w);
    hide Filed, Freed, Apart, OffFat, DataFits, Slot;
    forall n | n in index ensures Filed(g, dirs, e, w, index[n], logs[n]) {
      FiledFreed(g, dirs, f, v, index[n], logs[n], ch, e, w);
    }
  }

  lemma ShelfMoved(g: Geometry, dirs: set<nat>, f: seq<nat>, size: nat, win: nat, win': nat)
    requires Shelf(g, dirs, f, size, win) && Meta(g, dirs, win')
    ensures Shelf(g, dirs, f, size, win')
  {
  }

  lemma ShelfFreed(g: Geometry, dirs: set<nat>, f: seq<nat>, size: nat, win: nat, ch: seq<nat>, e: seq<nat>, win': nat)
    requires Shelf(g, dirs, f, size, win) && Freed(f, ch, e) && (forall c :: c in dirs ==> c !in ch)
    requires win' == win || g.InFat(win') || win' == NO_SECTOR
    ensures Shelf(g, dirs, e, size, win')
  {
  }

  /** The directory stays when nothing outside the FAT changes, */
  lemma ListingFreed(g: Geometry, dirs: set<nat>, v: seq<Sector>, w: seq<Sector>, places: seq<Place>)
    requires OffFat(g, w) == OffFat(g, v) && Directory(g, dirs, |v|, places)
    ensures Listing(w, places) == Listing(v, places)
  {
    OffFatSame(g, v, w);
    hide Slot;
    forall k | 0 <= k < |places| ensures ShownAt(w, places[k]) == ShownAt(v, places[k]) {
      SlotFacts(g, dirs, |v|, places[k]);
    }
  }

  /** or nothing but FSINFO. */
  lemma ListingSynced(g: Geometry, dirs: set<nat>, v: seq<Sector>, w: seq<Sector>, places: seq<Place>)
    requires |w| == |v| && forall s :: 0 <= s < |v| && s != FsiSect(g) ==> w[s] == v[s]
    requires Directory(g, dirs, |v|, places)
    ensures Listing(w, places) == Listing(v, places)
  {
    hide Slot;
    forall k | 0 <= k < |places| ensures ShownAt(w, places[k]) == ShownAt(v, places[k]) {
      SlotFacts(g, dirs, |v|, places[k]);
    }
  }

  lemma FrontFreed(g: Geometry, b: seq<Sector>, v: seq<Sector>, w: seq<Sector>)
    requires SameFront(g, b, v) && OffFat(g, w) == OffFat(g, v)
    ensures SameFront(g, b, w)
  {
    OffFatSame(g, v, w);
  }

  /** What is left when a log and its entries are forgotten. */
  lemma StoreWithout(g: Geometry, dirs: set<nat>, f: seq<nat>, v: seq<Sector>, index: map<Home, Block>,
                     places: seq<Place>, logs: map<Home, Log>, n: Home)
    requires Store(g, dirs, f, v, index, places, logs) && n in index
    ensures Store(g, dirs, f, v, index - {n}, places, logs - {n})
    ensures forall m :: m in index - {n} ==> Foreign(index[n], (index - {n})[m])
    ensures forall m :: m in logs - {n} ==> Apart(logs[n].chain, (logs - {n})[m].chain)
  {
    hide Filed, Apart, Foreign, Directory;
  }

  /** The chains on the volume once the log's chain is freed. */
  lemma AccountedFreed(f: seq<nat>, m: Chains, dirs: set<nat>, logs: map<Home, Log>, n: Home, mm: Chains)
    requires WellFormed(f, m) && Accounted(m, dirs, logs) && n in logs && logs[n].chain != []
    requires Shorter(m, logs[n].chain[0], mm)
    requires forall k :: k in logs && k != n ==> Apart(logs[n].chain, logs[k].chain)
    ensures mm == m - {logs[n].chain[0]} && Accounted(mm, dirs, logs - {n})
  {
    hide IsChain, Disjoint, Owned, WellFormed;
    var ch, x := logs[n].chain, logs - {n};
    WholeCut(f, m, ch, mm);
    forall k | k in x ensures Listed(mm, x[k].chain) {
      assert Apart(ch, logs[k].chain) && ch[0] in ch;
      assert logs[k].chain != [] ==> logs[k].chain[0] in logs[k].chain;
    }
    forall h | h in mm && OfLog(logs, m[h]) ensures OfLog(x, mm[h]) {
      var k :| k in logs && logs[k].chain == m[h];
      ChainAt(f, m, h);
      assert x[k].chain == mm[h];
    }
  }

  lemma WholeCut(f: seq<nat>, m: Chains, ch: seq<nat>, mm: Chains)
    requires WellFormed(f, m) && ch != [] && Listed(m, ch) && Shorter(m, ch[0], mm)
    ensures mm == m - {ch[0]}
  {
    hide WellFormed;
    var h, j: nat :| h in m && j < |m[h]| && m[h][j] == ch[0] && mm == Cut(m, h, j);
    OneOwner(f, m, h, ch[0], ch[0]);
    ChainAt(f, m, h);
    SamePlace(f, m[h], j, 0);
  }

  /** A log without clusters goes without any change there. */
  lemma AccountedForgotten(f: seq<nat>, m: Chains, dirs: set<nat>, logs: map<Home, Log>, n: Home)
    requires WellFormed(f, m) && Accounted(m, dirs, logs) && n in logs && logs[n].chain == []
    ensures Accounted(m, dirs, logs - {n})
  {
    hide IsChain, Disjoint, Owned, WellFormed;
    var x := logs - {n};
    forall h | h in m && OfLog(logs, m[h]) ensures OfLog(x, m[h]) {
      var k :| k in logs && logs[k].chain == m[h];
      ChainAt(f, m, h);
      assert x[k].chain == m[h];
    }
  }

  // ---- the sectors in front of the FAT ---------------------------------------------------------------

  /** Boot sector, partition table and all else in front of the FAT but FSINFO are the same. */
  ghost predicate SameFront(g: Geometry, v: seq<Sector>, w: seq<Sector>) {
    |w| == |v| && forall s :: 0 <= s < g.fatbase && s < |v| && s != FsiSect(g) ==> w[s] == v[s]
  }

  lemma FrontKept(g: Geometry, dirs: set<nat>, b: seq<Sector>, p: Place, ch: seq<nat>, f: seq<nat>, v: seq<Sector>,
                  dh: seq<nat>, e: seq<nat>, w: seq<Sector>)
    requires SameFront(g, b, v) && OnlyLog(g, p, ch, f, v, dh, e, w) && Slot(g, dirs, |v|, p)
    requires g.Valid() && DataFits(g, |v|)
    ensures SameFront(g, b, w)
  {
    assert |w| == |v| && p.sect >= g.fatbase && g.database >= g.fatbase;
    hide Slot, DataFits;
    forall s: nat | Mine(g, dh, s) ensures s >= g.database { MineIsData(g, dh, |v|, s); }
  }

  lemma FrontStretched(g: Geometry, b: seq<Sector>, v: seq<Sector>, c: nat, w: seq<Sector>)
    requires SameFront(g, b, v) && g.Valid() && c >= 2 && OnlyCluster(g, c, v, w)
    ensures SameFront(g, b, w)
  {
    hide DataSect;
    DataSectNext(g, c);
    assert g.database >= g.fatbase;
    forall s | 0 <= s < g.fatbase && s < |b| && s != FsiSect(g) ensures w[s] == b[s] {
      assert v[s] == b[s] && !g.InFat(s) && !Within(g, c, s);
    }
  }
}
