/**
 * Where the bytes of a file lie: sector numbers along its cluster chain, and what overwriting some of those sectors
 * means for the file read as one sequence of bytes.
 */
module FileLayout {
  import opened Bytes
  import opened Disk
  import opened FatLayout
  import opened FatTable
  import opened FatChains

  // ---- arithmetic of sectors and clusters ----------------------------------------------------------

  lemma DivStay(k: nat, j: nat, c: nat)
    requires c > 0 && k % c + j < c
    ensures (k + j) / c == k / c && (k + j) % c == k % c + j
  {
    var q, r := k / c, k % c;
    assert k + j == c * q + (r + j);
    DivUnique(k + j, c, q, r + j);
  }

  lemma DivNext(k: nat, j: nat, c: nat)
    requires c > 0 && k % c + j == c
    ensures (k + j) / c == k / c + 1 && (k + j) % c == 0
  {
    var q := k / c;
    assert k + j == c * (q + 1) + 0;
    DivUnique(k + j, c, q + 1, 0);
  }

  lemma DivUnique(x: nat, c: nat, q: nat, r: nat)
    requires c > 0 && r < c && x == c * q + r
    ensures x / c == q && x % c == r
  {
    var a, b := x / c, x % c;
    assert x == c * a + b;
    if a < q {
      MulStep(c, a, q);
    } else if q < a {
      MulStep(c, q, a);
    }
  }

  lemma MulStep(c: nat, a: nat, b: nat)
    requires a < b
    ensures c * a + c <= c * b
  {
    var d := b - a - 1;
    assert c * b == c * a + c + c * d;
  }

  // ---- sectors of clusters -------------------------------------------------------------------------

  /** Sector o of cluster c. */
  function DataSect(g: Geometry, c: nat, o: nat): nat
    requires c >= 2
  {
    (c - 2) * g.csize + g.database + o
  }

  /** Cluster 2 begins behind the FATs and the root directory, and each cluster where the one before ends. */
  lemma ClustersInOrder(g: Geometry, c: nat, o: nat)
    requires c >= 2
    ensures DataSect(g, 2, 0) == g.database && DataSect(g, c, o + 1) == DataSect(g, c, o) + 1
    ensures DataSect(g, c + 1, 0) == DataSect(g, c, g.csize)
  {
    assert (c + 1 - 2) * g.csize == (c - 2) * g.csize + g.csize;
  }

  /** The drive reaches to the end of the last cluster. */
  predicate DataFits(g: Geometry, size: nat) {
    g.nFatent >= 2 && DataSect(g, g.nFatent, 0) <= size
  }

  lemma DataSectBound(g: Geometry, size: nat, c: nat, o: nat)
    requires DataFits(g, size) && 2 <= c < g.nFatent && o < g.csize
    ensures g.database <= DataSect(g, c, o) < size
  {
    MulStep(g.csize, c - 2, g.nFatent - 2);
  }

  lemma DataSectInjective(g: Geometry, c: nat, o: nat, d: nat, p: nat)
    requires c >= 2 && d >= 2 && o < g.csize && p < g.csize && DataSect(g, c, o) == DataSect(g, d, p)
    ensures c == d && o == p
  {
    if c < d {
      MulStep(g.csize, c - 2, d - 2);
    } else if d < c {
      MulStep(g.csize, d - 2, c - 2);
    }
  }

  /** The chain's clusters are clusters of the volume, all different. */
  predicate Chain(g: Geometry, ch: seq<nat>) {
    && (forall i :: 0 <= i < |ch| ==> 2 <= ch[i] < g.nFatent)
    && (forall i, j :: 0 <= i < j < |ch| ==> ch[i] != ch[j])
  }

  /** The file has a k-th sector. */
  predicate HasSect(g: Geometry, ch: seq<nat>, k: nat) {
    g.csize > 0 && k / g.csize < |ch|
  }

  /** The drive's number for the file's k-th sector. */
  function FileSect(g: Geometry, ch: seq<nat>, k: nat): nat
    requires Chain(g, ch) && HasSect(g, ch, k)
  {
    DataSect(g, ch[k / g.csize], k % g.csize)
  }

  lemma FileSectInjective(g: Geometry, ch: seq<nat>, j: nat, k: nat)
    requires Chain(g, ch) && HasSect(g, ch, j) && HasSect(g, ch, k)
    ensures FileSect(g, ch, j) == FileSect(g, ch, k) ==> j == k
  {
    hide DataSect, Chain;
    if FileSect(g, ch, j) == FileSect(g, ch, k) {
      ClusterThere(g, ch, j / g.csize);
      ClusterThere(g, ch, k / g.csize);
      DataSectInjective(g, ch[j / g.csize], j % g.csize, ch[k / g.csize], k % g.csize);
      ClusterOnce(g, ch, j / g.csize, k / g.csize);
      SameParts(j, k, g.csize);
    }
  }

  lemma ClusterThere(g: Geometry, ch: seq<nat>, i: nat)
    requires Chain(g, ch) && i < |ch|
    ensures 2 <= ch[i] < g.nFatent
  {
  }

  lemma ClusterOnce(g: Geometry, ch: seq<nat>, i: nat, j: nat)
    requires Chain(g, ch) && i < |ch| && j < |ch| && ch[i] == ch[j]
    ensures i == j
  {
  }

  lemma SameParts(j: nat, k: nat, c: nat)
    requires c > 0 && j / c == k / c && j % c == k % c
    ensures j == k
  {
    assert j == c * (j / c) + j % c;
    assert k == c * (k / c) + k % c;
  }

  lemma FileSectBound(g: Geometry, size: nat, ch: seq<nat>, k: nat)
    requires DataFits(g, size) && Chain(g, ch) && HasSect(g, ch, k)
    ensures g.database <= FileSect(g, ch, k) < size
  {
    DataSectBound(g, size, ch[k / g.csize], k % g.csize);
  }

  /** The file's clusters follow one another in the order of the chain. */
  lemma ClusterBegins(g: Geometry, ch: seq<nat>, i: nat)
    requires Chain(g, ch) && g.csize > 0 && i < |ch|
    ensures HasSect(g, ch, g.csize * i) && FileSect(g, ch, g.csize * i) == DataSect(g, ch[i], 0)
  {
    DivUnique(g.csize * i, g.csize, i, 0);
  }

  /** Consecutive sectors of a cluster are consecutive on the drive. */
  lemma FileSectRun(g: Geometry, ch: seq<nat>, k: nat, j: nat)
    requires Chain(g, ch) && HasSect(g, ch, k) && k % g.csize + j < g.csize
    ensures HasSect(g, ch, k + j) && FileSect(g, ch, k + j) == FileSect(g, ch, k) + j
  {
    DivStay(k, j, g.csize);
  }

  /** s is one of the file's sectors. */
  ghost predicate Mine(g: Geometry, ch: seq<nat>, s: nat)
    requires Chain(g, ch)
  {
    exists k: nat :: HasSect(g, ch, k) && FileSect(g, ch, k) == s
  }

  // ---- the file as a byte sequence -----------------------------------------------------------------

  /** The file covers n bytes. */
  predicate Covers(g: Geometry, ch: seq<nat>, n: nat) {
    n > 0 ==> HasSect(g, ch, (n - 1) / SS)
  }

  lemma CoversSect(g: Geometry, ch: seq<nat>, n: nat, i: nat)
    requires g.csize > 0 && Covers(g, ch, n) && i < n
    ensures HasSect(g, ch, i / SS)
  {
    DivMono(i / SS, (n - 1) / SS, g.csize);
  }

  lemma DivMono(a: nat, b: nat, c: nat)
    requires a <= b && c > 0
    ensures a / c <= b / c
  {
    assert a == c * (a / c) + a % c;
    assert b == c * (b / c) + b % c;
    if b / c < a / c {
      MulStep(c, b / c, a / c);
    }
  }

  /** The file laid out along ch in the sectors v reads as s. */
  ghost predicate Holds(g: Geometry, ch: seq<nat>, v: seq<Sector>, s: seq<byte>)
    requires Chain(g, ch) && DataFits(g, |v|)
  {
    && g.csize > 0 && Covers(g, ch, |s|)
    && forall i {:trigger s[i]} :: 0 <= i < |s| ==> SectByte(g, ch, v, i, s[i])
  }

  /** Byte i of the file is b. */
  predicate SectByte(g: Geometry, ch: seq<nat>, v: seq<Sector>, i: nat, b: byte)
    requires Chain(g, ch) && DataFits(g, |v|)
  {
    HasSect(g, ch, i / SS) && (FileSectBound(g, |v|, ch, i / SS); v[FileSect(g, ch, i / SS)][i % SS] == b)
  }

  /** s with d written at place p, growing if it has to. */
  function Overwrite(s: seq<byte>, p: nat, d: seq<byte>): (r: seq<byte>)
    requires p <= |s|
    ensures |r| == if p + |d| > |s| then p + |d| else |s|
    ensures forall i :: 0 <= i < |r| ==> r[i] == if p <= i < p + |d| then d[i - p] else s[i]
  {
    s[..p] + d + if p + |d| < |s| then s[p + |d|..] else []
  }

  lemma OverwriteNothing(s: seq<byte>, p: nat)
    requires p <= |s|
    ensures Overwrite(s, p, []) == s
  {
  }

  lemma OverwriteTwice(s: seq<byte>, p: nat, a: seq<byte>, b: seq<byte>)
    requires p <= |s|
    ensures Overwrite(Overwrite(s, p, a), p + |a|, b) == Overwrite(s, p, a + b)
  {
  }

  /**
   * Only sectors of the file other than its own matter not: a view that shows its sectors alike holds the same bytes.
   */
  lemma HoldsSame(g: Geometry, ch: seq<nat>, v: seq<Sector>, w: seq<Sector>, s: seq<byte>)
    requires Chain(g, ch) && DataFits(g, |v|) && |w| == |v| && Holds(g, ch, v, s)
    requires forall k: nat :: HasSect(g, ch, k) && FileSect(g, ch, k) < |v| ==>
      w[FileSect(g, ch, k)] == v[FileSect(g, ch, k)]
    ensures Holds(g, ch, w, s)
  {
    forall i | 0 <= i < |s| ensures SectByte(g, ch, w, i, s[i]) {
      assert SectByte(g, ch, v, i, s[i]);
      FileSectBound(g, |v|, ch, i / SS);
    }
  }

  /** Growing the chain leaves what it already held. */
  lemma HoldsGrown(g: Geometry, ch: seq<nat>, more: seq<nat>, v: seq<Sector>, s: seq<byte>)
    requires Chain(g, ch) && Chain(g, ch + more) && DataFits(g, |v|) && Holds(g, ch, v, s)
    ensures Holds(g, ch + more, v, s)
  {
    forall i | 0 <= i < |s| ensures SectByte(g, ch + more, v, i, s[i]) {
      assert SectByte(g, ch, v, i, s[i]);
    }
  }

  /** Writing some bytes within the k-th sector of the file. */
  lemma HoldsPatch(g: Geometry, ch: seq<nat>, v: seq<Sector>, w: seq<Sector>, s: seq<byte>, k: nat, off: nat,
                   d: seq<byte>)
    requires Chain(g, ch) && DataFits(g, |v|) && |w| == |v| && Holds(g, ch, v, s)
    requires HasSect(g, ch, k) && FileSect(g, ch, k) < |v| && d != [] && off + |d| <= SS && k * SS + off <= |s|
    requires forall j :: 0 <= j < |v| && j != FileSect(g, ch, k) ==> w[j] == v[j]
    requires forall j :: off <= j < off + |d| ==> w[FileSect(g, ch, k)][j] == d[j - off]
    requires forall j :: 0 <= j < SS && !(off <= j < off + |d|) && k * SS + j < |s| ==>
               w[FileSect(g, ch, k)][j] == v[FileSect(g, ch, k)][j]
    ensures Holds(g, ch, w, Overwrite(s, k * SS + off, d))
  {
    var r := Overwrite(s, k * SS + off, d);
    forall i | 0 <= i < |r| ensures SectByte(g, ch, w, i, r[i]) {
      PatchByte(g, ch, v, w, s, k, off, d, i);
    }
    assert (|r| - 1) / SS == k || |r| == |s|;
  }

  lemma PatchByte(g: Geometry, ch: seq<nat>, v: seq<Sector>, w: seq<Sector>, s: seq<byte>, k: nat, off: nat,
                  d: seq<byte>, i: nat)
    requires Chain(g, ch) && DataFits(g, |v|) && |w| == |v| && Holds(g, ch, v, s)
    requires HasSect(g, ch, k) && FileSect(g, ch, k) < |v| && d != [] && off + |d| <= SS && k * SS + off <= |s|
    requires forall j :: 0 <= j < |v| && j != FileSect(g, ch, k) ==> w[j] == v[j]
    requires forall j :: off <= j < off + |d| ==> w[FileSect(g, ch, k)][j] == d[j - off]
    requires forall j :: 0 <= j < SS && !(off <= j < off + |d|) && k * SS + j < |s| ==>
               w[FileSect(g, ch, k)][j] == v[FileSect(g, ch, k)][j]
    requires i < |Overwrite(s, k * SS + off, d)|
    ensures SectByte(g, ch, w, i, Overwrite(s, k * SS + off, d)[i])
  {
    var at := FileSect(g, ch, k);
    if i / SS == k && off <= i % SS < off + |d| {
      assert w[at][i % SS] == d[i % SS - off];
    } else {
      assert i < |s|;
      OldByte(g, ch, v, s, i);
      if i / SS == k {
        assert w[at][i % SS] == v[at][i % SS];
      } else {
        FileSectInjective(g, ch, i / SS, k);
      }
    }
  }

  lemma OldByte(g: Geometry, ch: seq<nat>, v: seq<Sector>, s: seq<byte>, i: nat)
    requires Chain(g, ch) && DataFits(g, |v|) && Holds(g, ch, v, s) && i < |s|
    ensures HasSect(g, ch, i / SS) && FileSect(g, ch, i / SS) < |v| && v[FileSect(g, ch, i / SS)][i % SS] == s[i]
  {
    assert SectByte(g, ch, v, i, s[i]);
    FileSectBound(g, |v|, ch, i / SS);
  }

  /** Writing cc whole sectors, all in one cluster, from the k-th sector of the file on. */
  lemma HoldsDirect(g: Geometry, ch: seq<nat>, v: seq<Sector>, w: seq<Sector>, s: seq<byte>, k: nat, cc: nat,
                    d: seq<byte>)
    requires Chain(g, ch) && DataFits(g, |v|) && |w| == |v| && Holds(g, ch, v, s)
    requires HasSect(g, ch, k) && k % g.csize + cc <= g.csize && cc > 0 && |d| == cc * SS && k * SS <= |s|
    requires FileSect(g, ch, k) + cc <= |v|
    requires forall j :: 0 <= j < |v| && !(FileSect(g, ch, k) <= j < FileSect(g, ch, k) + cc) ==> w[j] == v[j]
    requires forall j :: 0 <= j < cc ==> w[FileSect(g, ch, k) + j] == d[j * SS..(j + 1) * SS]
    ensures Holds(g, ch, w, Overwrite(s, k * SS, d))
  {
    var r := Overwrite(s, k * SS, d);
    FileSectRun(g, ch, k, cc - 1);
    forall i | 0 <= i < |r| ensures SectByte(g, ch, w, i, r[i]) {
      DirectByte(g, ch, v, w, s, k, cc, d, i);
    }
    assert (|r| - 1) / SS == k + cc - 1 || |r| == |s|;
  }

  lemma DirectByte(g: Geometry, ch: seq<nat>, v: seq<Sector>, w: seq<Sector>, s: seq<byte>, k: nat, cc: nat,
                   d: seq<byte>, i: nat)
    requires Chain(g, ch) && DataFits(g, |v|) && |w| == |v| && Holds(g, ch, v, s)
    requires HasSect(g, ch, k) && k % g.csize + cc <= g.csize && cc > 0 && |d| == cc * SS && k * SS <= |s|
    requires FileSect(g, ch, k) + cc <= |v|
    requires forall j :: 0 <= j < |v| && !(FileSect(g, ch, k) <= j < FileSect(g, ch, k) + cc) ==> w[j] == v[j]
    requires forall j :: 0 <= j < cc ==> w[FileSect(g, ch, k) + j] == d[j * SS..(j + 1) * SS]
    requires i < |Overwrite(s, k * SS, d)|
    ensures SectByte(g, ch, w, i, Overwrite(s, k * SS, d)[i])
  {
    var q := i / SS;
    if k <= q < k + cc {
      FileSectRun(g, ch, k, q - k);
      var j := q - k;
      assert w[FileSect(g, ch, k) + j] == d[j * SS..(j + 1) * SS];
      assert d[j * SS..(j + 1) * SS][i % SS] == d[j * SS + i % SS];
    } else {
      OldByte(g, ch, v, s, i);
      NotInRun(g, ch, k, cc, q);
    }
  }

  lemma NotInRun(g: Geometry, ch: seq<nat>, k: nat, cc: nat, q: nat)
    requires Chain(g, ch) && HasSect(g, ch, k) && k % g.csize + cc <= g.csize && HasSect(g, ch, q) && !(k <= q < k + cc)
    ensures !(FileSect(g, ch, k) <= FileSect(g, ch, q) < FileSect(g, ch, k) + cc)
  {
    var j := FileSect(g, ch, q) - FileSect(g, ch, k);
    if 0 <= j < cc {
      FileSectRun(g, ch, k, j);
      FileSectInjective(g, ch, q, k + j);
    }
  }

  // ---- growing a chain -----------------------------------------------------------------------------

  /**
   * From one state of the volume to another, only the file with chain ch (before) and dh (after) has changed: it has
   * kept its clusters and taken free ones.
   */
  ghost predicate OnlyFile(g: Geometry, ch: seq<nat>, f: seq<nat>, v: seq<Sector>, dh: seq<nat>, e: seq<nat>,
                           w: seq<Sector>) {
    && |e| == |f| && |w| == |v| && Chain(g, dh) && ch <= dh
    && (forall i :: |ch| <= i < |dh| ==> InRange(f, dh[i]) && f[dh[i]] == 0)
    && (forall c :: 0 <= c < |f| && c !in dh ==> e[c] == f[c])
    && (forall s :: 0 <= s < |v| && !g.InFat(s) && !Mine(g, dh, s) ==> w[s] == v[s])
  }

  lemma OnlyFileTrans(g: Geometry, ch: seq<nat>, f: seq<nat>, v: seq<Sector>, dh: seq<nat>, e: seq<nat>, w: seq<Sector>,
                      eh: seq<nat>, d: seq<nat>, x: seq<Sector>)
    requires OnlyFile(g, ch, f, v, dh, e, w) && OnlyFile(g, dh, e, w, eh, d, x)
    ensures OnlyFile(g, ch, f, v, eh, d, x)
  {
    forall i | |ch| <= i < |eh| ensures InRange(f, eh[i]) && f[eh[i]] == 0 {
      if i < |dh| {
        assert eh[i] == dh[i];
      } else {
        assert forall j :: 0 <= j < |dh| ==> eh[j] != eh[i];
        assert eh[i] !in dh;
      }
    }
    forall c | 0 <= c < |f| && c !in eh ensures d[c] == f[c] {
      assert c !in dh;
    }
    forall s | 0 <= s < |v| && !g.InFat(s) && !Mine(g, eh, s) ensures x[s] == v[s] {
      if Mine(g, dh, s) {
        MineGrown(g, dh, eh, s);
      }
    }
  }

  lemma MineGrown(g: Geometry, ch: seq<nat>, dh: seq<nat>, s: nat)
    requires Chain(g, ch) && Chain(g, dh) && ch <= dh && Mine(g, ch, s)
    ensures Mine(g, dh, s)
  {
    hide DataSect;
    var k: nat :| HasSect(g, ch, k) && FileSect(g, ch, k) == s;
    assert HasSect(g, dh, k) && dh[k / g.csize] == ch[k / g.csize];
    assert FileSect(g, dh, k) == s;
  }

  /** The end of a chain, 0 if there is none. */
  function Tail(ch: seq<nat>): nat {
    if ch == [] then 0 else ch[|ch| - 1]
  }

  /** Linking a free cluster behind the end makes a longer chain. */
  lemma Stretched(g: Geometry, f: seq<nat>, ch: seq<nat>, ncl: nat, eoc: nat)
    requires Chain(g, ch) && IsChain(f, ch) && |f| == g.nFatent && InRange(f, ncl) && f[ncl] == 0 && eoc >= |f|
    ensures ncl !in ch && Chain(g, ch + [ncl]) && (Tail(ch) != 0 ==> InRange(f, Tail(ch)))
    ensures IsChain(Linked(f, Tail(ch), ncl, eoc), ch + [ncl])
  {
    forall i | 0 <= i < |ch| ensures ch[i] != ncl {
      assert i < |ch| - 1 ==> f[ch[i]] == ch[i + 1];
    }
    if ch != [] {
      var e, last := ch + [ncl], |ch| - 1;
      var h := Linked(f, ch[last], ncl, eoc);
      forall i | 0 <= i < |e| - 1 ensures h[e[i]] == e[i + 1] {
        if i < last {
          assert e[i] == ch[i] && ch[i] != ch[last] && ch[i] != ncl && f[ch[i]] == ch[i + 1];
        }
      }
    }
  }

  /** Doing so touches no other file. */
  lemma StretchedOnly(g: Geometry, f: seq<nat>, ch: seq<nat>, ncl: nat, eoc: nat, v: seq<Sector>, w: seq<Sector>)
    requires Chain(g, ch) && Chain(g, ch + [ncl]) && InRange(f, ncl) && f[ncl] == 0
    requires (Tail(ch) != 0 ==> InRange(f, Tail(ch)))
    requires g.Valid() && OffFat(g, v) == OffFat(g, w)
    ensures OnlyFile(g, ch, f, v, ch + [ncl], Linked(f, Tail(ch), ncl, eoc), w)
  {
    var dh := ch + [ncl];
    assert Tail(ch) != 0 ==> Tail(ch) in dh;
    assert dh[|ch|] in dh;
    forall s | 0 <= s < |v| && !g.InFat(s) ensures w[s] == v[s] {
      assert OffFat(g, v)[s] == v[s] && OffFat(g, w)[s] == w[s];
    }
  }

  // ---- an open file on a volume --------------------------------------------------------------------

  /** A sector the window may hold: in front of the data area, or in a directory. */
  ghost predicate Meta(g: Geometry, dirs: set<nat>, s: nat) {
    s < g.database || s == NO_SECTOR || exists c, o: nat :: c in dirs && c >= 2 && o < g.csize && s == DataSect(g, c, o)
  }

  /** The file's chain is in the table; directories and the window are elsewhere. */
  ghost predicate Placed(g: Geometry, dirs: set<nat>, f: seq<nat>, size: nat, win: nat, ch: seq<nat>, start: nat) {
    && g.Valid() && |f| == g.nFatent && DataFits(g, size) && size < NO_SECTOR
    && Meta(g, dirs, win)
    && Chain(g, ch) && IsChain(f, ch) && start == (if ch == [] then 0 else ch[0])
    && (forall c :: c in dirs ==> InRange(f, c) && f[c] != 0 && c !in ch)
  }

  /** The sectors as the file sees them: the volume's with a dirty buffer laid over them. */
  function Shown(v: seq<Sector>, sect: nat, dirty: bool, b: Sector): (w: seq<Sector>)
    ensures |w| == |v|
  {
    if dirty && sect < |v| then v[sect := b] else v
  }

  /**
   * Clusters, sectors and buffer hold the bytes s; the buffer, unless empty, is a sector of the file, and if clean
   * agrees with the drive.
   */
  ghost predicate Image(g: Geometry, ch: seq<nat>, v: seq<Sector>, sect: nat, dirty: bool, b: seq<byte>, s: seq<byte>) {
    && Chain(g, ch) && DataFits(g, |v|) && |b| == SS
    && (dirty ==> sect != 0)
    && (sect != 0 ==> sect < |v| && Mine(g, ch, sect))
    && (sect != 0 && !dirty ==> b == v[sect])
    && Holds(g, ch, Shown(v, sect, dirty, b), s)
  }

  /** A file's sectors are data sectors, and never in the window. */
  lemma Away(g: Geometry, dirs: set<nat>, f: seq<nat>, size: nat, win: nat, ch: seq<nat>, start: nat, k: nat)
    requires Placed(g, dirs, f, size, win, ch, start) && HasSect(g, ch, k)
    ensures g.database <= FileSect(g, ch, k) < size && FileSect(g, ch, k) != win
  {
    FileSectBound(g, size, ch, k);
    AwayFromDirs(g, dirs, ch, k);
  }

  lemma AwayFromDirs(g: Geometry, dirs: set<nat>, ch: seq<nat>, k: nat)
    requires Chain(g, ch) && HasSect(g, ch, k) && forall c :: c in dirs ==> c !in ch
    ensures forall c, o: nat :: c in dirs && c >= 2 && o < g.csize ==> FileSect(g, ch, k) != DataSect(g, c, o)
  {
    var q, r := k / g.csize, k % g.csize;
    assert ch[q] in ch;
    forall c, o: nat | c in dirs && c >= 2 && o < g.csize ensures FileSect(g, ch, k) != DataSect(g, c, o) {
      if FileSect(g, ch, k) == DataSect(g, c, o) {
        DataSectInjective(g, c, o, ch[q], r);
      }
    }
  }

  lemma AwayRun(g: Geometry, dirs: set<nat>, f: seq<nat>, size: nat, win: nat, ch: seq<nat>, start: nat, k: nat,
                cc: nat)
    requires Placed(g, dirs, f, size, win, ch, start) && HasSect(g, ch, k) && k % g.csize + cc <= g.csize
    ensures !(FileSect(g, ch, k) <= win < FileSect(g, ch, k) + cc)
  {
    if FileSect(g, ch, k) <= win < FileSect(g, ch, k) + cc {
      FileSectRun(g, ch, k, win - FileSect(g, ch, k));
      Away(g, dirs, f, size, win, ch, start, k + (win - FileSect(g, ch, k)));
    }
  }

  lemma BufferAway(g: Geometry, dirs: set<nat>, f: seq<nat>, v: seq<Sector>, win: nat, ch: seq<nat>, start: nat,
                   sect: nat, dirty: bool, b: seq<byte>, s: seq<byte>)
    requires Placed(g, dirs, f, |v|, win, ch, start) && Image(g, ch, v, sect, dirty, b, s) && sect != 0
    ensures g.database <= sect < |v| && sect != win
  {
    var k: nat :| HasSect(g, ch, k) && FileSect(g, ch, k) == sect;
    Away(g, dirs, f, |v|, win, ch, start, k);
  }

  /** Writing the buffer back changes nothing the file shows. */
  lemma ImageFlushed(g: Geometry, ch: seq<nat>, v: seq<Sector>, sect: nat, b: seq<byte>, s: seq<byte>)
    requires Image(g, ch, v, sect, true, b, s)
    ensures sect < |v| && Image(g, ch, v[sect := b], sect, false, b, s)
  {
  }

  /** Bringing another sector of the file into a clean buffer. */
  lemma ImageLoaded(g: Geometry, ch: seq<nat>, v: seq<Sector>, sect: nat, b: seq<byte>, s: seq<byte>, k: nat)
    requires Image(g, ch, v, sect, false, b, s) && HasSect(g, ch, k)
    ensures FileSect(g, ch, k) < |v| && Image(g, ch, v, FileSect(g, ch, k), false, v[FileSect(g, ch, k)], s)
  {
    FileSectBound(g, |v|, ch, k);
  }

  /** A longer chain, on a volume that shows the same data sectors. */
  lemma ImageStretched(g: Geometry, ch: seq<nat>, ncl: nat, v: seq<Sector>, w: seq<Sector>, sect: nat, dirty: bool,
                       b: seq<byte>, s: seq<byte>)
    requires Image(g, ch, v, sect, dirty, b, s) && Chain(g, ch + [ncl]) && |w| == |v|
    requires forall i :: g.database <= i < |v| ==> w[i] == v[i]
    ensures Image(g, ch + [ncl], w, sect, dirty, b, s)
  {
    forall i: nat | i < |v| && Mine(g, ch, i) ensures w[i] == v[i] {
      MineIsData(g, ch, |v|, i);
    }
    ImageSame(g, ch, v, w, sect, dirty, b, s);
    if sect != 0 { MineGrown(g, ch, ch + [ncl], sect); }
    HoldsGrown(g, ch, [ncl], Shown(w, sect, dirty, b), s);
  }

  lemma ImageSame(g: Geometry, ch: seq<nat>, v: seq<Sector>, w: seq<Sector>, sect: nat, dirty: bool, b: seq<byte>,
                  s: seq<byte>)
    requires Image(g, ch, v, sect, dirty, b, s) && |w| == |v|
    requires forall i: nat :: i < |v| && Mine(g, ch, i) ==> w[i] == v[i]
    ensures Image(g, ch, w, sect, dirty, b, s)
  {
    var x, y := Shown(v, sect, dirty, b), Shown(w, sect, dirty, b);
    forall k: nat | HasSect(g, ch, k) && FileSect(g, ch, k) < |v|
      ensures y[FileSect(g, ch, k)] == x[FileSect(g, ch, k)]
    {
      assert Mine(g, ch, FileSect(g, ch, k));
    }
    HoldsSame(g, ch, x, y, s);
  }

  lemma MineIsData(g: Geometry, ch: seq<nat>, size: nat, s: nat)
    requires Chain(g, ch) && DataFits(g, size) && Mine(g, ch, s)
    ensures g.database <= s < size
  {
    var k: nat :| HasSect(g, ch, k) && FileSect(g, ch, k) == s;
    FileSectBound(g, size, ch, k);
  }

  lemma PlacedStretched(g: Geometry, dirs: set<nat>, f: seq<nat>, size: nat, win: nat, ch: seq<nat>, start: nat,
                        ncl: nat, eoc: nat, win': nat)
    requires Placed(g, dirs, f, size, win, ch, start) && InRange(f, ncl) && f[ncl] == 0 && eoc >= |f|
    requires win' == win || g.InFat(win') || win' == NO_SECTOR
    ensures Chain(g, ch + [ncl]) && (Tail(ch) != 0 ==> InRange(f, Tail(ch)))
    ensures Placed(g, dirs, Linked(f, Tail(ch), ncl, eoc), size, win', ch + [ncl], if ch == [] then ncl else start)
  {
    Stretched(g, f, ch, ncl, eoc);
    assert Tail(ch) != 0 ==> Tail(ch) in ch;
  }

  lemma OnlyNone(g: Geometry, ch: seq<nat>, f: seq<nat>, v: seq<Sector>)
    requires Chain(g, ch)
    ensures OnlyFile(g, ch, f, v, ch, f, v)
  {
  }

  /** Writing sectors of the file touches nothing else. */
  lemma OnlyOne(g: Geometry, ch: seq<nat>, f: seq<nat>, v: seq<Sector>, w: seq<Sector>, sect: nat)
    requires Chain(g, ch) && |w| == |v| && Mine(g, ch, sect) && forall s :: 0 <= s < |v| && s != sect ==> w[s] == v[s]
    ensures OnlyFile(g, ch, f, v, ch, f, w)
  {
  }

  lemma OnlyRun(g: Geometry, ch: seq<nat>, f: seq<nat>, v: seq<Sector>, w: seq<Sector>, k: nat, cc: nat)
    requires Chain(g, ch) && |w| == |v| && HasSect(g, ch, k) && k % g.csize + cc <= g.csize
    requires forall s :: 0 <= s < |v| && !(FileSect(g, ch, k) <= s < FileSect(g, ch, k) + cc) ==> w[s] == v[s]
    ensures OnlyFile(g, ch, f, v, ch, f, w)
  {
    forall s | 0 <= s < |v| && !g.InFat(s) && !Mine(g, ch, s) ensures w[s] == v[s] {
      if FileSect(g, ch, k) <= s < FileSect(g, ch, k) + cc {
        FileSectRun(g, ch, k, s - FileSect(g, ch, k));
      }
    }
  }

  /** Writing whole sectors past a clean buffer, which is refilled if it held one of them. */
  lemma ImageDirect(g: Geometry, ch: seq<nat>, v: seq<Sector>, w: seq<Sector>, sect: nat, b: seq<byte>, b': seq<byte>,
                    s: seq<byte>,
                    k: nat, cc: nat, d: seq<byte>)
    requires Image(g, ch, v, sect, false, b, s) && |w| == |v|
    requires HasSect(g, ch, k) && k % g.csize + cc <= g.csize && cc > 0 && |d| == cc * SS && k * SS <= |s|
    requires FileSect(g, ch, k) + cc <= |v|
    requires forall j :: 0 <= j < |v| && !(FileSect(g, ch, k) <= j < FileSect(g, ch, k) + cc) ==> w[j] == v[j]
    requires forall j :: 0 <= j < cc ==> w[FileSect(g, ch, k) + j] == d[j * SS..(j + 1) * SS]
    requires |b'| == SS
    requires b' == if FileSect(g, ch, k) <= sect < FileSect(g, ch, k) + cc
                   then d[(sect - FileSect(g, ch, k)) * SS..(sect - FileSect(g, ch, k) + 1) * SS] else b
    ensures Image(g, ch, w, sect, false, b', Overwrite(s, k * SS, d))
  {
    HoldsDirect(g, ch, v, w, s, k, cc, d);
    if FileSect(g, ch, k) <= sect < FileSect(g, ch, k) + cc {
      assert w[FileSect(g, ch, k) + (sect - FileSect(g, ch, k))] == b';
    }
  }

  /**
   * Changing bytes of the k-th sector in the buffer; at the growing edge whatever else the buffer held does not matter.
   */
  lemma ImagePatched(g: Geometry, ch: seq<nat>, v: seq<Sector>, sect: nat, dirty: bool, b: seq<byte>, s: seq<byte>,
                     k: nat, off: nat, d: seq<byte>)
    requires Image(g, ch, v, sect, dirty, b, s) && g.database > 0
    requires HasSect(g, ch, k) && d != [] && off + |d| <= SS && k * SS + off <= |s|
    requires sect == FileSect(g, ch, k) || (!dirty && k * SS == |s|)
    ensures Image(g, ch, v, FileSect(g, ch, k), true, Splice(b, off, d), Overwrite(s, k * SS + off, d))
  {
    FileSectBound(g, |v|, ch, k);
    var at := FileSect(g, ch, k);
    var x, y := Shown(v, sect, dirty, b), Shown(v, at, true, Splice(b, off, d));
    assert sect == at ==> x[at] == b;
    HoldsPatch(g, ch, x, y, s, k, off, d);
  }

  // ---- cursor arithmetic ---------------------------------------------------------------------------

  /** Within a cluster the byte before p and the byte at p lie in the same cluster. */
  lemma SameCluster(p: nat, c: nat)
    requires c > 0 && p > 0 && p % SS == 0 && p / SS % c != 0
    ensures (p - 1) / SS / c == p / SS / c
  {
    var m := (p - 1) / SS;
    assert p / SS == m + 1;
    if m % c + 1 == c {
      DivNext(m, 1, c);
    } else {
      DivStay(m, 1, c);
    }
  }

  /** On a cluster boundary the byte at p is the first of the next cluster. */
  lemma NextCluster(p: nat, c: nat)
    requires c > 0 && p > 0 && p % SS == 0 && p / SS % c == 0
    ensures p / SS / c == (p - 1) / SS / c + 1
  {
    var m := (p - 1) / SS;
    assert p / SS == m + 1;
    if m % c + 1 == c {
      DivNext(m, 1, c);
    } else {
      DivStay(m, 1, c);
    }
  }

  lemma ChainLink(g: Geometry, f: seq<nat>, ch: seq<nat>, i: nat)
    requires Chain(g, ch) && IsChain(f, ch) && i < |ch|
    ensures InRange(f, ch[i]) && f[ch[i]] >= 2
    ensures i + 1 < |ch| ==> f[ch[i]] == ch[i + 1] < |f|
    ensures i + 1 == |ch| ==> f[ch[i]] >= |f| && Tail(ch) == ch[i]
  {
    if i + 1 < |ch| {
      assert f[ch[i]] == ch[i + 1];
      assert InRange(f, ch[i + 1]);
    }
  }

  lemma OffFatData(g: Geometry, v: seq<Sector>, w: seq<Sector>)
    requires g.Valid() && OffFat(g, v) == OffFat(g, w)
    ensures |w| == |v| && forall s :: g.database <= s < |v| ==> w[s] == v[s]
  {
    forall s | g.database <= s < |v| ensures w[s] == v[s] {
      assert OffFat(g, v)[s] == v[s] && OffFat(g, w)[s] == w[s];
    }
  }

  lemma PlacedMoved(g: Geometry, dirs: set<nat>, f: seq<nat>, size: nat, win: nat, ch: seq<nat>, start: nat, win': nat)
    requires Placed(g, dirs, f, size, win, ch, start) && (win' == win || g.InFat(win') || win' == NO_SECTOR)
    ensures Placed(g, dirs, f, size, win', ch, start)
  {
  }

  /** All that follows when the file takes a free cluster. */
  lemma StretchOutcome(g: Geometry, dirs: set<nat>, f: seq<nat>, v: seq<Sector>, win: nat, ch: seq<nat>, start: nat,
                       sect: nat, dirty: bool, b: seq<byte>, s: seq<byte>, ncl: nat, eoc: nat, w: seq<Sector>,
                         win': nat)
    requires Placed(g, dirs, f, |v|, win, ch, start) && Image(g, ch, v, sect, dirty, b, s)
    requires InRange(f, ncl) && f[ncl] == 0 && eoc >= |f| && OffFat(g, w) == OffFat(g, v)
    requires win' == win || g.InFat(win') || win' == NO_SECTOR
    ensures |w| == |v| && (Tail(ch) != 0 ==> InRange(f, Tail(ch)))
    ensures Placed(g, dirs, Linked(f, Tail(ch), ncl, eoc), |w|, win', ch + [ncl], if ch == [] then ncl else start)
    ensures Image(g, ch + [ncl], w, sect, dirty, b, s)
    ensures OnlyFile(g, ch, f, v, ch + [ncl], Linked(f, Tail(ch), ncl, eoc), w)
  {
    OffFatData(g, v, w);
    PlacedStretched(g, dirs, f, |v|, win, ch, start, ncl, eoc, win');
    ImageStretched(g, ch, ncl, v, w, sect, dirty, b, s);
    StretchedOnly(g, f, ch, ncl, eoc, v, w);
  }

  /** c is the i-th cluster of the chain, or there is no chain and i is -1. */
  predicate IthCluster(ch: seq<nat>, c: nat, i: int) {
    if i == -1 then ch == [] && c == 0 else 0 <= i < |ch| && ch[i] == c
  }

  /** The chain after create_chain behind place i has answered clst. */
  function NextChain(ch: seq<nat>, i: int, clst: nat): seq<nat> {
    if i + 1 == |ch| && clst >= 2 then ch + [clst] else ch
  }

  /** What create_chain behind a cluster of the file means for the file. */
  lemma FollowOutcome(g: Geometry, dirs: set<nat>, f: seq<nat>, v: seq<Sector>, win: nat, ch: seq<nat>, start: nat,
                      sect: nat, dirty: bool, b: seq<byte>, s: seq<byte>, c: nat, i: int, last: nat, clst: nat,
                        eoc: nat,
                      e: seq<nat>, w: seq<Sector>, win': nat)
    requires Placed(g, dirs, f, |v|, win, ch, start) && Image(g, ch, v, sect, dirty, b, s) && IthCluster(ch, c, i)
    requires eoc >= |f| && OffFat(g, w) == OffFat(g, v) && Answer(f, last, c, clst)
    requires Takes(f, c, clst) ==>
      InRange(f, clst) && f[clst] == 0 && (c != 0 ==> InRange(f, c)) && e == Linked(f, c, clst, eoc)
    requires !Takes(f, c, clst) ==> w == v && e == f
    requires win' == win || g.InFat(win') || win' == NO_SECTOR
    ensures var dh := NextChain(ch, i, clst);
            && Placed(g, dirs, e, |w|, win', dh, if start == 0 && clst >= 2 then clst else start)
            && Image(g, dh, w, sect, dirty, b, s) && OnlyFile(g, ch, f, v, dh, e, w)
            && (clst >= 2 ==> i + 1 < |dh| && dh[i + 1] == clst)
    ensures clst < 2 ==> w == v && e == f && i + 1 == |ch|
    ensures i + 1 < |ch| ==> w == v && e == f
    ensures clst == 0 ==> Full(f)
    ensures clst == 1 ==> Broken(f)
  {
    if 0 <= i { ChainLink(g, f, ch, i); }
    assert ch != [] ==> start >= 2;
    if i + 1 == |ch| && clst >= 2 {
      assert c == Tail(ch);
      StretchOutcome(g, dirs, f, v, win, ch, start, sect, dirty, b, s, clst, eoc, w, win');
    } else {
      if clst <= 1 { SearchFailed(f, last, c, clst); }
      PlacedMoved(g, dirs, f, |v|, win, ch, start, win');
      OnlyNone(g, ch, f, v);
    }
  }

  // ---- reading -------------------------------------------------------------------------------------

  /** Bytes of the sector in the buffer are bytes of the file. */
  lemma ImagePart(g: Geometry, ch: seq<nat>, v: seq<Sector>, sect: nat, dirty: bool, b: seq<byte>, s: seq<byte>, k: nat,
                  off: nat, n: nat)
    requires Image(g, ch, v, sect, dirty, b, s) && HasSect(g, ch, k) && sect == FileSect(g, ch, k) && sect != 0
    requires off + n <= SS && k * SS + off + n <= |s|
    ensures b[off..off + n] == s[k * SS + off..k * SS + off + n]
  {
    var x := Shown(v, sect, dirty, b);
    assert x[sect] == b && Holds(g, ch, x, s);
    hide Image, Holds, Shown, FileSect, HasSect, DataFits, Chain;
    var p, q := b[off..off + n], s[k * SS + off..k * SS + off + n];
    forall j | 0 <= j < n ensures p[j] == q[j] {
      OldByte(g, ch, x, s, k * SS + off + j);
      assert (k * SS + off + j) / SS == k && (k * SS + off + j) % SS == off + j;
    }
  }

  /** What a run of sectors read past the buffer lacks: the buffered sector, if it is dirty and one of them. */
  function Patched(d: seq<byte>, at: nat, cc: nat, sect: nat, dirty: bool, b: seq<byte>): (r: seq<byte>)
    requires |d| == cc * SS && |b| == SS
    ensures |r| == |d|
  {
    if dirty && at <= sect < at + cc then Splice(d, (sect - at) * SS, b) else d
  }

  lemma ImageRun(g: Geometry, ch: seq<nat>, v: seq<Sector>, sect: nat, dirty: bool, b: seq<byte>, s: seq<byte>, k: nat,
                 cc: nat, d: seq<byte>)
    requires Image(g, ch, v, sect, dirty, b, s) && HasSect(g, ch, k) && k % g.csize + cc <= g.csize
    requires k * SS + cc * SS <= |s| && |d| == cc * SS && FileSect(g, ch, k) + cc <= |v|
    requires forall j :: 0 <= j < cc ==> d[j * SS..(j + 1) * SS] == v[FileSect(g, ch, k) + j]
    ensures Patched(d, FileSect(g, ch, k), cc, sect, dirty, b) == s[k * SS..k * SS + cc * SS]
  {
    var r := Patched(d, FileSect(g, ch, k), cc, sect, dirty, b);
    forall i | 0 <= i < |r| ensures r[i] == s[k * SS + i] {
      RunByte(g, ch, v, sect, dirty, b, s, k, cc, d, i);
    }
  }

  lemma RunByte(g: Geometry, ch: seq<nat>, v: seq<Sector>, sect: nat, dirty: bool, b: seq<byte>, s: seq<byte>, k: nat,
                cc: nat, d: seq<byte>, i: nat)
    requires Image(g, ch, v, sect, dirty, b, s) && HasSect(g, ch, k) && k % g.csize + cc <= g.csize
    requires k * SS + cc * SS <= |s| && |d| == cc * SS && FileSect(g, ch, k) + cc <= |v| && i < cc * SS
    requires forall j :: 0 <= j < cc ==> d[j * SS..(j + 1) * SS] == v[FileSect(g, ch, k) + j]
    ensures Patched(d, FileSect(g, ch, k), cc, sect, dirty, b)[i] == s[k * SS + i]
  {
    var j, x := i / SS, Shown(v, sect, dirty, b);
    var at := FileSect(g, ch, k);
    FileSectRun(g, ch, k, j);
    OldByte(g, ch, x, s, k * SS + i);
    assert (k * SS + i) / SS == k + j && (k * SS + i) % SS == i % SS;
    assert d[j * SS..(j + 1) * SS] == v[at + j];
    assert d[j * SS..(j + 1) * SS][i % SS] == d[i];
  }

  // ---- seeking -------------------------------------------------------------------------------------

  lemma SectAdd(p: nat, n: nat)
    requires p % SS == 0
    ensures (p + n) % SS == n % SS && (p + n) / SS == p / SS + n / SS
  {
  }

  lemma FirstSect(g: Geometry, ch: seq<nat>)
    requires g.csize > 0
    ensures HasSect(g, ch, 0) <==> ch != []
  {
    DivUnique(0, g.csize, 0, 0);
  }

  lemma MulDiv(x: nat, c: nat)
    requires c > 0
    ensures x / (SS * c) == x / SS / c
  {
    var q, r := x / SS, x % SS;
    var a, b := q / c, q % c;
    assert q == c * a + b;
    assert x == SS * (c * a + b) + r == SS * c * a + (SS * b + r) by {
      assert SS * (c * a) == SS * c * a;
    }
    assert SS * b + r < SS * c;
    DivUnique(x, SS * c, a, SS * b + r);
  }

  /** The number within the file of the cluster with byte x, computed as f_lseek does. */
  function ClusterNo(x: nat, c: nat): nat
    requires c > 0
  {
    x / (SS * c)
  }

  /** The first byte of that cluster. */
  function ClusterStart(x: nat, c: nat): nat
    requires c > 0
  {
    ClusterNo(x, c) * (SS * c)
  }

  /** The cluster boundary at or before x. */
  lemma AlignDown(x: nat, c: nat)
    requires c > 0
    ensures var p := ClusterStart(x, c);
            p <= x && p % SS == 0 && p / SS % c == 0 && p / SS / c == x / SS / c && x - p < SS * c
  {
    var a := x / (SS * c);
    var p := a * (SS * c);
    MulDiv(x, c);
    assert x == SS * c * a + x % (SS * c);
    assert p == SS * (c * a) by { assert a * (SS * c) == SS * c * a == SS * (c * a); }
    assert p / SS == c * a && p % SS == 0;
    DivUnique(c * a, c, a, 0);
  }

  /** A later byte is not before the cluster boundary of an earlier one. */
  lemma AlignAhead(x: nat, y: nat, c: nat)
    requires c > 0 && ClusterNo(y, c) >= ClusterNo(x, c)
    ensures ClusterStart(x, c) <= y
  {
    var b, m := SS * c, y / (SS * c);
    assert y == b * m + y % b;
    if x / b < m { MulStep(b, x / b, m); }
  }

  /** One cluster further on. */
  lemma NextAligned(p: nat, c: nat)
    requires c > 0 && p % SS == 0 && p / SS % c == 0
    ensures (p + SS * c) % SS == 0 && (p + SS * c) / SS % c == 0 && (p + SS * c) / SS / c == p / SS / c + 1
  {
    assert (p + SS * c) / SS == p / SS + c;
    DivNext(p / SS, c, c);
  }

  /** Up to a cluster's worth of bytes further on the last of them is still in the cluster. */
  lemma WithinAligned(p: nat, n: nat, c: nat)
    requires c > 0 && p % SS == 0 && p / SS % c == 0 && 0 < n <= SS * c
    ensures (p + n - 1) / SS / c == p / SS / c
    ensures n % SS != 0 ==> (p + n) / SS / c == p / SS / c && (p + n) / SS % c == n / SS
  {
    assert (p + n - 1) / SS == p / SS + (n - 1) / SS;
    assert (n - 1) / SS < c;
    DivStay(p / SS, (n - 1) / SS, c);
    if n % SS != 0 {
      assert (p + n) / SS == p / SS + n / SS;
      DivStay(p / SS, n / SS, c);
    }
  }

  /** s followed by whatever the file's sectors hold, up to n bytes. */
  function Extended(g: Geometry, ch: seq<nat>, v: seq<Sector>, s: seq<byte>, n: nat): (r: seq<byte>)
    requires Chain(g, ch) && DataFits(g, |v|) && g.csize > 0 && Covers(g, ch, n) && |s| <= n
    ensures |r| == n && s <= r
  {
    s + seq(n - |s|, i requires 0 <= i < n - |s| =>
      (CoversSect(g, ch, n, |s| + i); FileSectBound(g, |v|, ch, (|s| + i) / SS);
        v[FileSect(g, ch, (|s| + i) / SS)][(|s| + i) % SS]))
  }

  lemma ImageExtended(g: Geometry, ch: seq<nat>, v: seq<Sector>, sect: nat, dirty: bool, b: seq<byte>, s: seq<byte>,
                      n: nat)
    requires Image(g, ch, v, sect, dirty, b, s) && Covers(g, ch, n) && |s| <= n
    ensures Image(g, ch, v, sect, dirty, b, Extended(g, ch, Shown(v, sect, dirty, b), s, n))
  {
    var x := Shown(v, sect, dirty, b);
    var r := Extended(g, ch, x, s, n);
    forall i | 0 <= i < n ensures SectByte(g, ch, x, i, r[i]) {
      CoversSect(g, ch, n, i);
      FileSectBound(g, |v|, ch, i / SS);
      if i < |s| { OldByte(g, ch, x, s, i); }
    }
  }

  // ---- directory entries of files ------------------------------------------------------------------

  /** The FSINFO sector of a FAT32 volume, behind the boot sector; other volumes have none. */
  function FsiSect(g: Geometry): nat {
    if g.fsType == Fat32 then g.volbase + 1 else NO_SECTOR
  }

  /** It lies in front of the FAT. */
  predicate FsiReserved(g: Geometry) { g.fsType == Fat32 ==> FsiSect(g) < g.fatbase }

  /** A place a file's directory entry can have: in a directory sector, clear of FAT, FSINFO and file data. */
  ghost predicate EntryPlace(g: Geometry, dirs: set<nat>, size: nat, s: nat, o: nat) {
    && o + 32 <= SS && s < size && !g.InFat(s) && !g.InMirror(s) && s != FsiSect(g)
    && Meta(g, dirs, s)
  }

  /** No sector of a file is a directory sector or in front of the data area. */
  lemma MineNotMeta(g: Geometry, dirs: set<nat>, ch: seq<nat>, size: nat, s: nat)
    requires Chain(g, ch) && DataFits(g, size) && size < NO_SECTOR && Mine(g, ch, s)
    requires forall c :: c in dirs ==> c !in ch
    ensures !Meta(g, dirs, s)
  {
    var k: nat :| HasSect(g, ch, k) && FileSect(g, ch, k) == s;
    FileSectBound(g, size, ch, k);
    AwayFromDirs(g, dirs, ch, k);
  }

  /** Outside the FAT only the file's own sectors and those named have changed. */
  ghost predicate OnlyData(g: Geometry, ch: seq<nat>, named: set<nat>, v: seq<Sector>, w: seq<Sector>) {
    && |w| == |v| && Chain(g, ch)
    && (forall s :: 0 <= s < |v| && !g.InFat(s) && s !in named && !Mine(g, ch, s) ==> w[s] == v[s])
  }

  lemma OnlyDataAll(g: Geometry, ch: seq<nat>, at: nat, fsi: nat, v: seq<Sector>, v1: seq<Sector>, w: seq<Sector>,
                    f: seq<nat>)
    requires OnlyFile(g, ch, f, v, ch, f, v1) && |w| == |v1|
    requires forall s :: 0 <= s < |v1| && s != at && s != fsi ==> w[s] == v1[s]
    ensures OnlyData(g, ch, {at, fsi}, v, w)
  {
  }

  /** Rewriting one sector of a directory, or FSINFO, does not disturb a file. */
  lemma ImageBesides(g: Geometry, dirs: set<nat>, f: seq<nat>, win: nat, start: nat, ch: seq<nat>, v: seq<Sector>,
                     w: seq<Sector>,
                     sect: nat, dirty: bool, b: seq<byte>, s: seq<byte>, at: nat)
    requires Image(g, ch, v, sect, dirty, b, s) && Placed(g, dirs, f, |v|, win, ch, start) && Meta(g, dirs, at)
    requires |w| == |v| && forall i :: 0 <= i < |v| && i != at ==> w[i] == v[i]
    ensures Image(g, ch, w, sect, dirty, b, s) && Placed(g, dirs, f, |w|, at, ch, start)
  {
    forall i: nat | i < |v| && Mine(g, ch, i) ensures w[i] == v[i] {
      MineNotMeta(g, dirs, ch, |v|, i);
    }
    ImageSame(g, ch, v, w, sect, dirty, b, s);
  }

  // ---- several open files --------------------------------------------------------------------------

  /** Files with no cluster in common have no sector in common. */
  lemma SectorsApart(g: Geometry, a: seq<nat>, b: seq<nat>, s: nat)
    requires Chain(g, a) && Chain(g, b) && Apart(a, b) && Mine(g, a, s)
    ensures !Mine(g, b, s)
  {
    var j: nat :| HasSect(g, a, j) && FileSect(g, a, j) == s;
    forall k: nat | HasSect(g, b, k) ensures FileSect(g, b, k) != s {
      SectApart(g, a, b, j, k);
    }
  }

  lemma SectApart(g: Geometry, a: seq<nat>, b: seq<nat>, j: nat, k: nat)
    requires Chain(g, a) && Chain(g, b) && Apart(a, b) && HasSect(g, a, j) && HasSect(g, b, k)
    ensures FileSect(g, a, j) != FileSect(g, b, k)
  {
    hide DataSect;
    assert a[j / g.csize] in a;
    if FileSect(g, a, j) == FileSect(g, b, k) {
      DataSectInjective(g, a[j / g.csize], j % g.csize, b[k / g.csize], k % g.csize);
    }
  }

  /** A file's sector is no directory's, in front of no data, and no other file's. */
  lemma OnlyOurs(g: Geometry, dirs: set<nat>, ch: seq<nat>, other: seq<nat>, size: nat, i: nat)
    requires Chain(g, other) && Chain(g, ch) && Apart(ch, other) && DataFits(g, size) && size < NO_SECTOR
    requires Mine(g, other, i)
    requires g.Valid() && forall c :: c in dirs ==> c !in other
    ensures i < size && !g.InFat(i) && !Meta(g, dirs, i) && !Mine(g, ch, i)
  {
    hide Meta, Mine, Apart, Chain, DataFits;
    MineIsData(g, other, size, i);
    MineNotMeta(g, dirs, other, size, i);
    if Mine(g, ch, i) { SectorsApart(g, ch, other, i); }
  }

  /**
   * Another file's clusters and buffer still hold its bytes when the sectors that changed are this file's, or no
   * file's.
   */
  lemma OtherImage(g: Geometry, dirs: set<nat>, ch: seq<nat>, named: set<nat>, v: seq<Sector>, w: seq<Sector>,
                   other: seq<nat>, sect: nat, dirty: bool, b: seq<byte>, s: seq<byte>)
    requires Image(g, other, v, sect, dirty, b, s) && Chain(g, ch) && Apart(ch, other) && |v| < NO_SECTOR && g.Valid()
    requires (forall c :: c in dirs ==> c !in other) && (forall i :: i in named ==> Meta(g, dirs, i))
    requires OnlyData(g, ch, named, v, w)
    ensures Image(g, other, w, sect, dirty, b, s)
  {
    hide Holds, Shown, Meta, Mine, Apart, Chain, DataFits, Geometry.Valid;
    forall i: nat | i < |v| && Mine(g, other, i) ensures w[i] == v[i] {
      OnlyOurs(g, dirs, ch, other, |v|, i);
    }
    ImageSame(g, other, v, w, sect, dirty, b, s);
  }

  /** Its chain is as it was, and apart from the one that has grown. */
  lemma OtherPlaced(g: Geometry, dirs: set<nat>, f: seq<nat>, m: Chains, ch: seq<nat>, e: seq<nat>, n: Chains,
                    dh: seq<nat>, size: nat,
                    win: nat, win': nat, start: nat, other: seq<nat>, from: nat)
    requires WellFormed(f, m) && Listed(m, ch) && Grew(f, ch, e, dh) && WellFormed(e, n) && Listed(n, dh)
    requires Placed(g, dirs, f, size, win, other, from) && Listed(m, other) && Apart(ch, other)
    requires Placed(g, dirs, e, size, win', dh, start)
    ensures Placed(g, dirs, e, size, win', other, from) && Listed(n, other) && Apart(dh, other)
  {
    OthersStay(f, m, ch, e, n, dh);
    GrewApart(f, ch, e, dh, other);
    if dh != [] && other != [] { assert dh[0] in dh && other[0] in other; }
  }
}
