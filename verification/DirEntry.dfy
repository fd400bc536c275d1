/** The 32 bytes of a short directory entry, as far as opening and closing a file uses them, and the FSINFO sector. */
module DirEntry {
  import opened Bytes
  import opened Disk
  import opened FatLayout

  const SZDIRE: nat := 32
  const DIR_ATTR: nat := 11
  const DIR_CRT_TIME: nat := 14
  const DIR_CLUS_HI: nat := 20
  const DIR_MOD_TIME: nat := 22
  const DIR_CLUS_LO: nat := 26
  const DIR_SIZE: nat := 28
  const DIR_ACC_DATE: nat := 18
  const AM_ARC: nat := 0x20

  /** ld_clust: the start cluster of the entry at place o; only FAT32 has a high half. */
  function LdClust(t: FatType, sec: seq<byte>, o: nat): nat
    requires o + SZDIRE <= |sec|
  {
    LdWord(sec, o + DIR_CLUS_LO) + if t == Fat32 then LdWord(sec, o + DIR_CLUS_HI) * 0x1_0000 else 0
  }

  function LdSize(sec: seq<byte>, o: nat): nat
    requires o + SZDIRE <= |sec|
  {
    LdDword(sec, o + DIR_SIZE)
  }

  /** Where the numbers of an entry lie: size in bytes 28 to 31, start cluster in 26 and 27 and, on FAT32, 20 and 21. */
  lemma EntryFields(t: FatType, sec: seq<byte>, o: nat)
    requires o + 32 <= |sec|
    ensures LdSize(sec, o) == sec[o + 28] as int + 0x100 * sec[o + 29] as int + 0x1_0000 * sec[o + 30] as int
                              + 0x100_0000 * sec[o + 31] as int
    ensures LdClust(t, sec, o) == sec[o + 26] as int + 0x100 * sec[o + 27] as int
            + (if t == Fat32 then 0x1_0000 * sec[o + 20] as int + 0x100_0000 * sec[o + 21] as int else 0)
  {
  }

  /** st_clust. */
  function StClust(t: FatType, sec: seq<byte>, o: nat, cl: nat): (r: seq<byte>)
    requires o + SZDIRE <= |sec|
    ensures |r| == |sec|
  {
    var r := StWord(sec, o + DIR_CLUS_LO, cl);
    if t == Fat32 then StWord(r, o + DIR_CLUS_HI, cl / 0x1_0000) else r
  }

  /** The attribute byte with the archive bit set. */
  function Archived(a: byte): byte {
    if a as int / AM_ARC % 2 == 1 then a else a as int + AM_ARC
  }

  /** What f_sync makes of the entry: archive bit, start cluster, size and times. */
  function Updated(t: FatType, sec: seq<byte>, o: nat, cl: nat, size: nat, tm: nat): (r: seq<byte>)
    requires o + SZDIRE <= |sec|
    ensures |r| == |sec|
  {
    var a := sec[o + DIR_ATTR := Archived(sec[o + DIR_ATTR])];
    StWord(StDword(StDword(StClust(t, a, o, cl), o + DIR_SIZE, size), o + DIR_MOD_TIME, tm), o + DIR_ACC_DATE, 0)
  }

  /** What f_open reads back is what f_sync stored, with the time; the rest of the entry and other entries stay. */
  lemma UpdatedReads(t: FatType, sec: seq<byte>, o: nat, cl: nat, size: nat, tm: nat)
    requires o + SZDIRE <= |sec| && size < 0x1_0000_0000 && cl < (if t == Fat32 then 0x1_0000_0000 else 0x1_0000)
    ensures var r := Updated(t, sec, o, cl, size, tm);
            && LdClust(t, r, o) == cl && LdSize(r, o) == size
            && LdDword(r, o + 22) == tm % 0x1_0000_0000 && LdWord(r, o + 18) == 0
            && (forall k :: 0 <= k < |sec| && k != o + 11 && !(o + 18 <= k < o + 32) ==> r[k] == sec[k])
            && r[o + 11] as int / 0x20 % 2 == 1 && (r[o + 11] == sec[o + 11] || r[o + 11] == sec[o + 11] + 0x20)
  {
    hide StWord, StDword, LdDword, LdWord;
    var a := sec[o + DIR_ATTR := Archived(sec[o + DIR_ATTR])];
    var b := StClust(t, a, o, cl);
    StClustReads(t, a, o, cl);
    var c := StDword(b, o + DIR_SIZE, size);
    ClustApart(t, b, c, o, o + DIR_SIZE, o + SZDIRE);
    var d := StDword(c, o + DIR_MOD_TIME, tm);
    ClustApart(t, c, d, o, o + DIR_MOD_TIME, o + DIR_CLUS_LO);
    DwordApart(c, d, o + DIR_SIZE, o + DIR_MOD_TIME, o + DIR_CLUS_LO);
    var e := StWord(d, o + DIR_ACC_DATE, 0);
    ClustApart(t, d, e, o, o + DIR_ACC_DATE, o + DIR_CLUS_HI);
    DwordApart(d, e, o + DIR_SIZE, o + DIR_ACC_DATE, o + DIR_CLUS_HI);
    DwordApart(d, e, o + DIR_MOD_TIME, o + DIR_ACC_DATE, o + DIR_CLUS_HI);
  }

  /** st_clust and ld_clust are inverse on cluster numbers the FAT type can have. */
  lemma StClustReads(t: FatType, sec: seq<byte>, o: nat, cl: nat)
    requires o + SZDIRE <= |sec| && cl < (if t == Fat32 then 0x1_0000_0000 else 0x1_0000)
    ensures var r := StClust(t, sec, o, cl);
            && LdClust(t, r, o) == cl
            && (forall k :: 0 <= k < |sec| && !(o + DIR_CLUS_HI <= k < o + DIR_SIZE) ==> r[k] == sec[k])
  {
    hide StWord, LdWord;
    var r := StWord(sec, o + DIR_CLUS_LO, cl);
    if t == Fat32 {
      var u := StWord(r, o + DIR_CLUS_HI, cl / 0x1_0000);
      WordApart(r, u, o + DIR_CLUS_LO, o + DIR_CLUS_HI, o + DIR_MOD_TIME);
    }
  }

  lemma ClustApart(t: FatType, s: seq<byte>, r: seq<byte>, o: nat, lo: nat, hi: nat)
    requires o + SZDIRE <= |s| == |r|
    requires (hi <= o + DIR_CLUS_HI || (o + DIR_MOD_TIME <= lo && hi <= o + DIR_CLUS_LO) || o + DIR_SIZE <= lo)
    requires forall k :: 0 <= k < |s| && (k < lo || hi <= k) ==> r[k] == s[k]
    ensures LdClust(t, r, o) == LdClust(t, s, o)
  {
    WordApart(s, r, o + DIR_CLUS_LO, lo, hi);
    WordApart(s, r, o + DIR_CLUS_HI, lo, hi);
  }

  /** Entries of a sector that do not overlap are read independently. */
  lemma OtherEntry(t: FatType, sec: seq<byte>, r: seq<byte>, o: nat, p: nat)
    requires o + SZDIRE <= |sec| == |r| && p + SZDIRE <= |sec| && (p + SZDIRE <= o || o + SZDIRE <= p)
    requires forall k :: 0 <= k < |sec| && !(o <= k < o + SZDIRE) ==> r[k] == sec[k]
    ensures LdClust(t, r, p) == LdClust(t, sec, p) && LdSize(r, p) == LdSize(sec, p)
  {
  }

  /** A directory entry as dir_register and f_open leave it for a new file: archive bit, no clusters, no bytes. */
  function Created(sec: seq<byte>, o: nat, sfn: seq<byte>, nt: byte, tm: nat): (r: seq<byte>)
    requires o + SZDIRE <= |sec| && |sfn| == 11
    ensures |r| == |sec|
  {
    StDword(StDword(Splice(sec, o, sfn + [AM_ARC, nt] + seq(19, _ => 0)), o + DIR_CRT_TIME, tm), o + DIR_MOD_TIME, tm)
  }

  /** A created entry is that of an empty file of the name and time given; no other entry of the sector changes. */
  lemma CreatedReads(t: FatType, sec: seq<byte>, o: nat, sfn: seq<byte>, nt: byte, tm: nat)
    requires o + SZDIRE <= |sec| && |sfn| == 11
    ensures var r := Created(sec, o, sfn, nt, tm);
            && LdClust(t, r, o) == 0 && LdSize(r, o) == 0 && (forall k :: 0 <= k < 11 ==> r[o + k] == sfn[k])
            && r[o + 11] == 0x20 && r[o + 12] == nt
            && LdDword(r, o + 14) == tm % 0x1_0000_0000 == LdDword(r, o + 22)
            && r[o + 13] == 0 && (forall k :: o + 18 <= k < o + 22 || o + 26 <= k < o + 32 ==> r[k] == 0)
            && (forall k :: 0 <= k < |sec| && !(o <= k < o + SZDIRE) ==> r[k] == sec[k])
  {
    hide StDword, LdDword, LdWord, Splice;
    var e: seq<byte> := sfn + [AM_ARC, nt] + seq(19, _ => 0);
    var a := Splice(sec, o, e);
    BlankEntry(t, sec, o, e);
    var b := StDword(a, o + DIR_CRT_TIME, tm);
    ClustApart(t, a, b, o, o + DIR_CRT_TIME, o + DIR_ACC_DATE);
    DwordApart(a, b, o + DIR_SIZE, o + DIR_CRT_TIME, o + DIR_ACC_DATE);
    var c := StDword(b, o + DIR_MOD_TIME, tm);
    ClustApart(t, b, c, o, o + DIR_MOD_TIME, o + DIR_CLUS_LO);
    DwordApart(b, c, o + DIR_SIZE, o + DIR_MOD_TIME, o + DIR_CLUS_LO);
    DwordApart(b, c, o + DIR_CRT_TIME, o + DIR_MOD_TIME, o + DIR_CLUS_LO);
  }

  /** An entry with nothing but zeros behind name and attributes is that of an empty file. */
  lemma BlankEntry(t: FatType, sec: seq<byte>, o: nat, e: seq<byte>)
    requires o + SZDIRE <= |sec| && |e| == SZDIRE && forall k :: 13 <= k < SZDIRE ==> e[k] == 0
    ensures var a := Splice(sec, o, e);
            LdClust(t, a, o) == 0 && LdSize(a, o) == 0 && forall k :: 0 <= k < SZDIRE ==> a[o + k] == e[k]
  {
    var a := Splice(sec, o, e);
    ZeroWord(a, o + DIR_CLUS_LO, o, e);
    ZeroWord(a, o + DIR_CLUS_HI, o, e);
    ZeroWord(a, o + DIR_SIZE, o, e);
    ZeroWord(a, o + DIR_SIZE + 2, o, e);
    hide Splice, LdWord;
  }

  lemma ZeroWord(a: seq<byte>, i: nat, o: nat, e: seq<byte>)
    requires o + 13 <= i <= o + SZDIRE - 2 && o + SZDIRE <= |a| && |e| == SZDIRE
    requires (forall k :: o <= k < o + SZDIRE ==> a[k] == e[k - o]) && forall k :: 13 <= k < SZDIRE ==> e[k] == 0
    ensures LdWord(a, i) == 0
  {
  }

  // ---- FSINFO --------------------------------------------------------------------------------------

  const FSI_STRUC_SIG: nat := 484
  const FSI_FREE_COUNT: nat := 488
  const FSI_NXT_FREE: nat := 492
  const BS_55AA: nat := 510

  /** The FSINFO sector for a free count and a last-allocated cluster. */
  function FsInfo(free: nat, last: nat): (s: Sector) {
    StDword(StDword(StDword(StDword(StWord(Blank(), BS_55AA, 0xAA55), 0, 0x41615252), FSI_STRUC_SIG, 0x61417272),
                    FSI_FREE_COUNT, free), FSI_NXT_FREE, last)
  }

  /** An FSINFO sector carries its signatures and gives back both numbers. */
  lemma FsInfoReads(free: nat, last: nat)
    requires free < 0x1_0000_0000 && last < 0x1_0000_0000
    ensures var s := FsInfo(free, last);
            && LdWord(s, 510) == 0xAA55 && LdDword(s, 0) == 0x41615252 && LdDword(s, 484) == 0x61417272
            && LdDword(s, 488) == free && LdDword(s, 492) == last
            && forall k :: 4 <= k < 484 || 496 <= k < 510 ==> s[k] == 0
  {
    hide StWord, StDword, LdDword, LdWord;
    var a := StWord(Blank(), BS_55AA, 0xAA55);
    var b := StDword(a, 0, 0x41615252);
    WordApart(a, b, BS_55AA, 0, 4);
    var c := StDword(b, FSI_STRUC_SIG, 0x61417272);
    WordApart(b, c, BS_55AA, FSI_STRUC_SIG, FSI_FREE_COUNT);
    DwordApart(b, c, 0, FSI_STRUC_SIG, FSI_FREE_COUNT);
    var d := StDword(c, FSI_FREE_COUNT, free);
    WordApart(c, d, BS_55AA, FSI_FREE_COUNT, FSI_NXT_FREE);
    DwordApart(c, d, 0, FSI_FREE_COUNT, FSI_NXT_FREE);
    DwordApart(c, d, FSI_STRUC_SIG, FSI_FREE_COUNT, FSI_NXT_FREE);
    var e := StDword(d, FSI_NXT_FREE, last);
    WordApart(d, e, BS_55AA, FSI_NXT_FREE, FSI_NXT_FREE + 4);
    DwordApart(d, e, 0, FSI_NXT_FREE, FSI_NXT_FREE + 4);
    DwordApart(d, e, FSI_STRUC_SIG, FSI_NXT_FREE, FSI_NXT_FREE + 4);
    DwordApart(d, e, FSI_FREE_COUNT, FSI_NXT_FREE, FSI_NXT_FREE + 4);
  }
}
