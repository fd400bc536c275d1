/**
 * The packed file allocation table: how FAT12, FAT16 and FAT32 entries lie in the bytes of the FAT sectors, and what
 * rewriting one entry does to the others.
 */
module FatLayout {
  import opened Bytes
  import opened Disk

  datatype FatType = Fat12 | Fat16 | Fat32

  /** One more than the largest value of an entry: 12, 16 or 28 significant bits. */
  function Modulus(t: FatType): nat {
    match t
    case Fat12 => 0x1000
    case Fat16 => 0x1_0000
    case Fat32 => 0x1000_0000
  }

  /** Bytes a table of n entries occupies. */
  function TableBytes(t: FatType, n: nat): nat {
    match t
    case Fat12 => n * 3 / 2 + n % 2
    case Fat16 => n * 2
    case Fat32 => n * 4
  }

  /** What mounting learns about a volume; all numbers are sectors except csize (sectors per cluster) and nFatent. */
  datatype Geometry = Geometry(
    fsType: FatType, nFats: nat, csize: nat, nFatent: nat, fsize: nat,
    volbase: nat, fatbase: nat, dirbase: nat, database: nat)
  {
    predicate Valid() {
      && (nFats == 1 || nFats == 2)
      && 1 <= csize <= 128
      && 3 <= nFatent <= Modulus(fsType) - 9
      && TableBytes(fsType, nFatent) <= fsize * SS
      && volbase < fatbase
      && FatEnd() <= database
    }

    /** First sector after the FAT copies. */
    function FatEnd(): nat {
      if nFats == 2 then fatbase + fsize + fsize else fatbase + fsize
    }

    predicate InFat(s: nat) { fatbase <= s < fatbase + fsize }

    predicate InMirror(s: nat) { nFats == 2 && fatbase + fsize <= s < FatEnd() }
  }

  /** The sectors with the second copy of the FAT, which is never read, blanked out. */
  ghost function OffMirror(g: Geometry, v: seq<Sector>): (w: seq<Sector>)
    ensures |w| == |v|
    ensures forall s :: 0 <= s < |v| && g.InMirror(s) ==> w[s] == Blank()
    ensures forall s :: 0 <= s < |v| && !g.InMirror(s) ==> w[s] == v[s]
  {
    seq(|v|, s requires 0 <= s < |v| => if g.InMirror(s) then Blank() else v[s])
  }

  /** The sectors with the FAT blanked out as well: what rewriting the table leaves alone. */
  ghost function OffFat(g: Geometry, v: seq<Sector>): (w: seq<Sector>)
    ensures |w| == |v|
    ensures forall s :: 0 <= s < |v| && g.InFat(s) ==> w[s] == Blank()
    ensures forall s :: 0 <= s < |v| && !g.InFat(s) ==> w[s] == v[s]
  {
    seq(|v|, s requires 0 <= s < |v| => if g.InFat(s) then Blank() else v[s])
  }

  predicate Fits(g: Geometry, v: seq<Sector>) {
    g.Valid() && g.database <= |v|
  }

  // ---- bytes of the table ------------------------------------------------------------------------

  function FatByte(g: Geometry, v: seq<Sector>, k: nat): byte
    requires Fits(g, v) && k < g.fsize * SS
  {
    v[g.fatbase + k / SS][k % SS]
  }

  function SetFatByte(g: Geometry, v: seq<Sector>, k: nat, b: byte): (w: seq<Sector>)
    requires Fits(g, v) && k < g.fsize * SS
    ensures |w| == |v| && OffFat(g, w) == OffFat(g, v)
    ensures FatByte(g, w, k) == b
    ensures forall j :: 0 <= j < g.fsize * SS && j != k ==> FatByte(g, w, j) == FatByte(g, v, j)
  {
    var s := g.fatbase + k / SS;
    var w := v[s := v[s][k % SS := b]];
    assert OffFat(g, w) == OffFat(g, v);
    assert forall j :: 0 <= j < g.fsize * SS && j != k ==> j / SS != k / SS || j % SS != k % SS;
    w
  }

  // ---- entries -----------------------------------------------------------------------------------

  /** Offset of the first byte that holds (part of) entry c. */
  function EntryAt(t: FatType, c: nat): nat {
    match t
    case Fat12 => c + c / 2
    case Fat16 => c * 2
    case Fat32 => c * 4
  }

  function EntryBytes(t: FatType): nat {
    if t == Fat32 then 4 else 2
  }

  lemma EntryFits(g: Geometry, c: nat)
    requires g.Valid() && c < g.nFatent
    ensures EntryAt(g.fsType, c) + EntryBytes(g.fsType) <= g.fsize * SS
  {
  }

  /** A table takes the bytes up to the end of its last entry. */
  lemma TableEnds(t: FatType, n: nat)
    requires n > 0
    ensures TableBytes(t, n) == EntryAt(t, n - 1) + EntryBytes(t)
  {
    hide TableBytes, EntryAt;
    var q, r := (n - 1) / 2, (n - 1) % 2;
    Ends12(q, r);
    EndsAligned(t, n);
  }

  lemma Ends12(q: nat, r: nat)
    requires r < 2
    ensures TableBytes(Fat12, 2 * q + r + 1) == 3 * q + r + 2 && EntryAt(Fat12, 2 * q + r) == 3 * q + r
  {
    var n := 2 * q + r + 1;
    Halved(n, q + r, 1 - r);
    Halved(n * 3, 3 * q + 1 + 2 * r, 1 - r);
    Halved(2 * q + r, q, r);
  }

  lemma Halved(x: nat, q: nat, r: nat)
    requires x == 2 * q + r && r < 2
    ensures x / 2 == q && x % 2 == r
  {
  }

  lemma EndsAligned(t: FatType, n: nat)
    requires n > 0
    ensures t != Fat12 ==> TableBytes(t, n) == EntryAt(t, n - 1) + EntryBytes(t)
  {
  }

  /** A FAT12 entry within the two bytes it shares with a neighbour. */
  function Decode12(c: nat, low: byte, high: byte): (e: nat)
    ensures e < 0x1000
  {
    var wc := low as int + 0x100 * high as int;
    if c % 2 == 1 then wc / 16 else wc % 0x1000
  }

  /** The low byte of FAT12 entry c once val is stored in it. */
  function LowByte12(c: nat, low: byte, val: nat): byte {
    if c % 2 == 1 then low as int % 16 + val % 16 * 16 else val % 0x100
  }

  /** The high byte of FAT12 entry c once val is stored in it. */
  function HighByte12(c: nat, high: byte, val: nat): byte {
    if c % 2 == 1 then val / 16 % 0x100 else high as int / 16 * 16 + val / 0x100 % 16
  }

  /** Two FAT12 entries are the halves of three consecutive bytes, the lowest byte first. */
  lemma ThreeBytes12(g: Geometry, v: seq<Sector>, k: nat)
    requires Fits(g, v) && g.fsType == Fat12 && 2 * k + 1 < g.nFatent
    ensures 3 * k + 2 < g.fsize * 512
    ensures Entry(g, v, 2 * k) + 0x1000 * Entry(g, v, 2 * k + 1) ==
            v[g.fatbase + 3 * k / 512][3 * k % 512] as int
            + 0x100 * v[g.fatbase + (3 * k + 1) / 512][(3 * k + 1) % 512] as int
            + 0x1_0000 * v[g.fatbase + (3 * k + 2) / 512][(3 * k + 2) % 512] as int
  {
    hide TableBytes, Decode12;
    EntryFits(g, 2 * k);
    EntryFits(g, 2 * k + 1);
    assert EntryAt(Fat12, 2 * k) == 3 * k && EntryAt(Fat12, 2 * k + 1) == 3 * k + 1;
    Halves12(2 * k, FatByte(g, v, 3 * k), FatByte(g, v, 3 * k + 1), FatByte(g, v, 3 * k + 2));
  }

  lemma Halves12(c: nat, a: byte, b: byte, d: byte)
    requires c % 2 == 0
    ensures Decode12(c, a, b) + 0x1000 * Decode12(c + 1, b, d) ==
            a as int + 0x100 * b as int + 0x1_0000 * d as int
  {
    var q, r := b as int / 16, b as int % 16;
    HighPart(q + 16 * d as int, r);
    Low12(a as int + 0x100 * r, q);
    assert b as int + 0x100 * d as int == (q + 16 * d as int) * 16 + r;
    assert a as int + 0x100 * b as int == a as int + 0x100 * r + 0x1000 * q;
  }

  /** Cluster numbers survive being stored. */
  lemma SmallValue(g: Geometry, c: nat)
    requires g.Valid() && c < g.nFatent
    ensures c % Modulus(g.fsType) == c
  {
    match g.fsType {
      case Fat12 =>
      case Fat16 =>
      case Fat32 =>
    }
  }

  /** The value get_fat reads for entry c. */
  function Entry(g: Geometry, v: seq<Sector>, c: nat): (e: nat)
    requires Fits(g, v) && c < g.nFatent
    ensures e < Modulus(g.fsType)
  {
    EntryFits(g, c);
    var k := EntryAt(g.fsType, c);
    var b0, b1 := FatByte(g, v, k), FatByte(g, v, k + 1);
    match g.fsType
    case Fat12 => Decode12(c, b0, b1)
    case Fat16 => b0 as int + 0x100 * b1 as int
    case Fat32 => (b0 as int + 0x100 * b1 as int + 0x1_0000 * FatByte(g, v, k + 2) as int
                   + 0x100_0000 * FatByte(g, v, k + 3) as int) % 0x1000_0000
  }

  /** The four reserved high bits of a FAT32 entry. */
  function HighBits(g: Geometry, v: seq<Sector>, c: nat): nat
    requires Fits(g, v) && c < g.nFatent && g.fsType == Fat32
  {
    EntryFits(g, c);
    FatByte(g, v, EntryAt(Fat32, c) + 3) as int / 16
  }

  /** The table as the flat array of values it stands for. */
  function Table(g: Geometry, v: seq<Sector>): (f: seq<nat>)
    requires Fits(g, v)
    ensures |f| == g.nFatent
    ensures forall c :: 0 <= c < g.nFatent ==> f[c] == Entry(g, v, c)
  {
    seq(g.nFatent, c requires 0 <= c < g.nFatent => Entry(g, v, c))
  }

  /** The first half of put_fat: the byte that holds the low part of entry c. */
  function PutLow(g: Geometry, v: seq<Sector>, c: nat, val: nat): (w: seq<Sector>)
    requires Fits(g, v) && c < g.nFatent && g.fsType == Fat12
    ensures |w| == |v|
  {
    EntryFits(g, c);
    var k := EntryAt(Fat12, c);
    SetFatByte(g, v, k, LowByte12(c, FatByte(g, v, k), val))
  }

  /** The second half: the byte that holds the high part. */
  function PutHigh(g: Geometry, v: seq<Sector>, c: nat, val: nat): (w: seq<Sector>)
    requires Fits(g, v) && c < g.nFatent && g.fsType == Fat12
    ensures |w| == |v|
  {
    EntryFits(g, c);
    var k := EntryAt(Fat12, c) + 1;
    SetFatByte(g, v, k, HighByte12(c, FatByte(g, v, k), val))
  }

  /**
   * What put_fat makes of the sector holding a FAT16 or FAT32 entry: one word, or one double word keeping its top four
   * bits.
   */
  function PutWhole(g: Geometry, sec: Sector, o: nat, val: nat): Sector
    requires g.fsType != Fat12 && o + EntryBytes(g.fsType) <= SS
  {
    if g.fsType == Fat16 then StWord(sec, o, val)
    else StDword(sec, o, val % 0x1000_0000 + LdDword(sec, o) / 0x1000_0000 * 0x1000_0000)
  }

  function PutAligned(g: Geometry, v: seq<Sector>, c: nat, val: nat): (w: seq<Sector>)
    requires Fits(g, v) && c < g.nFatent && g.fsType != Fat12
    ensures |w| == |v|
  {
    EntryFits(g, c);
    var k := EntryAt(g.fsType, c);
    var s := g.fatbase + k / SS;
    v[s := PutWhole(g, v[s], k % SS, val)]
  }

  /** The sectors after put_fat(c, val), apart from the mirror. */
  function Put(g: Geometry, v: seq<Sector>, c: nat, val: nat): (w: seq<Sector>)
    requires Fits(g, v) && c < g.nFatent
    ensures |w| == |v|
  {
    if g.fsType == Fat12 then PutHigh(g, PutLow(g, v, c, val), c, val) else PutAligned(g, v, c, val)
  }

  lemma PutCases(g: Geometry, v: seq<Sector>, c: nat, val: nat)
    requires Fits(g, v) && c < g.nFatent
    ensures g.fsType == Fat12 ==> Put(g, v, c, val) == PutHigh(g, PutLow(g, v, c, val), c, val)
    ensures g.fsType != Fat12 ==> Put(g, v, c, val) == PutAligned(g, v, c, val)
  {
  }

  /** A FAT12 put keeps the neighbour's half of a byte it shares. */
  lemma Neighbour12(c: nat, d: nat, b: byte, other: byte, val: nat)
    ensures c % 2 == 1 && d % 2 == 0 ==> Decode12(d, other, LowByte12(c, b, val)) == Decode12(d, other, b)
    ensures c % 2 == 0 && d % 2 == 1 ==> Decode12(d, HighByte12(c, b, val), other) == Decode12(d, b, other)
  {
    var o, q, r := other as int, b as int / 16, b as int % 16;
    if c % 2 == 1 && d % 2 == 0 {
      Low12(o + 0x100 * r, val % 16);
      Low12(o + 0x100 * r, q);
      assert o + 0x100 * b as int == o + 0x100 * r + 0x1000 * q;
    } else if c % 2 == 0 && d % 2 == 1 {
      HighPart(q + 16 * o, r);
      HighPart(q + 16 * o, val / 0x100 % 16);
    }
  }

  lemma Low12(x: nat, a: nat)
    requires x < 0x1000
    ensures (x + 0x1000 * a) % 0x1000 == x
  {
  }

  lemma HighPart(x: nat, r: nat)
    requires r < 16
    ensures (x * 16 + r) / 16 == x
  {
  }

  lemma PutLowOther(g: Geometry, v: seq<Sector>, c: nat, val: nat, d: nat)
    requires Fits(g, v) && c < g.nFatent && g.fsType == Fat12 && d < g.nFatent && d != c
    ensures Entry(g, PutLow(g, v, c, val), d) == Entry(g, v, d)
  {
    EntryFits(g, c);
    EntryFits(g, d);
    var k := EntryAt(Fat12, d);
    if k + 1 == EntryAt(Fat12, c) {
      Neighbour12(c, d, FatByte(g, v, k + 1), FatByte(g, v, k), val);
    }
  }

  lemma PutHighOther(g: Geometry, v: seq<Sector>, c: nat, val: nat, d: nat)
    requires Fits(g, v) && c < g.nFatent && g.fsType == Fat12 && d < g.nFatent && d != c
    ensures Entry(g, PutHigh(g, v, c, val), d) == Entry(g, v, d)
  {
    EntryFits(g, c);
    EntryFits(g, d);
    var k := EntryAt(Fat12, d);
    if k == EntryAt(Fat12, c) + 1 {
      Neighbour12(c, d, FatByte(g, v, k), FatByte(g, v, k + 1), val);
    }
  }

  /** A half-done FAT12 put leaves all other entries intact. */
  lemma PutLowTable(g: Geometry, v: seq<Sector>, c: nat, val: nat)
    requires Fits(g, v) && c < g.nFatent && g.fsType == Fat12
    ensures OffFat(g, PutLow(g, v, c, val)) == OffFat(g, v)
    ensures forall d :: 0 <= d < g.nFatent && d != c ==> Entry(g, PutLow(g, v, c, val), d) == Entry(g, v, d)
  {
    forall d | 0 <= d < g.nFatent && d != c ensures Entry(g, PutLow(g, v, c, val), d) == Entry(g, v, d) {
      PutLowOther(g, v, c, val, d);
    }
  }

  lemma PutHighTable(g: Geometry, v: seq<Sector>, c: nat, val: nat)
    requires Fits(g, v) && c < g.nFatent && g.fsType == Fat12
    ensures OffFat(g, PutHigh(g, v, c, val)) == OffFat(g, v)
    ensures forall d :: 0 <= d < g.nFatent && d != c ==> Entry(g, PutHigh(g, v, c, val), d) == Entry(g, v, d)
  {
    forall d | 0 <= d < g.nFatent && d != c ensures Entry(g, PutHigh(g, v, c, val), d) == Entry(g, v, d) {
      PutHighOther(g, v, c, val, d);
    }
  }

  lemma Put12Entry(g: Geometry, v: seq<Sector>, c: nat, val: nat)
    requires Fits(g, v) && c < g.nFatent && g.fsType == Fat12
    ensures Entry(g, Put(g, v, c, val), c) == val % 0x1000
  {
    EntryFits(g, c);
    var k := EntryAt(Fat12, c);
    var w := PutLow(g, v, c, val);
    var x := PutHigh(g, w, c, val);
    var low := LowByte12(c, FatByte(g, v, k), val);
    assert FatByte(g, x, k) == low && FatByte(g, x, k + 1) == HighByte12(c, FatByte(g, w, k + 1), val);
    Stored12(c, FatByte(g, v, k), FatByte(g, w, k + 1), val);
  }

  lemma Stored12(c: nat, low: byte, high: byte, val: nat)
    ensures Decode12(c, LowByte12(c, low, val), HighByte12(c, high, val)) == val % 0x1000
  {
    if c % 2 == 1 { Nibbles(low as int % 16, val); } else { Bytes12(high as int / 16, val); }
  }

  lemma Nibbles(low: nat, val: nat)
    requires low < 16
    ensures (low + val % 16 * 16 + 0x100 * (val / 16 % 0x100)) / 16 == val % 0x1000
  {
  }

  lemma Bytes12(high: nat, val: nat)
    requires high < 16
    ensures (val % 0x100 + 0x100 * (high * 16 + val / 0x100 % 16)) % 0x1000 == val % 0x1000
  {
    var lo, q := val % 0x100, val / 0x100;
    var a, r := q / 16, q % 16;
    assert val == lo + 0x100 * r + 0x1000 * a;
    assert val % 0x100 + 0x100 * (high * 16 + q % 16) == lo + 0x100 * r + 0x1000 * high;
    Low12(lo + 0x100 * r, a);
    Low12(lo + 0x100 * r, high);
  }

  lemma AlignedBytes(g: Geometry, v: seq<Sector>, c: nat, val: nat, j: nat)
    requires Fits(g, v) && c < g.nFatent && g.fsType != Fat12 && j < g.fsize * SS
    requires j < EntryAt(g.fsType, c) || EntryAt(g.fsType, c) + EntryBytes(g.fsType) <= j
    ensures FatByte(g, PutAligned(g, v, c, val), j) == FatByte(g, v, j)
  {
    EntryFits(g, c);
    var k := EntryAt(g.fsType, c);
    if j / SS == k / SS {
      assert j % SS - k % SS == j - k;
    }
  }

  /** An entry depends on its own bytes only. */
  lemma EntryBytesOnly(g: Geometry, v: seq<Sector>, w: seq<Sector>, d: nat)
    requires Fits(g, v) && Fits(g, w) && d < g.nFatent
    requires forall i :: EntryAt(g.fsType, d) <= i < EntryAt(g.fsType, d) + EntryBytes(g.fsType) && i < g.fsize * SS ==>
      FatByte(g, v, i) == FatByte(g, w, i)
    ensures Entry(g, v, d) == Entry(g, w, d)
    ensures g.fsType == Fat32 ==> HighBits(g, v, d) == HighBits(g, w, d)
  {
    EntryFits(g, d);
    var k := EntryAt(g.fsType, d);
    assert FatByte(g, v, k) == FatByte(g, w, k);
    assert FatByte(g, v, k + 1) == FatByte(g, w, k + 1);
    if g.fsType == Fat32 {
      assert FatByte(g, v, k + 2) == FatByte(g, w, k + 2);
      assert FatByte(g, v, k + 3) == FatByte(g, w, k + 3);
    }
  }

  lemma PutAlignedOther(g: Geometry, v: seq<Sector>, c: nat, val: nat, d: nat)
    requires Fits(g, v) && c < g.nFatent && g.fsType != Fat12 && d < g.nFatent && d != c
    ensures Entry(g, PutAligned(g, v, c, val), d) == Entry(g, v, d)
    ensures g.fsType == Fat32 ==> HighBits(g, PutAligned(g, v, c, val), d) == HighBits(g, v, d)
  {
    var k, n := EntryAt(g.fsType, d), EntryBytes(g.fsType);
    assert k + n <= EntryAt(g.fsType, c) || EntryAt(g.fsType, c) + n <= k;
    forall i | k <= i < k + n && i < g.fsize * SS ensures FatByte(g, PutAligned(g, v, c, val), i) == FatByte(g, v, i) {
      AlignedBytes(g, v, c, val, i);
    }
    EntryBytesOnly(g, PutAligned(g, v, c, val), v, d);
  }

  lemma PutAlignedTable(g: Geometry, v: seq<Sector>, c: nat, val: nat)
    requires Fits(g, v) && c < g.nFatent && g.fsType != Fat12
    ensures OffFat(g, PutAligned(g, v, c, val)) == OffFat(g, v)
    ensures forall d :: 0 <= d < g.nFatent && d != c ==> Entry(g, PutAligned(g, v, c, val), d) == Entry(g, v, d)
    ensures g.fsType == Fat32 ==>
      forall d :: 0 <= d < g.nFatent && d != c ==> HighBits(g, PutAligned(g, v, c, val), d) == HighBits(g, v, d)
  {
    var w := PutAligned(g, v, c, val);
    EntryFits(g, c);
    assert OffFat(g, w) == OffFat(g, v);
    forall d | 0 <= d < g.nFatent && d != c
      ensures Entry(g, w, d) == Entry(g, v, d)
      ensures g.fsType == Fat32 ==> HighBits(g, w, d) == HighBits(g, v, d)
    {
      PutAlignedOther(g, v, c, val, d);
    }
  }

  lemma PutAlignedEntry(g: Geometry, v: seq<Sector>, c: nat, val: nat)
    requires Fits(g, v) && c < g.nFatent && g.fsType != Fat12
    ensures Entry(g, PutAligned(g, v, c, val), c) == val % Modulus(g.fsType)
    ensures g.fsType == Fat32 ==> HighBits(g, PutAligned(g, v, c, val), c) == HighBits(g, v, c)
  {
    hide Entry, HighBits, LdWord, LdDword, TableBytes, FatByte;
    EntryFits(g, c);
    var k := EntryAt(g.fsType, c);
    var s, o := g.fatbase + k / SS, k % SS;
    var w := PutAligned(g, v, c, val);
    EntryWord(g, w, c);
    EntryWord(g, v, c);
    if g.fsType == Fat32 {
      KeepHigh(LdDword(v[s], o), val);
    }
  }

  /** A FAT16 or FAT32 entry lies in one sector. */
  lemma EntryInSector(g: Geometry, c: nat)
    requires g.Valid() && c < g.nFatent && g.fsType != Fat12
    ensures EntryAt(g.fsType, c) % SS + EntryBytes(g.fsType) <= SS && EntryAt(g.fsType, c) / SS < g.fsize
  {
    hide TableBytes, Geometry.Valid;
    EntryFits(g, c);
    if g.fsType == Fat16 {
      InSector(c / 256, c % 256 * 2);
    } else {
      InSector(c / 128, c % 128 * 4);
    }
  }

  lemma InSector(q: nat, r: nat)
    requires r < SS
    ensures (SS * q + r) / SS == q && (SS * q + r) % SS == r
  {
  }

  /** An aligned entry is one little-endian word of one sector. */
  lemma EntryWord(g: Geometry, v: seq<Sector>, c: nat)
    requires Fits(g, v) && c < g.nFatent && g.fsType != Fat12
    ensures var k := EntryAt(g.fsType, c);
            var s, o := g.fatbase + k / SS, k % SS;
            && k == (if g.fsType == Fat16 then 2 * c else 4 * c)
            && o + EntryBytes(g.fsType) <= SS && s < g.fatbase + g.fsize
            && (g.fsType == Fat16 ==> Entry(g, v, c) == LdWord(v[s], o))
            && (g.fsType == Fat32 ==> Entry(g, v, c) == LdDword(v[s], o) % 0x1000_0000
                                      && HighBits(g, v, c) == LdDword(v[s], o) / 0x1000_0000)
  {
    hide FatByte, TableBytes, LdDword, LdWord;
    EntryFits(g, c);
    EntryInSector(g, c);
    var k := EntryAt(g.fsType, c);
    var s, o := v[g.fatbase + k / SS], k % SS;
    BytesInSector(g, v, k, EntryBytes(g.fsType));
    if g.fsType == Fat32 {
      WholeDword(s, o, FatByte(g, v, k), FatByte(g, v, k + 1), FatByte(g, v, k + 2), FatByte(g, v, k + 3));
    } else {
      WholeWord(s, o, FatByte(g, v, k), FatByte(g, v, k + 1));
    }
  }

  /** The bytes of an entry are consecutive ones of the sector. */
  lemma BytesInSector(g: Geometry, v: seq<Sector>, k: nat, n: nat)
    requires Fits(g, v) && k + n <= g.fsize * SS && k % SS + n <= SS && (n == 2 || n == 4)
    ensures var s := v[g.fatbase + k / SS];
            && FatByte(g, v, k) == s[k % SS] && FatByte(g, v, k + 1) == s[k % SS + 1]
            && (n == 4 ==> FatByte(g, v, k + 2) == s[k % SS + 2] && FatByte(g, v, k + 3) == s[k % SS + 3])
  {
    hide TableBytes;
    assert (k + 1) / SS == k / SS && (k + 1) % SS == k % SS + 1;
    if n == 4 {
      assert (k + 2) / SS == k / SS && (k + 2) % SS == k % SS + 2;
      assert (k + 3) / SS == k / SS && (k + 3) % SS == k % SS + 3;
    }
  }

  lemma WholeWord(s: Sector, o: nat, a: byte, b: byte)
    requires o + 2 <= SS && s[o] == a && s[o + 1] == b
    ensures LdWord(s, o) == a as int + 0x100 * b as int
  {
  }

  lemma WholeDword(s: Sector, o: nat, a: byte, b: byte, c: byte, d: byte)
    requires o + 4 <= SS && s[o] == a && s[o + 1] == b && s[o + 2] == c && s[o + 3] == d
    ensures LdDword(s, o) == a as int + 0x100 * b as int + 0x1_0000 * c as int + 0x100_0000 * d as int
    ensures LdDword(s, o) / 0x1000_0000 == d as int / 16
  {
  }

  lemma KeepHigh(old_: nat, val: nat)
    requires old_ < 0x1_0000_0000
    ensures var x := (val % 0x1000_0000 + old_ / 0x1000_0000 * 0x1000_0000) % 0x1_0000_0000;
            x % 0x1000_0000 == val % 0x1000_0000 && x / 0x1000_0000 == old_ / 0x1000_0000
  {
  }

  /**
   * The packed table behaves as a flat array: a put stores the value cut to 12, 16 or 28 bits, all other entries and
   * everything outside the FAT stay, and FAT32 keeps every entry's top four bits.
   */
  lemma PutIsArrayUpdate(g: Geometry, v: seq<Sector>, c: nat, val: nat)
    requires Fits(g, v) && c < g.nFatent
    ensures Table(g, Put(g, v, c, val)) == Table(g, v)[c := val % Modulus(g.fsType)]
    ensures OffFat(g, Put(g, v, c, val)) == OffFat(g, v)
    ensures g.fsType == Fat32 ==>
      forall d :: 0 <= d < g.nFatent ==> HighBits(g, Put(g, v, c, val), d) == HighBits(g, v, d)
  {
    hide Entry, HighBits, OffFat, PutLow, PutHigh, PutAligned, TableBytes;
    if g.fsType == Fat12 {
      PutLowTable(g, v, c, val);
      PutHighTable(g, PutLow(g, v, c, val), c, val);
      Put12Entry(g, v, c, val);
    } else {
      PutAlignedTable(g, v, c, val);
      PutAlignedEntry(g, v, c, val);
    }
  }

  /** A put_fat call. */
  datatype PutOp = PutOp(clst: nat, val: nat)

  predicate InTable(g: Geometry, ops: seq<PutOp>) {
    forall i :: 0 <= i < |ops| ==> ops[i].clst < g.nFatent
  }

  /** The sectors after a run of them. */
  function Puts(g: Geometry, v: seq<Sector>, ops: seq<PutOp>): (w: seq<Sector>)
    requires Fits(g, v) && InTable(g, ops)
    ensures |w| == |v|
  {
    if ops == [] then v
    else
      var op := ops[|ops| - 1];
      Put(g, Puts(g, v, ops[..|ops| - 1]), op.clst, op.val)
  }

  /** What was put into entry c last, or what was there before. */
  function LastPut(g: Geometry, old_: nat, ops: seq<PutOp>, c: nat): nat {
    if ops == [] then old_
    else if ops[|ops| - 1].clst == c then ops[|ops| - 1].val % Modulus(g.fsType)
    else LastPut(g, old_, ops[..|ops| - 1], c)
  }

  /** After any run of puts every entry reads as the last value put into it, and nothing else has changed. */
  lemma {:induction false} LastPutWins(g: Geometry, v: seq<Sector>, ops: seq<PutOp>)
    requires Fits(g, v) && InTable(g, ops)
    ensures forall c :: 0 <= c < g.nFatent ==> Entry(g, Puts(g, v, ops), c) == LastPut(g, Entry(g, v, c), ops, c)
    ensures OffFat(g, Puts(g, v, ops)) == OffFat(g, v)
    ensures g.fsType == Fat32 ==>
      forall c :: 0 <= c < g.nFatent ==> HighBits(g, Puts(g, v, ops), c) == HighBits(g, v, c)
  {
    hide Put, Entry, HighBits, OffFat, Geometry.Valid;
    if ops == [] {
    } else {
      var op, w := ops[|ops| - 1], Puts(g, v, ops[..|ops| - 1]);
      LastPutWins(g, v, ops[..|ops| - 1]);
      PutIsArrayUpdate(g, w, op.clst, op.val);
      forall c | 0 <= c < g.nFatent ensures Entry(g, Puts(g, v, ops), c) == LastPut(g, Entry(g, v, c), ops, c) {
        assert Table(g, Put(g, w, op.clst, op.val))[c] == Table(g, w)[op.clst := op.val % Modulus(g.fsType)][c];
      }
    }
  }

  /** The table depends on the FAT sectors only. */
  lemma TableKept(g: Geometry, v: seq<Sector>, w: seq<Sector>)
    requires Fits(g, v) && |w| == |v|
    requires forall s :: g.fatbase <= s < g.fatbase + g.fsize ==> v[s] == w[s]
    ensures Table(g, v) == Table(g, w)
  {
    forall c | 0 <= c < g.nFatent ensures Entry(g, v, c) == Entry(g, w, c) {
      EntryBytesOnly(g, v, w, c);
    }
  }
}
