/** The formatter: how large a FAT, which FAT type and which cluster size f_mkfs chooses, and what it writes. */
module Mkfs {
  import opened Disk
  import opened FatLayout
  import opened FileLayout
  import opened DirEntry

  const MAX_FAT12: nat := 0xFF5
  const MAX_FAT16: nat := 0xFFF5
  const MAX_FAT32: nat := 0x0FFF_FFF5
  const N_ROOTDIR: nat := 512
  const TWO32: nat := 0x1_0000_0000

  /** 32-bit unsigned arithmetic. */
  function Wrap(x: int): nat { x % TWO32 }

  predicate PowerOfTwo(n: nat) {
    n == 1 || n == 2 || n == 4 || n == 8 || n == 16 || n == 32 || n == 64 || n == 128
  }

  /** The format options: FM_FAT, FM_FAT32, FM_EXFAT and FM_SFD. */
  datatype Options = Options(fat: bool, fat32: bool, exfat: bool, sfd: bool)

  /**
   * The plan of a volume, in sectors: FAT type, cluster size, place and size on the drive, reserved area, FAT, root
   * directory; and the number of clusters.
   */
  datatype Plan = Plan(fmt: FatType, pau: nat, bVol: nat, szVol: nat, rsv: nat, szFat: nat, dir: nat, nClst: nat) {

    /** The number of clusters is one that makes a reader take the volume for the FAT type planned. */
    predicate TypeFits() {
      match fmt
      case Fat12 => nClst <= MAX_FAT12
      case Fat16 => MAX_FAT12 < nClst <= MAX_FAT16
      case Fat32 => MAX_FAT16 < nClst <= MAX_FAT32
    }

    /** Everything before the first cluster. */
    function System(): nat { rsv + szFat + dir }

    predicate Placed() {
      && 128 <= szVol && bVol + szVol < TWO32 && (bVol == 0 || bVol == 63) && PowerOfTwo(pau)
      && (if fmt == Fat32 then rsv == 32 && dir == 0 else rsv == 1 && dir == 32)
      && System() + 16 * pau <= szVol && nClst == (szVol - System()) / pau
    }

    /** A volume that can be written down and mounted: it fits its drive, and its FAT has room for every cluster. */
    predicate Sound() {
      && Placed() && TypeFits() && nClst >= 16
      && 0 < szFat && (fmt != Fat32 ==> szFat < 0x1_0000)
      && TableBytes(fmt, nClst + 2) <= szFat * SS
    }

    /** What mounting has to find out. */
    function Geo(): Geometry {
      Geometry(fmt, 1, pau, nClst + 2, szFat, bVol, bVol + rsv,
               if fmt == Fat32 then 2 else bVol + rsv + szFat, bVol + System())
    }
  }

  /** The type planned is the one the number of clusters says, and FAT32 has a limit of its own. */
  lemma TypeSeen(p: Plan)
    ensures p.TypeFits() <==>
            p.nClst <= 0xFFF_FFF5
            && p.fmt == if p.nClst <= 0xFF5 then Fat12 else if p.nClst <= 0xFFF5 then Fat16 else Fat32
  {
  }

  /** A sound plan is a proper geometry, and its last cluster ends on the drive. */
  lemma SoundGeometry(p: Plan)
    requires p.Sound()
    ensures p.Geo().Valid() && DataFits(p.Geo(), p.bVol + p.szVol) && p.bVol + p.szVol < TWO32
    ensures p.Geo().database <= p.bVol + p.szVol
  {
    var x, fmt := p.szVol - p.System(), p.fmt;
    assert x == p.pau * (x / p.pau) + x % p.pau;
    assert DataSect(p.Geo(), p.nClst + 2, 0) == p.nClst * p.pau + p.bVol + p.System();
    hide PowerOfTwo;
  }

  // ---- choosing the layout -------------------------------------------------------------------------

  /** The cluster size table for FAT12/16 (by 4K sectors) and for FAT32 (by 128K sectors). */
  function Table16(): seq<nat> { [1, 4, 16, 64, 256, 512, 0] }

  function Table32(): seq<nat> { [1, 2, 4, 8, 16, 32, 0] }

  /** Double the cluster size for every limit the volume reaches. */
  function AutoPau(cst: seq<nat>, n: nat): nat
    requires |cst| == 7
  {
    if n < cst[0] then 1 else if n < cst[1] then 2 else if n < cst[2] then 4 else if n < cst[3] then 8
    else if n < cst[4] then 16 else if n < cst[5] then 32 else 64
  }

  /** The loop that does it. */
  method AutoSize(cst: seq<nat>, n: nat) returns (pau: nat)
    requires |cst| == 7 && cst[6] == 0 && (forall i :: 0 <= i < 6 ==> cst[i] != 0)
    requires forall i, j :: 0 <= i < j < 6 ==> cst[i] < cst[j]
    ensures pau == AutoPau(cst, n)
  {
    var i := 0;
    pau := 1;
    while cst[i] != 0 && cst[i] <= n
      invariant 0 <= i <= 6
      invariant pau == [1, 2, 4, 8, 16, 32, 64][i]
      invariant forall j :: 0 <= j < i ==> cst[j] <= n
      decreases 6 - i
    {
      i, pau := i + 1, pau * 2;
    }
  }

  /** The cluster size of a pass: what was asked for, or the automatic choice. */
  function Pau(fmt: FatType, au: nat, szVol: nat): nat {
    if au != 0 then au
    else if fmt == Fat32 then AutoPau(Table32(), szVol / 0x2_0000)
    else AutoPau(Table16(), szVol / 0x1000)
  }

  /** FAT sectors for so many bytes, in 32-bit arithmetic. */
  function FatSectors(bytes: nat): nat {
    Wrap(bytes + SS - 1) / SS
  }

  lemma FatSectorsBound(bytes: nat)
    ensures FatSectors(bytes) < 0x80_0000
  {
  }

  method Pick(fmt: FatType, au: nat, szVol: nat) returns (pau: nat)
    ensures pau == Pau(fmt, au, szVol)
  {
    pau := au;
    if au == 0 {
      if fmt == Fat32 {
        pau := AutoSize(Table32(), szVol / 0x2_0000);
      } else {
        pau := AutoSize(Table16(), szVol / 0x1000);
      }
    }
  }

  /** The FAT has been sized for n0 clusters; FAT12 is chosen where they are few enough. */
  predicate Sized(fmt: FatType, n0: nat, szFat: nat) {
    match fmt
    case Fat12 => n0 <= MAX_FAT12 && szFat == FatSectors((n0 * 3 + 1) / 2 + 3)
    case Fat16 => n0 > MAX_FAT12 && szFat == FatSectors(Wrap(n0 * 2 + 4))
    case Fat32 => szFat == FatSectors(Wrap(n0 * 4 + 8))
  }

  /** That is room for the entries of n0 clusters, and for the two in front, and not a sector more. */
  lemma JustLarge(fmt: FatType, n0: nat, szFat: nat)
    requires Sized(fmt, n0, szFat) && n0 < 0x1000_0000
    ensures (szFat - 1) * 512 < TableBytes(fmt, n0 + 2) <= szFat * 512
  {
    hide Wrap;
    var bytes := TableBytes(fmt, n0 + 2);
    if fmt == Fat12 {
      var k, r := n0 / 2, n0 % 2;
      Halved(n0 * 3 + 1, 3 * k + 2 * r, 1 - r);
      Halved((n0 + 2) * 3, 3 * k + 3 + r, r);
      Halved(n0 + 2, k + 1, r);
    } else {
      NoWrap(n0 * 2 + 4);
      NoWrap(n0 * 4 + 8);
    }
    NoWrap(bytes + SS - 1);
    assert szFat == (bytes + 511) / 512;
  }

  /** Size of FAT, reserved area and root directory for n0 clusters. */
  method Sizes(fmt0: FatType, n0: nat) returns (fmt: FatType, szFat: nat, rsv: nat, dir: nat)
    requires fmt0 != Fat12
    ensures Sized(fmt, n0, szFat) && szFat < 0x80_0000 && (fmt0 == Fat32 <==> fmt == Fat32)
    ensures if fmt == Fat32 then rsv == 32 && dir == 0 else rsv == 1 && dir == 32
  {
    fmt := fmt0;
    if fmt == Fat32 {
      szFat, rsv, dir := FatSectors(Wrap(n0 * 4 + 8)), 32, 0;
      FatSectorsBound(Wrap(n0 * 4 + 8));
    } else {
      var n;
      if n0 > MAX_FAT12 {
        n := Wrap(n0 * 2 + 4);
      } else {
        fmt := Fat12;
        n := (n0 * 3 + 1) / 2 + 3;
      }
      szFat, rsv, dir := FatSectors(n), 1, N_ROOTDIR * SZDIRE / SS;
      FatSectorsBound(n);
    }
  }

  /** What one pass comes to, before it is judged. */
  predicate Tried(fmt0: FatType, au: nat, bVol: nat, szVol: nat, p: Plan) {
    && p.bVol == bVol && p.szVol == szVol && p.pau == Pau(fmt0, au, szVol) && PowerOfTwo(p.pau)
    && Sized(p.fmt, szVol / p.pau, p.szFat) && (fmt0 == Fat32 <==> p.fmt == Fat32)
    && (if p.fmt == Fat32 then p.rsv == 32 && p.dir == 0 else p.rsv == 1 && p.dir == 32)
    && (p.System() <= szVol ==> p.nClst == (szVol - p.System()) / p.pau)
  }

  /** The pass does not give up. */
  predicate Goes(p: Plan)
    requires p.pau > 0
  {
    p.System() + 16 * p.pau <= p.szVol && (p.fmt == Fat32 ==> MAX_FAT16 < p.szVol / p.pau <= MAX_FAT32)
  }

  /** There is room for sixteen clusters, and for FAT32 the whole volume would not make too few or too many. */
  lemma GoesMeans(p: Plan)
    requires p.pau > 0
    ensures Goes(p) <==> p.rsv + p.szFat + p.dir + 16 * p.pau <= p.szVol
                         && (p.fmt == Fat32 ==> 0xFFF5 < p.szVol / p.pau <= 0xFFF_FFF5)
  {
  }

  /** One pass of the loop, up to the point where it decides whether the result will do; not ok if the pass gives up. */
  method Attempt(fmt0: FatType, au: nat, bVol: nat, szVol: nat) returns (ok: bool, p: Plan)
    requires fmt0 != Fat12 && 128 <= szVol && bVol + szVol < TWO32 && (bVol == 0 || bVol == 63)
    requires au == 0 || PowerOfTwo(au)
    ensures Tried(fmt0, au, bVol, szVol, p) && p.pau > 0 && (ok <==> Goes(p))
  {
    var pau := Pick(fmt0, au, szVol);
    assert PowerOfTwo(pau) && 0 < pau <= 128;
    hide PowerOfTwo, FatSectors, Sized, Pau;
    var nClst := szVol / pau;
    var fmt, szFat, rsv, dir := Sizes(fmt0, nClst);
    var bFat := bVol + rsv;
    var bData := bFat + szFat + dir;
    var used := rsv + szFat + dir;
    p := Plan(fmt, pau, bVol, szVol, rsv, szFat, dir, if used <= szVol then (szVol - used) / pau else 0);
    if fmt == Fat32 && (nClst <= MAX_FAT16 || nClst > MAX_FAT32) { return false, p; }
    NoWrap(bData + pau * 16 - bVol);
    ok := !(szVol < Wrap(bData + pau * 16 - bVol));
  }

  lemma NoWrap(x: nat)
    ensures x < TWO32 ==> Wrap(x) == x
  {
  }

  /**
   * A FAT sized before the system area was taken off is large enough for what is left; a size that wrapped around
   * leaves too many clusters.
   */
  lemma Judged(p: Plan)
    requires p.Placed() && Sized(p.fmt, p.szVol / p.pau, p.szFat) && Goes(p)
    ensures p.TypeFits() ==> p.Sound()
    ensures p.fmt == Fat12 ==> p.TypeFits()
    ensures p.fmt == Fat32 ==> p.nClst <= MAX_FAT32
  {
    var n0 := p.szVol / p.pau;
    var x := p.System();
    Shrinks(p.szVol, x, p.pau);
    hide PowerOfTwo, TableBytes, FatSectors, Wrap;
    if p.fmt == Fat32 {
      Size32(n0, p.nClst, p.szFat);
    } else if p.fmt == Fat16 {
      if p.TypeFits() { Size16(n0, p.nClst, p.szFat); }
    } else {
      Size12(n0, p.nClst, p.szFat);
    }
  }

  /** Taking the system area off loses no more clusters than sectors, and leaves 16. */
  lemma Shrinks(s: nat, x: nat, p: nat)
    requires p > 0 && x + 16 * p <= s
    ensures 16 <= (s - x) / p <= s / p <= (s - x) / p + x
  {
    DivMono(s - x, s, p);
    DivDrop(s, x, p);
    DivMono(16 * p, s - x, p);
    DivUnique(16 * p, p, 16, 0);
  }

  lemma Size32(n0: nat, n: nat, szFat: nat)
    requires n <= n0 <= MAX_FAT32 && szFat == FatSectors(Wrap(n0 * 4 + 8))
    ensures 0 < szFat && TableBytes(Fat32, n + 2) <= szFat * SS
  {
  }

  lemma Size16(n0: nat, n: nat, szFat: nat)
    requires n <= n0 <= n + 33 + szFat && n <= MAX_FAT16 && n0 < TWO32 && szFat == FatSectors(Wrap(n0 * 2 + 4))
    ensures 0 < szFat < 0x1_0000 && TableBytes(Fat16, n + 2) <= szFat * SS
  {
    assert szFat <= 0x80_0000;
    assert n0 * 2 + 4 + SS < TWO32;
  }

  lemma Size12(n0: nat, n: nat, szFat: nat)
    requires n <= n0 <= MAX_FAT12 && szFat == FatSectors((n0 * 3 + 1) / 2 + 3)
    ensures 0 < szFat < 0x1_0000 && TableBytes(Fat12, n + 2) <= szFat * SS
  {
    Packed12(n, n0);
    SmallFat((n0 * 3 + 1) / 2 + 3);
    hide FatSectors, TableBytes;
  }

  lemma Packed12(n: nat, n0: nat)
    requires n <= n0
    ensures TableBytes(Fat12, n + 2) <= (n0 * 3 + 1) / 2 + 3
  {
    var k, r := n / 2, n % 2;
    Halved(n + 2, k + 1, r);
    Halved((n + 2) * 3, 3 * k + 3 + r, r);
    Halved(n * 3 + 1, 3 * k + 2 * r, 1 - r);
    DivMono(n * 3 + 1, n0 * 3 + 1, 2);
  }

  /** A FAT of few bytes takes as many sectors as it needs. */
  lemma SmallFat(b: nat)
    requires 0 < b < 0x1_0000
    ensures 0 < FatSectors(b) < 0x1_0000 && b <= FatSectors(b) * SS
  {
    assert Wrap(b + SS - 1) == b + SS - 1;
  }

  lemma DivDrop(s: nat, x: nat, p: nat)
    requires p > 0 && x <= s
    ensures (s - x) / p + x >= s / p
  {
    var q, r := s / p, (s - x) / p;
    assert s == p * q + s % p && s - x == p * r + (s - x) % p;
    if r + x < q { MulStep(p, r + x, q); MulAtLeast(p, x); }
  }

  lemma MulAtLeast(p: nat, x: nat)
    requires p > 0
    ensures p * x >= x
  {
  }

  // ---- the retry loop ------------------------------------------------------------------------------

  /** A pass with these settings gives a sound plan. */
  ghost predicate Succeeds(fmt: FatType, au: nat, bVol: nat, szVol: nat) {
    forall p :: Tried(fmt, au, bVol, szVol, p) ==> p.pau > 0 && Goes(p) && p.Placed() && p.TypeFits()
  }

  /** With FAT and FAT32 allowed and no cluster size asked for, the loop is on its way to a plan. */
  ghost predicate Promising(fmt: FatType, au: nat, bVol: nat, szVol: nat) {
    if au != 0 then Succeeds(fmt, au, bVol, szVol) else fmt == Fat16 || (fmt == Fat32 && szVol >= 65526 * 64)
  }

  /**
   * A larger cluster size makes the right number of clusters, if there are few enough for FAT12, or enough and not too
   * many for FAT16.
   */
  lemma Retry(au: nat, bVol: nat, szVol: nat)
    requires PowerOfTwo(au) && au <= 64 && 4086 <= szVol && bVol + szVol < TWO32 && (bVol == 0 || bVol == 63)
    requires szVol / au <= MAX_FAT12 || 8000 <= szVol / au <= MAX_FAT16
    ensures Succeeds(Fat16, au, bVol, szVol)
  {
    hide Tried, Goes, Plan.Placed, Plan.TypeFits, PowerOfTwo;
    forall p | Tried(Fat16, au, bVol, szVol, p) ensures p.pau > 0 && Goes(p) && p.Placed() && p.TypeFits() {
      RetryPass(au, bVol, szVol, p);
    }
  }

  lemma PowerPositive(n: nat)
    requires PowerOfTwo(n)
    ensures n > 0
  {
  }

  lemma RetryPass(au: nat, bVol: nat, szVol: nat, p: Plan)
    requires PowerOfTwo(au) && au <= 64 && 4086 <= szVol && bVol + szVol < TWO32 && (bVol == 0 || bVol == 63)
    requires szVol / au <= MAX_FAT12 || 8000 <= szVol / au <= MAX_FAT16
    requires Tried(Fat16, au, bVol, szVol, p)
    ensures p.pau > 0 && Goes(p) && p.Placed() && p.TypeFits()
  {
    hide Sized, PowerOfTwo, Wrap;
    PowerPositive(au);
    RetrySize(p.fmt, szVol / au, p.szFat);
    RetryRoom(au, szVol, p);
    hide Plan.System, Tried;
    Shrinks(szVol, p.System(), au);
  }

  lemma RetryRoom(au: nat, szVol: nat, p: Plan)
    requires 0 < au <= 64 && 4086 <= szVol && p.szFat <= 258 && p.rsv == 1 && p.dir == 32
    ensures p.System() + 16 * au <= szVol && p.System() <= 291
  {
    FewSectors(szVol, au, p.System());
  }

  lemma RetrySize(fmt: FatType, n0: nat, szFat: nat)
    requires fmt != Fat32 && Sized(fmt, n0, szFat) && (n0 <= MAX_FAT12 || 8000 <= n0 <= MAX_FAT16)
    ensures szFat <= 258 && (fmt == Fat12 <==> n0 <= MAX_FAT12)
  {
    NoWrap(n0 * 2 + 4);
  }

  lemma FewSectors(s: nat, au: nat, x: nat)
    requires 0 < au <= 64 && x <= 291 && 4086 <= s
    ensures x + 16 * au <= s
  {
  }

  /** The automatic first pass gives a plan, or leads to a pass that does. */
  lemma First16(p: Plan, bVol: nat, szVol: nat)
    requires Tried(Fat16, 0, bVol, szVol, p) && 128 <= szVol && bVol + szVol < TWO32 && (bVol == 0 || bVol == 63)
    ensures p.pau > 0 && Goes(p) && p.Placed()
    ensures p.fmt == Fat16 && p.nClst > MAX_FAT16 && p.pau == 64 ==> szVol >= 65526 * 64
    ensures p.fmt == Fat16 && p.nClst > MAX_FAT16 && p.pau < 64 ==> Succeeds(Fat16, p.pau * 2, bVol, szVol)
    ensures p.fmt == Fat16 && p.nClst <= MAX_FAT12 ==> p.pau * 2 <= 128 && Succeeds(Fat16, p.pau * 2, bVol, szVol)
  {
    hide Pau, Sized, PowerOfTwo, Succeeds, Wrap;
    Range16(szVol, p.pau);
    First16Fits(p);
    ManyClusters(szVol, p.System(), p.pau);
    if p.fmt == Fat16 && (p.nClst <= MAX_FAT12 || (p.nClst > MAX_FAT16 && p.pau < 64)) {
      First16Again(p);
      Doubled(p.pau);
      Retry(p.pau * 2, bVol, szVol);
    }
  }

  lemma ManyClusters(s: nat, x: nat, pau: nat)
    requires pau > 0 && x <= s
    ensures pau == 64 && (s - x) / pau > MAX_FAT16 ==> s >= 65526 * 64
  {
  }

  lemma Doubled(pau: nat)
    requires pau == 1 || pau == 2 || pau == 4 || pau == 8 || pau == 16 || pau == 32
    ensures PowerOfTwo(pau * 2) && pau * 2 <= 64
  {
  }

  /** The volume sizes for which the automatic choice is pau. */
  lemma Range16(s: nat, pau: nat)
    requires pau == Pau(Fat16, 0, s)
    ensures pau == 1 || pau == 2 || pau == 4 || pau == 8 || pau == 16 || pau == 32 || pau == 64
    ensures pau == 1 ==> s < 0x1000
    ensures pau == 2 ==> 0x1000 <= s < 0x4000
    ensures pau == 4 ==> 0x4000 <= s < 0x1_0000
    ensures pau == 8 ==> 0x1_0000 <= s < 0x4_0000
    ensures pau == 16 ==> 0x4_0000 <= s < 0x10_0000
    ensures pau == 32 ==> 0x10_0000 <= s < 0x20_0000
    ensures pau == 64 ==> 0x20_0000 <= s
  {
  }

  /** The same for FAT32. */
  lemma Range32s(s: nat, pau: nat)
    requires pau == Pau(Fat32, 0, s)
    ensures pau == 1 || pau == 2 || pau == 4 || pau == 8 || pau == 16 || pau == 32 || pau == 64
    ensures pau == 1 ==> s < 0x2_0000
    ensures pau == 2 ==> 0x2_0000 <= s < 0x4_0000
    ensures pau == 4 ==> 0x4_0000 <= s < 0x8_0000
    ensures pau == 8 ==> 0x8_0000 <= s < 0x10_0000
    ensures pau == 16 ==> 0x10_0000 <= s < 0x20_0000
    ensures pau == 32 ==> 0x20_0000 <= s < 0x40_0000
    ensures pau == 64 ==> 0x40_0000 <= s
  {
  }

  lemma First16Fits(p: Plan)
    requires Tried(Fat16, 0, p.bVol, p.szVol, p) && 128 <= p.szVol && p.bVol + p.szVol < TWO32
    requires (p.bVol == 0 || p.bVol == 63)
    ensures p.pau > 0 && Goes(p) && p.Placed()
  {
    hide Pau, Sized, PowerOfTwo;
    Range16(p.szVol, p.pau);
    FirstFat(p.fmt, p.szVol / p.pau, p.szFat);
    FirstRoom(p.szVol, p.pau, p.System());
  }

  lemma FirstFat(fmt: FatType, n0: nat, szFat: nat)
    requires Sized(fmt, n0, szFat) && fmt != Fat32 && n0 * 2 + 4 + SS < TWO32
    ensures szFat <= n0 / 256 + 13
  {
    hide Wrap;
    NoWrap(n0 * 2 + 4);
    NoWrap(n0 * 2 + 4 + SS - 1);
    NoWrap((n0 * 3 + 1) / 2 + 3 + SS - 1);
  }

  /** The system area and 16 clusters fit every volume with the cluster size chosen for it. */
  lemma FirstRoom(s: nat, pau: nat, x: nat)
    requires pau == 1 || pau == 2 || pau == 4 || pau == 8 || pau == 16 || pau == 32 || pau == 64
    requires 128 <= s && (pau == 2 ==> 0x1000 <= s) && (pau == 4 ==> 0x4000 <= s) && (pau > 4 ==> 0x1_0000 <= s)
    requires x <= s / pau / 256 + 46
    ensures x + 16 * pau <= s
  {
  }

  lemma First16Again(p: Plan)
    requires Tried(Fat16, 0, p.bVol, p.szVol, p) && 128 <= p.szVol && p.bVol + p.szVol < TWO32 && Goes(p)
    requires p.fmt == Fat16
    requires p.nClst <= MAX_FAT12 || (p.nClst > MAX_FAT16 && p.pau < 64)
    ensures p.pau <= 32 && 4086 <= p.szVol
    ensures p.szVol / (p.pau * 2) <= MAX_FAT12 || 8000 <= p.szVol / (p.pau * 2) <= MAX_FAT16
  {
    hide *;
    AgainFacts(p);
    AgainSizes(p.szVol, p.pau, p.System(), p.szFat, p.nClst);
  }

  lemma AgainFacts(p: Plan)
    requires Tried(Fat16, 0, p.bVol, p.szVol, p) && p.bVol + p.szVol < TWO32 && Goes(p) && p.fmt == Fat16
    ensures p.pau == Pau(Fat16, 0, p.szVol) && p.pau > 0 && p.System() + 16 * p.pau <= p.szVol < TWO32
    ensures MAX_FAT12 < p.szVol / p.pau && p.szFat == FatSectors(Wrap(p.szVol / p.pau * 2 + 4))
    ensures p.System() == 33 + p.szFat && p.nClst == (p.szVol - p.System()) / p.pau
  {
    hide Pau, Wrap, FatSectors;
  }

  lemma AgainSizes(szVol: nat, pau: nat, system: nat, szFat: nat, n: nat)
    requires pau == Pau(Fat16, 0, szVol) && pau > 0 && system + 16 * pau <= szVol < TWO32
    requires MAX_FAT12 < szVol / pau && szFat == FatSectors(Wrap(szVol / pau * 2 + 4))
    requires system == 33 + szFat && n == (szVol - system) / pau
    requires n <= MAX_FAT12 || (n > MAX_FAT16 && pau < 64)
    ensures pau <= 32 && 4086 <= szVol
    ensures szVol / (pau * 2) <= MAX_FAT12 || 8000 <= szVol / (pau * 2) <= MAX_FAT16
  {
    hide Pau, Wrap, FatSectors;
    var n0 := szVol / pau;
    Range16(szVol, pau);
    Shrinks(szVol, system, pau);
    FewClusters(szVol, pau);
    FewerOrMore(n0, n, szFat);
    HalfSize(szVol, pau);
  }

  lemma FewClusters(s: nat, pau: nat)
    requires pau == Pau(Fat16, 0, s) && pau > 0 && s < TWO32
    ensures s / pau < 0x8000_0000 - 2
  {
    hide Pau;
    Range16(s, pau);
  }

  lemma FewerOrMore(n0: nat, n: nat, szFat: nat)
    requires MAX_FAT12 < n0 < 0x8000_0000 - 2 && n <= n0 <= n + 33 + szFat && szFat == FatSectors(Wrap(n0 * 2 + 4))
    ensures n <= MAX_FAT12 ==> n0 <= 4140
    ensures n > MAX_FAT16 ==> n0 > MAX_FAT16
  {
    assert szFat <= n0 / 256 + 2;
  }

  /** Doubling the cluster size halves the number of clusters. */
  lemma HalfSize(s: nat, pau: nat)
    requires pau == 1 || pau == 2 || pau == 4 || pau == 8 || pau == 16 || pau == 32 || pau == 64
    ensures s / (pau * 2) == s / pau / 2 && s / pau * pau <= s < s / pau * pau + pau
  {
  }

  /** FAT32 with automatic cluster size suits every volume too large for FAT16. */
  lemma First32(p: Plan, bVol: nat, szVol: nat)
    requires Tried(Fat32, 0, bVol, szVol, p) && 65526 * 64 <= szVol && bVol + szVol < TWO32 && (bVol == 0 || bVol == 63)
    ensures p.pau > 0 && Goes(p) && p.Placed() && p.nClst > MAX_FAT16
  {
    hide Pau, Sized, PowerOfTwo;
    Range32(szVol, p.pau);
    Fat32Size(szVol / p.pau, p.szFat);
  }

  lemma Range32(s: nat, pau: nat)
    requires pau == Pau(Fat32, 0, s) && 65526 * 64 <= s < TWO32
    ensures pau == 32 || (pau == 64 && s >= 0x40_0000)
    ensures MAX_FAT16 < s / pau <= MAX_FAT32
  {
  }

  lemma Fat32Size(n0: nat, szFat: nat)
    requires Sized(Fat32, n0, szFat) && n0 <= MAX_FAT32
    ensures szFat <= n0 / 128 + 2
  {
    hide Wrap;
    NoWrap(n0 * 4 + 8);
    NoWrap(n0 * 4 + 8 + SS - 1);
  }

  /**
   * The choice of FAT type and cluster size. It ends, because a pass is repeated only with a cluster size where there
   * was none or with FAT32 in place of FAT16. What it returns is a sound plan of a type allowed, and with both types
   * allowed and no cluster size asked for there always is one.
   */
  method Choose(opt: Options, au0: nat, bVol: nat, szVol: nat) returns (res: FResult, p: Plan)
    requires 128 <= szVol && bVol + szVol < TWO32 && (bVol == 0 || bVol == 63)
    requires au0 == 0 || au0 > 128 || PowerOfTwo(au0)
    ensures res == Ok ==> p.pau > 0 && Sized(p.fmt, szVol / p.pau, p.szFat)
    ensures res == Ok ==> if p.fmt == Fat32 then opt.fat32 else opt.fat
    ensures res == Ok && p.fmt != Fat32 ==> (p.fmt == Fat12 <==> szVol / p.pau <= 0xFF5)
    ensures res == Ok && au0 == 0 && p.fmt != Fat32 ==>
      exists q :: Tried(Fat16, 0, bVol, szVol, q) && (p.pau == q.pau || (p.pau == 2 * q.pau && !q.TypeFits()))
    ensures res == Ok && p.fmt == Fat32 && opt.fat ==>
      exists q :: Tried(Fat16, au0, bVol, szVol, q) && q.nClst > MAX_FAT16 && (au0 == 0 ==> q.pau == 64)
    ensures res == Ok && au0 == 0 && p.fmt == Fat32 ==>
      exists q :: Tried(Fat32, 0, bVol, szVol, q) && (p.pau == q.pau || (p.pau == q.pau / 2 && !q.TypeFits()))
    ensures res == Ok ==> p.Sound() && p.bVol == bVol && p.szVol == szVol && (au0 != 0 ==> p.pau == au0)
    ensures res == InvalidParameter <==> au0 > 128 || !(opt.fat || opt.fat32)
    ensures res == Ok || res == InvalidParameter || res == MkfsAborted
    ensures opt.fat && opt.fat32 && au0 == 0 ==> res == Ok
    ensures res == MkfsAborted && opt.fat ==> !Succeeds(Fat16, au0, bVol, szVol)
    ensures res == MkfsAborted && opt.fat && !opt.fat32 && au0 == 0 ==>
      !Succeeds(Fat16, 2 * Pau(Fat16, 0, szVol), bVol, szVol)
    ensures res == MkfsAborted && !opt.fat ==> !Succeeds(Fat32, au0, bVol, szVol)
    ensures res == MkfsAborted && !opt.fat && au0 == 0 ==>
      forall q :: Tried(Fat32, 0, bVol, szVol, q) && q.pau > 1 && Goes(q) && !q.TypeFits() ==>
        !Succeeds(Fat32, q.pau / 2, bVol, szVol)
    ensures res == MkfsAborted && opt.fat && opt.fat32 ==>
      forall q :: Tried(Fat16, au0, bVol, szVol, q) && q.pau > 0 && Goes(q) && q.fmt == Fat16 && q.nClst > MAX_FAT16 ==>
        !Succeeds(Fat32, au0, bVol, szVol)
  {
    hide Tried, Goes, PowerOfTwo, Succeeds, Plan.Placed, Plan.Sound, Sized, Pau;
    p := Plan(Fat12, 0, 0, 0, 0, 0, 0, 0);
    var fmt, au: nat := Fat16, au0;
    if au > 128 { return InvalidParameter, p; }
    if opt.fat32 && !opt.fat {
      fmt := Fat32;
    } else if !opt.fat {
      return InvalidParameter, p;
    }
    ghost var first, mid := p, p;
    while true
      invariant fmt != Fat12 && (au == 0 || PowerOfTwo(au)) && (au0 != 0 ==> au == au0)
      invariant if fmt == Fat32 then opt.fat32 else opt.fat
      invariant opt.fat && opt.fat32 && au0 == 0 ==> Promising(fmt, au, bVol, szVol)
      invariant fmt == Fat16 && au != au0 ==> Tried(Fat16, au0, bVol, szVol, first) && first.pau > 0
      invariant au != au0 || (fmt == Fat32 && opt.fat) ==>
        !Succeeds(if opt.fat then Fat16 else Fat32, au0, bVol, szVol)
      invariant fmt == Fat32 && au != au0 ==> !Succeeds(Fat32, au0, bVol, szVol)
      invariant fmt == Fat16 && au0 == 0 ==>
        au == 0 || (Tried(Fat16, 0, bVol, szVol, first) && au == 2 * first.pau && !first.TypeFits()
                    && first.pau == Pau(Fat16, 0, szVol) && first.pau > 0
                    && (au <= 64 ==> Succeeds(Fat16, au, bVol, szVol)))
      invariant fmt == Fat32 && opt.fat ==>
        Tried(Fat16, au0, bVol, szVol, first) && first.nClst > MAX_FAT16 && (au0 == 0 ==> first.pau == 64)
      invariant fmt == Fat32 && au0 == 0 ==>
        au == 0 || (Tried(Fat32, 0, bVol, szVol, mid) && mid.pau > 0 && au == mid.pau / 2 && !mid.TypeFits())
      decreases if fmt == Fat16 then 2 else 0, if au == 0 then 1 else 0
    {
      var ok;
      ok, p := Attempt(fmt, au, bVol, szVol);
      ghost var default := opt.fat && opt.fat32 && au0 == 0;
      if default { Promised(fmt, au, bVol, szVol, p); }
      if !ok || !p.TypeFits() { PassFails(fmt, au, bVol, szVol, p); }
      if fmt == Fat16 {
        if au == 0 { First16(p, bVol, szVol); }
        if au == au0 { first := p; }
        SamePass(fmt, au0, bVol, szVol, first);
      } else {
        if au == 0 { mid := p; }
        if au0 == 0 { SamePass(fmt, 0, bVol, szVol, mid); }
      }
      if !ok { return MkfsAborted, p; }
      TriedPlaced(fmt, au, bVol, szVol, p);
      if fmt == Fat16 && au == 0 { Range16(szVol, p.pau); }
      Judged(p);
      fmt := p.fmt;
      if fmt == Fat32 && p.nClst <= MAX_FAT16 {
        if au == 0 {
          au := p.pau / 2;
          if au != 0 { continue; }
        }
        return MkfsAborted, p;
      }
      if fmt == Fat16 {
        if p.nClst > MAX_FAT16 {
          if au == 0 && p.pau * 2 <= 64 {
            au := p.pau * 2;
            continue;
          }
          if opt.fat32 {
            fmt := Fat32;
            continue;
          }
          if au == 0 {
            au := p.pau * 2;
            if au <= 128 { continue; }
          }
          return MkfsAborted, p;
        }
        if p.nClst <= MAX_FAT12 {
          if au == 0 {
            au := p.pau * 2;
            if au <= 128 { continue; }
          }
          return MkfsAborted, p;
        }
      }
      if fmt == Fat12 && p.nClst > MAX_FAT12 { return MkfsAborted, p; }
      return Ok, p;
    }
  }

  /** A pass that gives up, or comes to a wrong number of clusters, does not succeed. */
  lemma PassFails(fmt: FatType, au: nat, bVol: nat, szVol: nat, p: Plan)
    requires Tried(fmt, au, bVol, szVol, p) && p.pau > 0 && (!Goes(p) || !p.TypeFits())
    ensures !Succeeds(fmt, au, bVol, szVol)
  {
  }

  /** The settings determine what a pass comes to. */
  lemma SamePass(fmt: FatType, au: nat, bVol: nat, szVol: nat, p: Plan)
    requires Tried(fmt, au, bVol, szVol, p) && p.pau > 0
    ensures forall q :: Tried(fmt, au, bVol, szVol, q) && q.pau > 0 && Goes(q) ==> p == q
  {
    hide Pau, PowerOfTwo, FatSectors, Wrap;
  }

  lemma TriedPlaced(fmt: FatType, au: nat, bVol: nat, szVol: nat, p: Plan)
    requires Tried(fmt, au, bVol, szVol, p) && p.pau > 0 && Goes(p) && 128 <= szVol && bVol + szVol < TWO32
    requires (bVol == 0 || bVol == 63)
    ensures p.Placed() && Sized(p.fmt, p.szVol / p.pau, p.szFat) && p.bVol == bVol && p.szVol == szVol
    ensures (fmt == Fat32 <==> p.fmt == Fat32) && PowerOfTwo(p.pau) && (au != 0 ==> p.pau == au)
    ensures (au == 0 ==> p.pau <= 64 && p.pau == Pau(fmt, 0, szVol))
    ensures (p.pau / 2 == 0 || PowerOfTwo(p.pau / 2)) && (p.pau <= 64 ==> PowerOfTwo(p.pau * 2))
  {
  }

  /** What a promise means for the pass made now. */
  lemma Promised(fmt: FatType, au: nat, bVol: nat, szVol: nat, p: Plan)
    requires Promising(fmt, au, bVol, szVol) && Tried(fmt, au, bVol, szVol, p)
    requires 128 <= szVol && bVol + szVol < TWO32 && (bVol == 0 || bVol == 63)
    ensures p.pau > 0 && Goes(p)
    ensures au != 0 ==> p.TypeFits()
    ensures p.fmt == Fat32 ==> p.nClst > MAX_FAT16
    ensures p.fmt == Fat16 && p.nClst > MAX_FAT16 && p.pau >= 64 ==> Promising(Fat32, 0, bVol, szVol) && au == 0
    ensures p.fmt == Fat16 && p.nClst > MAX_FAT16 && p.pau < 64 ==> Promising(Fat16, p.pau * 2, bVol, szVol)
    ensures p.fmt == Fat16 && p.nClst <= MAX_FAT12 ==> p.pau * 2 <= 128 && Promising(Fat16, p.pau * 2, bVol, szVol)
  {
    if au == 0 {
      if fmt == Fat16 {
        Range16(szVol, p.pau);
        First16(p, bVol, szVol);
      } else {
        First32(p, bVol, szVol);
      }
    }
  }
}
