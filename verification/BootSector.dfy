/**
 * The boot sector of a volume and the partition table of a drive: what f_mkfs stores there and what find_volume looks
 * at.
 */
module BootSector {
  import opened Bytes
  import opened Disk
  import opened FatLayout
  import opened DirEntry
  import opened Mkfs

  const BPB_BYTS_PER_SEC: nat := 11
  const BPB_SEC_PER_CLUS: nat := 13
  const BPB_RSVD_SEC_CNT: nat := 14
  const BPB_NUM_FATS: nat := 16
  const BPB_ROOT_ENT_CNT: nat := 17
  const BPB_TOT_SEC16: nat := 19
  const BPB_MEDIA: nat := 21
  const BPB_FATSZ16: nat := 22
  const BPB_SEC_PER_TRK: nat := 24
  const BPB_NUM_HEADS: nat := 26
  const BPB_HIDD_SEC: nat := 28
  const BPB_TOT_SEC32: nat := 32
  const BS_DRV_NUM: nat := 36
  const BS_BOOT_SIG: nat := 38
  const BS_VOL_ID: nat := 39
  const BS_VOL_LAB: nat := 43
  const BS_FIL_SYS_TYPE: nat := 54
  const BPB_FATSZ32: nat := 36
  const BPB_FSVER32: nat := 42
  const BPB_ROOT_CLUS32: nat := 44
  const BPB_FSINFO32: nat := 48
  const BPB_BK_BOOT_SEC32: nat := 50
  const BS_DRV_NUM32: nat := 64
  const BS_BOOT_SIG32: nat := 66
  const BS_VOL_ID32: nat := 67
  const BS_VOL_LAB32: nat := 71
  const BS_FIL_SYS_TYPE32: nat := 82
  const MBR_TABLE: nat := 446
  const SZ_PTE: nat := 16
  const PTE_SYSTEM: nat := 4
  const PTE_ST_LBA: nat := 8
  const PTE_SIZ_LBA: nat := 12

  /** check_fs on a sector that could be read: 0 a FAT boot sector, 2 some other boot sector, 3 none. */
  function BootKind(s: Sector): (k: nat)
    ensures k == 0 || k == 2 || k == 3
  {
    if LdWord(s, BS_55AA) != 0xAA55 then 3
    else if (s[0] == 0xE9 || (s[0] == 0xEB && s[2] == 0x90))
         && (LdDword(s, BS_FIL_SYS_TYPE) % 0x100_0000 == 0x544146 || LdDword(s, BS_FIL_SYS_TYPE32) == 0x33544146) then 0
    else 2
  }

  /** The signature at the end, a jump in front, and the file system's name, which FAT32 has further behind. */
  lemma BootKindMeans(s: Sector)
    ensures BootKind(s) == 3 <==> s[510] != 0x55 || s[511] != 0xAA
    ensures BootKind(s) == 0 <==>
            && s[510] == 0x55 && s[511] == 0xAA && (s[0] == 0xE9 || (s[0] == 0xEB && s[2] == 0x90))
            && (s[54..57] == [0x46, 0x41, 0x54] || s[82..86] == [0x46, 0x41, 0x54, 0x33])
  {
    hide LdDword;
    Letters(s, 54);
    Letters(s, 82);
  }

  lemma Letters(s: Sector, i: nat)
    requires i + 4 <= 512
    ensures LdDword(s, i) == 0x33544146 <==> s[i..i + 4] == [0x46, 0x41, 0x54, 0x33]
    ensures LdDword(s, i) % 0x100_0000 == 0x544146 <==> s[i..i + 3] == [0x46, 0x41, 0x54]
  {
    var low := s[i] as int + 0x100 * s[i + 1] as int + 0x1_0000 * s[i + 2] as int;
    assert LdDword(s, i) % 0x100_0000 == low;
    assert s[i..i + 3] == [s[i], s[i + 1], s[i + 2]] && s[i..i + 4] == [s[i], s[i + 1], s[i + 2], s[i + 3]];
  }

  /** What both kinds of boot sector say about the volume. */
  predicate SaysCommon(s: Sector, p: Plan) {
    && LdWord(s, 11) == 512 && s[13] as int == p.pau && LdWord(s, 14) == p.rsv
    && s[16] == 1 && LdWord(s, 17) == (if p.fmt == Fat32 then 0 else 512)
    && LdWord(s, 19) == (if p.szVol < 0x1_0000 then p.szVol else 0)
    && (p.szVol >= 0x1_0000 ==> LdDword(s, 32) == p.szVol)
  }

  /** What is particular to FAT32, or to FAT12 and FAT16. */
  predicate SaysOwn(s: Sector, p: Plan) {
    if p.fmt == Fat32 then
      && LdWord(s, 22) == 0 && LdDword(s, 36) == p.szFat && LdWord(s, 42) == 0
      && LdDword(s, 44) == 2 && LdWord(s, 48) == 1
    else
      LdWord(s, 22) == p.szFat
  }

  /** The jump and the formatter's name, the kind of medium, its shape, and the sectors in front of the volume. */
  predicate HasHeader(s: Sector, p: Plan) {
    && s[..11] == [0xEB, 0xFE, 0x90, 0x4D, 0x53, 0x44, 0x4F, 0x53, 0x35, 0x2E, 0x30]
    && s[21] == 0xF8 && LdWord(s, 24) == 63 && LdWord(s, 26) == 255 && LdDword(s, 28) == p.bVol
    && (p.szVol < 0x1_0000 ==> LdDword(s, 32) == 0)
  }

  /** Drive number, extended signature, serial number, label and file system type, the latter in ASCII. */
  ghost predicate HasTail(s: Sector, p: Plan, tm: nat) {
    if p.fmt == Fat32 then
      && LdWord(s, 40) == 0 && LdWord(s, 50) == 6 && s[64] == 0x80 && s[65] == 0 && s[66] == 0x29
      && LdDword(s, 67) == tm % 0x1_0000_0000
      && s[71..90] == [0x4E, 0x4F, 0x20, 0x4E, 0x41, 0x4D, 0x45, 0x20, 0x20, 0x20, 0x20,
                       0x46, 0x41, 0x54, 0x33, 0x32, 0x20, 0x20, 0x20]
      && forall k :: 52 <= k < 64 || 90 <= k < 510 ==> s[k] == 0
    else
      && s[36] == 0x80 && s[37] == 0 && s[38] == 0x29 && LdDword(s, 39) == tm % 0x1_0000_0000
      && s[43..62] == [0x4E, 0x4F, 0x20, 0x4E, 0x41, 0x4D, 0x45, 0x20, 0x20, 0x20, 0x20,
                       0x46, 0x41, 0x54, 0x20, 0x20, 0x20, 0x20, 0x20]
      && forall k :: 62 <= k < 510 ==> s[k] == 0
  }

  predicate Describes(s: Sector, p: Plan) {
    BootKind(s) == 0 && SaysCommon(s, p) && SaysOwn(s, p)
  }

  /** Four ASCII bytes and more, as the memcpys of f_mkfs use them. */
  function NoName(): seq<byte> { [0x4E, 0x4F, 0x20, 0x4E, 0x41, 0x4D, 0x45, 0x20, 0x20, 0x20, 0x20] }

  lemma PlanFacts(p: Plan)
    requires p.Sound()
    ensures 0 < p.pau < 256 && p.szVol < TWO32 && p.bVol < TWO32 && p.rsv < 0x1_0000
    ensures p.szFat < if p.fmt == Fat32 then TWO32 else 0x1_0000
  {
  }

  /** The fields that stand before byte 36 in every boot sector. */
  method MakeHead(p: Plan) returns (b: Sector)
    requires p.Sound()
    ensures b[0] == 0xEB && b[2] == 0x90 && SaysCommon(b, p) && LdWord(b, BPB_FATSZ16) == 0 && HasHeader(b, p)
    ensures forall k :: 36 <= k < SS ==> b[k] == 0
  {
    hide StWord, StDword, Splice, Plan.Sound, PowerOfTwo;
    PlanFacts(p);
    b := Splice(Blank(), 0, [0xEB, 0xFE, 0x90, 0x4D, 0x53, 0x44, 0x4F, 0x53, 0x35, 0x2E, 0x30]);
    b := StWord(b, BPB_BYTS_PER_SEC, SS);
    b := b[BPB_SEC_PER_CLUS := p.pau];
    b := StWord(b, BPB_RSVD_SEC_CNT, p.rsv);
    b := b[BPB_NUM_FATS := 1];
    b := StWord(b, BPB_ROOT_ENT_CNT, if p.fmt == Fat32 then 0 else N_ROOTDIR);
    assert b[19] == 0 && b[20] == 0 && b[22] == 0 && b[23] == 0;
    assert b[32] == 0 && b[33] == 0 && b[34] == 0 && b[35] == 0;
    b := MakeSizes(p, b);
  }

  /** Of these the ones from the volume's size on. */
  method MakeSizes(p: Plan, h: Sector) returns (b: Sector)
    requires p.szVol < TWO32 && p.bVol < TWO32 && LdWord(h, BPB_TOT_SEC16) == 0 && LdWord(h, BPB_FATSZ16) == 0
    requires LdDword(h, 32) == 0
    ensures b[21] == 0xF8 && LdWord(b, 24) == 63 && LdWord(b, 26) == 255 && LdDword(b, 28) == p.bVol
    ensures p.szVol < 0x1_0000 ==> LdDword(b, 32) == 0
    ensures LdWord(b, BPB_TOT_SEC16) == (if p.szVol < 0x1_0000 then p.szVol else 0)
    ensures (p.szVol >= 0x1_0000 ==> LdDword(b, BPB_TOT_SEC32) == p.szVol)
    ensures LdWord(b, BPB_FATSZ16) == 0 && forall k :: 0 <= k < BPB_TOT_SEC16 || 36 <= k < SS ==> b[k] == h[k]
  {
    hide StWord, StDword, LdWord, LdDword;
    b := h;
    if p.szVol < 0x1_0000 {
      b := StWord(b, BPB_TOT_SEC16, p.szVol);
      WordApart(h, b, BPB_FATSZ16, BPB_TOT_SEC16, BPB_MEDIA);
      DwordApart(h, b, 32, BPB_TOT_SEC16, BPB_MEDIA);
    } else {
      b := StDword(b, BPB_TOT_SEC32, p.szVol);
      WordApart(h, b, BPB_FATSZ16, BPB_TOT_SEC32, 36);
      WordApart(h, b, BPB_TOT_SEC16, BPB_TOT_SEC32, 36);
    }
    ghost var c := b;
    b := b[BPB_MEDIA := 0xF8];
    WordApart(c, b, BPB_FATSZ16, BPB_MEDIA, BPB_FATSZ16);
    ghost var d := b;
    b := StWord(b, BPB_SEC_PER_TRK, 63);
    ghost var e := b;
    b := StWord(b, BPB_NUM_HEADS, 255);
    ghost var f := b;
    b := StDword(b, BPB_HIDD_SEC, p.bVol);
    WordApart(e, b, 24, 26, 32);
    WordApart(f, b, 26, 28, 32);
    WordApart(d, b, BPB_FATSZ16, BPB_SEC_PER_TRK, BPB_TOT_SEC32);
    WordApart(c, b, BPB_TOT_SEC16, BPB_MEDIA, BPB_TOT_SEC32);
    DwordApart(c, b, BPB_TOT_SEC32, BPB_MEDIA, BPB_TOT_SEC32);
  }

  /** Label, file system type and signature. */
  method Sign(h: Sector, o: nat, lab: seq<byte>) returns (b: Sector)
    requires |lab| == 19 && o + 19 <= BS_55AA
    ensures LdWord(b, BS_55AA) == 0xAA55
    ensures (forall k :: 0 <= k < o || o + 19 <= k < BS_55AA ==> b[k] == h[k]) && b[o..o + 19] == lab
  {
    hide StWord, Splice;
    b := Splice(h, o, lab);
    b := StWord(b, BS_55AA, 0xAA55);
    assert b[o..o + 19] == lab;
  }

  /** The rest of a FAT32 boot sector. */
  method MakeTail32(p: Plan, h: Sector, tm: nat) returns (b: Sector)
    requires p.Sound() && p.fmt == Fat32 && LdWord(h, BPB_FATSZ16) == 0 && forall k :: 36 <= k < SS ==> h[k] == 0
    ensures SaysOwn(b, p) && LdDword(b, BS_FIL_SYS_TYPE32) == 0x33544146 && LdWord(b, BS_55AA) == 0xAA55
    ensures HasTail(b, p, tm) && forall k :: 0 <= k < 36 ==> b[k] == h[k]
  {
    hide StWord, StDword, Plan.Sound;
    PlanFacts(p);
    b := StDword(h, BS_VOL_ID32, tm);
    b := StDword(b, BPB_FATSZ32, p.szFat);
    b := StDword(b, BPB_ROOT_CLUS32, 2);
    b := StWord(b, BPB_FSINFO32, 1);
    b := StWord(b, BPB_BK_BOOT_SEC32, 6);
    b := b[BS_DRV_NUM32 := 0x80];
    b := b[BS_BOOT_SIG32 := 0x29];
    var lab: seq<byte> := NoName() + [0x46, 0x41, 0x54, 0x33, 0x32, 0x20, 0x20, 0x20];
    b := Sign(b, BS_VOL_LAB32, lab);
    assert b[82] == lab[11] && b[83] == lab[12] && b[84] == lab[13] && b[85] == lab[14];
  }

  /** The rest of a FAT12 or FAT16 boot sector. */
  method MakeTail16(p: Plan, h: Sector, tm: nat) returns (b: Sector)
    requires p.Sound() && p.fmt != Fat32 && forall k :: 36 <= k < SS ==> h[k] == 0
    ensures SaysOwn(b, p) && LdDword(b, BS_FIL_SYS_TYPE) % 0x100_0000 == 0x544146 && LdWord(b, BS_55AA) == 0xAA55
    ensures HasTail(b, p, tm)
    ensures forall k :: 0 <= k < 36 && k != BPB_FATSZ16 && k != BPB_FATSZ16 + 1 ==> b[k] == h[k]
  {
    hide StWord, StDword, Plan.Sound;
    PlanFacts(p);
    b := StDword(h, BS_VOL_ID, tm);
    b := StWord(b, BPB_FATSZ16, p.szFat);
    b := b[BS_DRV_NUM := 0x80];
    b := b[BS_BOOT_SIG := 0x29];
    var lab: seq<byte> := NoName() + [0x46, 0x41, 0x54, 0x20, 0x20, 0x20, 0x20, 0x20];
    b := Sign(b, BS_VOL_LAB, lab);
    assert b[54] == lab[11] && b[55] == lab[12] && b[56] == lab[13];
  }

  /** The boot sector of a planned volume describes it. */
  method MakeVbr(p: Plan, tm: nat) returns (b: Sector)
    requires p.Sound()
    ensures Describes(b, p) && HasHeader(b, p) && HasTail(b, p, tm)
  {
    hide HasTail;
    var h := MakeHead(p);
    if p.fmt == Fat32 {
      b := MakeTail32(p, h, tm);
    } else {
      b := MakeTail16(p, h, tm);
    }
    SameCommon(h, b, p);
  }

  lemma SameCommon(h: Sector, b: Sector, p: Plan)
    requires SaysCommon(h, p) && forall k :: 0 <= k < 36 && k != BPB_FATSZ16 && k != BPB_FATSZ16 + 1 ==> b[k] == h[k]
    ensures SaysCommon(b, p) && (HasHeader(h, p) ==> HasHeader(b, p))
  {
  }

  // ---- partition table -----------------------------------------------------------------------------

  /** The start of partition i, 0 for an unused entry. */
  function PartitionStart(s: Sector, i: nat): nat
    requires i < 4
  {
    if s[MBR_TABLE + i * SZ_PTE + PTE_SYSTEM] != 0 then LdDword(s, MBR_TABLE + i * SZ_PTE + PTE_ST_LBA) else 0
  }

  /**
   * Partition i has the 16 bytes from 446 + 16 * i on: the kind of system in the fifth, the start in the ninth to
   * twelfth.
   */
  lemma PartitionEntry(s: Sector, i: nat)
    requires i < 4
    ensures s[450 + 16 * i] == 0 ==> PartitionStart(s, i) == 0
    ensures s[450 + 16 * i] != 0 ==>
      PartitionStart(s, i) == s[454 + 16 * i] as int + 0x100 * s[455 + 16 * i] as int
                              + 0x1_0000 * s[456 + 16 * i] as int + 0x100_0000 * s[457 + 16 * i] as int
  {
  }

  /** A master boot record with one partition, which starts at start. */
  predicate Master(s: Sector, start: nat) {
    BootKind(s) == 2 && PartitionStart(s, 0) == start && forall i :: 1 <= i < 4 ==> PartitionStart(s, i) == 0
  }

  /** The first entry of the table: an inactive partition of this kind from start on, and nothing else. */
  ghost predicate OnePartition(s: Sector, sys: byte, start: nat, size: nat) {
    && s[446..452] == [0, 1, 1, 0, sys, 254] && LdDword(s, 454) == start && LdDword(s, 458) == size
    && (var n := (start + size) / 16065; s[453] as int == n % 0x100 && s[452] as int == n / 0x100 % 4 * 64 + 63)
    && s[510] == 0x55 && s[511] == 0xAA && forall k :: 0 <= k < 446 || 462 <= k < 510 ==> s[k] == 0
  }

  /** The partition table for a single partition. */
  method MakeMbr(p: Plan) returns (b: Sector)
    requires p.Sound()
    ensures Master(b, p.bVol)
    ensures OnePartition(b, if p.fmt == Fat32 then 0x0C else if p.szVol >= 0x1_0000 then 0x06
                            else if p.fmt == Fat16 then 0x04 else 0x01, p.bVol, p.szVol)
  {
    var sys: byte :=
      if p.fmt == Fat32 then 0x0C else if p.szVol >= 0x1_0000 then 0x06 else if p.fmt == Fat16 then 0x04 else 0x01;
    b := StWord(Blank(), BS_55AA, 0xAA55);
    assert p.bVol + p.szVol < TWO32;
    assert b[510] == 0x55 && b[511] == 0xAA by { LittleEndian(b, 508); }
    b := MakePartition(b, sys, p.bVol, p.szVol);
  }

  lemma LastSector(n: nat)
    ensures (n / 4 / 64 * 64 + 63) % 0x100 == n / 0x100 % 4 * 64 + 63
  {
  }

  lemma EntryStored(b: Sector, sys: byte, start: nat, size: nat)
    requires b[446] == 0 && b[447] == 1 && b[448] == 1 && b[449] == 0 && b[450] == sys != 0 && b[451] == 254
    requires var n := (start + size) / 16065; b[453] as int == n % 0x100 && b[452] as int == n / 0x100 % 4 * 64 + 63
    requires LdDword(b, 454) == start && LdDword(b, 458) == size && b[510] == 0x55 && b[511] == 0xAA
    requires forall k :: 0 <= k < 446 || 462 <= k < 510 ==> b[k] == 0
    ensures Master(b, start) && OnePartition(b, sys, start, size)
  {
    hide LdDword;
    assert b[446..452] == [b[446], b[447], b[448], b[449], b[450], b[451]];
  }

  /** Its entry in the table. */
  method MakePartition(h: Sector, sys: byte, start: nat, size: nat) returns (b: Sector)
    requires sys != 0 && start < TWO32 && forall k :: 0 <= k < BS_55AA ==> h[k] == 0
    requires size < TWO32 && h[510] == 0x55 && h[511] == 0xAA
    ensures Master(b, start) && OnePartition(b, sys, start, size)
  {
    hide StDword, BootKind, PartitionStart, LdDword, Master, OnePartition;
    b := MakeEnds(h, sys, (start + size) / (63 * 255));
    b := StDword(b, MBR_TABLE + PTE_ST_LBA, start);
    ghost var c := b;
    b := StDword(b, MBR_TABLE + PTE_SIZ_LBA, size);
    DwordApart(c, b, 454, 458, 462);
    EntryStored(b, sys, start, size);
  }

  /** Of this the kind of system, and where the partition begins and ends by cylinder n, head and sector. */
  method MakeEnds(h: Sector, sys: byte, n: nat) returns (b: Sector)
    ensures b[446] == 0 && b[447] == 1 && b[448] == 1 && b[449] == 0 && b[450] == sys && b[451] == 254
    ensures b[453] as int == n % 0x100 && b[452] as int == n / 0x100 % 4 * 64 + 63
    ensures forall k :: 0 <= k < 446 || 454 <= k < 512 ==> b[k] == h[k]
  {
    LastSector(n);
    b := h;
    b := b[MBR_TABLE + 0 := 0];
    b := b[MBR_TABLE + 1 := 1];
    b := b[MBR_TABLE + 2 := 1];
    b := b[MBR_TABLE + 3 := 0];
    b := b[MBR_TABLE + PTE_SYSTEM := sys];
    b := b[MBR_TABLE + 5 := 254];
    b := b[MBR_TABLE + 6 := (n / 4 / 64 * 64 + 63) % 0x100];
    b := b[MBR_TABLE + 7 := n % 0x100];
  }
}
