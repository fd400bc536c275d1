/**
 * Long file names: the directory entries put_lfn writes for a name, and the reader that puts the name together again
 * and ties it to the short entry that follows by a checksum.
 */
module LongName {
  import opened Bytes
  import opened Wrappers

  const MAX_LFN: nat := 255
  const LLEF: nat := 0x40
  const AM_LFN: nat := 0x0F
  const AM_MASK: nat := 0x3F
  const DDEM: nat := 0xE5
  const LDIR_ORD: nat := 0
  const LDIR_ATTR: nat := 11
  const LDIR_TYPE: nat := 12
  const LDIR_CHKSUM: nat := 13
  const LDIR_FST_CLUS_LO: nat := 26

  type Wchar = c: nat | c < 0x1_0000
  type Entry = s: seq<byte> | |s| == 32 witness seq(32, _ => 0)

  /** Where the 13 characters of an entry are. */
  function LfnOfs(s: nat): (o: nat)
    requires s < 13
    ensures o + 2 <= 32 && (o >= 14 || o + 2 <= 11) && o != 26 && o != 25
    ensures forall t :: 0 <= t < s ==> LfnOfs(t) + 2 <= o
  {
    if s < 5 then 1 + 2 * s else if s < 11 then 14 + 2 * (s - 5) else 28 + 2 * (s - 11)
  }

  /** Where the thirteen units of an entry lie. */
  lemma LfnPlaces(s: nat)
    requires s < 13
    ensures LfnOfs(s) == [1, 3, 5, 7, 9, 14, 16, 18, 20, 22, 24, 28, 30][s]
  {
  }

  /** A name that can be stored: one to 255 units, none of them the terminator or the filler. */
  predicate Storable(name: seq<Wchar>) {
    1 <= |name| <= MAX_LFN && forall i :: 0 <= i < |name| ==> name[i] != 0 && name[i] != 0xFFFF
  }

  /** How many entries a name of n units takes. */
  function Entries(n: nat): nat { (n + 12) / 13 }

  /** As many entries as there are thirteens begun. */
  lemma JustEnough(n: nat)
    ensures 13 * (Entries(n) - 1) < n <= 13 * Entries(n) || n == Entries(n) == 0
  {
  }

  /** The units from a place of the name on: the name, a terminator, and filler. */
  function Unit(name: seq<Wchar>, i: nat): Wchar {
    if i < |name| then name[i] else if i == |name| then 0 else 0xFFFF
  }

  /** The k-th entry of the name for a short entry with checksum sum. */
  predicate Holds(dir: seq<byte>, name: seq<Wchar>, k: nat, sum: byte)
    requires |dir| == 32 && k >= 1
  {
    && dir[0] as int == k + (if k == Entries(|name|) then 0x40 else 0)
    && dir[11] == 0x0F && dir[12] == 0 && dir[13] == sum && LdWord(dir, 26) == 0
    && forall s {:trigger LfnOfs(s)} :: 0 <= s < 13 ==> LdWord(dir, LfnOfs(s)) == Unit(name, (k - 1) * 13 + s)
  }

  /** The buffer holds the name with its terminator. */
  predicate Buffered(buf: seq<Wchar>, name: seq<Wchar>) {
    |buf| == MAX_LFN + 1 && |name| <= MAX_LFN && buf[..|name|] == name && buf[|name|] == 0
  }

  /** put_lfn. */
  method PutLfn(lfn: array<Wchar>, dir: array<byte>, ord0: nat, sum: byte, ghost name: seq<Wchar>)
    requires dir.Length == 32 && Storable(name) && Buffered(lfn[..], name) && 1 <= ord0 <= Entries(|name|)
    modifies dir
    ensures Holds(dir[..], name, ord0, sum)
  {
    hide LdWord, LfnOfs;
    var ord := ord0;
    dir[LDIR_CHKSUM] := sum;
    dir[LDIR_ATTR] := AM_LFN;
    dir[LDIR_TYPE] := 0;
    PutWord(dir, LDIR_FST_CLUS_LO, 0);
    var i, s, wc: Wchar := (ord - 1) * 13, 0, 0;
    ghost var start := i;
    while s < 13
      invariant s <= 13 && start <= i && i <= start + s
      invariant s > 0 && wc != 0xFFFF ==> i == start + s && i <= |name|
      invariant s > 0 && wc == 0xFFFF ==> start + s > |name|
      invariant s == 0 ==> wc == 0 && i == start
      invariant forall t {:trigger LfnOfs(t)} :: 0 <= t < s ==> LdWord(dir[..], LfnOfs(t)) == Unit(name, start + t)
      invariant dir[LDIR_ATTR] == AM_LFN && dir[LDIR_TYPE] == 0 && dir[LDIR_CHKSUM] == sum
      invariant LdWord(dir[..], LDIR_FST_CLUS_LO) == 0
    {
      if wc != 0xFFFF {
        wc := lfn[i];
        i := i + 1;
      }
      StoreUnit(dir, s, wc);
      if wc == 0 { wc := 0xFFFF; }
      s := s + 1;
    }
    if wc == 0xFFFF || lfn[i] == 0 { ord := ord + LLEF; }
    StoreOrder(dir, ord);
  }

  /** The s-th unit goes to its place; what was stored before stays. */
  method StoreUnit(dir: array<byte>, s: nat, wc: Wchar)
    requires dir.Length == 32 && s < 13
    modifies dir
    ensures forall t {:trigger LfnOfs(t)} :: 0 <= t < s ==>
      LdWord(dir[..], LfnOfs(t)) == old(LdWord(dir[..], LfnOfs(t)))
    ensures LdWord(dir[..], LfnOfs(s)) == wc
    ensures LdWord(dir[..], LDIR_FST_CLUS_LO) == old(LdWord(dir[..], LDIR_FST_CLUS_LO))
    ensures dir[LDIR_ATTR] == old(dir[LDIR_ATTR]) && dir[LDIR_TYPE] == old(dir[LDIR_TYPE])
    ensures dir[LDIR_CHKSUM] == old(dir[LDIR_CHKSUM])
  {
    ghost var was := dir[..];
    PutWord(dir, LfnOfs(s), wc);
    KeepUnits(was, dir[..], s);
  }

  /** So does the order, in the first byte. */
  method StoreOrder(dir: array<byte>, ord: byte)
    requires dir.Length == 32
    modifies dir
    ensures dir[LDIR_ORD] == ord && forall k :: 0 < k < 32 ==> dir[k] == old(dir[k])
    ensures forall t {:trigger LfnOfs(t)} :: 0 <= t < 13 ==>
      LdWord(dir[..], LfnOfs(t)) == old(LdWord(dir[..], LfnOfs(t)))
    ensures LdWord(dir[..], LDIR_FST_CLUS_LO) == old(LdWord(dir[..], LDIR_FST_CLUS_LO))
  {
    dir[LDIR_ORD] := ord;
  }

  lemma KeepUnits(v: seq<byte>, w: seq<byte>, s: nat)
    requires |v| == 32 == |w| && s < 13 && forall k :: 0 <= k < 32 && !(LfnOfs(s) <= k < LfnOfs(s) + 2) ==> w[k] == v[k]
    ensures forall t {:trigger LfnOfs(t)} :: 0 <= t < s ==> LdWord(w, LfnOfs(t)) == LdWord(v, LfnOfs(t))
    ensures w[LDIR_ATTR] == v[LDIR_ATTR] && w[LDIR_TYPE] == v[LDIR_TYPE] && w[LDIR_CHKSUM] == v[LDIR_CHKSUM]
    ensures LdWord(w, LDIR_FST_CLUS_LO) == LdWord(v, LDIR_FST_CLUS_LO)
  {
    hide LdWord;
    forall t | 0 <= t < s ensures LdWord(w, LfnOfs(t)) == LdWord(v, LfnOfs(t)) {
      WordApart(v, w, LfnOfs(t), LfnOfs(s), LfnOfs(s) + 2);
    }
    WordApart(v, w, LDIR_FST_CLUS_LO, LfnOfs(s), LfnOfs(s) + 2);
  }

  /** The last entry of a name must leave room for the terminator within 255 units, and for a unit after it. */
  predicate Fits(name: seq<Wchar>) { |name| <= 253 }

  // ---- one entry of a long name ----------------------------------------------------------------------

  function UnitAt(dir: Entry, s: nat): Wchar
    requires s < 13
  {
    LdWord(dir, LfnOfs(s))
  }

  /** The name ends before unit s of the entry. */
  predicate Ended(dir: Entry, s: nat)
    requires s <= 13
  {
    s > 0 && (Ended(dir, s - 1) || UnitAt(dir, s - 1) == 0)
  }

  /** How many of the first s units are the name's, with its terminator. */
  function Units(dir: Entry, s: nat): (n: nat)
    requires s <= 13
    ensures n <= s && (!Ended(dir, s) ==> n == s)
  {
    if s == 0 then 0 else Units(dir, s - 1) + if Ended(dir, s - 1) then 0 else 1
  }

  predicate LastFlag(e: Entry) { e[LDIR_ORD] as int / LLEF % 2 == 1 }

  /** The number of the entry, without the flag. */
  function Order(e: Entry): (n: nat)
    ensures n < 0xC0
  {
    if LastFlag(e) then e[LDIR_ORD] as int - LLEF else e[LDIR_ORD]
  }

  /** Where the units of the entry belong. */
  function PartStart(e: Entry): int { (Order(e) - 1) * 13 }

  /** Unit s of the entry is filler behind the end of the name, or has room. */
  predicate UnitRoom(dir: Entry, s: nat)
    requires s < 13
  {
    if Ended(dir, s) then UnitAt(dir, s) == 0xFFFF else PartStart(dir) + s < MAX_LFN
  }

  /**
   * The part of a name in an entry can be taken over: the entry has a number, each unit has room or is filler behind
   * the end, and behind the last part there is room for a terminator.
   */
  predicate Pickable(dir: Entry) {
    && LdWord(dir, 26) == 0 && PartStart(dir) >= 0 && (forall s :: 0 <= s < 13 ==> UnitRoom(dir, s))
    && (LastFlag(dir) ==> PartStart(dir) + Units(dir, 13) < MAX_LFN)
  }

  /** The buffer has unit s of the entry in its place. */
  predicate UnitThere(buf: seq<Wchar>, dir: Entry, s: nat)
    requires s < 13
  {
    !Ended(dir, s) ==> 0 <= PartStart(dir) + s < |buf| && buf[PartStart(dir) + s] == UnitAt(dir, s)
  }

  /** It has the whole part, and a terminator behind the last one. */
  predicate Picked(buf: seq<Wchar>, dir: Entry) {
    && (forall s :: 0 <= s < 13 ==> UnitThere(buf, dir, s))
    && (LastFlag(dir) ==> 0 <= PartStart(dir) + Units(dir, 13) < |buf| && buf[PartStart(dir) + Units(dir, 13)] == 0)
  }

  /** pick_lfn: the part goes to its place in the buffer, which otherwise stays, exactly if it can be taken over. */
  method PickLfn(lfnbuf: array<Wchar>, dir: Entry) returns (ok: bool)
    requires lfnbuf.Length == MAX_LFN + 1
    modifies lfnbuf
    ensures ok <==> Pickable(dir)
    ensures ok ==> Picked(lfnbuf[..], dir)
    ensures ok ==> forall j ::
      0 <= j <= MAX_LFN && (j < PartStart(dir) || (j >= PartStart(dir) + 13 && !LastFlag(dir))) ==>
        lfnbuf[j] == old(lfnbuf[j])
  {
    hide UnitAt;
    if LdWord(dir, LDIR_FST_CLUS_LO) != 0 { return false; }
    var ord: nat := dir[LDIR_ORD];
    var last := ord / LLEF % 2 == 1;
    var i: int := ((if last then ord - LLEF else ord) - 1) * 13;
    if i < 0 { return false; }  // the source computes a huge unsigned offset here and takes the overflow exit
    ghost var start: nat := i;
    ghost var was := lfnbuf[..];
    var wc: Wchar, s := 1, 0;
    while s < 13
      invariant s <= 13 && (wc == 0 <==> Ended(dir, s)) && i == start + Units(dir, s)
      invariant s > 0 ==> i <= MAX_LFN
      invariant forall t :: 0 <= t < s ==> UnitRoom(dir, t)
      invariant forall t :: 0 <= t < s ==> UnitThere(lfnbuf[..], dir, t)
      invariant forall j :: 0 <= j <= MAX_LFN && !(start <= j < i) ==> lfnbuf[j] == was[j]
    {
      ghost var mid := lfnbuf[..];
      var uc := UnitAt(dir, s);
      if wc != 0 {
        if i >= MAX_LFN {
          assert !UnitRoom(dir, s);
          return false;
        }
        wc := uc;
        lfnbuf[i] := uc;
        i := i + 1;
      } else if uc != 0xFFFF {
        assert !UnitRoom(dir, s);
        return false;
      }
      Keeps(mid, lfnbuf[..], dir, s);
      s := s + 1;
    }
    if last {
      if i >= MAX_LFN { return false; }
      ghost var mid := lfnbuf[..];
      lfnbuf[i] := 0;
      Keeps(mid, lfnbuf[..], dir, 13);
    }
    return true;
  }

  /** A unit that is the name's comes before the end of those. */
  lemma {:induction false} UnitsAhead(dir: Entry, t: nat, s: nat)
    requires t < s <= 13 && !Ended(dir, t)
    ensures t < Units(dir, s)
  {
    if t + 1 < s { UnitsAhead(dir, t, s - 1); }
  }

  /** What follows the units stored so far does not disturb them. */
  lemma Keeps(was: seq<Wchar>, buf: seq<Wchar>, dir: Entry, s: nat)
    requires s <= 13 && PartStart(dir) >= 0 && |was| == |buf|
    requires forall j :: 0 <= j < |buf| && j != PartStart(dir) + Units(dir, s) ==> buf[j] == was[j]
    requires forall t :: 0 <= t < s ==> UnitThere(was, dir, t)
    ensures forall t :: 0 <= t < s ==> UnitThere(buf, dir, t)
  {
    hide UnitAt, Ended, Units;
    forall t | 0 <= t < s ensures UnitThere(buf, dir, t) {
      assert UnitThere(was, dir, t);
      if !Ended(dir, t) { UnitsAhead(dir, t, s); }
    }
  }

  // ---- the checksum that ties long entries to a short one --------------------------------------------

  /** One step of sum_sfn: rotate right, add. */
  function SumStep(sum: byte, b: byte): byte {
    (sum / 2 + sum * 128 + b) % 256
  }

  function SumOf(s: seq<byte>): byte {
    if s == [] then 0 else SumStep(SumOf(s[..|s| - 1]), s[|s| - 1])
  }

  /** sum_sfn. */
  method SumSfn(dir: Entry) returns (sum: byte)
    ensures sum == SumOf(dir[..11])
  {
    sum := 0;
    var n := 0;
    while n < 11
      invariant n <= 11 && sum == SumOf(dir[..n])
    {
      assert dir[..n + 1][..n] == dir[..n];
      sum := SumStep(sum, dir[n]);
      n := n + 1;
    }
  }

  /** The register starts at zero, and each byte is added to what was there, rotated right by one bit. */
  lemma SumByBytes(s: seq<byte>, b: byte)
    ensures SumOf([]) == 0 && SumOf([b]) == b
    ensures SumOf(s + [b]) == ((SumOf(s) as int / 2 + SumOf(s) as int % 2 * 0x80) + b) % 0x100
  {
    hide SumStep;
    assert (s + [b])[..|s|] == s && [b][..0] == [];
    Rotates(SumOf(s), b);
    Rotates(0, b);
  }

  /** Different running sums stay different, and different bytes make them so. */
  lemma StepInjective(s: byte, t: byte, a: byte, b: byte)
    requires (s == t) != (a == b)
    ensures SumStep(s, a) != SumStep(t, b)
  {
    Rotates(s, a);
    Rotates(t, b);
    Differ(Rotated(s) + a, Rotated(t) + b);
  }

  function Rotated(s: byte): (r: int)
    ensures 0 <= r < 256 && s as int == r % 128 * 2 + r / 128
  {
    s as int / 2 + s as int % 2 * 128
  }

  lemma Rotates(s: byte, b: byte)
    ensures SumStep(s, b) as int == (Rotated(s) + b) % 256
  {
    var h, l := s as int / 2, s as int % 2;
    assert s as int / 2 + s as int * 128 + b == 256 * h + (Rotated(s) + b);
    Cycle(h, Rotated(s) + b);
  }

  lemma Cycle(h: nat, x: nat)
    ensures (256 * h + x) % 256 == x % 256
  {
  }

  lemma Differ(x: nat, y: nat)
    requires x != y && x < y + 256 && y < x + 256
    ensures x % 256 != y % 256
  {
  }

  /**
   * Two short names that differ in exactly one byte never have the same checksum: long entries are not tied to such a
   * neighbour.
   */
  lemma {:induction false} ChecksumSeesOneByte(a: seq<byte>, b: seq<byte>, i: nat)
    requires |a| == |b| && i < |a| && a[i] != b[i] && forall j :: 0 <= j < |a| && j != i ==> a[j] == b[j]
    ensures SumOf(a) != SumOf(b)
  {
    var n := |a| - 1;
    if i == n {
      assert a[..n] == b[..n];
      StepInjective(SumOf(a[..n]), SumOf(b[..n]), a[n], b[n]);
    } else {
      ChecksumSeesOneByte(a[..n], b[..n], i);
      StepInjective(SumOf(a[..n]), SumOf(b[..n]), a[n], b[n]);
    }
  }

  // ---- reading a directory ---------------------------------------------------------------------------

  /** The attribute byte without the archive bit is that of a volume label. */
  predicate Label(a: nat) {
    (if a / 0x20 % 2 == 1 then a - 0x20 else a) == 0x08
  }

  /** A short entry in use. */
  predicate Short(e: Entry) {
    var a := e[LDIR_ATTR] as int % (AM_MASK + 1);
    e[0] != 0 && e[0] as int != DDEM && e[0] != 0x2E && !Label(a) && a != AM_LFN
  }

  /** Free, erased and dot entries are no short entries, nor are volume labels and the parts of long names. */
  lemma ShortMeans(e: Entry)
    ensures Short(e) <==>
            e[0] as int !in {0, 0xE5, 0x2E} && e[11] as int % 64 != 0x0F && e[11] as int % 64 % 32 != 8
  {
  }

  /** The entries of a name, last part first, and the short entry behind them. */
  predicate Stored(dirs: seq<Entry>, q: nat, name: seq<Wchar>, sum: byte) {
    && q + Entries(|name|) < |dirs| && Short(dirs[q + Entries(|name|)])
    && forall i :: q <= i < q + Entries(|name|) ==> Holds(dirs[i], name, q + Entries(|name|) - i, sum)
  }

  // ---- the entries of one name in a row --------------------------------------------------------------

  /** A used entry of a long name. */
  predicate IsLong(e: Entry) {
    e[0] != 0 && e[0] as int != 0xE5 && e[11] as int % 64 == 0x0F
  }

  /**
   * The entries from b up to at are the first ones of a long name: numbered downwards, with one checksum, and all fit
   * what they are read for.
   */
  ghost predicate Begun(fit: iset<Entry>, dirs: seq<Entry>, b: nat, at: nat, sum: byte) {
    && b < at <= |dirs| && LastFlag(dirs[b]) && Order(dirs[b]) >= at - b
    && forall j :: b <= j < at ==> Next(fit, dirs, b, j, sum)
  }

  ghost predicate Next(fit: iset<Entry>, dirs: seq<Entry>, b: nat, j: nat, sum: byte)
    requires b <= j < |dirs|
  {
    && IsLong(dirs[j]) && (LastFlag(dirs[j]) ==> j == b) && Order(dirs[j]) == Order(dirs[b]) - (j - b)
    && dirs[j][LDIR_CHKSUM] == sum && dirs[j] in fit
  }

  /** The entries in front of e are those of a long name that fits, all of them, and belong to it. */
  ghost predicate NameBefore(fit: iset<Entry>, dirs: seq<Entry>, e: nat)
    requires e < |dirs|
  {
    exists b: nat :: Begun(fit, dirs, b, e, SumOf(dirs[e][..11])) && Order(dirs[b]) == e - b
  }

  /** What has been gathered from the entries before at: the first of a name, if some fit, and what has to follow. */
  ghost predicate Gathered(fit: iset<Entry>, dirs: seq<Entry>, at: nat, ord: byte, sum: byte, b: Option<nat>) {
    match b
    case Some(from) => Begun(fit, dirs, from, at, sum) && ord as int == Order(dirs[from]) - (at - from)
    case None => ord == 0xFF && forall c: nat, s :: !Begun(fit, dirs, c, at, s)
  }

  /** A sequence of entries has only one beginning. */
  lemma OneBeginning(fit: iset<Entry>, dirs: seq<Entry>, b: nat, c: nat, at: nat, s: byte, t: byte)
    requires Begun(fit, dirs, b, at, s) && Begun(fit, dirs, c, at, t)
    ensures b == c && s == t
  {
    hide Begun, LastFlag;
    OnlyFirst(fit, dirs, b, at, s);
    OnlyFirst(fit, dirs, c, at, t);
  }

  lemma OnlyFirst(fit: iset<Entry>, dirs: seq<Entry>, b: nat, at: nat, s: byte)
    requires Begun(fit, dirs, b, at, s)
    ensures b < at <= |dirs| && dirs[b][LDIR_CHKSUM] == s
    ensures forall j :: b <= j < at ==> (LastFlag(dirs[j]) <==> j == b)
  {
    hide LastFlag, Order;
    forall j | b <= j < at ensures LastFlag(dirs[j]) ==> j == b { assert Next(fit, dirs, b, j, s); }
    assert Next(fit, dirs, b, b, s);
  }

  lemma BegunBefore(fit: iset<Entry>, dirs: seq<Entry>, b: nat, at: nat, s: byte)
    requires Begun(fit, dirs, b, at + 1, s)
    ensures Next(fit, dirs, b, at, s) && (b < at ==> Begun(fit, dirs, b, at, s))
  {
    hide Next;
  }

  /** What fits has a number. */
  ghost predicate Numbered(fit: iset<Entry>) { forall e :: e in fit ==> Order(e) >= 1 }

  /** The entry goes on with what was gathered, or begins anew. */
  ghost predicate Joins(fit: iset<Entry>, e: Entry, ord: byte, sum: byte) {
    (LastFlag(e) || (Order(e) == ord as int && sum == e[LDIR_CHKSUM])) && e in fit
  }

  /** The entry at at, which is one of a long name, joins what was gathered, begins anew or ends it. */
  lemma GatherLong(fit: iset<Entry>, dirs: seq<Entry>, at: nat, ord: byte, sum: byte, b: Option<nat>)
    requires Numbered(fit) && Gathered(fit, dirs, at, ord, sum, b) && at < |dirs| && IsLong(dirs[at])
    ensures var e, same := dirs[at], Joins(fit, dirs[at], ord, sum);
            && (!same ==> Gathered(fit, dirs, at + 1, 0xFF, sum, None))
            && (!same ==> Gathered(fit, dirs, at + 1, 0xFF, e[LDIR_CHKSUM], None))
            && (same && LastFlag(e) ==>
              Order(e) >= 1 && Gathered(fit, dirs, at + 1, Order(e) - 1, e[LDIR_CHKSUM], Some(at)))
            && (same && !LastFlag(e) ==> ord >= 1 && Gathered(fit, dirs, at + 1, ord - 1, sum, b))
  {
    hide Numbered;
    if Joins(fit, dirs[at], ord, sum) {
      HasNumber(fit, dirs[at]);
      if !LastFlag(dirs[at]) {
        assert b.Some?;
        assert Next(fit, dirs, b.value, at, sum);
      }
    } else {
      var nx := at + 1;
      forall c: nat, s: byte ensures !Begun(fit, dirs, c, nx, s) {
        if Begun(fit, dirs, c, nx, s) {
          BegunBefore(fit, dirs, c, at, s);
          if c < at && b.Some? { OneBeginning(fit, dirs, b.value, c, at, sum, s); }
        }
      }
    }
  }

  lemma HasNumber(fit: iset<Entry>, e: Entry)
    requires Numbered(fit) && e in fit
    ensures Order(e) >= 1
  {
  }

  lemma NothingGathered(fit: iset<Entry>, dirs: seq<Entry>, sum: byte)
    ensures Gathered(fit, dirs, 0, 0xFF, sum, None)
  {
  }

  /** Any other entry ends it. */
  lemma GatherOther(fit: iset<Entry>, dirs: seq<Entry>, at: nat, sum: byte)
    requires at < |dirs| && !IsLong(dirs[at])
    ensures Gathered(fit, dirs, at + 1, 0xFF, sum, None)
  {
    var nx := at + 1;
    forall c: nat, s: byte ensures !Begun(fit, dirs, c, nx, s) {
      if Begun(fit, dirs, c, nx, s) { BegunBefore(fit, dirs, c, at, s); }
    }
  }

  /**
   * A long name is complete in front of a short entry exactly if the count has come down to 0 and the checksum fits.
   */
  lemma NameComplete(fit: iset<Entry>, dirs: seq<Entry>, at: nat, ord: byte, sum: byte, b: Option<nat>)
    requires Gathered(fit, dirs, at, ord, sum, b) && at < |dirs|
    ensures NameBefore(fit, dirs, at) <==> ord == 0 && sum == SumOf(dirs[at][..11])
  {
    hide SumOf, Next;
    var own := SumOf(dirs[at][..11]);
    if NameBefore(fit, dirs, at) {
      var c: nat :| Begun(fit, dirs, c, at, own) && Order(dirs[c]) == at - c;
      if b.Some? { OneBeginning(fit, dirs, b.value, c, at, sum, own); }
    }
  }

  // ---- reading a directory ---------------------------------------------------------------------------

  /** The entries dir_read takes over; one that begins like a dot entry is none of them. */
  ghost function Picking(): iset<Entry> { iset e: Entry | Pickable(e) && e[0] != 0x2E }

  lemma PickingNumbered()
    ensures Numbered(Picking())
  {
  }

  /** The parts in the entries from b up to at are in the buffer. */
  ghost predicate AllPicked(buf: seq<Wchar>, dirs: seq<Entry>, b: Option<nat>, at: nat) {
    b.Some? ==> forall j :: b.value <= j < at && j < |dirs| ==> Picked(buf, dirs[j])
  }

  /**
   * dir_read, on the entries from where it stands: the next short entry, and whether a long name belongs to it. That is
   * so exactly if its entries come right before, all of them, with the short name's checksum, and all can be taken
   * over; then the buffer has all parts of the name.
   */
  method DirRead(dirs: seq<Entry>, lfnbuf: array<Wchar>) returns (found: bool, at: nat, named: bool)
    requires lfnbuf.Length == MAX_LFN + 1
    modifies lfnbuf
    ensures forall j :: 0 <= j < at && j < |dirs| ==> dirs[j][0] != 0 && !Short(dirs[j])
    ensures found ==> at < |dirs| && Short(dirs[at])
    ensures !found ==> !named && (at < |dirs| ==> dirs[at][0] == 0)
    ensures found ==> (named <==> NameBefore(Picking(), dirs, at))
    ensures named ==>
      forall b: nat :: Begun(Picking(), dirs, b, at, SumOf(dirs[at][..11])) ==> AllPicked(lfnbuf[..], dirs, Some(b), at)
  {
    hide SumOf, Begun, NameBefore, Gathered, Picking, AllPicked, Numbered, IsLong, Pickable;
    PickingNumbered();
    var ord, sum: byte := 0xFF, 0xFF;
    at, named := 0, false;
    ghost var fit, b := Picking(), None;
    NothingGathered(fit, dirs, sum);
    NonePicked(lfnbuf[..], dirs, 0);
    while at < |dirs|
      invariant forall j :: 0 <= j < at && j < |dirs| ==> dirs[j][0] != 0 && !Short(dirs[j])
      invariant at <= |dirs| && Gathered(fit, dirs, at, ord, sum, b) && AllPicked(lfnbuf[..], dirs, b, at) && !named
    {
      var e := dirs[at];
      var c: nat := e[0];
      if c == 0 { return false, at, false; }
      var a := e[LDIR_ATTR] as int % (AM_MASK + 1);
      EntryKind(e);
      if c == DDEM || c == 0x2E || Label(a) {
        if IsLong(e) { GatherLong(fit, dirs, at, ord, sum, b); } else { GatherOther(fit, dirs, at, sum); }
        ord, b := 0xFF, None;
        NonePicked(lfnbuf[..], dirs, at + 1);
      } else if a == AM_LFN {
        GatherLong(fit, dirs, at, ord, sum, b);
        ghost var was, o, s := lfnbuf[..], ord, sum;
        ord, sum := FeedLfn(e, ord, sum, lfnbuf);
        b := if !Joins(fit, e, o, s) then None else if LastFlag(e) then Some(at) else b;
        PickedMore(was, lfnbuf[..], dirs, at, o, s, b);
      } else {
        NameComplete(fit, dirs, at, ord, sum, b);
        var own := SumSfn(e);
        named := !(ord != 0 || sum != own);
        if named { RunPicked(lfnbuf[..], dirs, at, ord, sum, b); }
        return true, at, named;
      }
      at := at + 1;
    }
    return false, at, false;
  }

  lemma NonePicked(buf: seq<Wchar>, dirs: seq<Entry>, at: nat)
    ensures AllPicked(buf, dirs, None, at)
  {
  }

  /** Which way dir_read takes with a used entry. */
  lemma EntryKind(e: Entry)
    requires e[0] != 0
    ensures var a := e[11] as int % 64;
            if e[0] as int == 0xE5 || e[0] == 0x2E || Label(a) then
              !Short(e) && (IsLong(e) ==> e !in Picking())
            else if a == 0x0F then !Short(e) && IsLong(e) && (e in Picking() <==> Pickable(e)) else Short(e)
  {
    hide Pickable;
  }

  /** The run that was gathered is the only one. */
  lemma RunPicked(buf: seq<Wchar>, dirs: seq<Entry>, at: nat, ord: byte, sum: byte, b: Option<nat>)
    requires Gathered(Picking(), dirs, at, ord, sum, b) && AllPicked(buf, dirs, b, at)
    ensures forall c: nat, s :: Begun(Picking(), dirs, c, at, s) ==> AllPicked(buf, dirs, Some(c), at)
  {
    hide Begun, Picking, AllPicked;
    forall c: nat, s | Begun(Picking(), dirs, c, at, s) ensures AllPicked(buf, dirs, Some(c), at) {
      if b.Some? { OneBeginning(Picking(), dirs, b.value, c, at, sum, s); }
    }
  }

  /** What dir_read does with a long entry. */
  method FeedLfn(e: Entry, ord0: byte, sum0: byte, lfnbuf: array<Wchar>) returns (ord: byte, sum: byte)
    requires lfnbuf.Length == MAX_LFN + 1 && e[0] != 0x2E
    modifies lfnbuf
    ensures sum == if LastFlag(e) then e[LDIR_CHKSUM] else sum0
    ensures if Joins(Picking(), e, ord0, sum0) then
              && Order(e) >= 1 && ord as int == Order(e) - 1 && Picked(lfnbuf[..], e)
              && Apart(old(lfnbuf[..]), lfnbuf[..], e)
            else ord == 0xFF
  {
    hide Pickable, Picked;
    ord, sum := ord0, sum0;
    var c: byte := e[LDIR_ORD];
    if c as int / LLEF % 2 == 1 {
      sum := e[LDIR_CHKSUM];
      c := c - LLEF;
      ord := c;
    }
    if c == ord && sum == e[LDIR_CHKSUM] {
      var ok := PickLfn(lfnbuf, e);
      if ok { PickableNumbered(e); }
      ord := if ok then (if ord == 0 then 0xFF else ord - 1) else 0xFF;
    } else {
      ord := 0xFF;
    }
  }

  lemma PickableNumbered(e: Entry)
    requires Pickable(e)
    ensures Order(e) >= 1
  {
    hide Order;
  }

  /** Taking over an entry's part has left the buffer behind it alone, unless it was the last part. */
  ghost predicate Apart(was: seq<Wchar>, buf: seq<Wchar>, e: Entry) {
    && |buf| == |was| == MAX_LFN + 1
    && (!LastFlag(e) ==> forall j :: 0 <= j <= MAX_LFN && j >= PartStart(e) + 13 ==> buf[j] == was[j])
  }

  /** With it the parts from b on are in the buffer. */
  lemma PickedMore(was: seq<Wchar>, buf: seq<Wchar>, dirs: seq<Entry>, at: nat, ord: byte, sum: byte, b: Option<nat>)
    requires at < |dirs|
    requires b.Some? ==>
      && Joins(Picking(), dirs[at], ord, sum) && Picked(buf, dirs[at]) && Apart(was, buf, dirs[at])
      && (LastFlag(dirs[at]) ==> b == Some(at))
      && (!LastFlag(dirs[at]) ==>
        Gathered(Picking(), dirs, at, ord, sum, b) && AllPicked(was, dirs, b, at))
    ensures AllPicked(buf, dirs, b, at + 1)
  {
    hide Picked, Picking, LastFlag;
    if b.Some? && !LastFlag(dirs[at]) {
      forall j | b.value <= j < at ensures Picked(buf, dirs[j]) {
        assert Next(Picking(), dirs, b.value, j, sum);
        StillPicked(was, buf, dirs[j], dirs[at]);
      }
    }
  }

  /** Parts further back stay. */
  lemma StillPicked(was: seq<Wchar>, buf: seq<Wchar>, d: Entry, e: Entry)
    requires Picked(was, d) && Apart(was, buf, e) && !LastFlag(e) && Order(d) > Order(e)
    ensures Picked(buf, d)
  {
    hide Ended, Units, LastFlag, Order, UnitAt;
    assert PartStart(d) >= PartStart(e) + 13;
    forall s | 0 <= s < 13 ensures UnitThere(buf, d, s) { assert UnitThere(was, d, s); }
  }

  // ---- a stored name is read back --------------------------------------------------------------------

  /** What the k-th entry of a name is. */
  lemma OrderOfPart(dir: Entry, name: seq<Wchar>, k: nat, sum: byte)
    requires Storable(name) && 1 <= k <= Entries(|name|) && Holds(dir, name, k, sum)
    ensures dir[LDIR_ORD] as int % LLEF == k && (LastFlag(dir) <==> k == Entries(|name|)) && Order(dir) == k
    ensures LdWord(dir, LDIR_FST_CLUS_LO) == 0 && IsLong(dir) && dir[LDIR_CHKSUM] == sum && dir[0] != 0x2E
    ensures (k == Entries(|name|) && k * 13 <= |name| <==> k * 13 == |name|) && (k - 1) * 13 < |name|
    ensures k < Entries(|name|) ==> k * 13 < |name|
  {
  }

  lemma UnitOfPart(dir: Entry, name: seq<Wchar>, k: nat, sum: byte, s: nat)
    requires Storable(name) && 1 <= k <= Entries(|name|) && Holds(dir, name, k, sum) && s < 13
    ensures UnitAt(dir, s) == Unit(name, (k - 1) * 13 + s)
    ensures (k - 1) * 13 + s > |name| ==> UnitAt(dir, s) == 0xFFFF
  {
  }

  /** Units of the name that an entry does not have, terminator included, are those in front of it. */
  lemma EndedStored(dir: Entry, name: seq<Wchar>, k: nat, sum: byte, s: nat)
    requires Storable(name) && 1 <= k <= Entries(|name|) && Holds(dir, name, k, sum) && s <= 13
    ensures Ended(dir, s) <==> (k - 1) * 13 + s > |name|
    ensures Units(dir, s) == if (k - 1) * 13 + s <= |name| + 1 then s else |name| + 1 - (k - 1) * 13
  {
    hide Holds, UnitAt;
    if s == 0 {
      assert (k - 1) * 13 < |name|;
    } else {
      EndedStored(dir, name, k, sum, s - 1);
      UnitOfPart(dir, name, k, sum, s - 1);
    }
  }

  /** It can be taken over unless it is the last of a name that does not fit. */
  lemma StoredPickable(dir: Entry, name: seq<Wchar>, k: nat, sum: byte)
    requires Storable(name) && 1 <= k <= Entries(|name|) && Holds(dir, name, k, sum)
    ensures Pickable(dir) <==> k < Entries(|name|) || Fits(name)
  {
    hide Holds, UnitAt, Ended, Units, LdWord, LastFlag, Order;
    OrderOfPart(dir, name, k, sum);
    EndedStored(dir, name, k, sum, 13);
    forall s | 0 <= s < 13 ensures UnitRoom(dir, s) <==> (k - 1) * 13 + s > |name| || (k - 1) * 13 + s < MAX_LFN {
      EndedStored(dir, name, k, sum, s);
      UnitOfPart(dir, name, k, sum, s);
    }
  }

  /** The next used entries are those of the name; unused and stray long ones may come before. */
  predicate Ahead(dirs: seq<Entry>, q: nat, name: seq<Wchar>, sum: byte) {
    && Storable(name) && Stored(dirs, q, name, sum)
    && forall j :: 0 <= j < q ==> !Short(dirs[j]) && dirs[j][0] != 0
  }

  /** So the next short entry is the one behind them. */
  lemma ShortAhead(dirs: seq<Entry>, q: nat, name: seq<Wchar>, sum: byte, at: nat)
    requires Ahead(dirs, q, name, sum)
    requires forall j :: 0 <= j < at && j < |dirs| ==> dirs[j][0] != 0 && !Short(dirs[j])
    requires at < |dirs| ==> Short(dirs[at]) || dirs[at][0] == 0
    ensures at == q + Entries(|name|) && at < |dirs| && Short(dirs[at])
  {
    hide Short, Holds;
    var e := q + Entries(|name|);
    forall j | q <= j < e ensures !Short(dirs[j]) && dirs[j][0] != 0 {
      OrderOfPart(dirs[j], name, e - j, sum);
      LongNotShort(dirs[j]);
    }
    ShortUsed(dirs[e]);
    assert forall j :: 0 <= j < e ==> dirs[j][0] != 0 && !Short(dirs[j]);
  }

  lemma LongNotShort(e: Entry)
    requires IsLong(e)
    ensures !Short(e) && e[0] != 0
  {
  }

  lemma ShortUsed(e: Entry)
    requires Short(e)
    ensures e[0] != 0
  {
  }

  /** The name belongs to it exactly if it fits, and the checksum is that of the short name. */
  lemma StoredIsRead(dirs: seq<Entry>, q: nat, name: seq<Wchar>, sum: byte)
    requires Storable(name) && Stored(dirs, q, name, sum)
    ensures NameBefore(Picking(), dirs, q + Entries(|name|)) <==>
            Fits(name) && SumOf(dirs[q + Entries(|name|)][..11]) == sum
    ensures NameBefore(Picking(), dirs, q + Entries(|name|)) ==>
      Begun(Picking(), dirs, q, q + Entries(|name|), SumOf(dirs[q + Entries(|name|)][..11]))
  {
    hide SumOf, Holds, Pickable, LastFlag, Order, IsLong, Short;
    var e, own := q + Entries(|name|), SumOf(dirs[q + Entries(|name|)][..11]);
    forall j | q <= j < e
      ensures (LastFlag(dirs[j]) <==> j == q) && Order(dirs[j]) == e - j && IsLong(dirs[j])
      ensures dirs[j][LDIR_CHKSUM] == sum && (dirs[j] in Picking() <==> j > q || Fits(name))
    {
      OrderOfPart(dirs[j], name, e - j, sum);
      StoredPickable(dirs[j], name, e - j, sum);
    }
    if Fits(name) && own == sum {
      forall j | q <= j < e ensures Next(Picking(), dirs, q, j, sum) {}
      assert Begun(Picking(), dirs, q, e, own);
    }
    if NameBefore(Picking(), dirs, e) {
      var b: nat :| Begun(Picking(), dirs, b, e, own) && Order(dirs[b]) == e - b;
      OnlyFirst(Picking(), dirs, b, e, own);
      assert LastFlag(dirs[b]) && LastFlag(dirs[q]);
      assert b == q;
      assert Next(Picking(), dirs, q, q, own);
    }
  }

  /** With all its parts in the buffer, the name is there. */
  lemma NameThere(buf: seq<Wchar>, dirs: seq<Entry>, q: nat, name: seq<Wchar>, sum: byte)
    requires Storable(name) && Stored(dirs, q, name, sum) && |buf| == MAX_LFN + 1
    requires AllPicked(buf, dirs, Some(q), q + Entries(|name|))
    ensures Buffered(buf, name)
  {
    hide Holds, Picked, Short;
    var n := Entries(|name|);
    forall i: nat | i < |name| ensures buf[i] == name[i] {
      var k := i / 13 + 1;
      PartThere(buf, dirs[q + n - k], name, k, sum, i);
    }
    PartThere(buf, dirs[q], name, n, sum, |name|);
    assert buf[..|name|] == name;
  }

  lemma PartThere(buf: seq<Wchar>, dir: Entry, name: seq<Wchar>, k: nat, sum: byte, i: nat)
    requires Storable(name) && 1 <= k <= Entries(|name|) && Holds(dir, name, k, sum) && Picked(buf, dir)
    requires |buf| == MAX_LFN + 1
    requires (k - 1) * 13 <= i && (i < k * 13 || k == Entries(|name|)) && i <= |name|
    ensures buf[i] == Unit(name, i)
  {
    hide Holds, UnitAt, Ended, Units, LastFlag, Order;
    OrderOfPart(dir, name, k, sum);
    EndedStored(dir, name, k, sum, 13);
    var s := i - (k - 1) * 13;
    if s < 13 {
      EndedStored(dir, name, k, sum, s);
      UnitOfPart(dir, name, k, sum, s);
      assert UnitThere(buf, dir, s);
    }
  }

  // ---- registering a name ----------------------------------------------------------------------------

  /** The length of the name in the buffer. */
  method NameLength(lfnbuf: array<Wchar>, ghost name: seq<Wchar>) returns (n: nat)
    requires Storable(name) && Buffered(lfnbuf[..], name)
    ensures n == |name|
  {
    n := 0;
    while lfnbuf[n] != 0
      invariant n <= |name|
      decreases |name| - n
    {
      assert lfnbuf[n] == lfnbuf[..][..|name|][n];
      n := n + 1;
    }
  }

  /** A short entry as dir_register leaves it. */
  function ShortEntry(sfn: seq<byte>, nt: byte): Entry
    requires |sfn| == 11
  {
    sfn + [0, nt] + seq(19, _ => 0)
  }

  /**
   * The storing part of dir_register: from entry q on, which with those behind it dir_alloc has found free, long
   * entries last part first, then the short entry with the name sfn.
   */
  method Register(dirs0: seq<Entry>, q: nat, lfnbuf: array<Wchar>, sfn: seq<byte>, nt: byte, ghost name: seq<Wchar>)
    returns (dirs: seq<Entry>)
    requires Storable(name) && Buffered(lfnbuf[..], name) && q + Entries(|name|) < |dirs0|
    requires |sfn| == 11 && sfn[0] != 0 && sfn[0] as int != DDEM && sfn[0] != 0x2E
    ensures |dirs| == |dirs0| && Stored(dirs, q, name, SumOf(sfn))
    ensures var e := dirs[q + Entries(|name|)];
            e[..11] == sfn && e[12] == nt && e[11] == 0 && forall k :: 13 <= k < 32 ==> e[k] == 0
    ensures forall i :: 0 <= i < |dirs| && !(q <= i <= q + Entries(|name|)) ==> dirs[i] == dirs0[i]
  {
    dirs := dirs0;
    var nlen := NameLength(lfnbuf, name);
    var nent := Entries(nlen);
    ghost var n := nent;
    var short := ShortEntry(sfn, nt);
    var sum := SumSfn(short);
    assert short[..11] == sfn;
    var at := q;
    hide Holds, SumOf;
    while nent > 0
      invariant nent <= n && at == q + n - nent && |dirs| == |dirs0|
      invariant forall i :: q <= i < at ==> Holds(dirs[i], name, q + n - i, sum)
      invariant forall i :: 0 <= i < |dirs| && !(q <= i < at) ==> dirs[i] == dirs0[i]
    {
      var dir := new byte[32];
      forall i | 0 <= i < 32 { dir[i] := dirs[at][i]; }
      PutLfn(lfnbuf, dir, nent, sum, name);
      dirs := dirs[at := dir[..]];
      at, nent := at + 1, nent - 1;
    }
    dirs := dirs[at := short];
    IsShort(sfn, nt);
  }

  lemma IsShort(sfn: seq<byte>, nt: byte)
    requires |sfn| == 11 && sfn[0] != 0 && sfn[0] as int != DDEM && sfn[0] != 0x2E
    ensures Short(ShortEntry(sfn, nt))
  {
    assert ShortEntry(sfn, nt)[0] == sfn[0] && ShortEntry(sfn, nt)[LDIR_ATTR] == 0;
  }

  predicate Unused(e: Entry) { e[0] as int == DDEM || e[0] == 0 }

  /** The n entries up to place at are unused. */
  predicate Room(dirs: seq<Entry>, at: nat, n: nat) {
    n <= at + 1 && at < |dirs| && forall i :: at + 1 - n <= i <= at ==> Unused(dirs[i])
  }

  /** The first place where n unused entries in a row end. */
  ghost predicate FirstRoom(dirs: seq<Entry>, at: nat, n: nat) {
    Room(dirs, at, n) && forall e :: 0 <= e < at ==> !Room(dirs, e, n)
  }

  /**
   * A name that is registered and read back comes out as it went in exactly if it has at most 253 units; one of 254 or
   * 255 units is stored but never read, and the short entry appears without a long name.
   */
  method RoundTrip(dirs0: seq<Entry>, p: nat, q: nat, lfnbuf: array<Wchar>, sfn: seq<byte>, nt: byte,
                   ghost name: seq<Wchar>)
    returns (found: bool, at: nat, named: bool)
    requires Storable(name) && Buffered(lfnbuf[..], name) && q + Entries(|name|) < |dirs0|
    requires |sfn| == 11 && sfn[0] != 0 && sfn[0] as int != DDEM && sfn[0] != 0x2E
    requires p <= q && forall j :: p <= j < q ==> !Short(dirs0[j]) && dirs0[j][0] != 0
    modifies lfnbuf
    ensures found && at == q + Entries(|name|) && (named <==> |name| <= 253) && (named ==> Buffered(lfnbuf[..], name))
  {
    hide Short, SumOf, Holds, NameBefore, Begun, AllPicked;
    var dirs := Register(dirs0, q, lfnbuf, sfn, nt, name);
    ghost var rest, sum := dirs[p..], SumOf(sfn);
    assert Stored(rest, q - p, name, sum);
    found, at, named := DirRead(dirs[p..], lfnbuf);
    ShortAhead(rest, q - p, name, sum, at);
    StoredIsRead(rest, q - p, name, sum);
    if named { NameThere(lfnbuf[..], rest, q - p, name, sum); }
    at := at + p;
  }
}
