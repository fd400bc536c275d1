/**
 * Searching a directory for a file name: which entry dir_find answers, and that a registered name is found by names
 * that are the same but for upper and lower case, and by no other.
 */
module NameSearch {
  import opened Bytes
  import opened Wrappers
  import opened LongName

  const AM_VOL: nat := 0x08

  /** ff_wtoupper, as far as the search depends on it: nothing but the terminator becomes the terminator. */
  ghost predicate Folding(up: Wchar -> Wchar) {
    forall w :: up(w) == 0 <==> w == 0
  }

  /** The units are the same but for upper and lower case. */
  predicate SameUnit(up: Wchar -> Wchar, a: Wchar, b: Wchar) { up(a) == up(b) }

  /** The names are the same but for upper and lower case. */
  predicate Alike(up: Wchar -> Wchar, a: seq<Wchar>, b: seq<Wchar>) {
    |a| == |b| && forall i :: 0 <= i < |a| ==> SameUnit(up, a[i], b[i])
  }

  /** What is looked for besides the name in the buffer: its short form, and whether that lost something of the name. */
  datatype Query = Query(fn: seq<byte>, loss: bool, nolfn: bool)

  // ---- one entry of a long name ----------------------------------------------------------------------

  /** Unit s of the entry is that of the buffer, counted from start; behind the end of the name it is filler. */
  predicate UnitFits(up: Wchar -> Wchar, buf: seq<Wchar>, dir: Entry, start: nat, s: nat)
    requires |buf| == MAX_LFN + 1 && s < 13
  {
    if Ended(dir, s) then UnitAt(dir, s) == 0xFFFF
    else start + s < MAX_LFN && SameUnit(up, UnitAt(dir, s), buf[start + s])
  }

  /**
   * The part of a name in the entry is that of the name in the buffer, as far as it goes, and filler behind it; the
   * last part also ends where the name in the buffer does.
   */
  predicate PartMatches(up: Wchar -> Wchar, buf: seq<Wchar>, dir: Entry) {
    var start := (dir[LDIR_ORD] as int % LLEF - 1) * 13;
    && |buf| == MAX_LFN + 1 && LdWord(dir, LDIR_FST_CLUS_LO) == 0 && start >= 0
    && (forall s :: 0 <= s < 13 ==> UnitFits(up, buf, dir, start, s))
    && (LastFlag(dir) && !Ended(dir, 13) ==> start + 13 <= MAX_LFN && buf[start + 13] == 0)
  }

  /** cmp_lfn. */
  method CmpLfn(up: Wchar -> Wchar, lfnbuf: array<Wchar>, dir: Entry) returns (same: bool)
    requires lfnbuf.Length == MAX_LFN + 1
    ensures same <==> PartMatches(up, lfnbuf[..], dir)
  {
    hide UnitAt;
    if LdWord(dir, LDIR_FST_CLUS_LO) != 0 { return false; }
    var i: int := (dir[LDIR_ORD] as int % LLEF - 1) * 13;
    if i < 0 { return false; }  // the source computes a huge unsigned offset here, and the first unit does not match
    ghost var start: nat, buf := i, lfnbuf[..];
    var wc: Wchar, s := 1, 0;
    while s < 13
      invariant s <= 13 && (wc == 0 <==> Ended(dir, s)) && (wc != 0 ==> i == start + s)
      invariant wc != 0 && s > 0 ==> i <= MAX_LFN
      invariant forall t :: 0 <= t < s ==> UnitFits(up, buf, dir, start, t)
    {
      var uc := UnitAt(dir, s);
      if wc != 0 {
        if i >= MAX_LFN || !SameUnit(up, uc, lfnbuf[i]) {
          assert !UnitFits(up, buf, dir, start, s);
          return false;
        }
        i := i + 1;
        wc := uc;
      } else if uc != 0xFFFF {
        assert !UnitFits(up, buf, dir, start, s);
        return false;
      }
      assert UnitFits(up, buf, dir, start, s);
      s := s + 1;
    }
    if LastFlag(dir) && wc != 0 && lfnbuf[i] != 0 { return false; }
    return true;
  }

  // ---- the entries of a directory --------------------------------------------------------------------

  /** The entries whose part of a name is that of the name in the buffer. */
  ghost function Matching(up: Wchar -> Wchar, buf: seq<Wchar>): iset<Entry> {
    iset e: Entry | PartMatches(up, buf, e)
  }

  lemma MatchingNumbered(up: Wchar -> Wchar, buf: seq<Wchar>)
    ensures Numbered(Matching(up, buf))
  {
    forall e | e in Matching(up, buf) ensures Order(e) >= 1 { OrderPositive(up, buf, e); }
  }

  lemma OrderPositive(up: Wchar -> Wchar, buf: seq<Wchar>, e: Entry)
    requires PartMatches(up, buf, e)
    ensures Order(e) >= 1
  {
  }

  /** A used entry that is neither part of a long name nor a label. */
  predicate IsPlain(e: Entry) {
    e[0] != 0 && e[0] as int != 0xE5 && e[11] as int / 8 % 2 == 0
  }

  /** The entry is what is looked for, by its long name or by its short one. */
  ghost predicate Answers(up: Wchar -> Wchar, buf: seq<Wchar>, q: Query, dirs: seq<Entry>, e: nat)
    requires e < |dirs|
  {
    IsPlain(dirs[e]) && ((!q.nolfn && NameBefore(Matching(up, buf), dirs, e)) || (!q.loss && dirs[e][..11] == q.fn))
  }

  /** The table has not ended before entry e. */
  predicate Seen(dirs: seq<Entry>, e: nat) {
    e < |dirs| && forall j :: 0 <= j <= e ==> dirs[j][0] != 0
  }

  /** The first entry that answers. */
  ghost predicate FirstAnswer(up: Wchar -> Wchar, buf: seq<Wchar>, q: Query, dirs: seq<Entry>, at: nat) {
    Seen(dirs, at) && Answers(up, buf, q, dirs, at) && forall e :: 0 <= e < at ==> !Answers(up, buf, q, dirs, e)
  }

  /** What dir_find does with an entry of a long name. */
  method FeedFind(up: Wchar -> Wchar, lfnbuf: array<Wchar>, e: Entry, ord0: byte, sum0: byte)
    returns (ord: byte, sum: byte)
    requires lfnbuf.Length == MAX_LFN + 1 && IsLong(e)
    ensures sum == (if LastFlag(e) then e[LDIR_CHKSUM] else sum0)
    ensures if Joins(Matching(up, lfnbuf[..]), e, ord0, sum0) then Order(e) >= 1 && ord as int == Order(e) - 1
            else ord == 0xFF
  {
    hide PartMatches;
    ord, sum := ord0, sum0;
    var c: byte := e[LDIR_ORD];
    if LastFlag(e) {
      sum := e[LDIR_CHKSUM];
      c := c - LLEF;
      ord := c;
    }
    var same := c == ord && sum == e[LDIR_CHKSUM];
    if same { same := CmpLfn(up, lfnbuf, e); }
    if same { OrderPositive(up, lfnbuf[..], e); }
    ord := if same then ord - 1 else 0xFF;
  }

  ghost function Gather(up: Wchar -> Wchar, buf: seq<Wchar>, dirs: seq<Entry>, at: nat, ord: byte, sum: byte,
                        b: Option<nat>): (r: Option<nat>)
    requires Gathered(Matching(up, buf), dirs, at, ord, sum, b) && at < |dirs| && IsLong(dirs[at])
    ensures var sum1 := if LastFlag(dirs[at]) then dirs[at][LDIR_CHKSUM] else sum;
            if Joins(Matching(up, buf), dirs[at], ord, sum)
            then Order(dirs[at]) >= 1 && Gathered(Matching(up, buf), dirs, at + 1, Order(dirs[at]) - 1, sum1, r)
            else Gathered(Matching(up, buf), dirs, at + 1, 0xFF, sum1, r)
  {
    var same := Joins(Matching(up, buf), dirs[at], ord, sum);
    MatchingNumbered(up, buf);
    GatherLong(Matching(up, buf), dirs, at, ord, sum, b);
    if !same then None else if LastFlag(dirs[at]) then Some(at) else b
  }

  /** The three ways dir_find takes with a used entry. */
  lemma Kinds(e: Entry)
    requires e[0] != 0
    ensures var a := e[LDIR_ATTR] as int % (AM_MASK + 1);
            if e[0] as int == DDEM || (a / AM_VOL % 2 == 1 && a != AM_LFN) then !IsLong(e) && !IsPlain(e)
            else if a == AM_LFN then IsLong(e) && !IsPlain(e) else IsPlain(e) && !IsLong(e)
  {
    VolumeBit(e[LDIR_ATTR]);
  }

  lemma VolumeBit(x: nat)
    ensures x % (AM_MASK + 1) / AM_VOL % 2 == x / AM_VOL % 2
  {
    var q, r := x / 64, x % 64;
    assert x == 64 * q + r;
    assert x / 8 == 8 * q + r / 8;
    EvenPart(4 * q, r / 8);
  }

  lemma EvenPart(k: nat, x: nat)
    ensures (2 * k + x) % 2 == x % 2
  {
  }

  /** What a plain entry has to be to answer, from what was gathered. */
  lemma AnswersHere(up: Wchar -> Wchar, buf: seq<Wchar>, q: Query, dirs: seq<Entry>, at: nat, ord: byte, sum: byte,
                    b: Option<nat>)
    requires at < |dirs| && IsPlain(dirs[at])
    requires if q.nolfn then ord == 0xFF else Gathered(Matching(up, buf), dirs, at, ord, sum, b)
    ensures Answers(up, buf, q, dirs, at) <==>
      (ord == 0 && sum == SumOf(dirs[at][..11])) || (!q.loss && dirs[at][..11] == q.fn)
  {
    hide NameBefore, Gathered, SumOf;
    if !q.nolfn { NameComplete(Matching(up, buf), dirs, at, ord, sum, b); }
  }

  lemma OnlyPlainAnswers(up: Wchar -> Wchar, buf: seq<Wchar>, q: Query, dirs: seq<Entry>, at: nat)
    requires at < |dirs| && !IsPlain(dirs[at])
    ensures !Answers(up, buf, q, dirs, at)
  {
  }

  /** Where the entries of a long name right before at begin, whether they match or not. */
  function RunStart(dirs: seq<Entry>, at: nat): (b: Option<nat>)
    requires at <= |dirs|
    ensures b.Some? ==> b.value < at
  {
    if at == 0 || !IsLong(dirs[at - 1]) then None
    else if LastFlag(dirs[at - 1]) then Some(at - 1) else RunStart(dirs, at - 1)
  }

  /**
   * What dir_find remembers of the entries it has passed: order and checksum that have to follow, and the block's
   * beginning.
   */
  datatype Scan = Scan(ord: byte, sum: byte, blk: Option<nat>)

  /** What it makes of an entry: the table ends, this is it, or go on. */
  datatype Verdict = Ends | Hit | On

  /** It has passed the entries before at, none of which answers. */
  ghost predicate Scanning(up: Wchar -> Wchar, buf: seq<Wchar>, q: Query, dirs: seq<Entry>, at: nat, s: Scan,
                           b: Option<nat>)
  {
    && at <= |dirs| && (forall j :: 0 <= j < at ==> dirs[j][0] != 0)
    && (if q.nolfn then s.ord == 0xFF
        else Gathered(Matching(up, buf), dirs, at, s.ord, s.sum, b) && s.blk == RunStart(dirs, at))
    && forall e :: 0 <= e < at ==> !Answers(up, buf, q, dirs, e)
  }

  lemma ScanStarts(up: Wchar -> Wchar, buf: seq<Wchar>, q: Query, dirs: seq<Entry>)
    ensures Scanning(up, buf, q, dirs, 0, Scan(0xFF, 0xFF, None), None)
  {
    NothingGathered(Matching(up, buf), dirs, 0xFF);
    hide Gathered;
  }

  /** At the end of the table there is nothing to be found. */
  lemma ScanEnds(up: Wchar -> Wchar, buf: seq<Wchar>, q: Query, dirs: seq<Entry>, at: nat, s: Scan, b: Option<nat>)
    requires Scanning(up, buf, q, dirs, at, s, b) && (at == |dirs| || dirs[at][0] == 0)
    ensures forall e :: !FirstAnswer(up, buf, q, dirs, e)
  {
    hide Gathered, Answers;
  }

  /**
   * The body of the loop of dir_find: it stops at the first entry that answers, and knows where its block begins; or at
   * the end of the table, and then no entry answers.
   */
  method FindStep(up: Wchar -> Wchar, lfnbuf: array<Wchar>, q: Query, e: Entry, at: nat, s0: Scan,
                  ghost dirs: seq<Entry>, ghost b0: Option<nat>)
    returns (r: Verdict, s: Scan, ghost b: Option<nat>)
    requires lfnbuf.Length == MAX_LFN + 1 && at < |dirs| && e == dirs[at]
    requires Scanning(up, lfnbuf[..], q, dirs, at, s0, b0)
    ensures r == Ends ==> forall k :: !FirstAnswer(up, lfnbuf[..], q, dirs, k)
    ensures r == Hit ==> FirstAnswer(up, lfnbuf[..], q, dirs, at) && (!q.nolfn ==> s.blk == RunStart(dirs, at))
    ensures r == On ==> Scanning(up, lfnbuf[..], q, dirs, at + 1, s, b)
  {
    hide Begun, NameBefore, PartMatches, SumOf, Gathered, Joins, Order, Answers, IsLong, IsPlain, LastFlag;
    ghost var buf := lfnbuf[..];
    r, s, b := On, Scan(0xFF, s0.sum, None), None;
    if e[0] == 0 {
      ScanEnds(up, buf, q, dirs, at, s0, b0);
      return Ends, s0, b0;
    }
    Kinds(e);
    var a := e[LDIR_ATTR] as int % (AM_MASK + 1);
    if e[0] as int == DDEM || (a / AM_VOL % 2 == 1 && a != AM_LFN) {
      OnlyPlainAnswers(up, buf, q, dirs, at);
      GatherOther(Matching(up, buf), dirs, at, s.sum);
    } else if a == AM_LFN {
      OnlyPlainAnswers(up, buf, q, dirs, at);
      s := s0;
      if !q.nolfn {
        if LastFlag(e) { s := s.(blk := Some(at)); }
        b := Gather(up, buf, dirs, at, s.ord, s.sum, b0);
        var ord, sum := FeedFind(up, lfnbuf, e, s.ord, s.sum);
        s := s.(ord := ord, sum := sum);
      }
    } else {
      AnswersHere(up, buf, q, dirs, at, s0.ord, s0.sum, b0);
      var own := SumSfn(e);
      if (s0.ord == 0 && s0.sum == own) || (!q.loss && e[..11] == q.fn) { return Hit, s0, b0; }
      GatherOther(Matching(up, buf), dirs, at, s.sum);
    }
  }

  // ---- a stored name is found by names like it, and by no other ----------------------------------------

  /** Unit i of the name, if it has one, is that of the buffer. */
  predicate UnitSame(up: Wchar -> Wchar, buf: seq<Wchar>, name: seq<Wchar>, i: nat)
    requires |buf| == MAX_LFN + 1
  {
    i <= |name| ==> i < MAX_LFN && SameUnit(up, Unit(name, i), buf[i])
  }

  /** The units of the k-th part of the name are those of the buffer. */
  predicate SameUnits(up: Wchar -> Wchar, buf: seq<Wchar>, name: seq<Wchar>, k: nat)
    requires |buf| == MAX_LFN + 1 && k >= 1
  {
    && (forall i: nat :: (k - 1) * 13 <= i < k * 13 ==> UnitSame(up, buf, name, i))
    && (|name| == k * 13 ==> |name| <= MAX_LFN && buf[|name|] == 0)
  }

  lemma PartOfName(up: Wchar -> Wchar, buf: seq<Wchar>, dir: Entry, name: seq<Wchar>, k: nat, sum: byte)
    requires Storable(name) && 1 <= k <= Entries(|name|) && Holds(dir, name, k, sum) && |buf| == MAX_LFN + 1
    ensures PartMatches(up, buf, dir) <==> SameUnits(up, buf, name, k)
  {
    hide Holds, PartMatches, SameUnits;
    if SameUnits(up, buf, name, k) { SameMatches(up, buf, dir, name, k, sum); }
    if PartMatches(up, buf, dir) { MatchesSame(up, buf, dir, name, k, sum); }
  }

  lemma SameMatches(up: Wchar -> Wchar, buf: seq<Wchar>, dir: Entry, name: seq<Wchar>, k: nat, sum: byte)
    requires Storable(name) && 1 <= k <= Entries(|name|) && Holds(dir, name, k, sum) && |buf| == MAX_LFN + 1
    requires SameUnits(up, buf, name, k)
    ensures PartMatches(up, buf, dir)
  {
    hide Holds, UnitFits, Ended, LastFlag, LdWord;
    OrderOfPart(dir, name, k, sum);
    EndedStored(dir, name, k, sum, 13);
    var start: nat := (k - 1) * 13;
    forall s | 0 <= s < 13 ensures UnitFits(up, buf, dir, start, s) {
      OneUnit(up, buf, dir, name, k, sum, s);
      assert UnitSame(up, buf, name, start + s);
    }
  }

  lemma MatchesSame(up: Wchar -> Wchar, buf: seq<Wchar>, dir: Entry, name: seq<Wchar>, k: nat, sum: byte)
    requires Storable(name) && 1 <= k <= Entries(|name|) && Holds(dir, name, k, sum) && |buf| == MAX_LFN + 1
    requires PartMatches(up, buf, dir)
    ensures SameUnits(up, buf, name, k)
  {
    hide Holds, UnitFits, Ended, LastFlag, LdWord;
    OrderOfPart(dir, name, k, sum);
    EndedStored(dir, name, k, sum, 13);
    var start: nat := (k - 1) * 13;
    forall i: nat | start <= i < k * 13 ensures UnitSame(up, buf, name, i) {
      OneUnit(up, buf, dir, name, k, sum, i - start);
    }
  }

  /** A unit of the entry fits if it is that of the buffer, as far as the name goes. */
  lemma OneUnit(up: Wchar -> Wchar, buf: seq<Wchar>, dir: Entry, name: seq<Wchar>, k: nat, sum: byte, s: nat)
    requires Storable(name) && 1 <= k <= Entries(|name|) && Holds(dir, name, k, sum) && |buf| == MAX_LFN + 1 && s < 13
    ensures UnitFits(up, buf, dir, (k - 1) * 13, s) <==> UnitSame(up, buf, name, (k - 1) * 13 + s)
  {
    EndedStored(dir, name, k, sum, s);
    UnitOfPart(dir, name, k, sum, s);
    hide Holds, Ended, Unit, UnitAt;
  }

  /**
   * All parts of a name match exactly if the name in the buffer is the same but for upper and lower case; a name of 255
   * units never matches, because cmp_lfn does not get to its end.
   */
  lemma WholeName(up: Wchar -> Wchar, buf: seq<Wchar>, name: seq<Wchar>, m: seq<Wchar>)
    requires Folding(up) && Storable(name) && Buffered(buf, m) && forall i :: 0 <= i < |m| ==> m[i] != 0
    ensures (forall k :: 1 <= k <= Entries(|name|) ==> SameUnits(up, buf, name, k))
            <==> |name| < MAX_LFN && Alike(up, name, m)
  {
    assert forall i :: 0 <= i < |m| ==> buf[i] == buf[..|m|][i] == m[i];
    if forall k :: 1 <= k <= Entries(|name|) ==> SameUnits(up, buf, name, k) {
      forall i: nat | i <= |name| && (i < |name| || |name| % 13 != 0) ensures UnitSame(up, buf, name, i) {
        PartOfUnit(i, |name|);
        assert SameUnits(up, buf, name, i / 13 + 1);
      }
      if |name| % 13 == 0 { assert SameUnits(up, buf, name, |name| / 13); }
      SameLength(up, buf, name, m);
      assert |name| < MAX_LFN;
      forall i: nat | i < |name| ensures SameUnit(up, name[i], m[i]) {
        assert UnitSame(up, buf, name, i) && Unit(name, i) == name[i];
      }
    }
  }

  lemma SameLength(up: Wchar -> Wchar, buf: seq<Wchar>, name: seq<Wchar>, m: seq<Wchar>)
    requires Folding(up) && Storable(name) && Buffered(buf, m) && forall i :: 0 <= i < |m| ==> m[i] == buf[i] != 0
    requires forall i: nat :: i < |name| ==> UnitSame(up, buf, name, i)
    requires if |name| % 13 == 0 then buf[|name|] == 0 else UnitSame(up, buf, name, |name|)
    ensures |name| == |m|
  {
    assert buf[|name|] == 0;
    forall i: nat | i < |name| ensures buf[i] != 0 {
      assert UnitSame(up, buf, name, i) && Unit(name, i) == name[i];
    }
  }

  /** The part that unit i of n, or the terminator, is in. */
  lemma PartOfUnit(i: nat, n: nat)
    requires i < n || (i == n && n % 13 != 0)
    ensures 1 <= i / 13 + 1 <= Entries(n) && i / 13 * 13 <= i < (i / 13 + 1) * 13
  {
  }

  /** The entries in front of a stored name's short entry are what is looked for exactly if the names are alike. */
  lemma FoundByName(up: Wchar -> Wchar, buf: seq<Wchar>, dirs: seq<Entry>, q: nat, name: seq<Wchar>, sum: byte,
                    m: seq<Wchar>)
    requires Folding(up) && Storable(name) && Buffered(buf, m) && forall i :: 0 <= i < |m| ==> m[i] != 0
    requires Stored(dirs, q, name, sum) && SumOf(dirs[q + Entries(|name|)][..11]) == sum
    ensures NameBefore(Matching(up, buf), dirs, q + Entries(|name|)) <==> |name| < MAX_LFN && Alike(up, name, m)
  {
    hide SumOf, Holds, SameUnits, PartMatches, LastFlag, Order, IsLong, Short;
    var n, e := Entries(|name|), q + Entries(|name|);
    WholeName(up, buf, name, m);
    forall j | q <= j < e
      ensures PartMatches(up, buf, dirs[j]) <==> SameUnits(up, buf, name, e - j)
      ensures (LastFlag(dirs[j]) <==> j == q) && Order(dirs[j]) == e - j && IsLong(dirs[j])
      ensures dirs[j][LDIR_CHKSUM] == sum
    {
      OrderOfPart(dirs[j], name, e - j, sum);
      PartOfName(up, buf, dirs[j], name, e - j, sum);
    }
    if forall k :: 1 <= k <= n ==> SameUnits(up, buf, name, k) {
      forall j | q <= j < e ensures Next(Matching(up, buf), dirs, q, j, sum) { assert SameUnits(up, buf, name, e - j); }
      assert Begun(Matching(up, buf), dirs, q, e, sum);
    }
    if NameBefore(Matching(up, buf), dirs, e) {
      var b: nat :| Begun(Matching(up, buf), dirs, b, e, sum) && Order(dirs[b]) == e - b;
      OnlyFirst(Matching(up, buf), dirs, b, e, sum);
      assert LastFlag(dirs[b]) && LastFlag(dirs[q]);
      assert b == q;
      forall k | 1 <= k <= n ensures SameUnits(up, buf, name, k) {
        assert Next(Matching(up, buf), dirs, q, e - k, sum);
      }
    }
  }

  // ---- kinds of entries ----------------------------------------------------------------------------------

  lemma LongThere(up: Wchar -> Wchar, buf: seq<Wchar>, dirs: seq<Entry>, b: nat, at: nat, s: byte)
    requires Begun(Matching(up, buf), dirs, b, at, s)
    ensures b < at <= |dirs| && forall j :: b <= j < at ==> IsLong(dirs[j])
  {
    hide PartMatches, LastFlag, Order, IsLong;
    forall j | b <= j < at ensures IsLong(dirs[j]) { assert Next(Matching(up, buf), dirs, b, j, s); }
  }

  lemma LongNotPlain(e: Entry)
    requires IsLong(e)
    ensures !IsPlain(e) && !Unused(e) && e[0] != 0
  {
    Kinds(e);
  }

  lemma PlainNotUnused(e: Entry)
    requires IsPlain(e)
    ensures !IsLong(e) && !Unused(e) && e[0] != 0
  {
    Kinds(e);
  }

  lemma UnusedKind(e: Entry)
    requires Unused(e)
    ensures !IsLong(e) && !IsPlain(e)
  {
  }
}
