/**
 * A directory as a catalogue: every file has one short entry, and in front of it the entries of its long name if it has
 * one. Which file a name means is then a matter of the files' names alone; and what creating, deleting, touching and
 * growing do to that.
 */
module Catalogue {
  import opened Bytes
  import opened Wrappers
  import opened LongName
  import opened NameSearch

  /** A file is known by the place of its short entry in the directory. */
  type Home = nat

  /** The names of a file: the short one, and the long one if it has one. */
  datatype FileName = FileName(sfn: seq<byte>, title: Option<seq<Wchar>>) {
    /** Where the entries of the file whose short one is at k begin. */
    function First(k: nat): int {
      match title
      case None => k
      case Some(x) => k - Entries(|x|)
    }
  }

  /** The first byte of a short name: not that of an unused entry, and no dot. */
  predicate GoodFirst(b: byte) { b != 0 && b as int != 0xE5 && b != 0x2E }

  /**
   * What create_name makes of a path: the name, its short form, whether that lost something of the name, whether the
   * name needs entries of its own, and the NT flags.
   */
  datatype Wanted = Wanted(name: seq<Wchar>, fn: seq<byte>, loss: bool, long: bool, nt: byte) {
    predicate Proper() {
      Storable(name) && |fn| == 11 && GoodFirst(fn[0]) && (loss ==> long)
    }

    /** The number of entries in a row that a new file of this name takes. */
    function Need(): nat { if long then Entries(|name|) + 1 else 1 }
  }

  // ---- which file is meant -----------------------------------------------------------------------------

  /** A file of these names answers to the query. */
  predicate Means(up: Wchar -> Wchar, q: Query, m: seq<Wchar>, x: FileName) {
    || (!q.nolfn && x.title.Some? && |x.title.value| < MAX_LFN && Alike(up, x.title.value, m))
    || (!q.loss && x.sfn == q.fn)
  }

  /** Of the files that answer it is the first in the directory. */
  ghost predicate FoundAs(up: Wchar -> Wchar, q: Query, m: seq<Wchar>, files: map<Home, FileName>, n: Home) {
    && n in files && Means(up, q, m, files[n])
    && forall k :: k in files && Means(up, q, m, files[k]) ==> n <= k
  }

  /** None does. */
  ghost predicate NotFound(up: Wchar -> Wchar, q: Query, m: seq<Wchar>, files: map<Home, FileName>) {
    forall k :: k in files ==> !Means(up, q, m, files[k])
  }

  /** What that comes to, unit by unit. */
  lemma MeansExactly(up: Wchar -> Wchar, q: Query, m: seq<Wchar>, x: FileName)
    ensures Means(up, q, m, x) <==>
            || (!q.loss && q.fn == x.sfn)
            || (!q.nolfn && x.title.Some? && |x.title.value| == |m| < 255
                && forall i :: 0 <= i < |m| ==> up(x.title.value[i]) == up(m[i]))
  {
  }

  /** A name means some file or none. */
  lemma FoundSome(up: Wchar -> Wchar, q: Query, m: seq<Wchar>, files: map<Home, FileName>, n: Home)
    requires FoundAs(up, q, m, files, n)
    ensures n in files && !NotFound(up, q, m, files)
  {
  }

  /** A name means at most one file. */
  lemma FoundOnce(up: Wchar -> Wchar, q: Query, m: seq<Wchar>, files: map<Home, FileName>, a: Home, b: Home)
    requires FoundAs(up, q, m, files, a) && FoundAs(up, q, m, files, b)
    ensures a == b
  {
  }

  /** A new file changes what a name means exactly if it answers to it and comes in front of all others that do. */
  lemma FoundAfter(up: Wchar -> Wchar, q: Query, m: seq<Wchar>, files: map<Home, FileName>, n: Home, x: FileName,
                   a: Home)
    requires n !in files
    ensures FoundAs(up, q, m, files[n := x], a) <==>
      if Means(up, q, m, x) && forall k :: k in files && Means(up, q, m, files[k]) ==> n < k
      then a == n else FoundAs(up, q, m, files, a)
  {
    hide Means;
    var more := files[n := x];
    assert forall k :: k in files ==> k in more && more[k] == files[k];
    assert n in more && more[n] == x;
  }

  /** In particular it is what its own name means, if that meant no file before. */
  lemma FoundNew(up: Wchar -> Wchar, w: Wanted, files: map<Home, FileName>, n: Home, x: FileName)
    requires NotFound(up, Query(w.fn, w.loss, false), w.name, files) && n !in files && |w.name| < MAX_LFN
    requires x.title == if w.long then Some(w.name) else None
    requires (w.loss ==> w.long) && (!w.loss ==> x.sfn == w.fn)
    ensures FoundAs(up, Query(w.fn, w.loss, false), w.name, files[n := x], n)
  {
  }

  /** Deleting a file changes what a name means only if it meant that file. */
  lemma FoundWithout(up: Wchar -> Wchar, q: Query, m: seq<Wchar>, files: map<Home, FileName>, n: Home, a: Home)
    requires FoundAs(up, q, m, files, a) && a != n
    ensures FoundAs(up, q, m, files - {n}, a)
  {
  }

  // ---- the short name of a new file ----------------------------------------------------------------------

  /** Some file has this short name. */
  predicate Taken(files: map<Home, FileName>, sfn: seq<byte>) {
    exists k :: k in files && files[k].sfn == sfn
  }

  /** The names that dir_find is asked for, and what it may rely on. */
  datatype Names = Names(create: seq<byte> -> Option<Wanted>, numbered: (seq<byte>, seq<Wchar>, nat) -> seq<byte>,
                         up: Wchar -> Wchar)
  {
    /**
     * create_name gives proper names, no longer than the path; gen_numname keeps their form; ff_wtoupper makes nothing
     * but the terminator the terminator.
     */
    ghost predicate Lawful() {
      && Folding(up)
      && (forall s :: create(s).Some? ==> create(s).value.Proper() && |create(s).value.name| <= |s|)
      && forall fn, m, k :: |fn| == 11 && GoodFirst(fn[0]) ==>
        |numbered(fn, m, k)| == 11 && GoodFirst(numbered(fn, m, k)[0])
    }

    /** The first numbered short name from k on, of at most 99, that no file has. */
    function FreeFrom(files: map<Home, FileName>, w: Wanted, k: nat): Option<seq<byte>>
      decreases 100 - k
    {
      if k >= 100 then None
      else if !Taken(files, numbered(w.fn, w.name, k)) then Some(numbered(w.fn, w.name, k))
      else FreeFrom(files, w, k + 1)
    }

    /** The short name a new file gets: that of the name, or a numbered one if it has lost something. */
    function ShortFor(files: map<Home, FileName>, w: Wanted): Option<seq<byte>> {
      if w.loss then FreeFrom(files, w, 1) else Some(w.fn)
    }

    /** It is the first proper one that no file has, the numbered ones before it are taken; without one all are. */
    lemma FreeName(files: map<Home, FileName>, w: Wanted, k: nat)
      requires Lawful() && w.Proper() && k <= 100
      ensures var r := FreeFrom(files, w, k);
              && (r.Some? ==> |r.value| == 11 && GoodFirst(r.value[0]) && !Taken(files, r.value))
              && (r.Some? ==>
                exists j :: k <= j < 100 && FirstFree(files, w, k, j) && r.value == numbered(w.fn, w.name, j))
              && (r.None? ==> forall j :: k <= j < 100 ==> Taken(files, numbered(w.fn, w.name, j)))
      decreases 100 - k
    {
      if k < 100 {
        FreeName(files, w, k + 1);
        if !Taken(files, numbered(w.fn, w.name, k)) {
          assert FirstFree(files, w, k, k);
        } else if FreeFrom(files, w, k + 1).Some? {
          var j :| k + 1 <= j < 100 && FirstFree(files, w, k + 1, j)
            && FreeFrom(files, w, k + 1).value == numbered(w.fn, w.name, j);
          assert FirstFree(files, w, k, j);
        }
      }
    }

    /** The short name as it is if it has lost nothing, else the first numbered one from 1 to 99 that is free. */
    lemma ShortName(files: map<Home, FileName>, w: Wanted)
      requires Lawful() && w.Proper()
      ensures !w.loss ==> ShortFor(files, w) == Some(w.fn)
      ensures w.loss ==>
        match ShortFor(files, w)
        case Some(s) => exists j :: 1 <= j < 100 && FirstFree(files, w, 1, j) && s == numbered(w.fn, w.name, j)
        case None => forall j :: 1 <= j < 100 ==> Taken(files, numbered(w.fn, w.name, j))
    {
      FreeName(files, w, 1);
    }

    /** The numbered name j is free, and those from k on before it are not. */
    ghost predicate FirstFree(files: map<Home, FileName>, w: Wanted, k: nat, j: nat) {
      && !Taken(files, numbered(w.fn, w.name, j))
      && forall i :: k <= i < j ==> Taken(files, numbered(w.fn, w.name, i))
    }
  }

  // ---- the entries of the files --------------------------------------------------------------------------

  /** A plain entry that is no directory and may be written to. */
  predicate IsFile(e: Entry) {
    IsPlain(e) && e[11] as int % 2 == 0 && e[11] as int / 16 % 2 == 0
  }

  /** The file's short entry is at k, those of its long name in front of it, or none of any long name. */
  ghost predicate FileAt(dirs: seq<Entry>, k: nat, x: FileName) {
    && k < |dirs| && IsFile(dirs[k]) && dirs[k][..11] == x.sfn && 0 <= x.First(k)
    && match x.title
       case None => k == 0 || !IsLong(dirs[k - 1])
       case Some(t) => Storable(t) && Stored(dirs, k - Entries(|t|), t, SumOf(x.sfn))
  }

  /** Entry i is one of the long name of the file at k. */
  predicate Owns(files: map<Home, FileName>, k: Home, i: nat) {
    k in files && files[k].First(k) <= i < k
  }

  /** Entries that were never used are only at the end. */
  predicate Compact(dirs: seq<Entry>) {
    forall i, j :: 0 <= i < j < |dirs| && dirs[i][0] == 0 ==> dirs[j][0] == 0
  }

  /** No two files have the same short name. */
  ghost predicate Distinct(files: map<Home, FileName>) {
    forall j, k :: j in files && k in files && j != k ==> files[j].sfn != files[k].sfn
  }

  /** Every plain entry is a file's, every entry of a long name belongs to one, and unused ones are only at the end. */
  ghost predicate Catalogued(dirs: seq<Entry>, files: map<Home, FileName>) {
    && Compact(dirs) && Distinct(files)
    && (forall k :: k in files ==> FileAt(dirs, k, files[k]))
    && (forall k :: 0 <= k < |dirs| && IsPlain(dirs[k]) ==> k in files)
    && (forall i :: 0 <= i < |dirs| && IsLong(dirs[i]) ==> exists k :: Owns(files, k, i))
  }

  // ---- the search finds what is meant ----------------------------------------------------------------------

  /** A name is looked for: the buffer holds it. */
  ghost predicate Asked(up: Wchar -> Wchar, buf: seq<Wchar>, m: seq<Wchar>) {
    Folding(up) && Buffered(buf, m) && forall i :: 0 <= i < |m| ==> m[i] != 0
  }

  /** A file's short entry answers exactly if its names do. */
  lemma FileAnswers(up: Wchar -> Wchar, buf: seq<Wchar>, q: Query, m: seq<Wchar>, dirs: seq<Entry>, k: nat, x: FileName)
    requires Asked(up, buf, m) && FileAt(dirs, k, x)
    ensures Answers(up, buf, q, dirs, k) <==> Means(up, q, m, x)
  {
    hide SumOf, Stored, PartMatches, IsLong, Alike, Begun, IsPlain;
    match x.title {
      case None => NothingBefore(up, buf, dirs, k);
      case Some(t) => FoundByName(up, buf, dirs, k - Entries(|t|), t, SumOf(x.sfn), m);
    }
  }

  lemma NothingBefore(up: Wchar -> Wchar, buf: seq<Wchar>, dirs: seq<Entry>, at: nat)
    requires at < |dirs| && (at == 0 || !IsLong(dirs[at - 1]))
    ensures !NameBefore(Matching(up, buf), dirs, at)
  {
    hide IsLong, Next;
    if NameBefore(Matching(up, buf), dirs, at) {
      var b: nat :| Begun(Matching(up, buf), dirs, b, at, SumOf(dirs[at][..11])) && Order(dirs[b]) == at - b;
      LongThere(up, buf, dirs, b, at, SumOf(dirs[at][..11]));
    }
  }

  /** Where unused entries are only at the end, the first answer is the first entry that answers. */
  lemma FirstCompact(up: Wchar -> Wchar, buf: seq<Wchar>, q: Query, dirs: seq<Entry>, at: nat)
    requires Compact(dirs)
    ensures FirstAnswer(up, buf, q, dirs, at) <==>
      at < |dirs| && Answers(up, buf, q, dirs, at) && forall e :: 0 <= e < at ==> !Answers(up, buf, q, dirs, e)
  {
    hide NameBefore;
  }

  /** What the search finds is the file that is meant. */
  lemma SearchFinds(up: Wchar -> Wchar, buf: seq<Wchar>, q: Query, m: seq<Wchar>, dirs: seq<Entry>,
                    files: map<Home, FileName>, at: nat)
    requires Asked(up, buf, m) && Catalogued(dirs, files) && FirstAnswer(up, buf, q, dirs, at)
    ensures at < |dirs| && FoundAs(up, q, m, files, at)
  {
    hide FirstAnswer, Asked, Means, FileAt, Compact, NameBefore, IsLong, Owns;
    FirstCompact(up, buf, q, dirs, at);
    FileAnswers(up, buf, q, m, dirs, at, files[at]);
    forall k | k in files && Means(up, q, m, files[k]) ensures at <= k {
      FileAnswers(up, buf, q, m, dirs, k, files[k]);
      FileThere(dirs, k, files[k]);
    }
  }

  lemma FileThere(dirs: seq<Entry>, k: nat, x: FileName)
    requires FileAt(dirs, k, x)
    ensures k < |dirs| && IsPlain(dirs[k])
  {
    hide Stored, IsPlain;
  }

  /** If it finds nothing, none is. */
  lemma SearchFails(up: Wchar -> Wchar, buf: seq<Wchar>, q: Query, m: seq<Wchar>, dirs: seq<Entry>,
                    files: map<Home, FileName>)
    requires Asked(up, buf, m) && Catalogued(dirs, files) && forall e :: !FirstAnswer(up, buf, q, dirs, e)
    ensures NotFound(up, q, m, files)
  {
    hide FirstAnswer, Asked, Means, FileAt, Compact, NameBefore, IsLong, Answers, IsPlain, Owns;
    NobodyAnswers(up, buf, q, dirs);
    forall k | k in files ensures !Means(up, q, m, files[k]) {
      FileThere(dirs, k, files[k]);
      FileAnswers(up, buf, q, m, dirs, k, files[k]);
    }
  }

  lemma NobodyAnswers(up: Wchar -> Wchar, buf: seq<Wchar>, q: Query, dirs: seq<Entry>)
    requires Compact(dirs) && forall e :: !FirstAnswer(up, buf, q, dirs, e)
    ensures forall e :: 0 <= e < |dirs| ==> !Answers(up, buf, q, dirs, e)
  {
    hide FirstAnswer, Answers;
    var k := 0;
    while k < |dirs|
      invariant k <= |dirs| && forall e :: 0 <= e < k ==> !Answers(up, buf, q, dirs, e)
    {
      FirstCompact(up, buf, q, dirs, k);
      k := k + 1;
    }
  }

  /** The block that dir_find reports for a file is all of its entries. */
  lemma BlockOfFile(dirs: seq<Entry>, files: map<Home, FileName>, k: Home)
    requires Catalogued(dirs, files) && k in files
    ensures k < |dirs| && 0 <= files[k].First(k) <= k
    ensures files[k].First(k) == match RunStart(dirs, k) case None => k as int case Some(b) => b
  {
    hide FileAt, Compact, Owns, IsPlain, IsLong, RunStart;
    FileBlock(dirs, k, files[k]);
  }

  lemma FileBlock(dirs: seq<Entry>, k: nat, x: FileName)
    requires FileAt(dirs, k, x)
    ensures k < |dirs| && 0 <= x.First(k) <= k
    ensures x.First(k) == match RunStart(dirs, k) case None => k as int case Some(b) => b
  {
    hide Stored, IsFile, SumOf, IsLong, LastFlag;
    match x.title {
      case None =>
      case Some(t) => BlockOfName(dirs, k - Entries(|t|), t, SumOf(x.sfn), k);
    }
  }

  lemma BlockOfName(dirs: seq<Entry>, q: nat, name: seq<Wchar>, sum: byte, at: nat)
    requires Storable(name) && Stored(dirs, q, name, sum) && q < at <= q + Entries(|name|)
    ensures RunStart(dirs, at) == Some(q)
  {
    hide Holds, IsLong, LastFlag;
    OrderOfPart(dirs[at - 1], name, q + Entries(|name|) - (at - 1), sum);
    if at - 1 > q { BlockOfName(dirs, q, name, sum, at - 1); }
  }

  // ---- what happens to a catalogue -------------------------------------------------------------------------

  /** The directories are the same but for the entries q to last. */
  predicate SameBut(dirs0: seq<Entry>, dirs: seq<Entry>, q: nat, last: int) {
    |dirs| == |dirs0| && forall i :: 0 <= i < |dirs| && !(q <= i <= last) ==> dirs[i] == dirs0[i]
  }

  /** The entries q to last are those of a file with these names. */
  ghost predicate BlockAt(dirs: seq<Entry>, q: nat, last: nat, x: FileName) {
    && q <= last < |dirs| && q == x.First(last) && IsFile(dirs[last]) && dirs[last][..11] == x.sfn
    && (x.title.Some? ==> Storable(x.title.value) && Stored(dirs, q, x.title.value, SumOf(x.sfn)))
  }

  /** The entries of a long name that begin at q are there as far as at; all else is as it was. */
  ghost predicate LongUpTo(dirs0: seq<Entry>, dirs: seq<Entry>, q: nat, at: nat, name: seq<Wchar>, sum: byte) {
    && q <= at <= q + Entries(|name|) && at <= |dirs| && SameBut(dirs0, dirs, q, at - 1)
    && forall i :: q <= i < at ==> Holds(dirs[i], name, q + Entries(|name|) - i, sum)
  }

  lemma LongMore(dirs0: seq<Entry>, dirs1: seq<Entry>, dirs: seq<Entry>, q: nat, at: nat, name: seq<Wchar>, sum: byte)
    requires LongUpTo(dirs0, dirs1, q, at, name, sum) && SameBut(dirs1, dirs, at, at)
    requires at < |dirs| && at < q + Entries(|name|) && Holds(dirs[at], name, q + Entries(|name|) - at, sum)
    ensures LongUpTo(dirs0, dirs, q, at + 1, name, sum)
  {
    hide Holds;
  }

  /** Everything of a new file is there but its short entry, in the first run of unused entries that is long enough. */
  ghost predicate Prepared(dirs0: seq<Entry>, dirs: seq<Entry>, at: nat, x: FileName) {
    && 0 <= x.First(at) <= at < |dirs| && FirstRoom(dirs0, at, at - x.First(at) + 1)
    && match x.title
       case None => dirs == dirs0
       case Some(t) => Storable(t) && LongUpTo(dirs0, dirs, x.First(at), at, t, SumOf(x.sfn))
  }

  lemma BlockFacts(dirs: seq<Entry>, q: nat, last: nat, x: FileName)
    requires BlockAt(dirs, q, last, x)
    ensures q <= last < |dirs| && q == x.First(last)
  {
    hide Stored, SumOf;
  }

  /** All entries of a long name are long ones, and what follows them is none. */
  lemma BlockKinds(dirs: seq<Entry>, k: nat, x: FileName)
    requires FileAt(dirs, k, x)
    ensures 0 <= x.First(k) <= k < |dirs| && !IsLong(dirs[k]) && IsPlain(dirs[k]) && IsFile(dirs[k]) && dirs[k][0] != 0
    ensures forall i: nat :: x.First(k) <= i < k ==> IsLong(dirs[i]) && !IsPlain(dirs[i]) && dirs[i][0] != 0
  {
    hide SumOf, Holds, IsLong, IsPlain;
    PlainNotUnused(dirs[k]);
    forall i: nat | x.First(k) <= i < k ensures IsLong(dirs[i]) && !IsPlain(dirs[i]) && dirs[i][0] != 0 {
      OrderOfPart(dirs[i], x.title.value, k - i, SumOf(x.sfn));
      LongNotPlain(dirs[i]);
    }
  }

  /** The block of one file has nothing of that of another. */
  lemma BlocksApart(dirs: seq<Entry>, j: nat, x: FileName, k: nat, y: FileName)
    requires FileAt(dirs, j, x) && FileAt(dirs, k, y) && j != k
    ensures j < y.First(k) || k < x.First(j)
  {
    BlockKinds(dirs, j, x);
    BlockKinds(dirs, k, y);
    hide FileAt, IsLong, IsPlain;
  }

  /** A file outside of what has changed stays, if no long entry comes to stand in front of it. */
  lemma FileStays(dirs0: seq<Entry>, dirs: seq<Entry>, q: nat, last: nat, k: nat, x: FileName)
    requires FileAt(dirs0, k, x) && SameBut(dirs0, dirs, q, last) && (k < q || last < x.First(k))
    requires k == last + 1 ==> !IsLong(dirs[last])
    ensures FileAt(dirs, k, x)
  {
    hide SumOf, Holds, IsLong, IsFile, Short;
    BlockKinds(dirs0, k, x);
  }

  /** A block written into the first run of unused entries that is long enough adds a file. */
  lemma CataloguedAdded(dirs0: seq<Entry>, dirs: seq<Entry>, files: map<Home, FileName>, q: nat, last: nat, x: FileName)
    requires Catalogued(dirs0, files) && BlockAt(dirs, q, last, x) && !Taken(files, x.sfn)
    requires SameBut(dirs0, dirs, q, last) && FirstRoom(dirs0, last, last - q + 1)
    ensures last !in files && Catalogued(dirs, files[last := x])
  {
    hide SumOf, Stored, Storable, IsLong, IsPlain, IsFile, Unused, Compact, FileAt, SameBut, BlockAt, Owns;
    ghost var more := files[last := x];
    BlockFacts(dirs, q, last, x);
    AddedUnused(dirs0, q, last);
    AddedFile(dirs0, dirs, files, q, last, x);
    AddedCompact(dirs0, dirs, q, last, x);
    forall k | k in files ensures k != last && FileAt(dirs, k, files[k]) {
      BlockKinds(dirs0, k, files[k]);
      PlainNotUnused(dirs0[k]);
      OldFile(dirs0, dirs, q, last, k, files[k], x);
    }
    forall k | 0 <= k < |dirs| && IsPlain(dirs[k]) ensures k in more {
      AddedPlain(dirs0, dirs, q, last, x, k);
    }
    forall i | 0 <= i < |dirs| && IsLong(dirs[i]) ensures exists k :: Owns(more, k, i) {
      AddedLong(dirs0, dirs, files, more, q, last, x, i);
    }
  }

  lemma AddedUnused(dirs0: seq<Entry>, q: nat, last: nat)
    requires q <= last && FirstRoom(dirs0, last, last - q + 1)
    ensures last < |dirs0| && forall i :: q <= i <= last ==> Unused(dirs0[i]) && !IsPlain(dirs0[i]) && !IsLong(dirs0[i])
  {
    hide IsPlain, IsLong, Unused;
    forall i | q <= i <= last ensures !IsPlain(dirs0[i]) && !IsLong(dirs0[i]) { UnusedKind(dirs0[i]); }
  }

  /** The new file is there; nothing of a long name can stand in front of it but its own. */
  lemma AddedFile(dirs0: seq<Entry>, dirs: seq<Entry>, files: map<Home, FileName>, q: nat, last: nat, x: FileName)
    requires Catalogued(dirs0, files) && BlockAt(dirs, q, last, x) && SameBut(dirs0, dirs, q, last)
    requires forall i :: q <= i <= last ==> !IsPlain(dirs0[i]) && !IsLong(dirs0[i])
    ensures FileAt(dirs, last, x) && last !in files
  {
    hide SumOf, Stored, Storable, IsLong, IsPlain, IsFile, Unused, Compact, FileAt;
    forall k | k in files ensures k != last { BlockKinds(dirs0, k, files[k]); }
    BlockFacts(dirs, q, last, x);
    if last > 0 { NoneInFront(dirs0, files, last - 1); }
    NewFile(dirs, q, last, x);
  }

  /** In front of an unused entry there is none of a long name. */
  lemma NoneInFront(dirs: seq<Entry>, files: map<Home, FileName>, i: nat)
    requires Catalogued(dirs, files) && i + 1 < |dirs| && !IsPlain(dirs[i + 1]) && !IsLong(dirs[i + 1])
    ensures !IsLong(dirs[i])
  {
    hide IsPlain, IsLong, Compact, FileAt;
    if IsLong(dirs[i]) {
      var k :| Owns(files, k, i);
      BlockKinds(dirs, k, files[k]);
    }
  }

  lemma NewFile(dirs: seq<Entry>, q: nat, last: nat, x: FileName)
    requires BlockAt(dirs, q, last, x) && (q == last && last > 0 ==> !IsLong(dirs[last - 1]))
    ensures FileAt(dirs, last, x)
  {
    hide SumOf, Stored, IsLong, IsFile;
    if x.title.Some? { assert Storable(x.title.value) && Entries(|x.title.value|) >= 1; }
  }

  lemma AddedPlain(dirs0: seq<Entry>, dirs: seq<Entry>, q: nat, last: nat, x: FileName, k: nat)
    requires SameBut(dirs0, dirs, q, last) && FileAt(dirs, last, x) && q == x.First(last) && k < |dirs|
    ensures |dirs| == |dirs0| && (IsPlain(dirs[k]) ==> k == last || IsPlain(dirs0[k]))
  {
    BlockKinds(dirs, last, x);
    hide FileAt, IsPlain, IsLong;
  }

  /** A file that was there stays. */
  lemma OldFile(dirs0: seq<Entry>, dirs: seq<Entry>, q: nat, last: nat, k: nat, y: FileName, x: FileName)
    requires FileAt(dirs0, k, y) && SameBut(dirs0, dirs, q, last) && FileAt(dirs, last, x) && q <= last < |dirs0|
    requires !IsLong(dirs0[last]) && forall i :: q <= i <= last ==> !IsPlain(dirs0[i]) && !IsLong(dirs0[i])
    ensures FileAt(dirs, k, y)
  {
    BlockKinds(dirs0, k, y);
    BlockKinds(dirs, last, x);
    hide FileAt, IsPlain, IsLong;
    FileStays(dirs0, dirs, q, last, k, y);
  }

  lemma AddedLong(dirs0: seq<Entry>, dirs: seq<Entry>, files: map<Home, FileName>, more: map<Home, FileName>, q: nat,
                  last: nat, x: FileName, i: nat)
    requires Catalogued(dirs0, files) && SameBut(dirs0, dirs, q, last) && FileAt(dirs, last, x) && q == x.First(last)
    requires last !in files && i < |dirs| && IsLong(dirs[i]) && more == files[last := x]
    ensures exists k :: Owns(more, k, i)
  {
    hide FileAt, IsPlain, Compact, IsLong;
    BlockKinds(dirs, last, x);
    if q <= i <= last {
      assert Owns(more, last, i);
    } else {
      assert IsLong(dirs0[i]);
      var k :| Owns(files, k, i);
      assert Owns(more, k, i);
    }
  }

  /** The first run of unused entries begins no later than the part that was never used, which stays at the end. */
  lemma AddedCompact(dirs0: seq<Entry>, dirs: seq<Entry>, q: nat, last: nat, x: FileName)
    requires SameBut(dirs0, dirs, q, last) && FileAt(dirs, last, x) && q == x.First(last) && Compact(dirs0)
    requires FirstRoom(dirs0, last, last - q + 1)
    ensures Compact(dirs)
  {
    BlockKinds(dirs, last, x);
    hide FileAt, Unused, IsPlain, IsLong;
    forall i | 0 <= i < q ensures dirs0[i][0] != 0 {
      if dirs0[i][0] == 0 { ZerosAreRoom(dirs0, i, last - q); }
    }
    forall i, j | 0 <= i < j < |dirs| && dirs[i][0] == 0 ensures dirs[j][0] == 0 {
      assert dirs0[i][0] == 0;
    }
  }

  /** The short entry completes it. */
  lemma CataloguedNew(dirs0: seq<Entry>, dirs1: seq<Entry>, dirs: seq<Entry>, files: map<Home, FileName>, at: nat,
                      x: FileName)
    requires Catalogued(dirs0, files) && Prepared(dirs0, dirs1, at, x) && SameBut(dirs1, dirs, at, at)
    requires at < |dirs| && IsFile(dirs[at]) && dirs[at][..11] == x.sfn && !Taken(files, x.sfn) && GoodFirst(x.sfn[0])
    ensures at !in files && Catalogued(dirs, files[at := x])
  {
    hide Catalogued, IsFile, Holds, SumOf, FirstRoom, Short, Storable;
    assert dirs[at][..11][0] == dirs[at][0];
    FileShort(dirs[at]);
    CataloguedAdded(dirs0, dirs, files, x.First(at), at, x);
  }

  lemma PreparedFree(dirs0: seq<Entry>, dirs: seq<Entry>, files: map<Home, FileName>, at: nat, x: FileName)
    requires Catalogued(dirs0, files) && Prepared(dirs0, dirs, at, x)
    ensures at !in files
  {
    hide LongUpTo, IsPlain, IsLong, FileAt;
    AddedUnused(dirs0, x.First(at), at);
    if at in files { BlockKinds(dirs0, at, files[at]); }
  }

  lemma ZerosAreRoom(dirs: seq<Entry>, i: nat, n: nat)
    requires Compact(dirs) && i + n < |dirs| && dirs[i][0] == 0
    ensures Room(dirs, i + n, n + 1)
  {
  }

  /** The entries q to last are marked as deleted, and no others have changed. */
  predicate Erased(dirs0: seq<Entry>, dirs: seq<Entry>, q: int, last: int) {
    && |dirs| == |dirs0|
    && forall i :: 0 <= i < |dirs| ==> dirs[i] == if q <= i <= last then dirs0[i][0 := 0xE5] else dirs0[i]
  }

  lemma ErasedMore(dirs0: seq<Entry>, dirs1: seq<Entry>, dirs: seq<Entry>, q: nat, k: nat)
    requires q <= k < |dirs0| && Erased(dirs0, dirs1, q, k - 1)
    requires SameBut(dirs1, dirs, k, k) && dirs[k] == dirs1[k][0 := DDEM]
    ensures Erased(dirs0, dirs, q, k)
  {
  }

  /** Marking all entries of a file as deleted removes it, and no other. */
  lemma CataloguedRemoved(dirs0: seq<Entry>, dirs: seq<Entry>, files: map<Home, FileName>, n: Home)
    requires Catalogued(dirs0, files) && n in files && Erased(dirs0, dirs, files[n].First(n), n)
    ensures Catalogued(dirs, files - {n})
  {
    hide FileAt, IsLong, IsPlain, Unused, Compact;
    var rest, q := files - {n}, files[n].First(n);
    BlockKinds(dirs0, n, files[n]);
    RemovedCompact(dirs0, dirs, q, n);
    forall i | q <= i <= n ensures !IsLong(dirs[i]) && !IsPlain(dirs[i]) {
      UnusedKind(dirs[i]) by { assert dirs[i][0] as int == DDEM; }
    }
    forall k | k in rest ensures FileAt(dirs, k, rest[k]) {
      BlocksApart(dirs0, k, files[k], n, files[n]);
      FileStays(dirs0, dirs, q, n, k, files[k]);
    }
    forall i | 0 <= i < |dirs| && IsLong(dirs[i]) ensures exists k :: Owns(rest, k, i) {
      assert IsLong(dirs0[i]);
      var k :| Owns(files, k, i);
      assert Owns(rest, k, i);
    }
  }

  lemma RemovedCompact(dirs0: seq<Entry>, dirs: seq<Entry>, q: nat, last: nat)
    requires Compact(dirs0) && Erased(dirs0, dirs, q, last) && q <= last < |dirs|
    requires forall i :: q <= i <= last ==> dirs0[i][0] != 0
    ensures Compact(dirs)
  {
  }

  /** The entry stays what it was, under the same name. */
  predicate Touched(e: Entry, d: Entry) {
    d[..11] == e[..11] && (d[LDIR_ATTR] == e[LDIR_ATTR] || d[LDIR_ATTR] as int == e[LDIR_ATTR] as int + 0x20)
  }

  lemma TouchedKind(e: Entry, d: Entry)
    requires Touched(e, d)
    ensures (IsFile(d) <==> IsFile(e)) && (IsPlain(d) <==> IsPlain(e)) && d[0] == e[0]
  {
    assert d[..11][0] == e[..11][0];
    var a := e[LDIR_ATTR] as int;
    if d[LDIR_ATTR] as int == a + 0x20 { Bits(a); }
  }

  lemma Bits(a: nat)
    ensures (a + 0x20) % 2 == a % 2 && (a + 0x20) / 8 % 2 == a / 8 % 2 && (a + 0x20) / 0x10 % 2 == a / 0x10 % 2
  {
    Eighth(a + 0x20, a / 8 + 4, a % 8);
    Sixteenth(a + 0x20, a / 0x10 + 2, a % 0x10);
    EvenPart(0x10, a);
    EvenPart(2, a / 8);
    EvenPart(1, a / 0x10);
  }

  lemma Eighth(x: nat, q: nat, r: nat)
    requires x == 8 * q + r && r < 8
    ensures x / 8 == q
  {
  }

  lemma Sixteenth(x: nat, q: nat, r: nat)
    requires x == 0x10 * q + r && r < 0x10
    ensures x / 0x10 == q
  {
  }

  /** Writing to a file keeps the catalogue. */
  lemma CataloguedTouched(dirs0: seq<Entry>, dirs: seq<Entry>, files: map<Home, FileName>, n: Home)
    requires Catalogued(dirs0, files) && n in files && SameBut(dirs0, dirs, n, n) && n < |dirs|
    requires Touched(dirs0[n], dirs[n])
    ensures Catalogued(dirs, files)
  {
    hide FileAt, IsLong, IsPlain, Owns, Touched, IsFile;
    TouchedKind(dirs0[n], dirs[n]);
    BlockKinds(dirs0, n, files[n]);
    PlainNotUnused(dirs[n]);
    forall k | k in files ensures FileAt(dirs, k, files[k]) {
      if k == n {
        SameFile(dirs0, dirs, n, files[n]);
      } else {
        BlocksApart(dirs0, k, files[k], n, files[n]);
        BlockKinds(dirs0, n, files[n]);
        FileStays(dirs0, dirs, n, n, k, files[k]);
      }
    }
  }

  lemma SameFile(dirs0: seq<Entry>, dirs: seq<Entry>, n: nat, x: FileName)
    requires FileAt(dirs0, n, x) && SameBut(dirs0, dirs, n, n) && Touched(dirs0[n], dirs[n]) && IsFile(dirs[n])
    ensures FileAt(dirs, n, x)
  {
    hide SumOf, Holds, IsLong, IsFile, Short;
    if x.title.Some? { TouchedShort(dirs0[n], dirs[n]); }
  }

  lemma TouchedShort(e: Entry, d: Entry)
    requires Touched(e, d) && IsFile(d) && Short(e)
    ensures Short(d)
  {
    assert d[..11][0] == e[..11][0];
    FileShort(d);
  }

  lemma FileShort(d: Entry)
    requires IsFile(d) && d[0] != 0x2E
    ensures Short(d)
  {
    VolumeBit(d[LDIR_ATTR]);
    NoLabel(d[LDIR_ATTR] as int % (AM_MASK + 1));
  }

  lemma NoLabel(a: nat)
    requires a < 64 && a / AM_VOL % 2 == 0
    ensures !Label(a) && a != AM_LFN
  {
  }

  /** So does giving the directory more entries that were never used. */
  lemma CataloguedLonger(dirs0: seq<Entry>, dirs: seq<Entry>, files: map<Home, FileName>)
    requires Catalogued(dirs0, files) && dirs0 <= dirs
    requires forall i :: |dirs0| <= i < |dirs| ==> dirs[i][0] == 0
    ensures Catalogued(dirs, files)
  {
    hide FileAt, IsLong, IsPlain, Owns;
    forall i | |dirs0| <= i < |dirs| ensures !IsLong(dirs[i]) && !IsPlain(dirs[i]) { UnusedKind(dirs[i]); }
    forall k | k in files ensures FileAt(dirs, k, files[k]) { FileLonger(dirs0, dirs, k, files[k]); }
    forall k | 0 <= k < |dirs| && IsPlain(dirs[k]) ensures k in files { assert dirs[k] == dirs0[k]; }
    forall i | 0 <= i < |dirs| && IsLong(dirs[i]) ensures exists k :: Owns(files, k, i) { assert dirs[i] == dirs0[i]; }
  }

  lemma FileLonger(dirs0: seq<Entry>, dirs: seq<Entry>, k: nat, x: FileName)
    requires FileAt(dirs0, k, x) && dirs0 <= dirs
    ensures FileAt(dirs, k, x)
  {
    hide SumOf, Holds, IsLong, IsFile, Short;
    BlockKinds(dirs0, k, x);
  }

  /** A directory that was never used has no files. */
  lemma CataloguedFresh(dirs: seq<Entry>)
    requires forall i :: 0 <= i < |dirs| ==> dirs[i][0] == 0
    ensures Catalogued(dirs, map[])
  {
    hide IsLong, IsPlain;
    forall i | 0 <= i < |dirs| ensures !IsLong(dirs[i]) && !IsPlain(dirs[i]) { UnusedKind(dirs[i]); }
  }
}
