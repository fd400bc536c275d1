/**
 * The allocation table as a flat array of cluster numbers: what a cyclic search for a free cluster finds, and what
 * following and freeing a chain does to a table with any contents.
 */
module FatTable {

  const INT_ERROR: nat := 1

  type Dword = d: nat | d <= 0xFFFF_FFFF

  /** The free count that stands for "not known". */
  const UNKNOWN: Dword := 0xFFFF_FFFF

  predicate InRange(f: seq<nat>, c: int) { 2 <= c < |f| }

  // ---- the cyclic search -------------------------------------------------------------------------

  /** How many steps after `hint` the search reaches cluster c (n table entries, clusters 2..n-1). */
  function Dist(n: nat, hint: nat, c: int): int {
    if c > hint then c - hint else c - hint + n - 2
  }

  /** A cluster the search stops at: a free one, or one whose entry is the illegal value 1. */
  predicate Stops(f: seq<nat>, c: int) { InRange(f, c) && f[c] <= 1 }

  /** r is where the search stops first. */
  ghost predicate FirstStop(f: seq<nat>, hint: nat, r: int) {
    && Stops(f, r)
    && forall c :: Stops(f, c) ==> Dist(|f|, hint, r) <= Dist(|f|, hint, c)
  }

  /** What create_chain answers once it has to search: 0 disk full, 1 broken table, otherwise the cluster. */
  ghost predicate Searched(f: seq<nat>, hint: nat, ret: nat) {
    if ret == 0 then forall c :: InRange(f, c) ==> f[c] > 1
    else if ret == 1 then exists r :: FirstStop(f, hint, r) && f[r] == 1
    else FirstStop(f, hint, ret) && f[ret] == 0
  }

  lemma FoundFree(f: seq<nat>, hint: nat, ret: nat)
    ensures Searched(f, hint, ret) && ret >= 2 ==> InRange(f, ret) && f[ret] == 0
  {
  }

  /** No cluster is free. */
  ghost predicate Full(f: seq<nat>) { forall c :: InRange(f, c) ==> f[c] > 1 }

  /** Some entry has the illegal value 1. */
  ghost predicate Broken(f: seq<nat>) { exists c :: InRange(f, c) && f[c] == 1 }

  lemma SearchFailed(f: seq<nat>, last: nat, clst: nat, ret: nat)
    requires Answer(f, last, clst, ret) && ret <= 1 && (clst != 0 ==> InRange(f, clst) && f[clst] >= 2)
    ensures if ret == 0 then Full(f) else Broken(f)
  {
    var hint := if clst == 0 then StartHint(|f|, last) else clst;
    assert Searched(f, hint, ret);
    if ret == 1 {
      var r :| FirstStop(f, hint, r) && f[r] == 1;
    }
  }

  /** Nothing to stop at within d steps of the hint. */
  ghost predicate Scanned(f: seq<nat>, hint: nat, d: int) {
    forall c :: InRange(f, c) && Dist(|f|, hint, c) <= d ==> f[c] > 1
  }

  /** One step of the search: the next cluster either is the first stop, or is passed. */
  lemma ScanStep(f: seq<nat>, hint: nat, c: nat, d: nat)
    requires 1 <= hint < |f| && InRange(f, c) && Dist(|f|, hint, c) == d + 1 && Scanned(f, hint, d)
    ensures if f[c] <= 1 then FirstStop(f, hint, c) else Scanned(f, hint, d + 1)
  {
    forall b | InRange(f, b) && Dist(|f|, hint, b) == d + 1 ensures b == c {
    }
  }

  /** After a full turn there is nothing left. */
  lemma ScanDone(f: seq<nat>, hint: nat, d: nat)
    requires 1 <= hint < |f| && Scanned(f, hint, d) && d >= |f| - 2
    ensures Searched(f, hint, 0)
  {
  }

  /** The search order visits distinct clusters at distinct distances, so the outcome is determined by the table. */
  lemma SearchedUnique(f: seq<nat>, hint: nat, a: nat, b: nat)
    requires 1 <= hint < |f| && Searched(f, hint, a) && Searched(f, hint, b)
    ensures a == b
  {
    if a > 1 && b > 1 {
      assert Dist(|f|, hint, a) == Dist(|f|, hint, b);
    }
  }

  /**
   * On a table without the value 1, the answer is 0 exactly when nothing is free, else the free cluster nearest after
   * the hint.
   */
  lemma SearchComplete(f: seq<nat>, hint: nat, ret: nat)
    requires 1 <= hint < |f| && Searched(f, hint, ret)
    requires forall c :: InRange(f, c) ==> f[c] != 1
    ensures ret == 0 <==> forall c :: InRange(f, c) ==> f[c] != 0
    ensures ret != 0 ==> InRange(f, ret) && f[ret] == 0
    ensures ret != 0 ==>
      forall c :: InRange(f, c) && f[c] == 0 && c != ret ==> Dist(|f|, hint, ret) < Dist(|f|, hint, c)
  {
    if ret != 0 {
      assert ret != 1;
      forall c | InRange(f, c) && f[c] == 0 && c != ret ensures Dist(|f|, hint, ret) < Dist(|f|, hint, c) {
        assert Stops(f, c);
      }
    } else {
      forall c | InRange(f, c) ensures f[c] != 0 { assert f[c] > 1; }
    }
  }

  /** The table once cluster ncl ends a chain, linked from clst unless that is 0. */
  function Linked(f: seq<nat>, clst: nat, ncl: nat, eoc: nat): (g: seq<nat>)
    requires InRange(f, ncl) && (clst != 0 ==> InRange(f, clst))
    ensures |g| == |f|
  {
    if clst == 0 then f[ncl := eoc] else f[ncl := eoc][clst := ncl]
  }

  /** The new cluster ends its chain, the one given links to it, and no other entry changes. */
  lemma LinkedEntries(f: seq<nat>, clst: nat, ncl: nat, eoc: nat)
    requires InRange(f, ncl) && (clst != 0 ==> InRange(f, clst) && clst != ncl)
    ensures var g := Linked(f, clst, ncl, eoc);
            && g[ncl] == eoc && (clst != 0 ==> g[clst] == ncl)
            && forall c :: 0 <= c < |f| && c != ncl && c != clst ==> g[c] == f[c]
  {
  }

  /** Where create_chain starts to search for a new chain: the last allocation if that is a cluster. */
  function StartHint(n: nat, last: nat): nat {
    if last == 0 || last >= n then 1 else last
  }

  /** What create_chain(clst) answers on table f: follow a link, report a broken one, or search. */
  ghost predicate Answer(f: seq<nat>, last: nat, clst: nat, ncl: nat) {
    if clst != 0 && (!InRange(f, clst) || f[clst] < 2) then ncl == INT_ERROR
    else if clst != 0 && f[clst] < |f| then ncl == f[clst]
    else Searched(f, if clst == 0 then StartHint(|f|, last) else clst, ncl)
  }

  /** Going up from `from`, and on from cluster 2 after the last, every cluster before c is in use. */
  ghost predicate Passed(f: seq<nat>, from: nat, c: nat) {
    if from < c <= |f| then forall d :: from < d < c ==> f[d] > 1
    else (forall d :: from < d < |f| ==> f[d] > 1) && forall d :: 2 <= d < c && d < |f| ==> f[d] > 1
  }

  /** ncl is the free cluster next above `from`, going on from 2 after the last one; 0 if all are in use. */
  ghost predicate NextFree(f: seq<nat>, from: nat, ncl: nat) {
    if ncl == 0 then forall c :: 2 <= c < |f| ==> f[c] > 1
    else if ncl == 1 then exists c :: 2 <= c < |f| && f[c] == 1 && Passed(f, from, c)
    else ncl < |f| && f[ncl] == 0 && Passed(f, from, ncl)
  }

  /** What the search answers is the next free cluster in wrapping order. */
  lemma SearchMeans(f: seq<nat>, from: nat, ncl: nat)
    requires 1 <= from < |f| && Searched(f, from, ncl)
    ensures NextFree(f, from, ncl)
  {
    if ncl == 1 {
      var r :| FirstStop(f, from, r) && f[r] == 1;
      StopPassed(f, from, r);
    } else if ncl >= 2 {
      StopPassed(f, from, ncl);
    }
  }

  lemma StopPassed(f: seq<nat>, from: nat, r: nat)
    requires 1 <= from < |f| && FirstStop(f, from, r)
    ensures Passed(f, from, r)
  {
    forall d | 2 <= d < |f| && Dist(|f|, from, d) < Dist(|f|, from, r) ensures f[d] > 1 {
      assert !Stops(f, d);
    }
  }

  /** Whether create_chain(clst), answering ncl, had to take a free cluster. */
  predicate Takes(f: seq<nat>, clst: nat, ncl: nat) {
    ncl >= 2 && (clst == 0 || (InRange(f, clst) && f[clst] >= |f|))
  }

  /** The free count after taking a cluster; an unknown or impossible count stays as it is. */
  function FreeBefore(n: nat, free: Dword): (r: Dword)
    requires 2 <= n <= UNKNOWN
    ensures if free > n - 2 then r == free else (r + 1) % 0x1_0000_0000 == free
  {
    if free > n - 2 then free else if free == 0 then UNKNOWN else free - 1
  }

  /** The free count after giving k clusters back; it stops at the number of clusters. */
  function FreeAfter(n: nat, free: Dword, k: nat): (r: Dword)
    requires 2 <= n <= UNKNOWN
    ensures free > n - 2 ==> r == free
    ensures free <= n - 2 ==> r <= n - 2 && (r == free + k || (r == n - 2 < free + k))
  {
    if free >= n - 2 then free else if free + k <= n - 2 then free + k else n - 2
  }

  // ---- counting free clusters --------------------------------------------------------------------

  function Zeros(s: seq<nat>): (k: nat)
    ensures k <= |s|
  {
    if s == [] then 0 else Zeros(s[..|s| - 1]) + (if s[|s| - 1] == 0 then 1 else 0)
  }

  /** The number of free clusters a table describes. */
  function FreeCount(f: seq<nat>): (k: nat)
    requires |f| >= 2
    ensures k <= |f| - 2
  {
    Zeros(f[2..])
  }

  lemma {:induction false} ZerosUpdate(s: seq<nat>, i: nat, v: nat)
    requires i < |s|
    ensures Zeros(s[i := v]) == Zeros(s) + (if v == 0 then 1 else 0) - (if s[i] == 0 then 1 else 0)
  {
    var last := |s| - 1;
    if i == last {
      assert s[i := v][..last] == s[..last];
    } else {
      ZerosUpdate(s[..last], i, v);
      assert s[i := v][..last] == s[..last][i := v];
    }
  }

  lemma FreeCountUpdate(f: seq<nat>, c: nat, v: nat)
    requires InRange(f, c)
    ensures FreeCount(f[c := v]) == FreeCount(f) + (if v == 0 then 1 else 0) - (if f[c] == 0 then 1 else 0)
  {
    assert f[c := v][2..] == f[2..][c - 2 := v];
    ZerosUpdate(f[2..], c - 2, v);
  }

  // ---- freeing a chain ---------------------------------------------------------------------------

  datatype Removal = Removal(fat: seq<nat>, freed: nat, sound: bool)

  /** remove_chain's walk over a table with any contents; it ends because every step that goes on zeroes an entry. */
  function FreeFrom(f: seq<nat>, c: nat): (r: Removal)
    requires InRange(f, c)
    ensures |r.fat| == |f|
    decreases |f| - 2 - FreeCount(f)
  {
    if f[c] == 0 then Removal(f, 0, true)
    else if f[c] == 1 then Removal(f, 0, false)
    else
      FreeCountUpdate(f, c, 0);
      if f[c] >= |f| then Removal(f[c := 0], 1, true)
      else
        var r := FreeFrom(f[c := 0], f[c]);
        r.(freed := r.freed + 1)
  }

  /** Whatever the table holds, the walk only turns non-zero entries into zeros, exactly as many as it counts. */
  lemma {:induction false} FreeFromOnlyFrees(f: seq<nat>, c: nat)
    requires InRange(f, c)
    ensures var r := FreeFrom(f, c);
            && (forall d :: 0 <= d < |f| ==> r.fat[d] == f[d] || (r.fat[d] == 0 && InRange(f, d)))
            && FreeCount(r.fat) == FreeCount(f) + r.freed
            && (r.sound && f[c] != 0 ==> r.fat[c] == 0)
    decreases |f| - 2 - FreeCount(f)
  {
    if f[c] <= 1 {
    } else {
      FreeCountUpdate(f, c, 0);
      if f[c] < |f| {
        FreeFromOnlyFrees(f[c := 0], f[c]);
      }
    }
  }

  /** p is the way the walk takes from c: distinct clusters, each linked to the next, with entries that go on. */
  ghost predicate Walk(f: seq<nat>, c: nat, p: seq<nat>) {
    && (forall i :: 0 <= i < |p| ==> InRange(f, p[i]) && f[p[i]] >= 2)
    && (forall i, j :: 0 <= i < j < |p| ==> p[i] != p[j])
    && (p != [] ==> p[0] == c)
    && (forall i {:trigger f[p[i]]} :: 0 <= i < |p| - 1 ==> f[p[i]] == p[i + 1])
  }

  /** Where the walk has got to once it has freed p. */
  function Reached(f: seq<nat>, c: nat, p: seq<nat>): nat
    requires p != [] ==> InRange(f, p[|p| - 1])
  {
    if p == [] then c else f[p[|p| - 1]]
  }

  lemma ShortWalks(f: seq<nat>, c: nat)
    requires InRange(f, c)
    ensures Walk(f, c, []) && (f[c] >= 2 ==> Walk(f, c, [c]))
  {
  }

  /** Freeing c and going on. */
  lemma WalkOn(f: seq<nat>, c: nat, q: seq<nat>)
    requires InRange(f, c) && f[c] >= 2 && Walk(f[c := 0], f[c], q)
    ensures Walk(f, c, [c] + q)
    ensures Reached(f, c, [c] + q) == Reached(f[c := 0], f[c], q)
    ensures forall d :: d in [c] + q <==> d == c || d in q
  {
    var g, p := f[c := 0], [c] + q;
    forall i | 0 <= i < |p| ensures InRange(f, p[i]) && f[p[i]] >= 2 && (i > 0 ==> p[i] != c && p[i] == q[i - 1]) {
      assert i > 0 ==> g[q[i - 1]] >= 2;
    }
    forall i {:trigger f[p[i]]} | 0 <= i < |p| - 1 ensures f[p[i]] == p[i + 1] {
      assert i > 0 ==> g[q[i - 1]] == q[i];
    }
  }

  /**
   * Whatever the table holds, the walk frees the clusters of one way and nothing else. It stops behind an end mark, at
   * a cluster that is free or that it has freed itself, or with an error at an entry 1.
   */
  lemma {:induction false} FreeFromWalk(f: seq<nat>, c: nat) returns (p: seq<nat>)
    requires InRange(f, c)
    ensures Walk(f, c, p)
    ensures var e, r := Reached(f, c, p), FreeFrom(f, c);
            && r.freed == |p|
            && (forall d :: 0 <= d < |f| ==> r.fat[d] == if d in p then 0 else f[d])
            && (if r.sound then e >= |f| || e in p || (InRange(f, e) && f[e] == 0)
                else InRange(f, e) && e !in p && f[e] == 1)
    decreases |f| - 2 - FreeCount(f)
  {
    hide Walk;
    ShortWalks(f, c);
    if f[c] <= 1 {
      p := [];
    } else {
      FreeCountUpdate(f, c, 0);
      var g := f[c := 0];
      if f[c] < |f| {
        var q := FreeFromWalk(g, f[c]);
        p := [c] + q;
        WalkOn(f, c, q);
      } else {
        p := [c];
      }
    }
  }

  // ---- chains ------------------------------------------------------------------------------------

  /** ch is a list of distinct clusters, each entry naming the next and the last one an end mark. */
  predicate IsChain(f: seq<nat>, ch: seq<nat>) {
    && (forall i :: 0 <= i < |ch| ==> InRange(f, ch[i]))
    && (forall i, j :: 0 <= i < j < |ch| ==> ch[i] != ch[j])
    && (forall i {:trigger f[ch[i]]} :: 0 <= i < |ch| - 1 ==> f[ch[i]] == ch[i + 1])
    && (ch != [] ==> f[ch[|ch| - 1]] >= |f|)
  }

  /** On a proper chain, remove_chain frees exactly its clusters, all of them, and touches no other entry. */
  lemma {:induction false} FreeFromChain(f: seq<nat>, ch: seq<nat>)
    requires ch != [] && IsChain(f, ch)
    ensures var r := FreeFrom(f, ch[0]);
            && r.sound && r.freed == |ch|
            && (forall d :: 0 <= d < |f| ==> r.fat[d] == if d in ch then 0 else f[d])
    decreases |ch|
  {
    var g := f[ch[0] := 0];
    FreeCountUpdate(f, ch[0], 0);
    if |ch| > 1 {
      var tail := ch[1..];
      assert IsChain(g, tail) by {
        assert forall i :: 0 <= i < |tail| ==> tail[i] == ch[i + 1];
        assert tail[|tail| - 1] == ch[|ch| - 1];
      }
      FreeFromChain(g, tail);
      assert ch == [ch[0]] + tail;
    } else {
      assert ch == [ch[0]];
    }
  }

  /** Two chains that start at the same cluster are the same chain. */
  lemma {:induction false} ChainUnique(f: seq<nat>, a: seq<nat>, b: seq<nat>, k: nat)
    requires IsChain(f, a) && IsChain(f, b) && a != [] && b != [] && a[0] == b[0]
    requires k <= |a|
    ensures k <= |b| && a[..k] == b[..k]
  {
    if k <= 1 {
    } else {
      ChainUnique(f, a, b, k - 1);
      assert a[..k - 1][k - 2] == b[..k - 1][k - 2];
      assert f[a[k - 2]] == a[k - 1];
    }
  }
}
