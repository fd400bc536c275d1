/**
 * Well-formed tables: every used cluster lies on exactly one chain, and no step of the allocator can break that. The
 * chains are given by their first clusters, which is how directory entries hold them.
 */
module FatChains {
  import opened FatTable

  type Chains = map<nat, seq<nat>>

  ghost predicate WellFormed(f: seq<nat>, m: Chains) {
    && (forall h :: h in m ==> m[h] != [] && m[h][0] == h && IsChain(f, m[h]))
    && Disjoint(m)
    && (forall c :: InRange(f, c) && f[c] != 0 ==> Owned(m, c))
  }

  ghost predicate Disjoint(m: Chains) {
    forall g, h :: g in m && h in m && g != h ==> Apart(m[g], m[h])
  }

  ghost predicate Apart(a: seq<nat>, b: seq<nat>) {
    forall c :: c in a ==> c !in b
  }

  ghost predicate Owned(m: Chains, c: nat) {
    exists h :: h in m && c in m[h]
  }

  // ---- what well-formedness says about single entries --------------------------------------------

  /** Each entry is free, an end mark, or the number of a cluster in use; no cluster has two predecessors. */
  lemma EntriesSound(f: seq<nat>, m: Chains)
    requires WellFormed(f, m)
    ensures forall c :: InRange(f, c) && f[c] != 0 && f[c] < |f| ==> InRange(f, f[c]) && f[f[c]] != 0
    ensures forall c, d :: InRange(f, c) && InRange(f, d) && f[c] == f[d] && f[c] != 0 && f[c] < |f| ==> c == d
  {
    hide WellFormed, IsChain;
    forall c | InRange(f, c) && f[c] != 0 && f[c] < |f| ensures InRange(f, f[c]) && f[f[c]] != 0 {
      var h, i := Locate(f, m, c);
      ChainAt(f, m, h);
      Used(f, m[h], i + 1);
    }
    forall c, d | InRange(f, c) && InRange(f, d) && f[c] == f[d] && f[c] != 0 && f[c] < |f| ensures c == d {
      var g, i := Locate(f, m, c);
      var h, j := Locate(f, m, d);
      OneOwner(f, m, g, h, f[c]);
      ChainAt(f, m, g);
      SamePlace(f, m[g], i + 1, j + 1);
    }
  }

  lemma ChainAt(f: seq<nat>, m: Chains, h: nat)
    requires WellFormed(f, m) && h in m
    ensures m[h] != [] && m[h][0] == h && IsChain(f, m[h])
  {
  }

  lemma SamePlace(f: seq<nat>, ch: seq<nat>, i: nat, j: nat)
    requires IsChain(f, ch) && i < |ch| && j < |ch| && ch[i] == ch[j]
    ensures i == j
  {
  }

  lemma OneOwner(f: seq<nat>, m: Chains, g: nat, h: nat, c: nat)
    requires WellFormed(f, m) && g in m && h in m && c in m[g] && c in m[h]
    ensures g == h
  {
    hide Disjoint, IsChain;
    if g != h { NotBoth(m, g, h, c); }
  }

  lemma NotBoth(m: Chains, g: nat, h: nat, c: nat)
    requires Disjoint(m) && g in m && h in m && g != h && c in m[g]
    ensures c !in m[h]
  {
    assert Apart(m[g], m[h]);
  }

  /** The place of a used cluster on its chain; unless its entry is an end mark, it is not the last. */
  lemma Locate(f: seq<nat>, m: Chains, c: nat) returns (h: nat, i: nat)
    requires WellFormed(f, m) && InRange(f, c) && f[c] != 0
    ensures h in m && i < |m[h]| && m[h][i] == c
    ensures f[c] < |f| ==> i + 1 < |m[h]| && m[h][i + 1] == f[c]
    ensures f[c] >= |f| ==> i + 1 == |m[h]|
  {
    assert Owned(m, c);
    h :| h in m && c in m[h];
    i :| 0 <= i < |m[h]| && m[h][i] == c;
    assert i + 1 < |m[h]| ==> f[m[h][i]] == m[h][i + 1] && InRange(f, m[h][i + 1]);
  }

  lemma Used(f: seq<nat>, ch: seq<nat>, i: nat)
    requires IsChain(f, ch) && i < |ch|
    ensures InRange(f, ch[i]) && f[ch[i]] >= 2
  {
    if i < |ch| - 1 {
      assert f[ch[i]] == ch[i + 1];
      assert InRange(f, ch[i + 1]);
    }
  }

  /** The cluster k links after c; 0 once the chain has ended. */
  function After(f: seq<nat>, c: nat, k: nat): nat
    decreases k
  {
    if k == 0 || !InRange(f, c) then c
    else if f[c] < 2 || f[c] >= |f| then 0
    else After(f, f[c], k - 1)
  }

  /** Following links never comes back: there are no cycles. */
  lemma NoCycles(f: seq<nat>, m: Chains, c: nat, k: nat)
    requires WellFormed(f, m) && InRange(f, c) && k > 0
    ensures After(f, c, k) != c
  {
    if f[c] != 0 {
      var h, i := Locate(f, m, c);
      AfterOnChain(f, m[h], i, k);
    }
  }

  lemma {:induction false} AfterOnChain(f: seq<nat>, ch: seq<nat>, i: nat, k: nat)
    requires IsChain(f, ch) && i < |ch|
    ensures After(f, ch[i], k) == if i + k < |ch| then ch[i + k] else 0
    decreases k
  {
    Used(f, ch, i);
    if k > 0 && i + 1 < |ch| {
      AfterOnChain(f, ch, i + 1, k - 1);
    } else if k > 0 {
      assert f[ch[i]] >= |f|;
    }
  }

  // ---- what the allocator does to the chains -----------------------------------------------------

  /** The chains after linking the free cluster ncl behind the tail of chain h (clst 0: starting a chain). */
  function Lengthened(m: Chains, h: nat, clst: nat, ncl: nat): Chains
    requires clst != 0 ==> h in m
  {
    if clst == 0 then m[ncl := [ncl]] else m[h := m[h] + [ncl]]
  }

  lemma SameEntries(f: seq<nat>, g: seq<nat>, ch: seq<nat>)
    requires IsChain(f, ch) && |g| == |f| && forall i :: 0 <= i < |ch| ==> g[ch[i]] == f[ch[i]]
    ensures IsChain(g, ch)
  {
  }

  lemma FreeUnowned(f: seq<nat>, m: Chains, c: nat)
    requires WellFormed(f, m) && InRange(f, c) && f[c] == 0
    ensures !Owned(m, c) && c !in m
  {
    hide IsChain, Disjoint;
    assert c in m ==> m[c][0] in m[c];
    forall k | k in m ensures c !in m[k] { FreeNotOn(f, m[k], c); }
  }

  lemma FreeNotOn(f: seq<nat>, ch: seq<nat>, c: nat)
    requires IsChain(f, ch) && InRange(f, c) && f[c] == 0
    ensures c !in ch
  {
    hide IsChain;
    forall i | 0 <= i < |ch| ensures ch[i] != c { Used(f, ch, i); }
  }

  /** Taking a free cluster at the end of a chain, or as a new chain, keeps the table well formed. */
  lemma LinkKeepsWellFormed(f: seq<nat>, m: Chains, h: nat, clst: nat, ncl: nat, eoc: nat)
    requires WellFormed(f, m) && InRange(f, ncl) && f[ncl] == 0 && eoc >= |f|
    requires clst != 0 ==> h in m && m[h][|m[h]| - 1] == clst
    ensures clst != 0 ==> InRange(f, clst)
    ensures WellFormed(Linked(f, clst, ncl, eoc), Lengthened(m, h, clst, ncl))
  {
    hide IsChain, Disjoint, Owned, Apart, Linked;
    if clst != 0 { LastOfChain(f, m, h); }
    var g, n := Linked(f, clst, ncl, eoc), Lengthened(m, h, clst, ncl);
    FreeUnowned(f, m, ncl);
    forall k | k in n ensures n[k] != [] && n[k][0] == k && IsChain(g, n[k]) {
      LinkEach(f, m, h, clst, ncl, eoc, k);
    }
    LinkApart(m, h, clst, ncl);
    forall c | InRange(g, c) && g[c] != 0 ensures Owned(n, c) {
      LinkOwned(f, m, h, clst, ncl, eoc, c);
    }
  }

  lemma LastOfChain(f: seq<nat>, m: Chains, h: nat)
    requires WellFormed(f, m) && h in m
    ensures m[h] != [] && InRange(f, m[h][|m[h]| - 1]) && f[m[h][|m[h]| - 1]] != 0
  {
    Used(f, m[h], |m[h]| - 1);
  }

  lemma LinkOwned(f: seq<nat>, m: Chains, h: nat, clst: nat, ncl: nat, eoc: nat, c: nat)
    requires WellFormed(f, m) && InRange(f, ncl) && ncl !in m
    requires clst != 0 ==> h in m && InRange(f, clst) && m[h][|m[h]| - 1] == clst
    requires InRange(f, c) && Linked(f, clst, ncl, eoc)[c] != 0
    ensures Owned(Lengthened(m, h, clst, ncl), c)
  {
    hide IsChain, WellFormed;
    var n := Lengthened(m, h, clst, ncl);
    if c == ncl {
      assert c in n[if clst == 0 then ncl else h];
    } else {
      if c == clst { LastOfChain(f, m, h); }
      var k, i := Locate(f, m, c);
      assert k in n && c in n[k];
    }
  }

  lemma LinkEach(f: seq<nat>, m: Chains, h: nat, clst: nat, ncl: nat, eoc: nat, k: nat)
    requires WellFormed(f, m) && InRange(f, ncl) && f[ncl] == 0 && eoc >= |f| && !Owned(m, ncl)
    requires clst != 0 ==> h in m && InRange(f, clst) && m[h][|m[h]| - 1] == clst
    requires k in Lengthened(m, h, clst, ncl)
    ensures var e := Lengthened(m, h, clst, ncl)[k]; e != [] && e[0] == k && IsChain(Linked(f, clst, ncl, eoc), e)
  {
    hide IsChain;
    if clst == 0 && k == ncl {
      NewChain(f, ncl, eoc);
    } else if clst != 0 && k == h {
      LinkedChain(f, m[h], ncl, eoc);
    } else {
      assert clst != 0 ==> Apart(m[h], m[k]) && clst in m[h];
      LinkOther(f, clst, ncl, eoc, m[k]);
    }
  }

  lemma NewChain(f: seq<nat>, ncl: nat, eoc: nat)
    requires InRange(f, ncl) && eoc >= |f|
    ensures IsChain(f[ncl := eoc], [ncl])
  {
  }

  lemma LinkOther(f: seq<nat>, clst: nat, ncl: nat, eoc: nat, other: seq<nat>)
    requires InRange(f, ncl) && (clst != 0 ==> InRange(f, clst))
    requires IsChain(f, other) && ncl !in other && (clst != 0 ==> clst !in other)
    ensures IsChain(Linked(f, clst, ncl, eoc), other)
  {
    SameEntries(f, Linked(f, clst, ncl, eoc), other);
  }

  lemma LinkedChain(f: seq<nat>, ch: seq<nat>, ncl: nat, eoc: nat)
    requires ch != [] && IsChain(f, ch) && InRange(f, ncl) && ncl !in ch && eoc >= |f|
    ensures IsChain(f[ncl := eoc][ch[|ch| - 1] := ncl], ch + [ncl])
  {
    var last := |ch| - 1;
    var g, e := f[ncl := eoc][ch[last] := ncl], ch + [ncl];
    forall i | 0 <= i < |e| - 1 ensures g[e[i]] == e[i + 1] {
      if i < last {
        assert e[i] == ch[i] && ch[i] != ch[last] && ch[i] != ncl;
      }
    }
  }

  lemma LinkApart(m: Chains, h: nat, clst: nat, ncl: nat)
    requires Disjoint(m) && !Owned(m, ncl) && (clst != 0 ==> h in m)
    ensures Disjoint(Lengthened(m, h, clst, ncl))
  {
    var n := Lengthened(m, h, clst, ncl);
    forall a, b | a in n && b in n && a != b ensures Apart(n[a], n[b]) {
      assert a in m && b in m ==> Apart(m[a], m[b]) && Apart(m[b], m[a]);
      assert (a in m ==> ncl !in m[a]) && (b in m ==> ncl !in m[b]);
      hide *;
      hide Apart;
      LinkTwo(m, h, clst, ncl, a, b);
    }
  }

  lemma LinkTwo(m: Chains, h: nat, clst: nat, ncl: nat, a: nat, b: nat)
    requires clst != 0 ==> h in m
    requires a != b && a in Lengthened(m, h, clst, ncl) && b in Lengthened(m, h, clst, ncl)
    requires a in m && b in m ==> Apart(m[a], m[b]) && Apart(m[b], m[a])
    requires (a in m ==> ncl !in m[a]) && (b in m ==> ncl !in m[b])
    ensures Apart(Lengthened(m, h, clst, ncl)[a], Lengthened(m, h, clst, ncl)[b])
  {
  }

  /** The chains after cutting chain h before its j-th cluster (0: the whole chain goes). */
  function Cut(m: Chains, h: nat, j: nat): Chains
    requires h in m && j <= |m[h]|
  {
    if j == 0 then m - {h} else m[h := m[h][..j]]
  }

  /** The table remove_chain works on: the predecessor, if any, has become the end of its chain. */
  function Closed(f: seq<nat>, pclst: nat, eoc: nat): (g: seq<nat>)
    requires pclst != 0 ==> InRange(f, pclst)
    ensures |g| == |f|
  {
    if pclst == 0 then f else f[pclst := eoc]
  }

  /** g is table f with chain ch cut before its j-th cluster. */
  ghost predicate IsCut(f: seq<nat>, ch: seq<nat>, j: nat, eoc: nat, g: seq<nat>)
    requires j < |ch| && (j > 0 ==> InRange(f, ch[j - 1]))
  {
    && |g| == |f|
    && forall d :: 0 <= d < |f| ==>
         g[d] == if d in ch[j..] then 0 else Closed(f, if j == 0 then 0 else ch[j - 1], eoc)[d]
  }

  /** remove_chain at place j of chain h frees exactly the clusters from there to the end. */
  lemma RemoveFrees(f: seq<nat>, ch: seq<nat>, j: nat, eoc: nat)
    requires IsChain(f, ch) && j < |ch| && eoc >= |f|
    ensures j > 0 ==> InRange(f, ch[j - 1])
    ensures InRange(f, ch[j])
    ensures var cut := Closed(f, if j == 0 then 0 else ch[j - 1], eoc);
            var r := FreeFrom(cut, ch[j]);
            && r.sound && r.freed == |ch| - j
            && IsCut(f, ch, j, eoc, r.fat)
  {
    var cut := Closed(f, if j == 0 then 0 else ch[j - 1], eoc);
    var gone := ch[j..];
    forall i | 0 <= i < |gone| ensures gone[i] == ch[j + i] && cut[gone[i]] == f[gone[i]] {
      assert j > 0 ==> ch[j - 1] != ch[j + i];
    }
    assert IsChain(cut, gone) by {
      assert gone[|gone| - 1] == ch[|ch| - 1];
    }
    FreeFromChain(cut, gone);
  }

  /** Every other chain stays, and so does the part of chain h before place j: the table is still well formed. */
  lemma RemoveKeepsWellFormed(f: seq<nat>, m: Chains, h: nat, j: nat, eoc: nat)
    requires WellFormed(f, m) && h in m && j < |m[h]| && eoc >= |f|
    ensures j > 0 ==> InRange(f, m[h][j - 1])
    ensures InRange(f, m[h][j])
    ensures var r := FreeFrom(Closed(f, if j == 0 then 0 else m[h][j - 1], eoc), m[h][j]);
            r.sound && r.freed == |m[h]| - j && WellFormed(r.fat, Cut(m, h, j))
  {
    assert IsChain(f, m[h]);
    hide WellFormed, IsChain, FreeFrom, IsCut;
    RemoveFrees(f, m[h], j, eoc);
    var cut := Closed(f, if j == 0 then 0 else m[h][j - 1], eoc);
    CutKeepsWellFormed(f, m, h, j, eoc, FreeFrom(cut, m[h][j]).fat);
  }

  lemma CutKeepsWellFormed(f: seq<nat>, m: Chains, h: nat, j: nat, eoc: nat, g: seq<nat>)
    requires WellFormed(f, m) && h in m && j < |m[h]| && eoc >= |f|
    requires (j > 0 ==> InRange(f, m[h][j - 1])) && IsCut(f, m[h], j, eoc, g)
    ensures WellFormed(g, Cut(m, h, j))
  {
    hide IsChain, IsCut, Owned, Apart;
    var n := Cut(m, h, j);
    forall k | k in n ensures n[k] != [] && n[k][0] == k && IsChain(g, n[k]) {
      CutEach(f, m, h, j, eoc, g, k);
    }
    CutApart(m, h, j);
    forall c | InRange(g, c) && g[c] != 0 ensures Owned(n, c) {
      CutOwned(f, m, h, j, eoc, g, c);
    }
  }

  lemma CutEach(f: seq<nat>, m: Chains, h: nat, j: nat, eoc: nat, g: seq<nat>, k: nat)
    requires WellFormed(f, m) && h in m && j < |m[h]| && eoc >= |f|
    requires (j > 0 ==> InRange(f, m[h][j - 1])) && IsCut(f, m[h], j, eoc, g) && k in Cut(m, h, j)
    ensures var e := Cut(m, h, j)[k]; e != [] && e[0] == k && IsChain(g, e)
  {
    hide IsCut, IsChain;
    if k == h {
      KeptPart(f, m[h], j, eoc, g);
    } else {
      OtherKept(f, m[h], j, eoc, g, m[k]);
    }
  }

  lemma CutOwned(f: seq<nat>, m: Chains, h: nat, j: nat, eoc: nat, g: seq<nat>, c: nat)
    requires WellFormed(f, m) && h in m && j < |m[h]| && eoc >= |f|
    requires (j > 0 ==> InRange(f, m[h][j - 1])) && IsCut(f, m[h], j, eoc, g) && InRange(g, c) && g[c] != 0
    ensures Owned(Cut(m, h, j), c)
  {
    assert IsChain(f, m[h]);
    hide *;
    CutKeepsUsed(f, m[h], j, eoc, g, c);
    StillOwned(f, m, h, j, c);
  }

  lemma CutKeepsUsed(f: seq<nat>, ch: seq<nat>, j: nat, eoc: nat, g: seq<nat>, c: nat)
    requires IsChain(f, ch) && j < |ch| && (j > 0 ==> InRange(f, ch[j - 1])) && IsCut(f, ch, j, eoc, g) && InRange(g, c)
    requires g[c] != 0
    ensures InRange(f, c) && f[c] != 0 && c !in ch[j..]
  {
    hide IsChain;
    if j > 0 { Used(f, ch, j - 1); }
  }

  lemma CutApart(m: Chains, h: nat, j: nat)
    requires Disjoint(m) && h in m && j < |m[h]|
    ensures Disjoint(Cut(m, h, j))
  {
    hide Apart;
    var n := Cut(m, h, j);
    forall a, b | a in n && b in n && a != b ensures Apart(n[a], n[b]) {
      CutPrefix(m, h, j, a);
      CutPrefix(m, h, j, b);
      assert Apart(m[a], m[b]);
      hide *;
      PartsApart(m[a], m[b], n[a], n[b]);
    }
  }

  lemma CutPrefix(m: Chains, h: nat, j: nat, a: nat)
    requires h in m && j <= |m[h]| && a in Cut(m, h, j)
    ensures a in m && Cut(m, h, j)[a] <= m[a]
  {
  }

  lemma PartsApart(a: seq<nat>, b: seq<nat>, x: seq<nat>, y: seq<nat>)
    requires Apart(a, b) && x <= a && y <= b
    ensures Apart(x, y)
  {
    forall c | c in x ensures c !in y {
      assert c in a;
      assert c in y ==> c in b;
    }
  }

  lemma StillOwned(f: seq<nat>, m: Chains, h: nat, j: nat, c: nat)
    requires WellFormed(f, m) && h in m && j < |m[h]|
    requires InRange(f, c) && f[c] != 0 && c !in m[h][j..]
    ensures Owned(Cut(m, h, j), c)
  {
    hide WellFormed;
    var n := Cut(m, h, j);
    var k, i := Locate(f, m, c);
    if k == h {
      GonePlace(m[h], j, i);
      assert n[k][i] == c;
    }
    assert k in n && c in n[k];
  }

  lemma GonePlace(ch: seq<nat>, j: nat, i: nat)
    requires j < |ch| && i < |ch|
    ensures i >= j ==> ch[i] in ch[j..]
  {
    if i >= j { assert ch[j..][i - j] == ch[i]; }
  }

  lemma OtherKept(f: seq<nat>, ch: seq<nat>, j: nat, eoc: nat, g: seq<nat>, other: seq<nat>)
    requires IsChain(f, other) && Apart(ch, other)
    requires j < |ch| && (j > 0 ==> InRange(f, ch[j - 1])) && IsCut(f, ch, j, eoc, g)
    ensures IsChain(g, other)
  {
    forall i | 0 <= i < |other| ensures g[other[i]] == f[other[i]] {
      assert other[i] !in ch;
      assert other[i] !in ch[j..];
    }
    SameEntries(f, g, other);
  }

  lemma KeptPart(f: seq<nat>, ch: seq<nat>, j: nat, eoc: nat, g: seq<nat>)
    requires IsChain(f, ch) && 0 < j < |ch| && eoc >= |f| && IsCut(f, ch, j, eoc, g)
    ensures IsChain(g, ch[..j])
  {
    assert forall i :: 0 <= i < j ==> ch[i] !in ch[j..];
  }

  // ---- runs --------------------------------------------------------------------------------------

  /** The allocator's state, and the calls the file system makes of it. */
  datatype State = State(fat: seq<nat>, free: Dword)
  datatype Op =
    | Create(last: nat, clst: nat)   // create_chain(clst) with this last_clst: clst is 0 or a cluster in use
    | Remove(clst: nat, pclst: nat)  // remove_chain(clst, pclst): clst starts a chain, or follows pclst

  ghost predicate Allowed(f: seq<nat>, op: Op) {
    match op
    case Create(last, clst) => clst != 0 ==> InRange(f, clst) && f[clst] != 0
    case Remove(clst, pclst) =>
      && InRange(f, clst) && f[clst] != 0
      && if pclst == 0 then forall d :: InRange(f, d) ==> f[d] != clst else InRange(f, pclst) && f[pclst] == clst
  }

  ghost predicate CreateStep(s: State, last: nat, clst: nat, ncl: nat, t: State, eoc: nat)
    requires 3 <= |s.fat| <= UNKNOWN
  {
    && Answer(s.fat, last, clst, ncl)
    && if Takes(s.fat, clst, ncl)
       then InRange(s.fat, ncl) && t == State(Linked(s.fat, clst, ncl, eoc), FreeBefore(|s.fat|, s.free))
       else t == s
  }

  /** One successful call, as create_chain and remove_chain specify it. */
  ghost predicate Step(s: State, op: Op, t: State, eoc: nat)
    requires 3 <= |s.fat| <= UNKNOWN
  {
    match op
    case Create(last, clst) =>
      exists ncl: nat :: CreateStep(s, last, clst, ncl, t, eoc)
    case Remove(clst, pclst) =>
      && (pclst != 0 ==> InRange(s.fat, pclst)) && InRange(s.fat, clst)
      && var r := FreeFrom(Closed(s.fat, pclst, eoc), clst);
         t == State(r.fat, FreeAfter(|s.fat|, s.free, r.freed))
  }

  /** Some set of disjoint acyclic chains accounts for the table, and the free count is exact. */
  ghost predicate Good(s: State, m: Chains) {
    && 3 <= |s.fat| <= UNKNOWN
    && WellFormed(s.fat, m) && s.free == FreeCount(s.fat)
  }

  /** The chains once create_chain(clst) has taken ncl: there is a new one, or the one that ended in clst has grown. */
  ghost predicate Longer(m: Chains, clst: nat, ncl: nat, n: Chains) {
    exists h :: (clst != 0 ==> h in m && m[h] != [] && m[h][|m[h]| - 1] == clst) && n == Lengthened(m, h, clst, ncl)
  }

  /** The chains once remove_chain(clst) has freed the rest of the one clst is on. */
  ghost predicate Shorter(m: Chains, clst: nat, n: Chains) {
    exists h, j: nat :: h in m && j < |m[h]| && m[h][j] == clst && n == Cut(m, h, j)
  }

  lemma CreateKeepsChains(f: seq<nat>, m: Chains, clst: nat, ncl: nat, eoc: nat) returns (n: Chains)
    requires WellFormed(f, m) && eoc >= |f| && Takes(f, clst, ncl) && InRange(f, ncl) && f[ncl] == 0
    ensures WellFormed(Linked(f, clst, ncl, eoc), n) && Longer(m, clst, ncl, n)
  {
    var h, i := 0, 0;
    if clst != 0 { h, i := Locate(f, m, clst); }
    LinkKeepsWellFormed(f, m, h, clst, ncl, eoc);
    n := Lengthened(m, h, clst, ncl);
  }

  lemma CreateKeepsCount(f: seq<nat>, clst: nat, ncl: nat, eoc: nat, free: Dword)
    requires 3 <= |f| <= UNKNOWN && eoc >= |f| && Takes(f, clst, ncl) && InRange(f, ncl) && f[ncl] == 0
    requires free == FreeCount(f)
    ensures FreeBefore(|f|, free) == FreeCount(Linked(f, clst, ncl, eoc))
  {
    FreeCountUpdate(f, ncl, eoc);
    if clst != 0 { FreeCountUpdate(f[ncl := eoc], clst, ncl); }
  }

  lemma CreateKeepsGood(s: State, m: Chains, clst: nat, ncl: nat, eoc: nat) returns (n: Chains)
    requires Good(s, m) && eoc >= |s.fat| && Takes(s.fat, clst, ncl) && InRange(s.fat, ncl) && s.fat[ncl] == 0
    ensures Good(State(Linked(s.fat, clst, ncl, eoc), FreeBefore(|s.fat|, s.free)), n)
  {
    hide WellFormed;
    n := CreateKeepsChains(s.fat, m, clst, ncl, eoc);
    CreateKeepsCount(s.fat, clst, ncl, eoc, s.free);
  }

  lemma RemoveKeepsChains(f: seq<nat>, m: Chains, clst: nat, pclst: nat, eoc: nat) returns (n: Chains)
    requires WellFormed(f, m) && eoc >= |f| && Allowed(f, Remove(clst, pclst))
    ensures var r := FreeFrom(Closed(f, pclst, eoc), clst);
            WellFormed(r.fat, n) && Shorter(m, clst, n) && r.sound
  {
    hide WellFormed, FreeFrom, IsChain, Cut;
    var h, i := Locate(f, m, clst);
    PlaceOnChain(f, m, h, i, clst, pclst);
    RemoveKeepsWellFormed(f, m, h, i, eoc);
    n := Cut(m, h, i);
  }

  lemma RemoveKeepsCount(f: seq<nat>, clst: nat, pclst: nat, eoc: nat, free: Dword)
    requires 3 <= |f| <= UNKNOWN && eoc >= |f| && Allowed(f, Remove(clst, pclst)) && free == FreeCount(f)
    ensures var r := FreeFrom(Closed(f, pclst, eoc), clst); FreeAfter(|f|, free, r.freed) == FreeCount(r.fat)
  {
    hide FreeFrom;
    if pclst != 0 { FreeCountUpdate(f, pclst, eoc); }
    FreeFromOnlyFrees(Closed(f, pclst, eoc), clst);
  }

  lemma RemoveKeepsGood(s: State, m: Chains, clst: nat, pclst: nat, eoc: nat) returns (n: Chains)
    requires Good(s, m) && eoc >= |s.fat| && Allowed(s.fat, Remove(clst, pclst))
    ensures var r := FreeFrom(Closed(s.fat, pclst, eoc), clst);
            Good(State(r.fat, FreeAfter(|s.fat|, s.free, r.freed)), n) && r.sound
  {
    hide WellFormed, FreeFrom;
    n := RemoveKeepsChains(s.fat, m, clst, pclst, eoc);
    RemoveKeepsCount(s.fat, clst, pclst, eoc, s.free);
  }

  /** The cluster before clst on its chain is the only one linked to it. */
  lemma PlaceOnChain(f: seq<nat>, m: Chains, h: nat, i: nat, clst: nat, pclst: nat)
    requires WellFormed(f, m) && Allowed(f, Remove(clst, pclst)) && h in m && i < |m[h]| && m[h][i] == clst
    ensures pclst == if i == 0 then 0 else m[h][i - 1]
  {
    hide WellFormed, IsChain;
    ChainAt(f, m, h);
    Used(f, m[h], i);
    if i > 0 { LinkAt(f, m[h], i); }
    if pclst != 0 {
      var g, j := Locate(f, m, pclst);
      OneOwner(f, m, g, h, clst);
      SamePlace(f, m[h], j + 1, i);
    }
  }

  lemma StepKeepsGood(s: State, m: Chains, op: Op, t: State, eoc: nat) returns (n: Chains)
    requires Good(s, m) && Allowed(s.fat, op) && Step(s, op, t, eoc) && eoc >= |s.fat|
    ensures Good(t, n) && |t.fat| == |s.fat|
  {
    match op {
      case Create(last, clst) =>
        var ncl: nat :| CreateStep(s, last, clst, ncl, t, eoc);
        n := m;
        if Takes(s.fat, clst, ncl) {
          n := CreateKeepsGood(s, m, clst, ncl, eoc);
        }
      case Remove(clst, pclst) =>
        n := RemoveKeepsGood(s, m, clst, pclst, eoc);
    }
  }

  /** A run: states joined by calls, each allowed where it is made. */
  ghost predicate Run(ss: seq<State>, ops: seq<Op>, eoc: nat) {
    && |ss| == |ops| + 1
    && (forall i :: 0 <= i < |ss| ==> 3 <= |ss[i].fat| <= UNKNOWN)
    && forall i :: 0 <= i < |ops| ==>
         && Allowed(ss[i].fat, ops[i])
         && Step(ss[i], ops[i], ss[i + 1], eoc)
  }

  /** Safety over every run: the table stays well formed and the free count exact after any number of calls. */
  lemma {:induction false} RunKeepsGood(ss: seq<State>, ops: seq<Op>, eoc: nat, m: Chains, k: nat) returns (n: Chains)
    requires Run(ss, ops, eoc) && Good(ss[0], m) && eoc >= |ss[0].fat| && k < |ss|
    ensures Good(ss[k], n) && |ss[k].fat| == |ss[0].fat|
  {
    hide Good, Step, Allowed;
    if k == 0 {
      n := m;
    } else {
      var p := RunKeepsGood(ss, ops, eoc, m, k - 1);
      assert Step(ss[k - 1], ops[k - 1], ss[k - 1 + 1], eoc);
      n := StepKeepsGood(ss[k - 1], p, ops[k - 1], ss[k], eoc);
    }
  }

  // ---- one file among the others -----------------------------------------------------------------

  /** No entry has the illegal value 1. */
  lemma NeverIllegal(f: seq<nat>, m: Chains, c: nat)
    requires WellFormed(f, m) && InRange(f, c)
    ensures f[c] != 1
  {
    if f[c] != 0 {
      var h, i := Locate(f, m, c);
      Used(f, m[h], i);
    }
  }

  /** The chains of a volume on which a file's chain, given by its start, has become dh. */
  function Renewed(m: Chains, dh: seq<nat>): Chains {
    if dh == [] then m else m[dh[0] := dh]
  }

  /** The file has no clusters, or its chain is one of the volume's. */
  predicate Listed(m: Chains, ch: seq<nat>) {
    ch != [] ==> ch[0] in m && m[ch[0]] == ch
  }

  /** create_chain behind the end of a listed chain makes it longer and changes no other. */
  lemma LinkedListed(f: seq<nat>, m: Chains, ch: seq<nat>, ncl: nat, n: Chains)
    requires WellFormed(f, m) && Listed(m, ch) && Longer(m, if ch == [] then 0 else ch[|ch| - 1], ncl, n)
    ensures n == Renewed(m, ch + [ncl]) && Listed(n, ch + [ncl])
  {
    if ch == [] {
      assert [ncl] == ch + [ncl];
    } else {
      var clst := ch[|ch| - 1];
      assert InRange(f, m[ch[0]][|ch| - 1]);
      var h :| (clst != 0 ==> h in m && m[h] != [] && m[h][|m[h]| - 1] == clst) && n == Lengthened(m, h, clst, ncl);
      OneOwner(f, m, h, ch[0], clst);
    }
  }

  /** e is table f after a file's chain has grown from ch to dh by free clusters, and nothing else has changed. */
  ghost predicate Grew(f: seq<nat>, ch: seq<nat>, e: seq<nat>, dh: seq<nat>) {
    && |e| == |f| && ch <= dh
    && (forall i :: |ch| <= i < |dh| ==> InRange(f, dh[i]) && f[dh[i]] == 0)
    && (forall c :: 0 <= c < |f| && c !in dh ==> e[c] == f[c])
  }

  /** Whoever has let a listed chain grow has changed no other chain of the volume. */
  lemma OthersStay(f: seq<nat>, m: Chains, ch: seq<nat>, e: seq<nat>, n: Chains, dh: seq<nat>)
    requires WellFormed(f, m) && Listed(m, ch) && Grew(f, ch, e, dh) && WellFormed(e, n) && Listed(n, dh)
    ensures n == Renewed(m, dh)
  {
    hide WellFormed, Grew;
    if dh != [] { ChainAt(e, n, dh[0]); }
    RenewedWellFormed(f, m, ch, e, dh);
    ChainsUnique(e, n, Renewed(m, dh));
  }

  lemma RenewedWellFormed(f: seq<nat>, m: Chains, ch: seq<nat>, e: seq<nat>, dh: seq<nat>)
    requires WellFormed(f, m) && Listed(m, ch) && Grew(f, ch, e, dh) && (dh != [] ==> IsChain(e, dh))
    ensures WellFormed(e, Renewed(m, dh))
  {
    hide IsChain, Grew, Disjoint, Owned;
    var n := Renewed(m, dh);
    forall h | h in m && (dh == [] || h != dh[0]) ensures Apart(dh, m[h]) && IsChain(e, m[h]) {
      assert Apart(ch, m[h]) by { OtherChain(f, m, ch, e, dh, h); }
      GrewApart(f, ch, e, dh, m[h]);
    }
    RenewedDisjoint(m, dh);
    forall c | InRange(e, c) && e[c] != 0 ensures Owned(n, c) { RenewedOwned(f, m, ch, e, dh, c); }
  }

  /** A listed chain has no cluster in common with one that starts elsewhere. */
  lemma OtherChain(f: seq<nat>, m: Chains, ch: seq<nat>, e: seq<nat>, dh: seq<nat>, h: nat)
    requires WellFormed(f, m) && Listed(m, ch) && Grew(f, ch, e, dh) && h in m && (dh == [] || h != dh[0])
    ensures Apart(ch, m[h])
  {
    hide IsChain;
    if ch != [] {
      assert ch[0] == dh[0];
      assert Apart(m[ch[0]], m[h]);
    }
  }

  /** A chain that has nothing in common with ch has nothing in common with dh, and stays a chain. */
  lemma GrewApart(f: seq<nat>, ch: seq<nat>, e: seq<nat>, dh: seq<nat>, other: seq<nat>)
    requires Grew(f, ch, e, dh) && Apart(ch, other) && IsChain(f, other)
    ensures Apart(dh, other) && Apart(other, dh) && IsChain(e, other)
  {
    forall i | 0 <= i < |dh| ensures dh[i] !in other {
      if i < |ch| {
        assert dh[i] == ch[i];
      } else {
        FreeNotOn(f, other, dh[i]);
      }
    }
    forall i | 0 <= i < |other| ensures e[other[i]] == f[other[i]] { assert other[i] in other; }
    SameEntries(f, e, other);
  }

  lemma RenewedDisjoint(m: Chains, dh: seq<nat>)
    requires Disjoint(m) && forall h :: h in m && (dh == [] || h != dh[0]) ==> Apart(dh, m[h])
    ensures Disjoint(Renewed(m, dh))
  {
    var n := Renewed(m, dh);
    forall a, b | a in n && b in n && a != b ensures Apart(n[a], n[b]) {
      assert a in m && b in m ==> Apart(m[a], m[b]);
      assert dh != [] && a != dh[0] ==> Apart(dh, m[a]);
      assert dh != [] && b != dh[0] ==> Apart(dh, m[b]);
    }
  }

  lemma RenewedOwned(f: seq<nat>, m: Chains, ch: seq<nat>, e: seq<nat>, dh: seq<nat>, c: nat)
    requires WellFormed(f, m) && Listed(m, ch) && Grew(f, ch, e, dh) && InRange(e, c) && e[c] != 0
    ensures Owned(Renewed(m, dh), c)
  {
    hide WellFormed;
    var n := Renewed(m, dh);
    if c in dh {
      assert c in n[dh[0]];
    } else {
      var h, i := Locate(f, m, c);
      if dh != [] && h == dh[0] {
        StartsAlike(f, m, ch, e, dh, i);
      } else {
        assert h in n && c in n[h];
      }
    }
  }

  /** The chain that starts where dh does is part of dh. */
  lemma StartsAlike(f: seq<nat>, m: Chains, ch: seq<nat>, e: seq<nat>, dh: seq<nat>, i: nat)
    requires WellFormed(f, m) && Listed(m, ch) && Grew(f, ch, e, dh) && dh != [] && dh[0] in m && i < |m[dh[0]]|
    ensures m[dh[0]][i] in dh
  {
    StartInRange(f, m, dh[0]);
    assert ch != [];
    assert m[dh[0]][i] == ch[i] == dh[i];
  }

  /** A table has only one set of chains. */
  lemma ChainsUnique(f: seq<nat>, m: Chains, n: Chains)
    requires WellFormed(f, m) && WellFormed(f, n)
    ensures m == n
  {
    hide WellFormed;
    forall h | h in m ensures h in n && n[h] == m[h] { StartUnique(f, m, n, h); }
    forall h | h in n ensures h in m { StartUnique(f, n, m, h); }
  }

  /** No cluster links to the start of a chain. */
  lemma NoPredecessor(f: seq<nat>, m: Chains, h: nat, c: nat)
    requires WellFormed(f, m) && h in m && InRange(f, c)
    ensures f[c] != h
  {
    assert m[h] != [] && m[h][0] == h;
    NoRepeat(f, m, h);
    hide WellFormed;
    if f[c] == h {
      StartInRange(f, m, h);
      var k, j := Locate(f, m, c);
      OneOwner(f, m, k, h, h);
    }
  }

  lemma StartInRange(f: seq<nat>, m: Chains, h: nat)
    requires WellFormed(f, m) && h in m
    ensures InRange(f, h) && f[h] != 0
  {
    Used(f, m[h], 0);
  }

  lemma NoRepeat(f: seq<nat>, m: Chains, h: nat)
    requires WellFormed(f, m) && h in m
    ensures forall j :: 0 < j < |m[h]| ==> m[h][j] != h
  {
  }

  lemma LinkAt(f: seq<nat>, ch: seq<nat>, i: nat)
    requires IsChain(f, ch) && 0 < i < |ch|
    ensures InRange(f, ch[i - 1]) && f[ch[i - 1]] == ch[i]
  {
  }

  /** A start of a chain in one set is a start in the other. */
  lemma StartUnique(f: seq<nat>, m: Chains, n: Chains, h: nat)
    requires WellFormed(f, m) && WellFormed(f, n) && h in m
    ensures h in n && n[h] == m[h]
  {
    hide WellFormed, IsChain;
    StartInRange(f, m, h);
    var g, i := Locate(f, n, h);
    ChainAt(f, n, g);
    if i > 0 {
      LinkAt(f, n[g], i);
      NoPredecessor(f, m, h, n[g][i - 1]);
    }
    ChainAt(f, m, h);
    SameStart(f, m[h], n[g]);
  }

  lemma SameStart(f: seq<nat>, a: seq<nat>, b: seq<nat>)
    requires IsChain(f, a) && IsChain(f, b) && a != [] && b != [] && a[0] == b[0]
    ensures a == b
  {
    hide IsChain;
    ChainUnique(f, a, b, |a|);
    ChainUnique(f, b, a, |b|);
    assert a[..|a|] == a && b[..|b|] == b;
  }
}
