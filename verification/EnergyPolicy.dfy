/**
 * The energy ledger of the controller: measured use is debited, surplus is credited and spilled over from full
 * accounts, and usage reports move energy between accounts. All amounts are micro watt hours.
 */
module EnergyPolicy {
  import opened Wrappers

  const MAX_CONTROLLER: int := 38_583_600  // 40 % of the battery's capacity of 96,459,000
  const MAX_MODULE: int := 9_645_900       // 10 % of it
  const DEBUG_BATTERY: int := 44_400_000   // assumed when there is no battery to read
  const MAX_REPORT: nat := 100_000

  /** The module slots; 3 is the controller's and 4 the storage master's, which have no account of their own. */
  predicate Module(i: int) { 0 <= i < 8 && i != 3 && i != 4 }

  /** One number each for the controller, for Linux and for the slots. */
  datatype Figures = Figures(controller: int, linux: int, modules: seq<int>) {
    predicate Eight() { |modules| == 8 }

    function Total(): int { controller + linux + Sum(modules) }
  }

  const ZERO: Figures := Figures(0, 0, [0, 0, 0, 0, 0, 0, 0, 0])

  function Sum(s: seq<int>): int {
    if s == [] then 0 else Sum(s[..|s| - 1]) + s[|s| - 1]
  }

  lemma {:induction false} SumUpdate(s: seq<int>, i: nat, x: int)
    requires i < |s|
    ensures Sum(s[i := x]) == Sum(s) - s[i] + x
  {
    var last := |s| - 1;
    if i == last {
      assert s[i := x][..last] == s[..last];
    } else {
      SumUpdate(s[..last], i, x);
      assert s[i := x][..last] == s[..last][i := x];
    }
  }

  lemma SumNothing()
    ensures Sum([]) == 0
  {
  }

  lemma SumTake(s: seq<int>, i: nat)
    requires i < |s|
    ensures Sum(s[..i + 1]) == Sum(s[..i]) + s[i]
  {
    assert s[..i + 1][..i] == s[..i];
  }

  function Min(a: int, b: int): int { if a <= b then a else b }

  // ---- filling accounts to a level -----------------------------------------------------------------

  /** The slots after every module got the amount l, as far as its account holds it. */
  function Filled(s: seq<int>, l: nat): (r: seq<int>)
    requires |s| == 8
    ensures |r| == 8
  {
    if l == 0 then s else seq(8, i requires 0 <= i < 8 => if Module(i) then Min(MAX_MODULE, s[i] + l) else s[i])
  }

  /** The eligible modules are those not yet full. */
  function Count(e: seq<bool>): (n: nat)
    ensures n <= |e|
  {
    if e == [] then 0 else Count(e[..|e| - 1]) + if Module(|e| - 1) && e[|e| - 1] then 1 else 0
  }

  lemma CountTake(e: seq<bool>, i: nat)
    requires i < |e|
    ensures Count(e[..i + 1]) == Count(e[..i]) + if Module(i) && e[i] then 1 else 0
  {
    assert e[..i + 1][..i] == e[..i];
  }

  /** What n modules get that each get s. */
  function Each(n: nat, s: nat): nat { n * s }

  /**
   * One pass of the spill loop: every eligible module gets s; what does not fit is spilled, and the module drops out.
   */
  method Pass(m0: seq<int>, e0: seq<bool>, s: nat) returns (m: seq<int>, e: seq<bool>, spill: nat, count: nat)
    requires |m0| == 8 == |e0| && s > 0
    ensures |m| == 8 == |e|
    ensures forall i :: 0 <= i < 8 ==> m[i] == if Module(i) && e0[i] then Min(MAX_MODULE, m0[i] + s) else m0[i]
    ensures forall i :: Module(i) ==> (e[i] <==> e0[i] && m0[i] + s <= MAX_MODULE)
    ensures count == Count(e) && count <= Count(e0) && (spill > 0 ==> count < Count(e0))
    ensures (spill == 0 ==> count == Count(e0))
    ensures Sum(m) + spill == Sum(m0) + Each(Count(e0), s)
  {
    hide Sum, Count, Each;
    m, e, spill, count := m0, e0, 0, 0;
    assert Count(e0[..0]) == 0;
    Start(s);
    for i := 0 to 8
      invariant |m| == 8 == |e|
      invariant forall j :: 0 <= j < 8 ==>
        m[j] == if j < i && Module(j) && e0[j] then Min(MAX_MODULE, m0[j] + s) else m0[j]
      invariant forall j :: 0 <= j < i && Module(j) ==> (e[j] <==> e0[j] && m0[j] + s <= MAX_MODULE)
      invariant forall j :: i <= j < 8 ==> e[j] == e0[j]
      invariant count == Count(e[..i]) && count <= Count(e0[..i])
      invariant (spill > 0 ==> count < Count(e0[..i])) && (spill == 0 ==> count == Count(e0[..i]))
      invariant Sum(m) + spill == Sum(m0) + Each(Count(e0[..i]), s)
    {
      CountTake(e0, i);
      ghost var e1 := e;
      EachMore(Count(e0[..i]), s);
      if Module(i) && e[i] {
        if m[i] + s > MAX_MODULE {
          spill := spill + (m[i] + s - MAX_MODULE);
          SumUpdate(m, i, MAX_MODULE);
          m := m[i := MAX_MODULE];
          e := e[i := false];
        } else {
          SumUpdate(m, i, m[i] + s);
          m := m[i := m[i] + s];
          count := count + 1;
          e := e[i := true];
        }
      }
      assert e[..i] == e1[..i];
      CountTake(e, i);
    }
    assert e[..8] == e && e0[..8] == e0;
  }

  /**
   * How much more can be lost to division once c modules are eligible: less than a unit each time, and each time there
   * are fewer.
   */
  function Slack(c: nat): nat {
    if c <= 1 then 0 else Slack(c - 1) + c - 2
  }

  /** How far the spill loop has come: all modules filled to a level, the eligible ones not beyond. */
  ghost predicate Level(m0: seq<int>, m: seq<int>, e: seq<bool>, level: nat) {
    && |m0| == 8 == |m| == |e| && m == Filled(m0, level)
    && (forall i :: Module(i) && e[i] ==> m[i] == m0[i] + level)
    && (forall i :: Module(i) && !e[i] ==> m[i] == MAX_MODULE && level > 0)
  }

  lemma LevelRises(m0: seq<int>, m: seq<int>, e: seq<bool>, level: nat, s: nat, m': seq<int>, e': seq<bool>)
    requires Level(m0, m, e, level) && s > 0 && |m'| == 8 == |e'|
    requires forall i :: 0 <= i < 8 ==> m'[i] == if Module(i) && e[i] then Min(MAX_MODULE, m[i] + s) else m[i]
    requires forall i :: Module(i) ==> (e'[i] <==> e[i] && m[i] + s <= MAX_MODULE)
    ensures Level(m0, m', e', level + s)
  {
    forall i | 0 <= i < 8 ensures m'[i] == Filled(m0, level + s)[i] {
      assert level > 0 && Module(i) ==> m[i] == Min(MAX_MODULE, m0[i] + level);
    }
  }

  /**
   * The spill loop. It fills all modules to one common level; what does not fit goes to the controller, which happens
   * only when all are full; and at most 10 units are lost to rounding. It takes at most six passes.
   */
  method Spill(m0: seq<int>, s0: nat)
    returns (m: seq<int>, extra: nat, ghost level: nat, ghost loss: nat, ghost rounds: nat)
    requires |m0| == 8
    ensures |m| == 8 && m == Filled(m0, level) && (if s0 > 0 then level >= s0 else level == 0)
    ensures Sum(m) + extra + loss == Sum(m0) + 6 * s0 && loss <= 10
    ensures extra > 0 ==> forall i :: Module(i) ==> m[i] == MAX_MODULE
    ensures rounds <= 6
  {
    hide Filled, Sum, Count, Slack, Each, Level;
    m, extra, level, loss, rounds := m0, 0, 0, 0, 0;
    var s := s0;
    var e := [true, true, true, true, true, true, true, true];
    AllEligible();
    LevelStarts(m0, e);
    SlackStart();
    Start(s0);
    ghost var c := 6;
    while s > 0
      invariant |m| == 8 == |e| && Level(m0, m, e, level) && (rounds > 0 ==> level >= s0 > 0)
      invariant (rounds == 0 ==> s == s0 && level == 0)
      invariant c == Count(e) && Sum(m) + extra + loss + Each(c, s) == Sum(m0) + 6 * s0
      invariant loss + (if s > 0 then Slack(c) else 0) <= 10
      invariant s > 0 ==> extra == 0 && 0 < c && rounds + c <= 6
      invariant extra > 0 ==> forall i :: Module(i) ==> m[i] == MAX_MODULE
      invariant rounds <= 6
      decreases if s > 0 then c + 1 else 0
    {
      ghost var m1, e1 := m, e;
      var spill, count;
      m, e, spill, count := Pass(m, e, s);
      LevelRises(m0, m1, e1, level, s, m, e);
      level, rounds := level + s, rounds + 1;
      if count == 0 {
        NoneEligible(e);
        LevelFacts(m0, m, e, level);
        s, c := 0, 0;
        Start(0);
        extra := extra + spill;
      } else {
        Share(spill, count);
        s, loss := spill / count, loss + spill % count;
        if spill > 0 { Lost(c, count); }
        c := count;
      }
    }
    NoShare(c);
    LevelFacts(m0, m, e, level);
  }

  lemma LevelStarts(m0: seq<int>, e: seq<bool>)
    requires |m0| == 8 == |e| && forall i :: 0 <= i < 8 ==> e[i]
    ensures Level(m0, m0, e, 0)
  {
  }

  lemma LevelFacts(m0: seq<int>, m: seq<int>, e: seq<bool>, level: nat)
    requires Level(m0, m, e, level)
    ensures |m0| == 8 == |m| == |e| && m == Filled(m0, level)
    ensures (forall i :: 0 <= i < 8 && Module(i) ==> !e[i]) ==> forall i :: Module(i) ==> m[i] == MAX_MODULE
  {
  }

  lemma EachMore(n: nat, s: nat)
    ensures Each(n + 1, s) == Each(n, s) + s
  {
  }

  lemma NoShare(n: nat)
    ensures Each(n, 0) == 0
  {
  }

  lemma Start(s: nat)
    ensures Each(6, s) == 6 * s && Each(0, s) == 0
  {
  }

  lemma SlackStart()
    ensures Slack(6) == 10
  {
    assert Slack(2) == 0 && Slack(3) == 1 && Slack(4) == 3;
  }

  lemma Share(spill: nat, count: nat)
    requires count > 0
    ensures spill == Each(count, spill / count) + spill % count && spill % count <= count - 1
    ensures spill == 0 ==> spill / count == 0
  {
  }

  lemma AllEligible()
    ensures Count([true, true, true, true, true, true, true, true]) == 6
  {
    var e := [true, true, true, true, true, true, true, true];
    CountTake(e, 7);
    CountTake(e, 6);
    CountTake(e, 5);
    CountTake(e, 4);
    CountTake(e, 3);
    CountTake(e, 2);
    CountTake(e, 1);
    CountTake(e, 0);
    assert e[..8] == e;
  }

  lemma {:induction false} NoneEligible(e: seq<bool>)
    requires Count(e) == 0
    ensures forall i :: 0 <= i < |e| && Module(i) ==> !e[i]
  {
    if e == [] {
    } else {
      var last := |e| - 1;
      NoneEligible(e[..last]);
      forall i | 0 <= i < |e| && Module(i) ensures !e[i] {
        if i < last { assert e[..last][i] == e[i]; }
      }
    }
  }

  lemma {:induction false} Lost(c: nat, d: nat)
    requires 0 < d < c
    ensures Slack(d) + d - 1 <= Slack(c)
  {
    if d + 1 == c {
    } else {
      Lost(c - 1, d);
    }
  }

  /**
   * What the modules hold decides the level, as far as it matters: two levels that fill in the same total fill alike.
   */
  lemma LevelUnique(m0: seq<int>, a: nat, b: nat)
    requires |m0| == 8 && Sum(Filled(m0, a)) == Sum(Filled(m0, b)) && a > 0 && b > 0
    ensures Filled(m0, a) == Filled(m0, b)
  {
    hide Filled;
    if a <= b {
      FilledMore(m0, a, b);
      SumLess(Filled(m0, a), Filled(m0, b));
    } else {
      FilledMore(m0, b, a);
      SumLess(Filled(m0, b), Filled(m0, a));
    }
  }

  lemma FilledMore(m0: seq<int>, a: nat, b: nat)
    requires |m0| == 8 && 0 < a <= b
    ensures forall i :: 0 <= i < 8 ==> Filled(m0, a)[i] <= Filled(m0, b)[i]
  {
  }

  /** Smaller parts have a smaller sum, unless they are the same. */
  lemma {:induction false} SumLess(x: seq<int>, y: seq<int>)
    requires |x| == |y| && forall i :: 0 <= i < |x| ==> x[i] <= y[i]
    ensures Sum(x) <= Sum(y) && (Sum(x) == Sum(y) ==> x == y)
  {
    if x == [] {
    } else {
      var n := |x| - 1;
      SumLess(x[..n], y[..n]);
      assert x == x[..n] + [x[n]] && y == y[..n] + [y[n]];
    }
  }

  lemma SumEight(s: seq<int>)
    requires |s| == 8
    ensures Sum(s) == s[0] + s[1] + s[2] + s[3] + s[4] + s[5] + s[6] + s[7]
  {
    assert s[..8] == s;
    SumTake(s, 7);
    SumTake(s, 6);
    SumTake(s, 5);
    SumTake(s, 4);
    SumTake(s, 3);
    SumTake(s, 2);
    SumTake(s, 1);
    SumTake(s, 0);
  }

  // ---- the ledger ----------------------------------------------------------------------------------

  /** The module slots of a increased by b. */
  function Plus(a: seq<int>, b: seq<int>, sign: int): (r: seq<int>)
    requires |a| == 8 == |b|
    ensures |r| == 8
  {
    seq(8, i requires 0 <= i < 8 => if Module(i) then a[i] + sign * b[i] else a[i])
  }

  lemma PlusSum(a: seq<int>, b: seq<int>, sign: int)
    requires |a| == 8 == |b| && b[3] == 0 == b[4] && (sign == 1 || sign == -1)
    ensures Sum(Plus(a, b, sign)) == Sum(a) + sign * Sum(b)
  {
    SumEight(a);
    SumEight(b);
    SumEight(Plus(a, b, sign));
  }

  /** The loops that add the module counters to an account, or take them off. */
  method AddEach(a: seq<int>, b: seq<int>, sign: int) returns (r: seq<int>)
    requires |a| == 8 == |b|
    ensures r == Plus(a, b, sign)
  {
    r := a;
    for i := 0 to 8
      invariant |r| == 8 && forall j :: 0 <= j < 8 ==> r[j] == if j < i && Module(j) then a[j] + sign * b[j] else a[j]
    {
      if Module(i) { r := r[i := r[i] + sign * b[i]]; }
    }
  }

  /** Average power over a period of so many seconds. */
  function Power(energy: int, period: nat): int
    requires period > 0
  {
    energy * (3600 / period)
  }

  /** Energy per hour: as often as the period fits into an hour, what was used in it. */
  lemma PowerMeans(energy: int, period: nat, times: nat)
    requires times * period <= 3600 < times * period + period
    ensures Power(energy, period) == energy * times
  {
    Quotient(3600, period, times);
  }

  lemma Quotient(x: nat, d: nat, q: nat)
    requires q * d <= x < q * d + d
    ensures x / d == q
  {
    var a := x / d;
    assert x == d * a + x % d;
    if a < q {
      Product(d, a, q);
    } else if q < a {
      Product(d, q, a);
    }
  }

  lemma Product(d: nat, a: nat, b: nat)
    requires a < b
    ensures a * d + d <= b * d && d * a == a * d
  {
    var n := b - a - 1;
    assert b * d == a * d + d + n * d;
  }

  /** A usage report: so much energy was used on behalf of the module in the slot, or of the controller (3). */
  datatype Usage = Usage(slot: nat, energy: nat)

  /** What is kept in nonvolatile memory: the accounts, and the stored use. */
  datatype Saved = Saved(controller: int, modules: seq<int>, used: Figures) {
    predicate Eight() { |modules| == 8 && used.Eight() }
  }

  /** The stored use that makes every reading zero while the counters stand at c. */
  function Cleared(c: Figures): (r: Figures)
    requires c.Eight()
    ensures r.Eight()
  {
    Figures(-c.controller, -c.linux, seq(8, i requires 0 <= i < 8 => if Module(i) then -c.modules[i] else 0))
  }

  class Ledger {
    /** What is left in the accounts. */
    var controller: int
    var modules: seq<int>
    /** Use since the last reset, less what the counters hold. */
    var used: Figures
    var average: Figures
    var virtualAverage: Figures
    /** The coulomb counters. */
    var counter: Figures
    var batteryLast: int
    var battery: int
    /** One plain counter for every reading: what was measured and reported since its reset. */
    ghost var plain: Figures
    ghost var updates: nat
    /** The drift at the start. */
    ghost const start: int

    /** What the battery held at the last update and no account has. */
    ghost function Drift(): int
      reads this
    {
      batteryLast - controller - Sum(modules)
    }

    ghost predicate Shape()
      reads this
    {
      && |modules| == 8 && used.Eight() && average.Eight() && virtualAverage.Eight() && counter.Eight() && plain.Eight()
      && counter.modules[3] == 0 == counter.modules[4]
    }

    /** Stored use and live counter together are the plain counter. */
    ghost predicate Refines()
      reads `used, `counter, `plain
    {
      && used.Eight() && counter.Eight() && plain.Eight()
      && used.controller + counter.controller == plain.controller && used.linux + counter.linux == plain.linux
      && forall i :: 0 <= i < 8 ==> used.modules[i] + counter.modules[i] == plain.modules[i]
    }

    ghost predicate Valid()
      reads this
    {
      Shape() && Refines() && start <= Drift() <= start + 21 * updates
    }

    /**
     * signpost_energy_policy_init, with what the coulomb counters hold before it clears them. Saved accounts and use
     * are taken over, unless the battery cannot be read; without them the battery is shared out, and use begins at zero
     * less what the counters held.
     */
    constructor (reading: int, saved: Option<Saved>, counters: Figures)
      requires counters.Eight() && (saved.Some? ==> saved.value.Eight())
      ensures Valid() && updates == 0 && counter == average == virtualAverage == ZERO
      ensures plain == used && start == Drift()
      ensures battery == batteryLast == (if reading < 0 then DEBUG_BATTERY else reading)
      ensures reading >= 0 && saved.Some? ==>
        controller == saved.value.controller && modules == saved.value.modules && used == saved.value.used
      ensures reading < 0 || saved.None? ==>
        && controller == battery * 4 / 10 && (forall i :: Module(i) ==> modules[i] == battery / 10)
        && 0 <= Drift() <= 6 && used == Cleared(counters)
        && used.controller + counters.controller == 0 == used.linux + counters.linux
        && modules[3] == modules[4] == used.modules[3] == used.modules[4] == 0
        && forall i :: Module(i) ==> used.modules[i] + counters.modules[i] == 0
    {
      var b := if reading < 0 then DEBUG_BATTERY else reading;
      battery, batteryLast := b, b;
      var c, m, u := b * 4 / 10, [b / 10, b / 10, b / 10, 0, 0, b / 10, b / 10, b / 10], Cleared(counters);
      ghost var even := m;
      if reading >= 0 && saved.Some? {
        c, m, u := saved.value.controller, saved.value.modules, saved.value.used;
      }
      controller, modules, used, plain := c, m, u, u;
      average, virtualAverage, counter := ZERO, ZERO, ZERO;
      updates, start := 0, b - c - Sum(m);
      SumEight(even);
    }

    /** signpost_energy_policy_copy_internal_state. Right after an update it is all that the readings depend on. */
    method Save() returns (s: Saved)
      requires Valid()
      ensures s == Saved(controller, modules, used) && s.Eight() && (counter == ZERO ==> s.used == plain)
    {
      s := Saved(controller, modules, used);
      assert counter == ZERO ==> used.modules == plain.modules;
    }

    // ---- readings --------------------------------------------------------------------------------

    /** The use reported to a module: never below zero. */
    function ModuleUsed(i: nat): (e: int)
      requires i < 8
      requires Shape()
      reads this
      ensures Valid() ==> e == if plain.modules[i] < 0 then 0 else plain.modules[i]
    {
      var e := used.modules[i] + counter.modules[i];
      if e < 0 then 0 else e
    }

    function ControllerUsed(): (e: int)
      requires Shape()
      reads this
      ensures Valid() ==> e == if plain.controller < 0 then 0 else plain.controller
    {
      var e := used.controller + counter.controller;
      if e < 0 then 0 else e
    }

    function LinuxUsed(): (e: int)
      requires Shape()
      reads this
      ensures Valid() ==> e == if plain.linux < 0 then 0 else plain.linux
    {
      var e := used.linux + counter.linux;
      if e < 0 then 0 else e
    }

    // ---- events ----------------------------------------------------------------------------------

    /** The coulomb counters run on. */
    method Tick(ticks: Figures)
      requires Valid() && ticks.Eight() && ticks.modules[3] == 0 == ticks.modules[4]
      modifies `counter, `plain
      ensures Valid() && counter == Added(old(counter), ticks) && plain == Added(old(plain), ticks)
      ensures plain.controller == old(plain.controller) + ticks.controller
      ensures plain.linux == old(plain.linux) + ticks.linux
      ensures forall i :: 0 <= i < 8 ==> plain.modules[i] == old(plain).modules[i] + ticks.modules[i]
    {
      counter := Added(counter, ticks);
      plain := Added(plain, ticks);
    }

    /** A module resets its use; the counter itself runs on. */
    method ResetModule(i: nat)
      requires Valid() && i < 8
      modifies `used, `plain
      ensures Valid() && plain == old(plain).(modules := old(plain).modules[i := 0]) && ModuleUsed(i) == 0
    {
      used := used.(modules := used.modules[i := -counter.modules[i]]);
      plain := plain.(modules := plain.modules[i := 0]);
    }

    method ResetController()
      requires Valid()
      modifies `used, `plain
      ensures Valid() && plain == old(plain).(controller := 0) && ControllerUsed() == 0
    {
      used := used.(controller := -counter.controller);
      plain := plain.(controller := 0);
    }

    method ResetLinux()
      requires Valid()
      modifies `used, `plain
      ensures Valid() && plain == old(plain).(linux := 0) && LinuxUsed() == 0
    {
      used := used.(linux := -counter.linux);
      plain := plain.(linux := 0);
    }

    // ---- usage reports ---------------------------------------------------------------------------

    /**
     * signpost_energy_policy_update_energy_from_report. What is reported moves from the source's use to that of the
     * module it was used for, and the other way between their accounts; reports beyond belief are dropped. Nothing is
     * gained or lost.
     */
    method Report(source: nat, rs: seq<Usage>)
      requires Valid() && source < 8 && forall j :: 0 <= j < |rs| ==> rs[j].slot < 8
      modifies `controller, `modules, `used, `virtualAverage, `plain
      ensures Valid() && Drift() == old(Drift())
      ensures plain == Moved(old(plain), source, rs, 1) && used == Moved(old(used), source, rs, 1)
      ensures virtualAverage == Moved(old(virtualAverage), source, rs, 1)
      ensures Figures(controller, 0, modules) == Moved(Figures(old(controller), 0, old(modules)), source, rs, -1)
      ensures plain.controller == old(plain.controller) + Reported(rs, 3) && plain.linux == old(plain.linux)
      ensures forall i :: 0 <= i < 8 ==>
        plain.modules[i] ==
          old(plain).modules[i] + (if i == 3 then 0 else Reported(rs, i)) - (if i == source then Believed(rs) else 0)
      ensures controller == old(controller) - Reported(rs, 3)
      ensures forall i :: 0 <= i < 8 ==>
        modules[i] ==
          old(modules)[i] - (if i == 3 then 0 else Reported(rs, i)) + (if i == source then Believed(rs) else 0)
      ensures used.Total() == old(used.Total()) && virtualAverage.Total() == old(virtualAverage.Total())
      ensures controller + Sum(modules) == old(controller + Sum(modules))
    {
      hide Move, Sum, Moved, Reported, Believed;
      MovedEach(plain, source, rs, 1);
      MovedEach(Figures(controller, 0, modules), source, rs, -1);
      MovedNothing(plain, source, 1);
      MovedNothing(used, source, 1);
      MovedNothing(virtualAverage, source, 1);
      MovedNothing(Figures(controller, 0, modules), source, -1);
      MovedTotal(used, source, rs, 1);
      MovedTotal(virtualAverage, source, rs, 1);
      ghost var acc := Figures(controller, 0, modules);
      assert rs[..0] == [];
      for j := 0 to |rs|
        invariant Valid() && Drift() == old(Drift())
        invariant plain == Moved(old(plain), source, rs[..j], 1) && used == Moved(old(used), source, rs[..j], 1)
        invariant virtualAverage == Moved(old(virtualAverage), source, rs[..j], 1)
        invariant Figures(controller, 0, modules) == Moved(acc, source, rs[..j], -1)
        invariant controller + Sum(modules) == old(controller + Sum(modules))
      {
        MovedMore(old(plain), source, rs, j, 1);
        MovedMore(old(used), source, rs, j, 1);
        MovedMore(old(virtualAverage), source, rs, j, 1);
        MovedMore(acc, source, rs, j, -1);
        if rs[j].energy <= MAX_REPORT {
          Book(source, rs[j].slot, rs[j].energy);
        }
      }
      assert rs[..|rs|] == rs;
    }

    /** One usage report. */
    method Book(source: nat, slot: nat, e: int)
      requires Valid() && e >= 0 && source < 8 && slot < 8
      modifies `controller, `modules, `used, `virtualAverage, `plain
      ensures Valid() && Drift() == old(Drift())
      ensures plain == Move(old(plain), source, slot, e) && used == Move(old(used), source, slot, e)
      ensures virtualAverage == Move(old(virtualAverage), source, slot, e)
      ensures Figures(controller, 0, modules) == Move(Figures(old(controller), 0, old(modules)), source, slot, -e)
      ensures controller + Sum(modules) == old(controller + Sum(modules))
      ensures controller == old(controller) - (if slot == 3 then e else 0)
      ensures forall i :: 0 <= i < 8 ==>
        modules[i] == old(modules)[i] - (if i == slot && slot != 3 then e else 0) + (if i == source then e else 0)
      ensures used.controller == old(used).controller + (if slot == 3 then e else 0) && used.linux == old(used).linux
      ensures forall i :: 0 <= i < 8 ==>
        used.modules[i] ==
          old(used).modules[i] + (if i == slot && slot != 3 then e else 0) - (if i == source then e else 0)
    {
      hide Move, Sum;
      MoveEach(used, source, slot, e);
      MoveEach(Figures(controller, 0, modules), source, slot, -e);
      MoveEach(plain, source, slot, e);
      BookAccounts(source, slot, e);
      BookUse(source, slot, e);
      virtualAverage := Move(virtualAverage, source, slot, e);
      plain := Move(plain, source, slot, e);
    }

    method BookAccounts(source: nat, slot: nat, e: int)
      requires Shape() && source < 8 && slot < 8
      modifies `controller, `modules
      ensures Shape()
      ensures Figures(controller, 0, modules) == Move(Figures(old(controller), 0, old(modules)), source, slot, -e)
      ensures controller + Sum(modules) == old(controller + Sum(modules))
    {
      MoveTotal(Figures(controller, 0, modules), source, slot, -e);
      if slot == 3 {
        controller := controller - e;
      } else {
        modules := modules[slot := modules[slot] - e];
      }
      modules := modules[source := modules[source] + e];
    }

    method BookUse(source: nat, slot: nat, e: int)
      requires Shape() && source < 8 && slot < 8
      modifies `used
      ensures Shape() && used == Move(old(used), source, slot, e)
    {
      if slot == 3 {
        used := used.(controller := used.controller + e);
      } else {
        used := used.(modules := used.modules[slot := used.modules[slot] + e]);
      }
      used := used.(modules := used.modules[source := used.modules[source] - e]);
    }

    // ---- the periodic update -----------------------------------------------------------------------

    /** The first loops of the update: total use, and the averages with what was reported since the last one. */
    method Measure(period: nat) returns (total: int)
      requires Shape() && period > 0
      modifies `average, `virtualAverage
      ensures Shape() && total == counter.Total() && (old(Refines()) ==> Refines())
      ensures average.controller == Power(old(virtualAverage).controller + counter.controller, period)
      ensures average.linux == Power(old(virtualAverage).linux + counter.linux, period)
      ensures forall i :: Module(i) ==>
        average.modules[i] == Power(old(virtualAverage).modules[i] + counter.modules[i], period)
      ensures virtualAverage.controller == 0 == virtualAverage.linux
      ensures forall i :: Module(i) ==> virtualAverage.modules[i] == 0
    {
      hide Power, Refines, Sum;
      total := counter.linux;
      average := average.(linux := Power(virtualAverage.linux + counter.linux, period));
      virtualAverage := virtualAverage.(linux := 0);
      total := total + counter.controller;
      average := average.(controller := Power(virtualAverage.controller + counter.controller, period));
      virtualAverage := virtualAverage.(controller := 0);
      ghost var head, v, c := total, old(virtualAverage), counter.modules;
      assert c[..0] == [];
      SumNothing();
      for i := 0 to 8
        invariant Shape() && counter.modules == c && total == head + Sum(c[..i])
        invariant average.controller == Power(v.controller + counter.controller, period)
        invariant average.linux == Power(v.linux + counter.linux, period)
        invariant virtualAverage.controller == 0 == virtualAverage.linux
        invariant forall j :: 0 <= j < i && Module(j) ==>
          average.modules[j] == Power(v.modules[j] + c[j], period) && virtualAverage.modules[j] == 0
        invariant forall j :: i <= j < 8 ==> virtualAverage.modules[j] == v.modules[j]
      {
        SumTake(c, i);
        if Module(i) {
          total := total + counter.modules[i];
          MeasureModule(i, period);
        }
      }
      assert c[..8] == c;
    }

    /** The average of one module. */
    method MeasureModule(i: nat, period: nat)
      requires Shape() && i < 8 && period > 0
      modifies `average, `virtualAverage
      ensures Shape() && average.controller == old(average).controller && average.linux == old(average).linux
      ensures virtualAverage.controller == old(virtualAverage).controller
      ensures virtualAverage.linux == old(virtualAverage).linux && virtualAverage.modules[i] == 0
      ensures average.modules[i] == Power(old(virtualAverage).modules[i] + counter.modules[i], period)
      ensures forall j :: 0 <= j < 8 && j != i ==>
        average.modules[j] == old(average).modules[j] && virtualAverage.modules[j] == old(virtualAverage).modules[j]
    {
      var power := Power(virtualAverage.modules[i] + counter.modules[i], period);
      average := average.(modules := average.modules[i := power]);
      virtualAverage := virtualAverage.(modules := virtualAverage.modules[i := 0]);
    }

    /** Measured use goes from the counters into the stored use and off the accounts; the counters start again. */
    method Settle()
      requires Shape() && Refines()
      modifies `used, `counter, `controller, `modules
      ensures Shape() && Refines() && counter == ZERO
      ensures controller == old(controller - counter.controller - counter.linux)
      ensures modules == Plus(old(modules), old(counter).modules, -1)
      ensures forall i :: Module(i) ==> modules[i] == old(modules)[i] - old(counter).modules[i]
      ensures controller + Sum(modules) == old(controller + Sum(modules) - counter.Total())
    {
      hide Sum;
      var c := counter;
      PlusSum(modules, c.modules, -1);
      counter := ZERO;
      var m := AddEach(used.modules, c.modules, 1);
      used := Figures(used.controller + c.controller, used.linux + c.linux, m);
      controller := controller - c.controller;
      controller := controller - c.linux;
      modules := AddEach(modules, c.modules, -1);
    }

    /**
     * Surplus: four tenths to the controller, a tenth to each module, and what the controller cannot hold to the
     * modules too.
     */
    method Distribute(surplus: nat) returns (ghost share: nat, ghost level: nat, ghost extra: nat, ghost loss: nat)
      requires Shape() && Refines() && surplus > 0
      modifies `controller, `modules
      ensures Shape() && Refines() && share == surplus / 10 + Over(old(controller) + surplus * 4 / 10) / 6
      ensures modules == Filled(old(modules), level) && (if share > 0 then level >= share else level == 0)
      ensures controller == Min(MAX_CONTROLLER, old(controller) + surplus * 4 / 10) + extra
      ensures extra > 0 ==> forall i :: Module(i) ==> modules[i] == MAX_MODULE
      ensures Sum(modules) + extra + loss == Sum(old(modules)) + 6 * share && loss <= 10
      ensures var was := old(controller + Sum(modules));
              was + surplus - 21 <= controller + Sum(modules) <= was + surplus
    {
      hide Filled, Sum;
      var moduleSurplus := surplus / 10;
      controller := controller + surplus * 4 / 10;
      if controller > MAX_CONTROLLER {
        moduleSurplus := moduleSurplus + (controller - MAX_CONTROLLER) / 6;
        controller := MAX_CONTROLLER;
      }
      share := moduleSurplus;
      var m, e;
      ghost var rounds;
      m, e, level, loss, rounds := Spill(modules, moduleSurplus);
      extra := e;
      modules := m;
      controller := controller + e;
    }

    /**
     * signpost_energy_policy_update_energy. Use is settled without changing any reading of it; a surplus of the battery
     * over the accounts is distributed, a deficit is charged to the controller. At most 21 units are lost, none is
     * made.
     */
    method Update(period: nat, reading: int)
      returns (ghost surplus: int, ghost level: nat, ghost extra: nat, ghost loss: nat)
      requires Valid() && period > 0
      modifies this
      ensures Valid() && plain == old(plain) && counter == ZERO && updates == old(updates) + 1
      ensures Closed(reading, surplus, level, extra, loss)
      ensures old(Drift()) <= Drift() <= old(Drift()) + 21 && (surplus <= 0 ==> Drift() == old(Drift()))
      ensures average.controller == Power(old(virtualAverage.controller + counter.controller), period)
      ensures average.linux == Power(old(virtualAverage.linux + counter.linux), period)
      ensures forall i :: Module(i) ==>
        average.modules[i] == Power(old(virtualAverage).modules[i] + old(counter).modules[i], period)
      ensures virtualAverage.controller == 0 == virtualAverage.linux
      ensures forall i :: Module(i) ==> virtualAverage.modules[i] == 0
    {
      hide Power, Sum, Figures.Total, Filled, Plus, Over, Refines;
      var total := Measure(period);
      surplus, level, extra, loss := Close(total, reading);
    }

    /** The rest of the update. */
    method Close(total: int, reading: int)
      returns (ghost surplus: int, ghost level: nat, ghost extra: nat, ghost loss: nat)
      requires Valid() && total == counter.Total()
      modifies `used, `counter, `controller, `modules, `battery, `batteryLast, `updates
      ensures Valid() && counter == ZERO && updates == old(updates) + 1 && Closed(reading, surplus, level, extra, loss)
      ensures old(Drift()) <= Drift() <= old(Drift()) + 21 && (surplus <= 0 ==> Drift() == old(Drift()))
    {
      hide Filled, Sum, Plus, Figures.Total, Refines;
      level, extra, loss := 0, 0, 0;
      var now := if reading < 0 then batteryLast - total else reading;
      Settle();
      var batteryUsed := Advance(now);
      surplus := total - batteryUsed;
      if batteryUsed < total {
        ghost var share;
        share, level, extra, loss := Distribute(total - batteryUsed);
      } else {
        Charge(batteryUsed - total);
      }
    }

    /** The battery reading takes the place of the last one. */
    method Advance(now: int) returns (batteryUsed: int)
      requires Shape() && Refines()
      modifies `battery, `batteryLast, `updates
      ensures Shape() && Refines() && battery == batteryLast == now && batteryUsed == old(batteryLast) - now
      ensures updates == old(updates) + 1
    {
      battery := now;
      batteryUsed := batteryLast - battery;
      batteryLast := battery;
      updates := updates + 1;
    }

    /** Losses are charged to the controller. */
    method Charge(x: int)
      requires Shape() && Refines()
      modifies `controller
      ensures Shape() && Refines() && controller == old(controller) - x
    {
      controller := controller - x;
    }

    /** What an update makes of the accounts, the battery showing so much more or less than they add up to. */
    twostate predicate Closed(reading: int, surplus: int, level: nat, extra: nat, loss: nat)
      requires old(Shape())
      reads this
    {
      && |modules| == 8
      && battery == batteryLast == (if reading < 0 then old(batteryLast) - old(counter).Total() else reading)
      && surplus == old(counter).Total() - (old(batteryLast) - batteryLast)
      && (surplus <= 0 ==> controller == Debited() + surplus && modules == Plus(old(modules), old(counter).modules, -1))
      && (surplus > 0 ==>
        && modules == Filled(Plus(old(modules), old(counter).modules, -1), level)
        && controller == Min(MAX_CONTROLLER, Debited() + surplus * 4 / 10) + extra
        && (extra > 0 ==> forall i :: Module(i) ==> modules[i] == MAX_MODULE)
        && Sum(modules) + extra + loss == Sum(Plus(old(modules), old(counter).modules, -1))
          + 6 * (surplus / 10 + Over(Debited() + surplus * 4 / 10) / 6)
        && loss <= 10)
    }

    /** The controller's account after the last settlement. */
    twostate function Debited(): int
      reads this
    {
      old(controller - counter.controller - counter.linux)
    }
  }

  /** What the controller cannot hold. */
  function Over(x: int): nat {
    if x > MAX_CONTROLLER then x - MAX_CONTROLLER else 0
  }

  /** The amount e more for a slot, or for the controller, and less for the source. */
  function Move(f: Figures, source: nat, slot: nat, e: int): (r: Figures)
    requires f.Eight() && source < 8 && slot < 8
    ensures r.Eight()
  {
    var g :=
      if slot == 3 then f.(controller := f.controller + e)
      else f.(modules := f.modules[slot := f.modules[slot] + e]);
    g.(modules := g.modules[source := g.modules[source] - e])
  }

  /** What was reported for a slot, without the reports beyond belief. */
  function Reported(rs: seq<Usage>, slot: nat): nat {
    if rs == [] then 0
    else
      var u := rs[|rs| - 1];
      Reported(rs[..|rs| - 1], slot) + if u.slot == slot && u.energy <= 100_000 then u.energy else 0
  }

  /** What was reported for anyone. */
  function Believed(rs: seq<Usage>): nat {
    if rs == [] then 0
    else
      var u := rs[|rs| - 1];
      Believed(rs[..|rs| - 1]) + if u.energy <= 100_000 then u.energy else 0
  }

  /** Each figure changes by what was reported for it; the source's also by all that was reported. */
  lemma {:induction false} MovedEach(f: Figures, source: nat, rs: seq<Usage>, sign: int)
    requires f.Eight() && source < 8 && (sign == 1 || sign == -1) && forall j :: 0 <= j < |rs| ==> rs[j].slot < 8
    ensures var g := Moved(f, source, rs, sign);
            && g.controller == f.controller + sign * Reported(rs, 3) && g.linux == f.linux
            && forall i :: 0 <= i < 8 ==>
                 g.modules[i] == f.modules[i] + sign * ((if i == 3 then 0 else Reported(rs, i))
                                                        - (if i == source then Believed(rs) else 0))
  {
    if rs == [] {
    } else {
      hide Move;
      MovedEach(f, source, rs[..|rs| - 1], sign);
      var u := rs[|rs| - 1];
      MoveEach(Moved(f, source, rs[..|rs| - 1], sign), source, u.slot, sign * u.energy);
    }
  }

  lemma MoveEach(f: Figures, source: nat, slot: nat, e: int)
    requires f.Eight() && source < 8 && slot < 8
    ensures var g := Move(f, source, slot, e);
            && g.controller == f.controller + (if slot == 3 then e else 0) && g.linux == f.linux
            && forall i :: 0 <= i < 8 ==>
                 g.modules[i] ==
                   f.modules[i] + (if i == slot && slot != 3 then e else 0) - (if i == source then e else 0)
  {
  }

  lemma MovedNothing(f: Figures, source: nat, sign: int)
    requires f.Eight() && source < 8
    ensures Moved(f, source, [], sign) == f
  {
  }

  lemma MovedMore(f: Figures, source: nat, rs: seq<Usage>, j: nat, sign: int)
    requires f.Eight() && source < 8 && j < |rs| && forall j :: 0 <= j < |rs| ==> rs[j].slot < 8
    ensures Moved(f, source, rs[..j + 1], sign) ==
            if rs[j].energy > MAX_REPORT then Moved(f, source, rs[..j], sign)
            else Move(Moved(f, source, rs[..j], sign), source, rs[j].slot, sign * rs[j].energy)
  {
    assert rs[..j + 1][..j] == rs[..j];
  }

  lemma MoveTotal(f: Figures, source: nat, slot: nat, e: int)
    requires f.Eight() && source < 8 && slot < 8
    ensures Move(f, source, slot, e).Total() == f.Total()
  {
    var g :=
      if slot == 3 then f.(controller := f.controller + e)
      else f.(modules := f.modules[slot := f.modules[slot] + e]);
    if slot != 3 { SumUpdate(f.modules, slot, f.modules[slot] + e); }
    SumUpdate(g.modules, source, g.modules[source] - e);
  }

  /** All reports of a source, but for those dropped. */
  function Moved(f: Figures, source: nat, rs: seq<Usage>, sign: int): (r: Figures)
    requires f.Eight() && source < 8 && forall j :: 0 <= j < |rs| ==> rs[j].slot < 8
    ensures r.Eight()
  {
    if rs == [] then f
    else
      var g := Moved(f, source, rs[..|rs| - 1], sign);
      var u := rs[|rs| - 1];
      if u.energy > MAX_REPORT then g else Move(g, source, u.slot, sign * u.energy)
  }

  lemma {:induction false} MovedTotal(f: Figures, source: nat, rs: seq<Usage>, sign: int)
    requires f.Eight() && source < 8 && forall j :: 0 <= j < |rs| ==> rs[j].slot < 8
    ensures Moved(f, source, rs, sign).Total() == f.Total()
  {
    if rs == [] {
    } else {
      MovedTotal(f, source, rs[..|rs| - 1], sign);
      var u := rs[|rs| - 1];
      MoveTotal(Moved(f, source, rs[..|rs| - 1], sign), source, u.slot, sign * u.energy);
    }
  }

  function Added(a: Figures, b: Figures): (r: Figures)
    requires a.Eight() && b.Eight()
    ensures r.Eight()
  {
    Figures(a.controller + b.controller, a.linux + b.linux,
      seq(8, i requires 0 <= i < 8 => a.modules[i] + b.modules[i]))
  }
}
