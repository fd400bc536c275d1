/**
 * The kernel driver that shares one serial port among applications: every application hands over a slice of memory,
 * which goes out in chunks of the driver's own buffer. Applications need not keep to the rules; what the driver
 * promises to one that does holds whatever the others do, unless they bring it down.
 */
module UartConsole {
  import opened Bytes
  import opened Wrappers

  datatype ReturnCode = SUCCESS | EBUSY

  /** What the driver keeps for an application. */
  datatype App = App(
    writeBuffer: Option<seq<byte>>, writeLen: nat, writeRemaining: nat, pendingWrite: bool, callback: bool)
  {
    /** It is pending and there is something of it that can be sent. */
    predicate Eligible() { pendingWrite && writeRemaining > 0 && writeBuffer.Some? }

    /** The slice it lends is shorter than what is left to send of the one it had. */
    predicate TooShort() { writeRemaining > 0 && writeBuffer.Some? && |writeBuffer.value| < writeRemaining }
  }

  const FRESH: App := App(None, 0, 0, false, false)

  /** A slice an application has handed over, or what it has sent in one turn. */
  datatype Job = Job(app: nat, bytes: seq<byte>)

  /** What an application is told: how many bytes were written, or that its slice was gone. */
  datatype Notice = Written(app: nat, bytes: nat) | Failed(app: nat)

  /** How it goes on with an application: another chunk, nothing left, no slice, or the kernel stops. */
  datatype Progress = More | Done | NoSlice | Panic

  /** All bytes of some jobs, one after the other. */
  function Flat(jobs: seq<Job>): seq<byte> {
    if jobs == [] then [] else Flat(jobs[..|jobs| - 1]) + jobs[|jobs| - 1].bytes
  }

  lemma FlatMore(jobs: seq<Job>, j: Job)
    ensures Flat(jobs + [j]) == Flat(jobs) + j.bytes
  {
    assert (jobs + [j])[..|jobs|] == jobs;
  }

  lemma Joined(a: seq<byte>, b: seq<byte>, c: seq<byte>)
    ensures (a + b) + c == a + (b + c)
  {
  }

  /** The jobs of one application. */
  function Of(jobs: seq<Job>, a: nat): seq<seq<byte>> {
    if jobs == [] then []
    else Of(jobs[..|jobs| - 1], a) + if jobs[|jobs| - 1].app == a then [jobs[|jobs| - 1].bytes] else []
  }

  lemma OfMore(jobs: seq<Job>, j: Job, a: nat)
    ensures Of(jobs + [j], a) == Of(jobs, a) + if j.app == a then [j.bytes] else []
  {
    assert (jobs + [j])[..|jobs|] == jobs;
  }

  /** How much is left to do: bytes not handed to the port yet, and applications whose turn has to come. */
  function Work(apps: seq<App>): nat {
    if apps == [] then 0 else Work(apps[..|apps| - 1]) + Load(apps[|apps| - 1])
  }

  function Load(a: App): nat {
    a.writeRemaining + if a.pendingWrite then 1 else 0
  }

  lemma {:induction false} WorkUpdate(apps: seq<App>, i: nat, a: App)
    requires i < |apps|
    ensures Work(apps[i := a]) == Work(apps) - Load(apps[i]) + Load(a)
  {
    var last := |apps| - 1;
    if i == last {
      assert apps[i := a][..last] == apps[..last];
    } else {
      WorkUpdate(apps[..last], i, a);
      assert apps[i := a][..last] == apps[..last][i := a];
    }
  }

  /** The application whose turn comes next: the first one from k on with something to send. */
  function NextUp(apps: seq<App>, k: nat): (r: Option<nat>)
    ensures r.Some? ==> k <= r.value < |apps| && apps[r.value].Eligible()
    ensures forall j :: k <= j < |apps| && (r.Some? ==> j < r.value) ==> !apps[j].Eligible()
    decreases |apps| - k
  {
    if k >= |apps| then None else if apps[k].Eligible() then Some(k) else NextUp(apps, k + 1)
  }

  /** It depends only on who is eligible. */
  lemma NextUpSame(apps: seq<App>, bpps: seq<App>, k: nat)
    requires |apps| == |bpps| && forall j :: k <= j < |apps| ==> (apps[j].Eligible() <==> bpps[j].Eligible())
    ensures NextUp(apps, k) == NextUp(bpps, k)
    decreases |apps| - k
  {
  }

  /**
   * The slices of every application that keeps to the rules are finished in the order in which it handed them over, and
   * no others.
   */
  ghost predicate Ordered(submitted: seq<Job>, finished: seq<Job>, jobs: seq<Option<seq<byte>>>, wild: set<nat>) {
    forall a {:trigger Of(submitted, a)} :: 0 <= a < |jobs| && a !in wild ==>
      Of(submitted, a) == Of(finished, a) + Outstanding(jobs[a])
  }

  function Outstanding(j: Option<seq<byte>>): seq<seq<byte>> {
    if j.Some? then [j.value] else []
  }

  lemma OrderedSubmit(submitted: seq<Job>, finished: seq<Job>, jobs: seq<Option<seq<byte>>>, wild: set<nat>, i: nat,
                      s: seq<byte>)
    requires Ordered(submitted, finished, jobs, wild) && i < |jobs| && jobs[i] == None
    ensures Ordered(submitted + [Job(i, s)], finished, jobs[i := Some(s)], wild)
  {
    var more := submitted + [Job(i, s)];
    forall a | 0 <= a < |jobs| && a !in wild
      ensures Of(more, a) == Of(finished, a) + Outstanding(jobs[i := Some(s)][a])
    {
      OfMore(submitted, Job(i, s), a);
    }
  }

  /** A turn has ended: that of an application that keeps to the rules has sent the slice it waits for. */
  lemma OrderedFinish(submitted: seq<Job>, finished: seq<Job>, jobs: seq<Option<seq<byte>>>, wild: set<nat>, i: nat,
                      s: seq<byte>)
    requires Ordered(submitted, finished, jobs, wild) && i < |jobs| && (i !in wild ==> jobs[i] == Some(s))
    ensures Ordered(submitted, finished + [Job(i, s)], jobs[i := None], wild)
  {
    forall a | 0 <= a < |jobs| && a !in wild
      ensures Of(submitted, a) == Of(finished + [Job(i, s)], a) + Outstanding(jobs[i := None][a])
    {
      OfMore(finished, Job(i, s), a);
    }
  }

  lemma OrderedWild(submitted: seq<Job>, finished: seq<Job>, jobs: seq<Option<seq<byte>>>, wild: set<nat>, i: nat)
    requires Ordered(submitted, finished, jobs, wild) && i < |jobs|
    ensures Ordered(submitted, finished, jobs[i := None], wild + {i})
  {
  }

  /**
   * The state of an application that keeps to the rules and waits for a slice or for nothing: its turn has come, and
   * this much of it has been sent, or it is pending while the port is busy.
   */
  predicate Orderly(a: App, job: Option<seq<byte>>, mine: bool, busy: bool, turn: seq<byte>) {
    match job
    case None => a.writeRemaining == 0 && !mine
    case Some(s) =>
      && a.writeLen == |s| && busy && (a.writeRemaining > 0 ==> a.writeBuffer == Some(s))
      && if mine then !a.pendingWrite && a.writeRemaining <= |s| && turn == s[..|s| - a.writeRemaining]
         else a.pendingWrite && a.writeRemaining == |s| > 0
  }

  /** Its state while the port is free: it waits for its turn with a whole slice, or for nothing. */
  predicate Patient(a: App, job: Option<seq<byte>>) {
    match job
    case None => a.writeRemaining == 0
    case Some(s) => s != [] && a.writeLen == |s| == a.writeRemaining && a.pendingWrite && a.writeBuffer == Some(s)
  }

  /** Another chunk of its slice has been sent: a buffer full, or the rest, and then the slice is done with. */
  predicate Advanced(a: App, b: App, size: nat) {
    && size > 0 && a.writeBuffer.Some? && 0 < a.writeRemaining <= |a.writeBuffer.value|
    && b == if a.writeRemaining > size then a.(writeRemaining := a.writeRemaining - size)
            else a.(writeRemaining := 0, writeBuffer := None)
  }

  /** That chunk. */
  function Chunk(a: App, size: nat): (c: seq<byte>)
    requires a.writeBuffer.Some? && a.writeRemaining <= |a.writeBuffer.value|
  {
    var s, n := a.writeBuffer.value, if a.writeRemaining > size then size else a.writeRemaining;
    s[|s| - a.writeRemaining..|s| - a.writeRemaining + n]
  }

  /** An application whose turn has ended: all of its slice was sent, or the slice was gone. */
  function Ended(a: App): App {
    if a.writeRemaining == 0 then a.(writeLen := 0) else Abandoned(a)
  }

  function Abandoned(a: App): App { a.(writeLen := 0, writeRemaining := 0, pendingWrite := false) }

  /** One that was passed over when the next one was chosen: it is not pending any more. */
  function Skipped(a: App): App {
    if !a.pendingWrite then a else if a.writeRemaining == 0 then a.(pendingWrite := false) else Abandoned(a)
  }

  /** The notices to the first k applications, passed over because they were pending without a slice. */
  function Warnings(apps: seq<App>, k: nat): seq<Notice>
    requires k <= |apps|
  {
    if k == 0 then []
    else
      var a := apps[k - 1];
      Warnings(apps, k - 1) + if a.pendingWrite && a.writeRemaining > 0 && a.callback then [Failed(k - 1)] else []
  }

  /** How many applications are passed over. */
  function Before(apps: seq<App>, n: Option<nat>): nat {
    if n.Some? then n.value else |apps|
  }

  /** Those before the next one were passed over, a first chunk of its slice was sent, and the others stay. */
  predicate Began(apps: seq<App>, bpps: seq<App>, n: Option<nat>, size: nat) {
    && |bpps| == |apps| && (n.Some? ==> n.value < |apps|)
    && (forall j :: 0 <= j < Before(apps, n) && j < |apps| ==> bpps[j] == Skipped(apps[j]))
    && (forall j :: Before(apps, n) < j < |apps| ==> bpps[j] == apps[j])
    && (n.Some? ==> Advanced(apps[n.value].(pendingWrite := false), bpps[n.value], size))
  }

  /**
   * The next one is the first that is pending with a slice and something left of it; whoever was pending before it is
   * so no more, having nothing left, or having lost its slice, which it is not to go on with.
   */
  lemma BeganMeans(apps: seq<App>, bpps: seq<App>, n: Option<nat>, size: nat, j: nat)
    requires n == NextUp(apps, 0) && Began(apps, bpps, n, size) && j < |apps|
    ensures var a, b := apps[j], bpps[j];
            var can := a.pendingWrite && a.writeRemaining > 0 && a.writeBuffer.Some?;
            && b.callback == a.callback
            && (if n == Some(j) then
                  && can && !b.pendingWrite && b.writeLen == a.writeLen
                  && b.writeRemaining == (if a.writeRemaining > size then a.writeRemaining - size else 0)
                  && b.writeBuffer == if a.writeRemaining > size then a.writeBuffer else None
                else if a.pendingWrite && (n.None? || j < n.value) then
                  && !can && !b.pendingWrite && b.writeRemaining == 0 && b.writeBuffer == a.writeBuffer
                  && b.writeLen == if a.writeRemaining == 0 then a.writeLen else 0
                else b == a)
  {
  }

  /** What is left of an application after its turn: its slice, if it has lent another one, and its callback. */
  lemma EndedMeans(a: App)
    ensures Ended(a) == App(a.writeBuffer, 0, 0, a.pendingWrite && a.writeRemaining == 0, a.callback)
  {
  }

  /** That chunk, if there is a next one. */
  function FirstChunk(apps: seq<App>, n: Option<nat>, size: nat): seq<byte> {
    if n.Some? && n.value < |apps| && apps[n.value].Eligible() && !apps[n.value].TooShort() then
      Chunk(apps[n.value], size)
    else []
  }

  lemma ChunkSame(a: App, size: nat)
    requires a.writeBuffer.Some? && a.writeRemaining <= |a.writeBuffer.value|
    ensures Chunk(a.(pendingWrite := false), size) == Chunk(a, size)
  {
  }

  /** The first k applications were passed over and told so; the next one is looked for among the others. */
  ghost predicate PassedOver(apps: seq<App>, bpps: seq<App>, before: seq<Notice>, after: seq<Notice>, k: nat) {
    && k <= |apps| == |bpps| && after == before + Warnings(apps, k) && NextUp(apps, 0) == NextUp(apps, k)
    && (forall j :: 0 <= j < k ==> bpps[j] == Skipped(apps[j])) && forall j :: k <= j < |apps| ==> bpps[j] == apps[j]
  }

  lemma PassOver(apps: seq<App>, bpps: seq<App>, cpps: seq<App>, before: seq<Notice>, mid: seq<Notice>,
                 after: seq<Notice>, k: nat)
    requires PassedOver(apps, bpps, before, mid, k) && k < |apps| && !bpps[k].Eligible()
    requires cpps == bpps[k := Skipped(bpps[k])]
    requires var a := bpps[k];
             after == mid + if a.pendingWrite && a.writeRemaining > 0 && a.callback then [Failed(k)] else []
    ensures PassedOver(apps, cpps, before, after, k + 1)
  {
  }

  lemma BeganAt(apps: seq<App>, bpps: seq<App>, cpps: seq<App>, before: seq<Notice>, after: seq<Notice>, k: nat,
                size: nat)
    requires PassedOver(apps, bpps, before, after, k) && k < |apps| && bpps[k].Eligible()
    requires |cpps| == |bpps| && cpps == bpps[k := cpps[k]] && Advanced(bpps[k].(pendingWrite := false), cpps[k], size)
    ensures var n := NextUp(apps, 0);
            && n == Some(k) && after == before + Warnings(apps, Before(apps, n))
            && Began(apps, cpps, n, size) && FirstChunk(apps, n, size) == Chunk(bpps[k], size)
  {
    hide Chunk, Advanced, Warnings, Skipped, NextUp;
    assert bpps[k] == apps[k];
    NextHere(apps, k);
    LongEnough(apps[k].(pendingWrite := false), cpps[k], size);
  }

  lemma NextHere(apps: seq<App>, k: nat)
    requires k < |apps| && apps[k].Eligible()
    ensures NextUp(apps, k) == Some(k)
  {
  }

  lemma LongEnough(a: App, b: App, size: nat)
    requires Advanced(a, b, size)
    ensures !a.TooShort()
  {
  }

  lemma BeganNone(apps: seq<App>, bpps: seq<App>, before: seq<Notice>, after: seq<Notice>, size: nat)
    requires PassedOver(apps, bpps, before, after, |apps|)
    ensures var n := NextUp(apps, 0);
            && n == None && after == before + Warnings(apps, Before(apps, n))
            && Began(apps, bpps, n, size) && FirstChunk(apps, n, size) == []
            && forall j :: 0 <= j < |apps| ==> !bpps[j].pendingWrite
  {
  }

  lemma NotPending(apps: seq<App>, bpps: seq<App>, before: seq<Notice>, after: seq<Notice>, k: nat)
    requires PassedOver(apps, bpps, before, after, k)
    ensures k <= |apps| == |bpps| && (k < |apps| ==> bpps[k] == apps[k])
    ensures (forall j :: 0 <= j < k ==> !bpps[j].pendingWrite)
    ensures NextUp(apps, 0) == NextUp(apps, k)
  {
  }

  lemma NobodyPassed(apps: seq<App>, before: seq<Notice>)
    ensures PassedOver(apps, apps, before, before, 0)
  {
  }

  lemma OrderlyOn(a: App, job: Option<seq<byte>>, turn: seq<byte>, b: App, more: seq<byte>, size: nat)
    requires Orderly(a, job, true, true, turn) && Advanced(a, b, size) && more == turn + Chunk(a, size)
    ensures Orderly(b, job, true, true, more)
  {
  }

  lemma OrderlyStart(a: App, job: Option<seq<byte>>, b: App, more: seq<byte>, size: nat)
    requires Patient(a, job) && Advanced(a.(pendingWrite := false), b, size) && more == Chunk(a, size)
    ensures Orderly(b, job, true, true, more)
  {
  }

  /** All of it has been sent. */
  lemma OrderlyDone(a: App, job: Option<seq<byte>>, turn: seq<byte>)
    requires Orderly(a, job, true, true, turn)
    ensures a.writeRemaining == 0 ==> job == Some(turn) && a.writeLen == |turn|
    ensures a.writeRemaining > 0 ==> a.writeBuffer.Some? && !a.TooShort()
  {
    if a.writeRemaining == 0 { assert job.value[..|job.value|] == job.value; }
  }

  /** The other applications. */
  lemma OrderlyOther(a: App, job: Option<seq<byte>>, turn: seq<byte>, more: seq<byte>)
    requires Orderly(a, job, false, true, turn)
    ensures Orderly(a, job, false, true, more) && Patient(a, job)
  {
  }

  lemma PatientOther(a: App, job: Option<seq<byte>>, more: seq<byte>)
    requires Patient(a, job)
    ensures Orderly(a, job, false, true, more)
  {
  }

  class Console {
    const txBuffer: array<byte>
    var inProgress: Option<nat>
    /** Whether the driver has its buffer, or the port has it. */
    var txHere: bool
    var apps: seq<App>
    /** The notices given to applications. */
    var callbacks: seq<Notice>

    /** The chunk the port is sending. */
    ghost var flight: Option<seq<byte>>
    /** Everything given to the port so far, and the part of it that belongs to the turn in progress. */
    ghost var wire: seq<byte>
    ghost var turn: seq<byte>
    /** The slice every application that keeps to the rules is waiting for. */
    ghost var jobs: seq<Option<seq<byte>>>
    /** The turns that have ended, and the slices handed over. */
    ghost var finished: seq<Job>
    ghost var submitted: seq<Job>
    /** The applications that have broken the rules. */
    ghost var wild: set<nat>

    /** What holds of an application that keeps to the rules. */
    ghost predicate Sane(i: nat)
      requires i < |apps| == |jobs|
      reads this
    {
      i !in wild ==> Orderly(apps[i], jobs[i], inProgress == Some(i), inProgress.Some?, turn)
    }

    ghost predicate Valid()
      reads this
    {
      && txBuffer.Length > 0 && |apps| == |jobs|
      && (inProgress.Some? ==> inProgress.value < |apps|)
      && (txHere <==> inProgress.None?) && (flight.Some? <==> inProgress.Some?)
      && (forall i :: 0 <= i < |apps| ==> Sane(i))
      && (inProgress.None? ==> forall i :: 0 <= i < |apps| ==> !apps[i].pendingWrite)
      && wire == Flat(finished) + (if inProgress.Some? then turn else [])
      && Ordered(submitted, finished, jobs, wild)
    }

    /** What is left to do. */
    ghost function Left(): nat
      reads this
    {
      Work(apps) + if inProgress.Some? then 1 else 0
    }

    constructor (n: nat, size: nat)
      requires size > 0
      ensures Valid() && |apps| == n && txBuffer.Length == size && inProgress == None && wire == []
      ensures finished == submitted == [] && callbacks == [] && wild == {}
      ensures forall i :: 0 <= i < n ==> jobs[i] == None
    {
      txBuffer := new byte[size](_ => 0);
      inProgress, txHere, flight, wire, turn := None, true, None, [], [];
      apps, jobs := seq(n, _ => FRESH), seq(n, _ => None);
      callbacks, finished, submitted, wild := [], [], [], {};
    }

    /**
     * The allow call: an application lends the driver a slice, or takes it back. It breaks the rules exactly if some of
     * the slice it has handed over is still to be sent.
     */
    method Allow(i: nat, slice: Option<seq<byte>>)
      requires Valid() && i < |apps|
      modifies `apps, `jobs, `wild
      ensures Valid() && apps == old(apps)[i := old(apps)[i].(writeBuffer := slice)]
      ensures wild == old(wild) + if old(apps)[i].writeRemaining > 0 then {i} else {}
      ensures jobs == if old(apps)[i].writeRemaining > 0 then old(jobs)[i := None] else old(jobs)
    {
      hide Ordered, Flat;
      if apps[i].writeRemaining > 0 {
        OrderedWild(submitted, finished, jobs, wild, i);
        wild, jobs := wild + {i}, jobs[i := None];
      }
      apps := apps[i := apps[i].(writeBuffer := slice)];
      forall j | 0 <= j < |apps| ensures Sane(j) { assert old(Sane(j)); }
    }

    /** send: start at once if the port is free, else be pending; a slice shorter than what is left stops the kernel. */
    method Send(i: nat, slice: seq<byte>) returns (panic: bool)
      requires txBuffer.Length > 0 && i < |apps| && (txHere <==> inProgress.None?)
      modifies `inProgress, `txHere, `apps, `flight, `wire, `turn, txBuffer
      ensures panic <==> old(inProgress).None? && old(apps)[i].writeRemaining > |slice|
      ensures |apps| == |old(apps)| && apps == old(apps)[i := apps[i]]
      ensures apps[i].writeLen == old(apps)[i].writeLen && apps[i].callback == old(apps)[i].callback
      ensures old(inProgress).Some? ==>
        && inProgress == old(inProgress) && txHere == old(txHere) && wire == old(wire) && flight == old(flight)
        && turn == old(turn) && apps == old(apps)[i := old(apps)[i].(pendingWrite := true, writeBuffer := Some(slice))]
      ensures old(inProgress).None? && !panic ==>
        && inProgress == Some(i) && !txHere
        && apps[i] == (var a, n := old(apps)[i], txBuffer.Length;
                       if a.writeRemaining > n then
                         a.(writeRemaining := a.writeRemaining - n, writeBuffer := Some(slice))
                       else a.(writeRemaining := 0))
        && flight == Some(slice[|slice| - old(apps)[i].writeRemaining..|slice| - apps[i].writeRemaining])
        && |flight.value| <= txBuffer.Length && wire == old(wire) + flight.value && turn == old(turn) + flight.value
    {
      panic := false;
      if inProgress.None? {
        inProgress := Some(i);
        txHere := false;
        var app := apps[i];
        var transactionLen := app.writeRemaining;
        if app.writeRemaining > |slice| { return true; }  // a negative place to begin
        var rest := slice[|slice| - app.writeRemaining..];
        var n := 0;
        while n < |rest| && n < txBuffer.Length
          modifies txBuffer
          invariant n <= |rest| && n <= txBuffer.Length && txBuffer[..n] == rest[..n]
        {
          txBuffer[n] := rest[n];
          n := n + 1;
        }
        if app.writeRemaining > txBuffer.Length {
          transactionLen := txBuffer.Length;
          app := app.(writeRemaining := app.writeRemaining - txBuffer.Length, writeBuffer := Some(slice));
        } else {
          app := app.(writeRemaining := 0);
        }
        assert txBuffer[..transactionLen] == rest[..transactionLen] ==
          slice[|slice| - apps[i].writeRemaining..|slice| - app.writeRemaining];
        apps := apps[i := app];
        flight := Some(txBuffer[..transactionLen]);
        wire, turn := wire + flight.value, turn + flight.value;
      } else {
        apps := apps[i := apps[i].(pendingWrite := true, writeBuffer := Some(slice))];
      }
    }

    /**
     * The subscribe call for writing: send_new. A write while another one is outstanding breaks the rules. Any other is
     * a job to be finished, except that of an empty slice while the port is busy: it is accepted but never reported.
     */
    method Write(i: nat, callback: bool) returns (code: ReturnCode)
      requires Valid() && i < |apps|
      modifies this, txBuffer
      ensures Valid() && callbacks == old(callbacks) && finished == old(finished) && |apps| == |old(apps)|
      ensures old(apps)[i].writeBuffer.None? ==>
        && code == EBUSY && apps == old(apps) && jobs == old(jobs) && wild == old(wild)
        && submitted == old(submitted) && wire == old(wire) && inProgress == old(inProgress)
      ensures old(apps)[i].writeBuffer.Some? ==>
        var s := old(apps)[i].writeBuffer.value;
        && code == SUCCESS && (old(inProgress).Some? ==> inProgress == old(inProgress) && wire == old(wire))
        && (old(inProgress).None? ==>
          && inProgress == Some(i)
          && wire == old(wire) + (if |s| > txBuffer.Length then s[..txBuffer.Length] else s)
          && apps == old(apps)[i := if |s| > txBuffer.Length
                                    then App(Some(s), |s|, |s| - txBuffer.Length, old(apps)[i].pendingWrite, callback)
                                    else App(None, |s|, 0, old(apps)[i].pendingWrite, callback)])
        && (old(inProgress).Some? ==> apps == old(apps)[i := App(Some(s), |s|, |s|, true, callback)])
        && wild == old(wild) + (if old(jobs)[i].Some? then {i} else {})
        && if i in wild then jobs == old(jobs)[i := None] && submitted == old(submitted)
           else if s == [] && old(inProgress).Some? then jobs == old(jobs) && submitted == old(submitted)
           else jobs == old(jobs)[i := Some(s)] && submitted == old(submitted) + [Job(i, s)]
    {
      hide Ordered, Flat;
      match apps[i].writeBuffer {
        case None => code := EBUSY;
        case Some(slice) =>
          assert Sane(i);
          Note(i, slice);
          if inProgress.None? { turn := []; }
          apps := apps[i := App(None, |slice|, |slice|, apps[i].pendingWrite, callback)];
          var panic := Send(i, slice);
          code := SUCCESS;
          forall j | 0 <= j < |apps| ensures Sane(j) { assert old(Sane(j)); }
      }
    }

    /** What a write means for the applications' slices. */
    ghost method Note(i: nat, slice: seq<byte>)
      requires |apps| == |jobs| && i < |apps| && Ordered(submitted, finished, jobs, wild)
      modifies `jobs, `submitted, `wild
      ensures |jobs| == |apps| && Ordered(submitted, finished, jobs, wild)
      ensures wild == old(wild) + (if old(jobs)[i].Some? then {i} else {})
      ensures if i in wild then jobs == old(jobs)[i := None] && submitted == old(submitted)
              else if slice == [] && inProgress.Some? then jobs == old(jobs) && submitted == old(submitted)
              else jobs == old(jobs)[i := Some(slice)] && submitted == old(submitted) + [Job(i, slice)]
    {
      hide Ordered;
      if jobs[i].Some? || i in wild {
        OrderedWild(submitted, finished, jobs, wild, i);
        assert wild + {i} == wild + if jobs[i].Some? then {i} else {};
        wild, jobs := wild + {i}, jobs[i := None];
      } else if slice != [] || inProgress.None? {
        OrderedSubmit(submitted, finished, jobs, wild, i, slice);
        jobs, submitted := jobs[i := Some(slice)], submitted + [Job(i, slice)];
      }
    }

    /** send_continue: go on with the application's slice if there is more, and a slice. */
    method SendContinue(i: nat) returns (r: Progress)
      requires txBuffer.Length > 0 && i < |apps| && txHere && inProgress.None?
      modifies `inProgress, `txHere, `apps, `flight, `wire, `turn, txBuffer
      ensures |apps| == |old(apps)| && apps == old(apps)[i := apps[i]]
      ensures r == (var a := old(apps)[i];
                    if a.writeRemaining == 0 then Done else if a.writeBuffer.None? then NoSlice
                    else if a.TooShort() then Panic else More)
      ensures r == Done || r == NoSlice ==>
        && inProgress.None? && txHere && apps == old(apps) && wire == old(wire) && flight == old(flight)
        && turn == old(turn)
      ensures r == More ==>
        && inProgress == Some(i) && !txHere && Advanced(old(apps)[i], apps[i], txBuffer.Length)
        && flight == Some(Chunk(old(apps)[i], txBuffer.Length))
        && wire == old(wire) + flight.value && turn == old(turn) + flight.value
    {
      if apps[i].writeRemaining > 0 {
        match apps[i].writeBuffer {
          case None => r := NoSlice;
          case Some(slice) =>
            apps := apps[i := apps[i].(writeBuffer := None)];
            var panic := Send(i, slice);
            r := if panic then Panic else More;
        }
      } else {
        r := Done;
      }
    }

    /**
     * transmit_complete. The application whose chunk went out continues with the next one, or its turn ends and it is
     * told; then the first pending application that can starts. Every completion leaves less to do. The kernel stops
     * exactly if what is to be sent next is of a slice that has become too short, and then by an application that has
     * broken the rules.
     */
    method TransmitComplete() returns (panic: bool)
      requires Valid() && inProgress.Some?
      modifies this, txBuffer
      ensures |apps| == |old(apps)| && submitted == old(submitted) && wild == old(wild)
      ensures var a := old(apps)[old(inProgress).value];
              if a.writeRemaining > 0 && a.writeBuffer.Some? then panic <==> a.TooShort()
              else panic <==> NextUp(old(apps), 0).Some? && old(apps)[NextUp(old(apps), 0).value].TooShort()
      ensures panic ==> wild != {}
      ensures !panic ==> Valid() && Left() < old(Left())
      ensures !panic ==>
        var i, a := old(inProgress).value, old(apps)[old(inProgress).value];
        if a.writeRemaining > 0 && a.writeBuffer.Some? then
          && inProgress == Some(i) && jobs == old(jobs) && finished == old(finished) && callbacks == old(callbacks)
          && apps == old(apps)[i := apps[i]] && Advanced(a, apps[i], txBuffer.Length)
          && wire == old(wire) + Chunk(a, txBuffer.Length)
        else
          var bpps, n := old(apps)[i := Ended(a)], NextUp(old(apps), 0);
          && Began(bpps, apps, n, txBuffer.Length) && wire == old(wire) + FirstChunk(bpps, n, txBuffer.Length)
          && callbacks == old(callbacks) + Told(i, a) + Warnings(bpps, Before(bpps, n))
          && inProgress == NextUp(old(apps), 0) && jobs == old(jobs)[i := None]
          && finished == old(finished) + [Job(i, old(turn))]
          && (i !in wild ==> old(jobs)[i] == Some(old(turn)))
          && Notified(old(callbacks) + Told(i, a), callbacks)
          && old(callbacks) <= callbacks
          && (i !in wild && a.callback ==>
            && |callbacks| > |old(callbacks)|
            && callbacks[|old(callbacks)|] == Written(i, |old(jobs)[i].value|))
          && (a.callback && a.writeRemaining > 0 ==>
            |callbacks| > |old(callbacks)| && callbacks[|old(callbacks)|] == Failed(i))
          && forall k :: |old(callbacks)| <= k < |callbacks| && (k > |old(callbacks)| || !a.callback) ==>
               callbacks[k].app in wild
    {
      hide Ordered, Flat, Work, NextUp, Told, Notified, Sane, Waiting;
      var i := inProgress.value;
      var r := Resume(i);
      match r {
        case Panic => panic := true;
        case More => panic := false;
        case _ =>
          panic := NextTurn(i, r);
          if !panic { FirstTold(i, old(apps)[i], old(callbacks), callbacks); }
      }
    }

    /** What the application is told comes first; after that only others are told something. */
    lemma FirstTold(i: nat, a: App, before: seq<Notice>, after: seq<Notice>)
      requires Notified(before + Told(i, a), after)
      ensures before <= after
      ensures a.callback ==>
        |after| > |before| && after[|before|] == if a.writeRemaining == 0 then Written(i, a.writeLen) else Failed(i)
      ensures forall k :: |before| <= k < |after| && (k > |before| || !a.callback) ==> after[k].app in wild
    {
      var all := before + Told(i, a);
      assert forall k :: 0 <= k < |all| ==> after[k] == all[k];
    }

    /** The first half of it: the driver has its buffer back, and goes on with the application that was in progress. */
    method Resume(i: nat) returns (r: Progress)
      requires Valid() && inProgress == Some(i)
      modifies `inProgress, `txHere, `apps, `flight, `wire, `turn, txBuffer
      ensures |apps| == |old(apps)|
      ensures r == (var a := old(apps)[i];
                    if a.writeRemaining == 0 then Done else if a.writeBuffer.None? then NoSlice
                    else if a.TooShort() then Panic else More)
      ensures r == Panic ==> i in wild
      ensures r == More ==>
        && Valid() && Left() < old(Left()) && inProgress == Some(i) && apps == old(apps)[i := apps[i]]
        && Advanced(old(apps)[i], apps[i], txBuffer.Length)
        && wire == old(wire) + Chunk(old(apps)[i], txBuffer.Length)
      ensures r == Done || r == NoSlice ==>
        && apps == old(apps) && turn == old(turn) && wire == old(wire) == Flat(finished) + turn
        && inProgress.None? && txHere && flight.None? && (r == NoSlice ==> i in wild)
        && (i !in wild ==> jobs[i] == Some(turn) && apps[i].writeLen == |turn| && r == Done)
        && forall j :: 0 <= j < |apps| && j != i ==> Waiting(j)
    {
      hide Ordered, Flat, Work, Orderly, Patient, Chunk;
      ghost var sent := turn;
      assert Sane(i);
      if i !in wild { OrderlyDone(apps[i], jobs[i], turn); }
      txHere, flight := true, None;
      inProgress := None;
      r := SendContinue(i);
      forall j | 0 <= j < |apps| && j != i && j !in wild
        ensures Orderly(apps[j], jobs[j], false, true, turn) && Patient(apps[j], jobs[j])
      {
        assert old(Sane(j));
        OrderlyOther(apps[j], jobs[j], sent, turn);
      }
      if r == More {
        WorkUpdate(old(apps), i, apps[i]);
        if i !in wild { OrderlyOn(old(apps)[i], jobs[i], sent, apps[i], turn, txBuffer.Length); }
        Joined(Flat(finished), sent, flight.value);
      }
    }

    /** The turn of the application ends, and that of another one begins, if there is one. */
    method NextTurn(i: nat, r: Progress) returns (panic: bool)
      requires txBuffer.Length > 0 && |apps| == |jobs| && inProgress.None? && txHere && flight.None?
      requires Ordered(submitted, finished, jobs, wild) && i < |apps| && (i !in wild ==> jobs[i] == Some(turn))
      requires if r == Done then apps[i].writeRemaining == 0
               else r == NoSlice && apps[i].writeRemaining > 0 && apps[i].writeBuffer.None? && i in wild
      requires (forall j :: 0 <= j < |apps| && j != i ==> Waiting(j)) && wire == Flat(finished) + turn
      modifies `inProgress, `txHere, `apps, `callbacks, `flight, `wire, `turn, `jobs, `finished, txBuffer
      ensures |apps| == |old(apps)|
      ensures panic <==> NextUp(old(apps), 0).Some? && old(apps)[NextUp(old(apps), 0).value].TooShort()
      ensures panic ==> wild != {}
      ensures !panic ==> Valid() && Left() <= old(Work(apps))
      ensures !panic ==> inProgress == NextUp(old(apps), 0) && jobs == old(jobs)[i := None]
      ensures !panic ==> finished == old(finished) + [Job(i, old(turn))]
      ensures !panic ==> Notified(old(callbacks) + Told(i, old(apps)[i]), callbacks)
      ensures !panic ==>
        var bpps, n := old(apps)[i := Ended(old(apps)[i])], NextUp(old(apps), 0);
        && Began(bpps, apps, n, txBuffer.Length) && wire == old(wire) + FirstChunk(bpps, n, txBuffer.Length)
        && callbacks == old(callbacks) + Told(i, old(apps)[i]) + Warnings(bpps, Before(bpps, n))
    {
      hide Ordered, Flat, Work, Waiting, Sane, Began, FirstChunk, Warnings;
      EndTurn(i, r);
      NextUpSame(old(apps), apps, 0);
      panic := StartPending();
    }

    /** What the application is told at the end of its turn. */
    function Told(i: nat, a: App): seq<Notice> {
      if !a.callback then [] else if a.writeRemaining == 0 then [Written(i, a.writeLen)] else [Failed(i)]
    }

    /** Since then only applications that have broken the rules were told something: that their slice was gone. */
    ghost predicate Notified(before: seq<Notice>, after: seq<Notice>)
      reads `wild
    {
      before <= after && forall k :: |before| <= k < |after| ==> after[k].Failed? && after[k].app in wild
    }

    /** What holds of it while the port is free. */
    ghost predicate Waiting(j: nat)
      requires j < |apps| == |jobs|
      reads this
    {
      j !in wild ==> Patient(apps[j], jobs[j])
    }

    /** The port is free, and no slice half sent. */
    ghost predicate Resting()
      reads this
    {
      && txBuffer.Length > 0 && |apps| == |jobs| && inProgress.None? && txHere && flight.None?
      && (forall j :: 0 <= j < |apps| ==> Waiting(j)) && wire == Flat(finished)
      && Ordered(submitted, finished, jobs, wild)
    }

    /** The turn of an application ends: all of its slice has been sent, or the slice is gone. */
    method EndTurn(i: nat, r: Progress)
      requires txBuffer.Length > 0 && |apps| == |jobs| && inProgress.None? && txHere && flight.None?
      requires Ordered(submitted, finished, jobs, wild) && i < |apps| && (i !in wild ==> jobs[i] == Some(turn))
      requires if r == Done then apps[i].writeRemaining == 0
               else r == NoSlice && apps[i].writeRemaining > 0 && apps[i].writeBuffer.None? && i in wild
      requires (forall j :: 0 <= j < |apps| && j != i ==> Waiting(j)) && wire == Flat(finished) + turn
      modifies `apps, `callbacks, `jobs, `finished
      ensures Resting() && jobs == old(jobs)[i := None] && finished == old(finished) + [Job(i, turn)]
      ensures apps == old(apps)[i := Ended(old(apps)[i])]
      ensures Work(apps) <= old(Work(apps)) && !apps[i].Eligible()
      ensures callbacks == old(callbacks) + Told(i, old(apps)[i])
    {
      hide Ordered, Flat, Work;
      OrderedFinish(submitted, finished, jobs, wild, i, turn);
      FlatMore(finished, Job(i, turn));
      if r == Done {
        var written := apps[i].writeLen;
        WorkUpdate(apps, i, apps[i].(writeLen := 0));
        apps := apps[i := apps[i].(writeLen := 0)];
        if apps[i].callback { callbacks := callbacks + [Written(i, written)]; }
      } else {
        GiveUp(i);
      }
      jobs := jobs[i := None];
      finished := finished + [Job(i, turn)];
      forall j | 0 <= j < |apps| ensures Waiting(j) { assert j != i ==> old(Waiting(j)); }
    }

    /** The application's slice is gone: it has nothing to wait for any more, and is told. */
    method GiveUp(i: nat)
      requires i < |apps|
      modifies `apps, `callbacks
      ensures apps == old(apps)[i := old(apps)[i].(writeLen := 0, writeRemaining := 0, pendingWrite := false)]
      ensures callbacks == old(callbacks) + if old(apps)[i].callback then [Failed(i)] else []
      ensures Work(apps) == old(Work(apps)) - Load(old(apps)[i])
    {
      hide Work;
      WorkUpdate(apps, i, apps[i].(writeLen := 0, writeRemaining := 0, pendingWrite := false));
      apps := apps[i := apps[i].(writeLen := 0, writeRemaining := 0, pendingWrite := false)];
      if apps[i].callback { callbacks := callbacks + [Failed(i)]; }
    }

    /** The loop over the applications: the first one with a pending write that can starts, if there is one. */
    method StartPending() returns (panic: bool)
      requires Resting()
      modifies `inProgress, `txHere, `apps, `callbacks, `flight, `wire, `turn, txBuffer
      ensures |apps| == |old(apps)|
      ensures panic <==> NextUp(old(apps), 0).Some? && old(apps)[NextUp(old(apps), 0).value].TooShort()
      ensures panic ==> wild != {}
      ensures !panic ==> Valid() && inProgress == NextUp(old(apps), 0) && Left() <= old(Work(apps))
      ensures !panic ==> Notified(old(callbacks), callbacks)
      ensures !panic ==>
        var n := NextUp(old(apps), 0);
        && Began(old(apps), apps, n, txBuffer.Length)
        && wire == old(wire) + FirstChunk(old(apps), n, txBuffer.Length)
        && callbacks == old(callbacks) + Warnings(old(apps), Before(old(apps), n))
    {
      hide Ordered, Flat, Work, Began, FirstChunk, Chunk, Advanced, Waiting, Sane, Warnings, PassedOver, NextUp, Before;
      ghost var size := txBuffer.Length;
      var k := 0;
      NobodyPassed(apps, callbacks);
      while k < |apps|
        invariant k <= |apps| == |old(apps)| && Resting() && wire == old(wire)
        invariant Work(apps) <= old(Work(apps)) && Notified(old(callbacks), callbacks)
        invariant PassedOver(old(apps), apps, old(callbacks), callbacks, k)
      {
        ghost var bpps, mid := apps, callbacks;
        NotPending(old(apps), apps, old(callbacks), callbacks, k);
        if apps[k].pendingWrite {
          var r := Begin(k);
          if r == Panic { return true; }
          if r == More {
            BeganAt(old(apps), bpps, apps, old(callbacks), callbacks, k, size);
            return false;
          }
        }
        PassOver(old(apps), bpps, apps, old(callbacks), mid, callbacks, k);
        k := k + 1;
      }
      panic := false;
      BeganNone(old(apps), apps, old(callbacks), callbacks, size);
      Idle();
    }

    lemma Idle()
      requires Resting() && forall j :: 0 <= j < |apps| ==> !apps[j].pendingWrite
      ensures Valid() && Left() == Work(apps)
    {
      hide Ordered, Flat, Work;
      forall j | 0 <= j < |apps| ensures Sane(j) { assert Waiting(j); }
    }

    /** A pending application's slice begins to go out, if it has one. */
    method Begin(k: nat) returns (r: Progress)
      requires Resting() && k < |apps| && apps[k].pendingWrite && forall j :: 0 <= j < k ==> !apps[j].pendingWrite
      modifies `inProgress, `txHere, `apps, `callbacks, `flight, `wire, `turn, txBuffer
      ensures |apps| == |old(apps)| && apps == old(apps)[k := apps[k]]
      ensures r == More || r == Panic <==> old(apps)[k].Eligible()
      ensures r == Panic <==> old(apps)[k].Eligible() && old(apps)[k].TooShort()
      ensures r == Panic ==> wild != {}
      ensures r == NoSlice ==> old(apps)[k].writeRemaining > 0
      ensures r == Done ==> old(apps)[k].writeRemaining == 0
      ensures r == More ==> Valid() && inProgress == Some(k) && Left() <= old(Work(apps)) && callbacks == old(callbacks)
      ensures r == More ==>
        && Advanced(old(apps)[k].(pendingWrite := false), apps[k], txBuffer.Length)
        && wire == old(wire) + Chunk(old(apps)[k], txBuffer.Length)
      ensures r == Done || r == NoSlice ==>
        && Resting() && apps[k] == Skipped(old(apps)[k]) && wire == old(wire) && Work(apps) <= old(Work(apps))
        && Notified(old(callbacks), callbacks)
        && callbacks == old(callbacks) + if r == NoSlice && old(apps)[k].callback then [Failed(k)] else []
    {
      hide Ordered, Flat, Work, Orderly, Chunk;
      assert Waiting(k);
      ghost var a := apps[k].(pendingWrite := false);
      WorkUpdate(apps, k, a);
      apps := apps[k := apps[k].(pendingWrite := false)];
      turn := [];
      r := SendContinue(k);
      hide Patient;
      if r == More {
        WorkUpdate(old(apps)[k := a], k, apps[k]);
        assert apps == old(apps)[k := a][k := apps[k]];
        ChunkSame(old(apps)[k], txBuffer.Length);
        if k !in wild { OrderlyStart(old(apps)[k], jobs[k], apps[k], turn, txBuffer.Length); }
        forall j | 0 <= j < |apps| ensures Sane(j) {
          assert old(Waiting(j));
          if j != k && j !in wild { PatientOther(apps[j], jobs[j], turn); }
        }
      } else if r != Panic {
        if r == NoSlice { GiveUp(k); }
        forall j | 0 <= j < |apps| ensures Waiting(j) { assert old(Waiting(j)); }
      }
    }
  }
}
