/** solutions_to_assgn/ch16/mt_primes2.c: who frees what when a worker may be cancelled.

Cancellation is deferred (POSIX.1-2017, System Interfaces, section 2.9.5): a pending request is acted on
only at a cancellation point.  The sleep of the sleeping worker is one; the two printf calls may be. */
module PrimeCancel {
  import opened Files
  import opened Heap
  import opened PrimeGen
  import opened PrimeMerge
  import opened Runs

  /** Worker: Started, Pushed (handler installed), Slept, Generated (buffer filled), Printed, Measured
      (second message printed), Popped, Exited.  Handler, entered at a cancellation point: Caught, Recorded
      (gCanceledThread set), BufFreed, Cancelled. */
  datatype Pc =
    | Unborn | Started | Pushed | Slept | Generated | Printed | Measured | Popped | Exited
    | Caught | Recorded | BufFreed | Cancelled

  /** One worker with its struct stToThread and its iobuf. */
  datatype Thread = Thread(at: Pc, pending: bool, info: Mem, iobuf: Mem, text: string)

  datatype Main =
    | Create(i: nat) | Cancel | Join(i: nat) | Write(i: nat) | FreeBuf(i: nat) | FreeInfo(i: nat) | MainDone

  /** pos: the seek position in the data file.  fault records a use or a free of memory that is not
      allocated. */
  datatype State = State(main: Main, gCanceled: nat, threads: seq<Thread>, file: string, pos: nat, fault: bool)

  /** texts: what each worker's generator puts into its buffer.  target: the worker that main cancels if
      asked to; it is also the one that sleeps first.  old_: the data file before, which open does not
      truncate. */
  datatype Config = Config(texts: seq<string>, target: nat, cancel: bool, old_: string)

  ghost predicate Init(c: Config, s: State) {
    && c.target < |c.texts|
    && s == State(Create(0), 0, seq(|c.texts|, _ => Thread(Unborn, false, UNBORN, UNBORN, "")), c.old_, 0, false)
  }

  /** Where the worker may act on a pending request. */
  predicate CancellationPoint(c: Config, t: nat, at: Pc) {
    (at.Pushed? && t == c.target) || at.Generated? || at.Printed?
  }

  /** A sleeping worker always acts on the request; at a printf it may. */
  predicate MayIgnore(at: Pc) { !at.Pushed? }

  ghost function Worker(c: Config, t: nat, s: State): State
    requires t < |s.threads| == |c.texts|
  {
    var th := s.threads[t];
    var uses := !IsLive(th.info);
    match th.at
    case Started => Move(s, t, th.(at := Pushed), s.fault)
    case Pushed => Move(s, t, th.(at := Slept), s.fault || uses)
    case Slept =>
      Move(s, t, th.(at := Generated, text := c.texts[t]), s.fault || uses || !IsLive(th.iobuf))
    case Generated => Move(s, t, th.(at := Printed), s.fault || uses)
    case Printed => Move(s, t, th.(at := Measured), s.fault || uses || !IsLive(th.iobuf))
    case Measured => Move(s, t, th.(at := Popped), s.fault)
    case Popped => Move(s, t, th.(at := Exited), s.fault)
    case Caught => Move(s, t, th.(at := Recorded), s.fault || uses).(gCanceled := t)
    case Recorded => Move(s, t, th.(at := BufFreed, iobuf := Free(th.iobuf)), s.fault || uses || !IsLive(th.iobuf))
    case BufFreed => Move(s, t, th.(at := Cancelled, info := Free(th.info)), s.fault || uses)
    case _ => s
  }

  function Move(s: State, t: nat, th: Thread, fault: bool): State
    requires t < |s.threads|
  {
    s.(threads := s.threads[t := th], fault := fault)
  }

  predicate Ended(at: Pc) { at.Exited? || at.Cancelled? }

  ghost predicate WorkerStep(c: Config, t: nat, s: State, s': State) {
    && t < |s.threads| == |c.texts|
    && var th := s.threads[t];
       && !th.at.Unborn? && !Ended(th.at)
       && (if th.pending && CancellationPoint(c, t, th.at) then
             || s' == Move(s, t, th.(at := Caught), s.fault)
             || (MayIgnore(th.at) && s' == Worker(c, t, s))
           else s' == Worker(c, t, s))
  }

  /** main waits only for a worker to end. */
  ghost predicate MainReady(c: Config, s: State) {
    && |s.threads| == |c.texts| && c.target < |c.texts|
    && match s.main
       case Join(i) => i >= |c.texts| || Ended(s.threads[i].at)
       case FreeInfo(i) => i < |c.texts|
       case MainDone => false
       case _ => true
  }

  ghost function MainNext(c: Config, s: State): State
    requires MainReady(c, s)
  {
    var n := |c.texts|;
    match s.main
    case Create(i) =>
      if i >= n then s.(main := Cancel)
      else
        var th := s.threads[i];
        Move(s, i, Thread(Started, false, Allocate(th.info), Allocate(th.iobuf), ""), s.fault).(main := Create(i + 1))
    case Cancel =>
      if c.cancel then Move(s, c.target, s.threads[c.target].(pending := true), s.fault).(main := Join(0))
      else s.(main := Join(0))
    case Join(i) => s.(main := if i >= n then Write(0) else Join(i + 1))
    case Write(i) =>
      if i >= n then s.(main := FreeBuf(0))
      else if i == s.gCanceled then s.(main := Write(i + 1))
      else
        var th := s.threads[i];
        s.(main := Write(i + 1), file := Overwrite(s.file, s.pos, th.text), pos := s.pos + |th.text|,
           fault := s.fault || !IsLive(th.info) || !IsLive(th.iobuf))
    case FreeBuf(i) =>
      if i >= n then s.(main := MainDone)
      else if i == s.gCanceled then s.(main := FreeBuf(i + 1))
      else
        var th := s.threads[i];
        Move(s, i, th.(iobuf := Free(th.iobuf)), s.fault || !IsLive(th.info) || !IsLive(th.iobuf)).(main := FreeInfo(i))
    case FreeInfo(i) =>
      var th := s.threads[i];
      Move(s, i, th.(info := Free(th.info)), s.fault || !IsLive(th.info)).(main := FreeBuf(i + 1))
    case MainDone => s
  }

  ghost predicate MainStep(c: Config, s: State, s': State) {
    MainReady(c, s) && s' == MainNext(c, s)
  }

  ghost function Program(c: Config): System<State> {
    System(s => Init(c, s), (s, s') => MainStep(c, s, s') || exists t: nat :: WorkerStep(c, t, s, s'))
  }

  // What holds in every reachable state

  predicate InHandler(at: Pc) { at.Caught? || at.Recorded? || at.BufFreed? || at.Cancelled? }

  /** Threads created so far, and threads whose blocks main has freed (in the order of the loop). */
  predicate Created(m: Main, t: nat) { m.Create? ==> t < m.i }

  predicate Joined(m: Main, t: nat) { (m.Join? && t < m.i) || m.Write? || m.FreeBuf? || m.FreeInfo? || m.MainDone? }

  predicate BufFreedByMain(m: Main, t: nat) {
    (m.FreeBuf? && t < m.i) || (m.FreeInfo? && t <= m.i) || m.MainDone?
  }

  predicate InfoFreedByMain(m: Main, t: nat) { ((m.FreeBuf? || m.FreeInfo?) && t < m.i) || m.MainDone? }

  ghost predicate ThreadInv(c: Config, m: Main, gCanceled: nat, t: nat, th: Thread)
    requires t < |c.texts|
  {
    && (th.at.Unborn? <==> !Created(m, t))
    && (Joined(m, t) ==> Ended(th.at))
    && (th.pending <==> t == c.target && c.cancel && !m.Create? && !m.Cancel?)
    && (InHandler(th.at) ==> th.pending)
    // the blocks are live from creation to their one release
    && th.iobuf == (
         if th.at.Unborn? then UNBORN
         else if th.at.BufFreed? || th.at.Cancelled? then FREED
         else if BufFreedByMain(m, t) && t != gCanceled then FREED
         else LIVE)
    && th.info == (
         if th.at.Unborn? then UNBORN
         else if th.at.Cancelled? then FREED
         else if InfoFreedByMain(m, t) && t != gCanceled then FREED
         else LIVE)
    && (th.at in {Generated, Printed, Measured, Popped, Exited} ==> th.text == c.texts[t])
  }

  /** gCanceledThread stays 0 until the target's handler has recorded it. */
  ghost predicate Recordings(c: Config, s: State)
    requires c.target < |s.threads|
  {
    s.gCanceled == if s.threads[c.target].at in {Recorded, BufFreed, Cancelled} then c.target else 0
  }

  /** The texts written so far lie over the old file. */
  ghost predicate MergedSoFar(c: Config, s: State) {
    var merged := Merge(c.texts[..Written(c, s.main)], s.gCanceled);
    s.file == Overlay(merged, c.old_) && s.pos == |merged|
  }

  ghost predicate Inv(c: Config, s: State) {
    && |s.threads| == |c.texts| && c.target < |c.texts|
    && !s.fault
    && (s.main.Create? || s.main.Join? || s.main.Write? || s.main.FreeBuf? ==> s.main.i <= |c.texts|)
    && (s.main.FreeInfo? ==> s.main.i < |c.texts| && s.main.i != s.gCanceled)
    && (forall t: nat :: t < |s.threads| ==> ThreadInv(c, s.main, s.gCanceled, t, s.threads[t]))
    && Recordings(c, s)
    && MergedSoFar(c, s)
  }

  /** How many threads write_the_primes has gone through. */
  function Written(c: Config, m: Main): (k: nat)
    ensures k <= |c.texts|
  {
    if m.Write? then if m.i <= |c.texts| then m.i else |c.texts|
    else if m.FreeBuf? || m.FreeInfo? || m.MainDone? then |c.texts| else 0
  }

  /** A thread depends on main's progress only through these phases. */
  lemma SamePhase(c: Config, m: Main, m': Main, g: nat, g': nat, t: nat, th: Thread)
    requires t < |c.texts| && ThreadInv(c, m, g, t, th)
    requires Created(m', t) == Created(m, t) && (Joined(m', t) ==> Joined(m, t))
    requires m'.Create? || m'.Cancel? <==> m.Create? || m.Cancel?
    requires !BufFreedByMain(m, t) && !InfoFreedByMain(m, t) && !BufFreedByMain(m', t) && !InfoFreedByMain(m', t)
    ensures ThreadInv(c, m', g', t, th)
  {
  }

  lemma WorkerOwn(c: Config, t: nat, s: State, s': State)
    requires Inv(c, s) && WorkerStep(c, t, s, s')
    ensures !s'.fault && Recordings(c, s') && ThreadInv(c, s.main, s'.gCanceled, t, s'.threads[t])
  {
    assert ThreadInv(c, s.main, s.gCanceled, t, s.threads[t]);
    assert ThreadInv(c, s.main, s.gCanceled, c.target, s.threads[c.target]);
  }

  lemma WorkerKeeps(c: Config, t: nat, s: State, s': State)
    requires Inv(c, s) && WorkerStep(c, t, s, s')
    ensures Inv(c, s')
  {
    WorkerOwn(c, t, s, s');
    assert ThreadInv(c, s.main, s.gCanceled, t, s.threads[t]);
    assert !Joined(s.main, t) && s'.main == s.main && s'.file == s.file && s'.pos == s.pos;
    forall u: nat | u < |s'.threads| && u != t ensures ThreadInv(c, s'.main, s'.gCanceled, u, s'.threads[u]) {
      SamePhase(c, s.main, s'.main, s.gCanceled, s'.gCanceled, u, s.threads[u]);
    }
  }

  lemma CreateKeeps(c: Config, s: State, s': State)
    requires Inv(c, s) && MainStep(c, s, s') && (s.main.Create? || s.main.Cancel?)
    ensures Inv(c, s')
  {
    forall u: nat | u < |s.threads| ensures ThreadInv(c, s'.main, s'.gCanceled, u, s'.threads[u]) {
      assert ThreadInv(c, s.main, s.gCanceled, u, s.threads[u]);
    }
    assert ThreadInv(c, s.main, s.gCanceled, c.target, s.threads[c.target]);
  }

  lemma JoinKeeps(c: Config, s: State, s': State)
    requires Inv(c, s) && MainStep(c, s, s') && s.main.Join?
    ensures Inv(c, s')
  {
    forall u: nat | u < |s.threads| ensures ThreadInv(c, s'.main, s'.gCanceled, u, s'.threads[u]) {
      assert ThreadInv(c, s.main, s.gCanceled, u, s.threads[u]);
    }
  }

  lemma WriteKeeps(c: Config, s: State, s': State)
    requires Inv(c, s) && MainStep(c, s, s') && s.main.Write?
    ensures Inv(c, s')
  {
    var i := s.main.i;
    forall u: nat | u < |s.threads| ensures ThreadInv(c, s'.main, s'.gCanceled, u, s'.threads[u]) {
      SamePhase(c, s.main, s'.main, s.gCanceled, s'.gCanceled, u, s.threads[u]);
    }
    if i < |c.texts| && i != s.gCanceled {
      SurvivorReady(c, s, i);
    }
    if i < |c.texts| {
      MergeStep(c.texts, i, s.gCanceled);
      OverwriteExtends(Merge(c.texts[..i], s.gCanceled), c.old_, c.texts[i]);
    }
  }

  lemma FreeBufKeeps(c: Config, s: State, s': State)
    requires Inv(c, s) && MainStep(c, s, s') && s.main.FreeBuf?
    ensures Inv(c, s')
  {
    assert ThreadInv(c, s.main, s.gCanceled, c.target, s.threads[c.target]);
    assert s.main.i < |s.threads| ==> ThreadInv(c, s.main, s.gCanceled, s.main.i, s.threads[s.main.i]);
    assert !s'.fault && Recordings(c, s') && s'.file == s.file;
    forall u: nat | u < |s.threads| ensures ThreadInv(c, s'.main, s'.gCanceled, u, s'.threads[u]) {
      assert ThreadInv(c, s.main, s.gCanceled, u, s.threads[u]);
    }
  }

  lemma FreeInfoKeeps(c: Config, s: State, s': State)
    requires Inv(c, s) && MainStep(c, s, s') && s.main.FreeInfo?
    ensures Inv(c, s')
  {
    assert ThreadInv(c, s.main, s.gCanceled, c.target, s.threads[c.target]);
    assert s.main.i < |s.threads| ==> ThreadInv(c, s.main, s.gCanceled, s.main.i, s.threads[s.main.i]);
    assert !s'.fault && Recordings(c, s') && s'.file == s.file;
    forall u: nat | u < |s.threads| ensures ThreadInv(c, s'.main, s'.gCanceled, u, s'.threads[u]) {
      assert ThreadInv(c, s.main, s.gCanceled, u, s.threads[u]);
    }
  }

  /** A joined thread other than the recorded one ran to its end: its buffer is live and complete. */
  lemma SurvivorReady(c: Config, s: State, i: nat)
    requires Inv(c, s) && s.main.Write? && i < |s.threads| && i >= s.main.i && i != s.gCanceled
    ensures var th := s.threads[i]; IsLive(th.info) && IsLive(th.iobuf) && th.text == c.texts[i]
  {
    assert ThreadInv(c, s.main, s.gCanceled, i, s.threads[i]);
  }

  lemma MergeStep(texts: seq<string>, i: nat, skip: nat)
    requires i < |texts|
    ensures Merge(texts[..i + 1], skip) ==
      if i == skip then Merge(texts[..i], skip) else Merge(texts[..i], skip) + texts[i]
  {
    assert texts[..i + 1][..i] == texts[..i];
    assert Merge(texts[..i], skip) + "" == Merge(texts[..i], skip);
  }

  lemma InitInv(c: Config, s: State)
    requires Init(c, s)
    ensures Inv(c, s)
  {
    assert c.texts[..0] == [] && Overlay("", c.old_) == c.old_;
  }

  lemma NextKeeps(c: Config, s: State, s': State)
    requires Inv(c, s) && Program(c).next(s, s')
    ensures Inv(c, s')
  {
    if MainStep(c, s, s') {
      if s.main.Create? || s.main.Cancel? {
        CreateKeeps(c, s, s');
      } else if s.main.Join? {
        JoinKeeps(c, s, s');
      } else if s.main.Write? {
        WriteKeeps(c, s, s');
      } else if s.main.FreeBuf? {
        FreeBufKeeps(c, s, s');
      } else {
        FreeInfoKeeps(c, s, s');
      }
    } else {
      var t: nat :| WorkerStep(c, t, s, s');
      WorkerKeeps(c, t, s, s');
    }
  }

  lemma InvHolds(c: Config, s: State)
    requires Reachable(Program(c), s)
    ensures Inv(c, s)
  {
    var m, inv := Program(c), s => Inv(c, s);
    forall s | m.init(s) ensures inv(s) {
      InitInv(c, s);
    }
    forall s, s' | inv(s) && m.next(s, s') ensures inv(s') {
      NextKeeps(c, s, s');
    }
    Invariant(m, inv, s);
  }

  /** In every run, whenever the request arrives: no block is used or freed while it is not allocated,
      and none is freed twice. */
  lemma MemorySafe(c: Config, s: State)
    requires Reachable(Program(c), s)
    ensures !s.fault
    ensures forall t :: 0 <= t < |s.threads| ==>
      s.threads[t].info in {Mem(0, 0), Mem(1, 0), Mem(1, 1)} && s.threads[t].iobuf in {Mem(0, 0), Mem(1, 0), Mem(1, 1)}
  {
    InvHolds(c, s);
    forall t: nat | t < |s.threads|
      ensures s.threads[t].info in {UNBORN, LIVE, FREED} && s.threads[t].iobuf in {UNBORN, LIVE, FREED}
    {
      assert ThreadInv(c, s.main, s.gCanceled, t, s.threads[t]);
    }
  }

  /** The thread that write_the_primes and the last loop skip. */
  function Skipped(c: Config, s: State): nat
    requires c.target < |s.threads|
  {
    if s.threads[c.target].at.Cancelled? then c.target else 0
  }

  /** At the end of the program: if the target was cancelled, every block of every thread was freed exactly
      once and the file starts with the text of every other thread; if no thread was cancelled, exactly thread 0
      is left out: its blocks are never freed and its primes are not in the file. */
  lemma AtExit(c: Config, s: State)
    requires Reachable(Program(c), s) && s.main.MainDone?
    ensures |s.threads| == |c.texts| && c.target < |c.texts|
    ensures s.gCanceled == Skipped(c, s)
    ensures var merged := Merge(c.texts, Skipped(c, s));
      s.file == Overlay(merged, c.old_) && s.pos == |merged|
    ensures forall t :: 0 <= t < |s.threads| ==>
      var th := s.threads[t];
      if th.at.Cancelled? || t != Skipped(c, s) then th.info == Mem(1, 1) && th.iobuf == Mem(1, 1)
      else th.info == Mem(1, 0) && th.iobuf == Mem(1, 0)
    ensures forall t :: 0 <= t < |s.threads| && s.threads[t].at.Cancelled? ==> t == c.target && c.cancel
  {
    InvHolds(c, s);
    assert ThreadInv(c, s.main, s.gCanceled, c.target, s.threads[c.target]);
    assert c.texts[..|c.texts|] == c.texts;
    forall t: nat | t < |s.threads| ensures ThreadInv(c, s.main, s.gCanceled, t, s.threads[t]) {
    }
  }

  /** What a complete run writes parses to the increasing list of what the threads not skipped emitted; behind
      it stays what the old file had there. */
  lemma FileAtExit(c: Config, ranges: seq<Range>, s: State)
    requires Reachable(Program(c), s) && s.main.MainDone?
    requires ValidRanges(ranges) && c.texts == Texts(ranges)
    ensures c.target < |s.threads| && s.pos <= |s.file| && s.file[s.pos..] == c.old_[Min(s.pos, |c.old_|)..]
    ensures var primes := Parse(s.file[..s.pos]);
      && Increasing(primes)
      && forall x: nat :: x in primes <==> EmittedUnskipped(ranges, Skipped(c, s), x)
  {
    AtExit(c, s);
    MergedFile(ranges, Skipped(c, s));
    OverlayParts(Merge(c.texts, Skipped(c, s)), c.old_);
  }

  lemma OverlayParts(text: string, old_: string)
    ensures var file := Overlay(text, old_);
      file[..|text|] == text && file[|text|..] == old_[Min(|text|, |old_|)..]
  {
  }

  ghost function OwnList(): seq<Range> {
    [Range(1, 5000), Range(5001, 10000), Range(20000, 20101)]
  }

  lemma OwnShare(ranges: seq<Range>, t: nat, x: nat)
    requires ranges == OwnList() && t < 3
    ensures EmittedBy(ranges, t, x) <==>
      ranges[t].start <= x <= ranges[t].limit && (Prime(x) || x == 1)
  {
    var r := ranges[t];
    EmitsPrimes(r.start, r.limit);
  }

  lemma OwnUnskipped(ranges: seq<Range>, skip: nat, x: nat)
    requires ranges == OwnList()
    ensures EmittedUnskipped(ranges, skip, x) <==>
      || (skip != 0 && EmittedBy(ranges, 0, x)) || (skip != 1 && EmittedBy(ranges, 1, x))
      || (skip != 2 && EmittedBy(ranges, 2, x))
  {
    if EmittedUnskipped(ranges, skip, x) {
      var t: nat :| t != skip && EmittedBy(ranges, t, x);
      assert t == 0 || t == 1 || t == 2;
    }
  }

  /** An instance: main with its three ranges and its thread 2 as the target.  If that thread was cancelled the
      file lists 1 and the primes up to 10000; if it was not, the primes from 5001 to 10000 and from 20000 to
      20101, so that the first 5000 numbers are missing. */
  lemma OwnProgram(c: Config, s: State, x: nat)
    requires Reachable(Program(c), s) && s.main.MainDone?
    requires c.target == 2 && c.texts == Texts(OwnList())
    ensures |s.threads| == 3 && s.pos <= |s.file|
    ensures x in Parse(s.file[..s.pos]) <==>
      if s.threads[2].at.Cancelled? then 1 <= x <= 10000 && (Prime(x) || x == 1)
      else (5001 <= x <= 10000 || 20000 <= x <= 20101) && Prime(x)
  {
    var ranges := OwnList();
    OwnRanges(ranges);
    AtExit(c, s);
    FileAtExit(c, ranges, s);
    OwnUnskipped(ranges, Skipped(c, s), x);
    OwnShare(ranges, 0, x);
    OwnShare(ranges, 1, x);
    OwnShare(ranges, 2, x);
  }

  /** No run blocks before the end of main. */
  lemma NeverStuck(c: Config, s: State)
    requires Reachable(Program(c), s)
    ensures Stuck(Program(c), s) <==> s.main.MainDone?
  {
    InvHolds(c, s);
    var m := Program(c);
    if s.main.Join? && s.main.i < |c.texts| {
      assert ThreadInv(c, s.main, s.gCanceled, s.main.i, s.threads[s.main.i]);
    }
    if MainReady(c, s) {
      assert m.next(s, MainNext(c, s));
    } else if !s.main.MainDone? {
      var s' := WorkerCanStep(c, s.main.i, s);
      assert m.next(s, s');
    }
  }

  lemma WorkerCanStep(c: Config, t: nat, s: State) returns (s': State)
    requires t < |s.threads| == |c.texts| && !s.threads[t].at.Unborn? && !Ended(s.threads[t].at)
    ensures WorkerStep(c, t, s, s')
  {
    var th := s.threads[t];
    s' := if th.pending && CancellationPoint(c, t, th.at) then Move(s, t, th.(at := Caught), s.fault)
          else Worker(c, t, s);
  }

  // Progress

  function WorkerLeft(at: Pc): nat {
    match at
    case Unborn => 10 case Started => 9 case Pushed => 8 case Slept => 7 case Generated => 6 case Printed => 5
    case Measured => 2 case Popped => 1 case Exited => 0
    case Caught => 4 case Recorded => 3 case BufFreed => 2 case Cancelled => 0
  }

  function MainLeft(n: nat, m: Main): nat {
    match m
    case Create(i) => if i <= n then 5 * n + 5 - i else 0
    case Cancel => 4 * n + 4
    case Join(i) => if i <= n then 4 * n + 3 - i else 0
    case Write(i) => if i <= n then 3 * n + 2 - i else 0
    case FreeBuf(i) => if i <= n then 2 * (n - i) + 1 else 0
    case FreeInfo(i) => if i <= n then 2 * (n - i) else 0
    case MainDone => 0
  }

  ghost function Ranks(s: State): seq<nat> {
    seq(|s.threads|, t requires 0 <= t < |s.threads| => WorkerLeft(s.threads[t].at))
  }

  ghost function Rank(c: Config, s: State): nat {
    MainLeft(|c.texts|, s.main) + Sum(Ranks(s))
  }

  lemma MainLowers(c: Config, s: State, s': State)
    requires Inv(c, s) && MainStep(c, s, s')
    ensures Rank(c, s') < Rank(c, s)
  {
    if s.main.Create? && s.main.i < |c.texts| {
      assert ThreadInv(c, s.main, s.gCanceled, s.main.i, s.threads[s.main.i]);
      assert Ranks(s') == Ranks(s)[s.main.i := 9];
      SumLowered(Ranks(s), s.main.i, 9);
    } else {
      assert Ranks(s') == Ranks(s);
    }
  }

  lemma WorkerLowers(c: Config, t: nat, s: State, s': State)
    requires WorkerStep(c, t, s, s')
    ensures Rank(c, s') < Rank(c, s)
  {
    var low := WorkerLeft(s'.threads[t].at);
    assert Ranks(s') == Ranks(s)[t := low];
    SumLowered(Ranks(s), t, low);
  }

  /** Every run ends: none takes more than 15 steps per thread and 5 more.  With NeverStuck, every schedule
      that keeps going therefore gets to the end of main. */
  lemma RunsEnd(c: Config, run: seq<State>)
    requires IsRun(Program(c), run)
    ensures |run| - 1 <= 15 * |c.texts| + 5
  {
    var m, inv, rank := Program(c), s => Inv(c, s), s => Rank(c, s);
    forall s | m.init(s) ensures inv(s) {
      InitInv(c, s);
    }
    forall s, s' | inv(s) && m.next(s, s') ensures inv(s') && rank(s') < rank(s) {
      NextKeeps(c, s, s');
      if MainStep(c, s, s') {
        MainLowers(c, s, s');
      } else {
        var t: nat :| WorkerStep(c, t, s, s');
        WorkerLowers(c, t, s, s');
      }
    }
    RankBoundsRun(m, inv, rank, run);
    SumUniform(Ranks(run[0]), 10);
  }

  // Both outcomes happen

  /** A worker that has ended stays so, and one in its handler stays there. */
  lemma OutcomeKept(c: Config, s: State, s': State)
    requires Inv(c, s) && Program(c).next(s, s')
    ensures |s'.threads| == |s.threads|
    ensures s.threads[c.target].at.Exited? ==> s'.threads[c.target].at.Exited?
    ensures InHandler(s.threads[c.target].at) ==> InHandler(s'.threads[c.target].at)
  {
    if MainStep(c, s, s') {
      assert ThreadInv(c, s.main, s.gCanceled, c.target, s.threads[c.target]);
    } else {
      var t: nat :| WorkerStep(c, t, s, s');
      WorkerStays(c, t, s, s');
    }
  }

  lemma WorkerStays(c: Config, t: nat, s: State, s': State)
    requires WorkerStep(c, t, s, s')
    ensures |s'.threads| == |s.threads|
    ensures forall u :: 0 <= u < |s.threads| && u != t ==> s'.threads[u] == s.threads[u]
    ensures !s.threads[t].at.Exited? && (InHandler(s.threads[t].at) ==> InHandler(s'.threads[t].at))
  {
  }

  lemma StepLowers(c: Config, s: State, s': State)
    requires Inv(c, s) && Program(c).next(s, s')
    ensures Rank(c, s') < Rank(c, s)
  {
    if MainStep(c, s, s') {
      MainLowers(c, s, s');
    } else {
      var t: nat :| WorkerStep(c, t, s, s');
      WorkerLowers(c, t, s, s');
    }
  }

  /** From every reachable state some run goes on to the end of main; the target's outcome, once decided,
      stays. */
  lemma {:induction false} RunToEnd(c: Config, s: State) returns (s': State)
    requires Reachable(Program(c), s) && c.target < |s.threads|
    ensures Reachable(Program(c), s') && s'.main.MainDone? && |s'.threads| == |s.threads|
    ensures s.threads[c.target].at.Exited? ==> s'.threads[c.target].at.Exited?
    ensures InHandler(s.threads[c.target].at) ==> InHandler(s'.threads[c.target].at)
    decreases Rank(c, s)
  {
    if s.main.MainDone? {
      s' := s;
    } else {
      NeverStuck(c, s);
      var next :| Program(c).next(s, next);
      InvHolds(c, s);
      StepLowers(c, s, next);
      OutcomeKept(c, s, next);
      ReachStep(Program(c), s, next);
      s' := RunToEnd(c, next);
    }
  }

  /** main has created n threads, none of which has moved yet. */
  lemma {:induction false} CreateAll(c: Config, n: nat) returns (s: State)
    requires c.target < |c.texts| && n <= |c.texts|
    ensures Reachable(Program(c), s) && s.main == Create(n) && |s.threads| == |c.texts|
    ensures forall t :: 0 <= t < |s.threads| ==>
      s.threads[t] == if t < n then Thread(Started, false, LIVE, LIVE, "")
        else Thread(Unborn, false, UNBORN, UNBORN, "")
  {
    var m := Program(c);
    if n == 0 {
      s := State(Create(0), 0, seq(|c.texts|, _ => Thread(Unborn, false, UNBORN, UNBORN, "")), c.old_, 0, false);
      ReachInit(m, s);
    } else {
      var front := CreateAll(c, n - 1);
      s := MainNext(c, front);
      ReachStep(m, front, s);
    }
  }

  lemma WorkerMoves(c: Config, t: nat, s: State) returns (s': State)
    requires Reachable(Program(c), s) && t < |s.threads| == |c.texts| && !s.threads[t].pending
    requires !s.threads[t].at.Unborn? && !Ended(s.threads[t].at)
    ensures s' == Worker(c, t, s) && Reachable(Program(c), s')
  {
    s' := Worker(c, t, s);
    assert WorkerStep(c, t, s, s');
    ReachStep(Program(c), s, s');
  }

  /** Undisturbed, a worker gets to its end. */
  lemma {:induction false} WorkerExits(c: Config, t: nat, s: State) returns (s': State)
    requires Reachable(Program(c), s) && t < |s.threads| == |c.texts| && !s.threads[t].pending
    requires !s.threads[t].at.Unborn? && !InHandler(s.threads[t].at)
    ensures Reachable(Program(c), s') && |s'.threads| == |s.threads| && s'.threads[t].at.Exited?
    decreases WorkerLeft(s.threads[t].at)
  {
    if s.threads[t].at.Exited? {
      s' := s;
    } else {
      s' := WorkerMoves(c, t, s);
      s' := WorkerExits(c, t, s');
    }
  }

  /** A request that comes after the target has ended cancels nobody: a complete run, also with a request,
      in which the target exits and thread 0 is left out. */
  lemma RequestTooLate(c: Config)
    requires c.target < |c.texts|
    ensures exists s :: (
      && Reachable(Program(c), s) && s.main.MainDone? && c.target < |s.threads|
      && s.threads[c.target].at.Exited? && s.gCanceled == 0 && s.threads[0].iobuf == Mem(1, 0))
  {
    var s := CreateAll(c, |c.texts|);
    s := WorkerExits(c, c.target, s);
    var end := RunToEnd(c, s);
    AtExit(c, end);
  }

  /** Behind main's cancel step the request is pending for the target, and for no other; before it for none. */
  lemma RequestSent(c: Config, s: State, t: nat)
    requires Reachable(Program(c), s) && t < |s.threads|
    ensures s.threads[t].pending <==> t == c.target && c.cancel && !s.main.Create? && !s.main.Cancel?
  {
    InvHolds(c, s);
    assert ThreadInv(c, s.main, s.gCanceled, t, s.threads[t]);
  }

  /** The target can be brought to its sleep and to both messages while main has not yet cancelled. */
  lemma {:induction false} TargetAt(c: Config, at: Pc) returns (s: State)
    requires c.target < |c.texts| && at in {Started, Pushed, Slept, Generated, Printed}
    ensures Reachable(Program(c), s) && s.main == Create(|c.texts|) && |s.threads| == |c.texts|
    ensures s.threads[c.target].at == at && !s.threads[c.target].pending
    decreases 10 - WorkerLeft(at)
  {
    if at.Started? {
      s := CreateAll(c, |c.texts|);
    } else {
      var before :=
        if at.Pushed? then Started else if at.Slept? then Pushed else if at.Generated? then Slept else Generated;
      s := TargetAt(c, before);
      s := WorkerMoves(c, c.target, s);
    }
  }

  /** For every cancellation point, the sleep and the two messages, a complete run in which the request finds
      the target there: it ends cancelled, it is the one left out, and nothing leaks. */
  lemma RequestInTime(c: Config, at: Pc) returns (end: State)
    requires c.target < |c.texts| && c.cancel && at in {Pushed, Generated, Printed}
    ensures Reachable(Program(c), end) && end.main.MainDone? && |end.threads| == |c.texts|
    ensures end.threads[c.target].at.Cancelled? && end.gCanceled == c.target
    ensures forall t :: 0 <= t < |end.threads| ==>
      end.threads[t].info == Mem(1, 1) && end.threads[t].iobuf == Mem(1, 1)
  {
    var m, t := Program(c), c.target;
    var s := TargetAt(c, at);
    var asked := MainNext(c, s);
    ReachStep(m, s, asked);
    var sent := MainNext(c, asked);
    ReachStep(m, asked, sent);
    var caught := Move(sent, t, sent.threads[t].(at := Caught), sent.fault);
    assert WorkerStep(c, t, sent, caught);
    ReachStep(m, sent, caught);
    end := RunToEnd(c, caught);
    InvHolds(c, end);
    assert ThreadInv(c, end.main, end.gCanceled, t, end.threads[t]);
    AtExit(c, end);
  }
}
