/** ch16/cleanup_hdlr.c: the first of n worker threads may be cancelled while it copies blocks; a cleanup
handler then releases its I/O buffer.

Cancellation is deferred (POSIX.1-2017, System Interfaces, section 2.9.5): a pending request is acted on
only at a cancellation point.  The verbose printf, fread and fwrite may be one; malloc, free and the
handler calls are not.  The streams do not fail. */
module CleanupHandler {
  import opened Heap
  import opened Runs

  datatype Releaser = ByHandler | ByWorker

  /** Begun: running, no buffer yet.  Allocated: buffer, no handler.  Pushed: handler installed, about to
      print.  Reading(i), Writing(i): round i of the copy loop.  Popped: handler removed.  Released: buffer
      freed.  Caught: acting on a cancellation, in the handler. */
  datatype Pc =
    | Unborn | Begun | Allocated | Pushed | Reading(i: nat) | Writing(i: nat) | Popped | Released | Exited
    | Caught | Cancelled

  /** info: the struct stToThread; releases: who freed the I/O buffer, in order. */
  datatype Thread = Thread(at: Pc, pending: bool, info: Mem, iobuf: Mem, releases: seq<Releaser>, written: nat)

  datatype Main = Create(i: nat) | Cancel | Join(i: nat) | MainDone

  datatype State = State(main: Main, threads: seq<Thread>, fault: bool)

  datatype Config = Config(n: nat, numio: nat, cancel: bool)

  ghost predicate Init(c: Config, s: State) {
    c.n >= 1 && s == State(Create(0), seq(c.n, _ => Thread(Unborn, false, UNBORN, UNBORN, [], 0)), false)
  }

  predicate CancellationPoint(at: Pc) { at.Pushed? || at.Reading? || at.Writing? }

  predicate Ended(at: Pc) { at.Exited? || at.Cancelled? }

  /** The next statement of a worker: its new state, and whether it touches memory it does not own. */
  function Statement(c: Config, th: Thread): (Thread, bool) {
    var noInfo, noBuf := !IsLive(th.info), !IsLive(th.iobuf);
    match th.at
    case Begun => (th.(at := Allocated, iobuf := Allocate(th.iobuf)), noInfo)
    case Allocated => (th.(at := Pushed), noInfo)
    case Pushed => (th.(at := Reading(0)), noInfo)
    case Reading(i) => if i >= c.numio then (th.(at := Popped), false) else (th.(at := Writing(i)), noBuf)
    case Writing(i) => (th.(at := Reading(i + 1), written := th.written + 1), noBuf)
    case Popped =>
      (th.(at := Released, iobuf := Free(th.iobuf), releases := th.releases + [ByWorker]), noInfo || noBuf)
    case Released => (th.(at := Exited), false)
    case Caught =>
      (th.(at := Cancelled, iobuf := Free(th.iobuf), releases := th.releases + [ByHandler]), noBuf)
    case _ => (th, false)
  }

  ghost predicate WorkerStep(c: Config, t: nat, s: State, s': State) {
    && t < |s.threads|
    && var th := s.threads[t];
       && !th.at.Unborn? && !Ended(th.at)
       && (|| s' == State(s.main, s.threads[t := Statement(c, th).0], s.fault || Statement(c, th).1)
           || (th.pending && CancellationPoint(th.at) && s' == s.(threads := s.threads[t := th.(at := Caught)])))
  }

  ghost predicate MainReady(c: Config, s: State) {
    && |s.threads| == c.n >= 1
    && (s.main.Join? && s.main.i < c.n ==> Ended(s.threads[s.main.i].at))
    && !s.main.MainDone?
  }

  ghost function MainNext(c: Config, s: State): State
    requires MainReady(c, s)
  {
    match s.main
    case Create(i) =>
      if i >= c.n then s.(main := Cancel)
      else s.(main := Create(i + 1),
              threads := s.threads[i := s.threads[i].(at := Begun, info := Allocate(s.threads[i].info))])
    case Cancel =>
      s.(main := Join(0),
         threads := if c.cancel then s.threads[0 := s.threads[0].(pending := true)] else s.threads)
    case Join(i) =>
      if i >= c.n then s.(main := MainDone)
      else State(Join(i + 1), s.threads[i := s.threads[i].(info := Free(s.threads[i].info))],
                 s.fault || !IsLive(s.threads[i].info))
    case MainDone => s
  }

  ghost predicate Next(c: Config, s: State, s': State) {
    (MainReady(c, s) && s' == MainNext(c, s)) || exists t: nat :: WorkerStep(c, t, s, s')
  }

  ghost function Program(c: Config): System<State> {
    System(s => Init(c, s), (s, s') => Next(c, s, s'))
  }

  predicate Created(m: Main, t: nat) { m.Create? ==> t < m.i }

  predicate Joined(m: Main, t: nat) { (m.Join? && t < m.i) || m.MainDone? }

  predicate HasBuffer(at: Pc) {
    at.Allocated? || at.Pushed? || at.Reading? || at.Writing? || at.Popped? || at.Caught?
  }

  ghost predicate ThreadInv(c: Config, m: Main, t: nat, th: Thread) {
    && (th.at.Unborn? <==> !Created(m, t))
    && (Joined(m, t) ==> Ended(th.at))
    && (th.pending <==> t == 0 && c.cancel && (m.Join? || m.MainDone?))
    && (th.at.Caught? || th.at.Cancelled? ==> th.pending)
    && th.info == (if th.at.Unborn? then UNBORN else if Joined(m, t) then FREED else LIVE)
    && th.iobuf == (if th.at.Unborn? || th.at.Begun? then UNBORN else if HasBuffer(th.at) then LIVE else FREED)
    && th.releases == (
         if th.at.Released? || th.at.Exited? then [ByWorker] else if th.at.Cancelled? then [ByHandler] else [])
    && (th.at.Reading? || th.at.Writing? ==> th.written == th.at.i <= c.numio)
    && (th.at.Writing? ==> th.at.i < c.numio)
    && (th.at.Unborn? || th.at.Begun? || th.at.Allocated? || th.at.Pushed? ==> th.written == 0)
    && (th.at.Popped? || th.at.Released? || th.at.Exited? ==> th.written == c.numio)
  }

  ghost predicate Inv(c: Config, s: State) {
    && |s.threads| == c.n >= 1 && !s.fault
    && (s.main.Create? || s.main.Join? ==> s.main.i <= c.n)
    && forall t: nat :: t < c.n ==> ThreadInv(c, s.main, t, s.threads[t])
  }

  lemma StatementKeeps(c: Config, m: Main, t: nat, th: Thread)
    requires ThreadInv(c, m, t, th) && !th.at.Unborn? && !Ended(th.at)
    ensures ThreadInv(c, m, t, Statement(c, th).0) && !Statement(c, th).1
    ensures th.pending && CancellationPoint(th.at) ==> ThreadInv(c, m, t, th.(at := Caught))
  {
  }

  lemma WorkerKeeps(c: Config, t: nat, s: State, s': State)
    requires Inv(c, s) && WorkerStep(c, t, s, s')
    ensures Inv(c, s')
  {
    StatementKeeps(c, s.main, t, s.threads[t]);
    forall u: nat | u < c.n ensures ThreadInv(c, s'.main, u, s'.threads[u]) {
      assert ThreadInv(c, s.main, u, s.threads[u]);
    }
  }

  lemma MainKeeps(c: Config, s: State)
    requires Inv(c, s) && MainReady(c, s)
    ensures Inv(c, MainNext(c, s))
  {
    var s' := MainNext(c, s);
    forall u: nat | u < c.n ensures ThreadInv(c, s'.main, u, s'.threads[u]) {
      assert ThreadInv(c, s.main, u, s.threads[u]);
    }
    if s.main.Join? && s.main.i < c.n {
      assert ThreadInv(c, s.main, s.main.i, s.threads[s.main.i]);
    }
  }

  lemma NextKeeps(c: Config, s: State, s': State)
    requires Inv(c, s) && Next(c, s, s')
    ensures Inv(c, s')
  {
    if t: nat :| WorkerStep(c, t, s, s') {
      WorkerKeeps(c, t, s, s');
    } else {
      MainKeeps(c, s);
    }
  }

  lemma InvHolds(c: Config, s: State)
    requires Reachable(Program(c), s)
    ensures Inv(c, s)
  {
    var m, inv := Program(c), s => Inv(c, s);
    forall s, s' | inv(s) && m.next(s, s') ensures inv(s') {
      NextKeeps(c, s, s');
    }
    Invariant(m, inv, s);
  }

  /** In every run and for every moment at which the request arrives: a worker that has ended released its
      buffer exactly once, through the handler if it was cancelled and by itself otherwise, after all its
      rounds; before that it has released nothing, and no step touches memory that is not allocated.  Only
      the first worker can be cancelled, and only on request. */
  lemma ReleasedOnce(c: Config, s: State, t: nat)
    requires Reachable(Program(c), s) && t < |s.threads|
    ensures !s.fault
    ensures var th := s.threads[t];
      && (th.at.Exited? ==> th.iobuf == Mem(1, 1) && th.releases == [ByWorker] && th.written == c.numio)
      && (th.at.Cancelled? ==> th.iobuf == Mem(1, 1) && th.releases == [ByHandler] && t == 0 && c.cancel)
      && (HasBuffer(th.at) ==> th.iobuf == Mem(1, 0) && th.releases == [])
  {
    InvHolds(c, s);
    assert ThreadInv(c, s.main, t, s.threads[t]);
  }

  /** When the program is over every worker has ended, and both its blocks are freed once. */
  lemma NothingLeaks(c: Config, s: State)
    requires Reachable(Program(c), s) && s.main.MainDone?
    ensures forall t :: 0 <= t < |s.threads| ==>
      Ended(s.threads[t].at) && s.threads[t].info == Mem(1, 1) && s.threads[t].iobuf == Mem(1, 1)
  {
    InvHolds(c, s);
    forall t: nat | t < |s.threads|
      ensures Ended(s.threads[t].at) && s.threads[t].info == FREED && s.threads[t].iobuf == FREED
    {
      assert ThreadInv(c, s.main, t, s.threads[t]);
    }
  }

  /** No run blocks before the end of main. */
  lemma NeverStuck(c: Config, s: State)
    requires Reachable(Program(c), s)
    ensures Stuck(Program(c), s) <==> s.main.MainDone?
  {
    InvHolds(c, s);
    var m := Program(c);
    if MainReady(c, s) {
      assert m.next(s, MainNext(c, s));
    } else if !s.main.MainDone? {
      var t := s.main.i;
      assert ThreadInv(c, s.main, t, s.threads[t]);
      var th := s.threads[t];
      var s' := State(s.main, s.threads[t := Statement(c, th).0], s.fault || Statement(c, th).1);
      assert WorkerStep(c, t, s, s');
      assert m.next(s, s');
    } else {
      forall t: nat | t < |s.threads| ensures ThreadInv(c, s.main, t, s.threads[t]) {
      }
    }
  }

  // Progress

  function WorkerLeft(numio: nat, at: Pc): nat {
    match at
    case Unborn => 2 * numio + 8
    case Begun => 2 * numio + 7
    case Allocated => 2 * numio + 6
    case Pushed => 2 * numio + 5
    case Reading(i) => if i <= numio then 2 * (numio - i) + 4 else 4
    case Writing(i) => if i < numio then 2 * (numio - i) + 3 else 5
    case Popped => 3
    case Released => 2
    case Caught => 2
    case Exited => 0
    case Cancelled => 0
  }

  function MainLeft(n: nat, m: Main): nat {
    match m
    case Create(i) => if i <= n then 2 * n + 3 - i else 0
    case Cancel => n + 2
    case Join(i) => if i <= n then n + 1 - i else 0
    case MainDone => 0
  }

  ghost function Ranks(c: Config, s: State): seq<nat> {
    seq(|s.threads|, t requires 0 <= t < |s.threads| => WorkerLeft(c.numio, s.threads[t].at))
  }

  ghost function Rank(c: Config, s: State): nat {
    MainLeft(c.n, s.main) + Sum(Ranks(c, s))
  }

  lemma MainLowers(c: Config, s: State)
    requires Inv(c, s) && MainReady(c, s)
    ensures Rank(c, MainNext(c, s)) < Rank(c, s)
  {
    var s' := MainNext(c, s);
    if s.main.Create? && s.main.i < c.n {
      var low := 2 * c.numio + 7;
      assert ThreadInv(c, s.main, s.main.i, s.threads[s.main.i]);
      assert Ranks(c, s') == Ranks(c, s)[s.main.i := low];
      SumLowered(Ranks(c, s), s.main.i, low);
    } else {
      assert Ranks(c, s') == Ranks(c, s);
    }
  }

  lemma WorkerLowers(c: Config, t: nat, s: State, s': State)
    requires WorkerStep(c, t, s, s')
    ensures Rank(c, s') < Rank(c, s)
  {
    var low := WorkerLeft(c.numio, s'.threads[t].at);
    assert Ranks(c, s') == Ranks(c, s)[t := low];
    SumLowered(Ranks(c, s), t, low);
  }

  /** Every run ends; with NeverStuck, every schedule that keeps going gets to the end of main. */
  lemma RunsEnd(c: Config, run: seq<State>)
    requires IsRun(Program(c), run)
    ensures |run| - 1 <= (2 * c.numio + 8) * c.n + 2 * c.n + 3
  {
    var m, inv, rank := Program(c), s => Inv(c, s), s => Rank(c, s);
    forall s, s' | inv(s) && m.next(s, s') ensures inv(s') && rank(s') < rank(s) {
      NextKeeps(c, s, s');
      if t: nat :| WorkerStep(c, t, s, s') {
        WorkerLowers(c, t, s, s');
      } else {
        MainLowers(c, s);
      }
    }
    RankBoundsRun(m, inv, rank, run);
    SumUniform(Ranks(c, run[0]), 2 * c.numio + 8);
  }

  // The request is sent, and may find the worker at every cancellation point

  /** Behind main's cancel step the request is pending for worker 0, and for no other; before it for none. */
  lemma RequestSent(c: Config, s: State, t: nat)
    requires Reachable(Program(c), s) && t < |s.threads|
    ensures s.threads[t].pending <==> t == 0 && c.cancel && (s.main.Join? || s.main.MainDone?)
  {
    InvHolds(c, s);
    assert ThreadInv(c, s.main, t, s.threads[t]);
  }

  predicate InHandler(at: Pc) { at.Caught? || at.Cancelled? }

  lemma StepLowers(c: Config, s: State, s': State)
    requires Inv(c, s) && Next(c, s, s')
    ensures Rank(c, s') < Rank(c, s)
  {
    if t: nat :| WorkerStep(c, t, s, s') {
      WorkerLowers(c, t, s, s');
    } else {
      MainLowers(c, s);
    }
  }

  /** Worker 0, once it has ended or is in its handler, keeps that outcome and its count of rounds. */
  lemma OutcomeKept(c: Config, s: State, s': State)
    requires Inv(c, s) && Next(c, s, s')
    ensures |s'.threads| == |s.threads|
    ensures var th, th' := s.threads[0], s'.threads[0];
      && (th.at.Exited? ==> th'.at.Exited?)
      && (InHandler(th.at) ==> InHandler(th'.at) && th'.written == th.written)
  {
    assert ThreadInv(c, s.main, 0, s.threads[0]);
  }

  /** From every reachable state some run goes on to the end of main. */
  lemma {:induction false} RunToEnd(c: Config, s: State) returns (s': State)
    requires Reachable(Program(c), s) && |s.threads| > 0
    ensures Reachable(Program(c), s') && s'.main.MainDone? && |s'.threads| == |s.threads|
    ensures var th, th' := s.threads[0], s'.threads[0];
      && (th.at.Exited? ==> th'.at.Exited?)
      && (InHandler(th.at) ==> InHandler(th'.at) && th'.written == th.written)
    decreases Rank(c, s)
  {
    if s.main.MainDone? {
      s' := s;
    } else {
      NeverStuck(c, s);
      var next :| Program(c).next(s, next);
      InvHolds(c, s);
      StepLowers(c, s, next);
      OutcomeKept(c, s, next);
      ReachStep(Program(c), s, next);
      s' := RunToEnd(c, next);
    }
  }

  /** main has created n workers, none of which has moved yet. */
  lemma {:induction false} CreateAll(c: Config, n: nat) returns (s: State)
    requires c.n >= 1 && n <= c.n
    ensures Reachable(Program(c), s) && s.main == Create(n) && |s.threads| == c.n && !s.fault
    ensures n > 0 ==> s.threads[0] == Thread(Begun, false, LIVE, UNBORN, [], 0)
    ensures forall t :: n <= t < c.n ==> s.threads[t] == Thread(Unborn, false, UNBORN, UNBORN, [], 0)
  {
    if n == 0 {
      s := State(Create(0), seq(c.n, _ => Thread(Unborn, false, UNBORN, UNBORN, [], 0)), false);
      ReachInit(Program(c), s);
    } else {
      var front := CreateAll(c, n - 1);
      s := MainNext(c, front);
      assert Next(c, front, s);
      ReachStep(Program(c), front, s);
    }
  }

  lemma WorkerMoves(c: Config, s: State) returns (s': State)
    requires Reachable(Program(c), s) && |s.threads| > 0
    requires !s.threads[0].at.Unborn? && !Ended(s.threads[0].at)
    ensures Reachable(Program(c), s') && s'.main == s.main && |s'.threads| == |s.threads|
    ensures s'.threads[0] == Statement(c, s.threads[0]).0
  {
    var th := s.threads[0];
    s' := State(s.main, s.threads[0 := Statement(c, th).0], s.fault || Statement(c, th).1);
    assert WorkerStep(c, 0, s, s');
    assert Next(c, s, s');
    ReachStep(Program(c), s, s');
  }

  /** The order in which a worker goes through its statements. */
  function Position(numio: nat, at: Pc): nat {
    match at
    case Begun => 1
    case Allocated => 2
    case Pushed => 3
    case Reading(i) => 4 + 2 * i
    case Writing(i) => 5 + 2 * i
    case Popped => 5 + 2 * numio
    case Released => 6 + 2 * numio
    case Exited => 7 + 2 * numio
    case _ => 0
  }

  /** Worker 0 can be brought to any point while main has not yet asked for the cancellation. */
  lemma {:induction false} WorkerAt(c: Config, at: Pc) returns (s: State)
    requires c.n >= 1 && Position(c.numio, at) >= 1
    requires (at.Reading? ==> at.i <= c.numio) && (at.Writing? ==> at.i < c.numio)
    ensures Reachable(Program(c), s) && s.main == Create(c.n) && |s.threads| == c.n && s.threads[0].at == at
    decreases Position(c.numio, at)
  {
    if at.Begun? {
      s := CreateAll(c, c.n);
    } else {
      var before :=
        match at
        case Allocated => Begun
        case Pushed => Allocated
        case Reading(i) => if i == 0 then Pushed else Writing(i - 1)
        case Writing(i) => Reading(i)
        case Popped => Reading(c.numio)
        case Released => Popped
        case _ => Released;
      s := WorkerAt(c, before);
      s := WorkerMoves(c, s);
    }
  }

  /** main goes from the last creation to its joins. */
  lemma AskCancel(c: Config, s: State) returns (s': State)
    requires Reachable(Program(c), s) && s.main == Create(c.n) && |s.threads| == c.n >= 1
    ensures Reachable(Program(c), s') && s'.main == Join(0) && |s'.threads| == c.n
    ensures s'.threads[0] == if c.cancel then s.threads[0].(pending := true) else s.threads[0]
  {
    var asked := MainNext(c, s);
    assert Next(c, s, asked);
    ReachStep(Program(c), s, asked);
    s' := MainNext(c, asked);
    assert Next(c, asked, s');
    ReachStep(Program(c), asked, s');
  }

  /** For every cancellation point a complete run in which the request finds worker 0 there: it ends
      cancelled, its buffer freed once, by the handler, and exactly the rounds before that point written. */
  lemma RequestFinds(c: Config, at: Pc) returns (s: State)
    requires c.n >= 1 && c.cancel
    requires at.Pushed? || (at.Reading? && at.i <= c.numio) || (at.Writing? && at.i < c.numio)
    ensures Reachable(Program(c), s) && s.main.MainDone? && |s.threads| == c.n
    ensures var th := s.threads[0];
      && th.at.Cancelled? && th.releases == [ByHandler] && th.iobuf == Mem(1, 1)
      && th.written == if at.Pushed? then 0 else at.i
  {
    s := WorkerAt(c, at);
    s := AskCancel(c, s);
    InvHolds(c, s);
    assert ThreadInv(c, s.main, 0, s.threads[0]);
    var caught := s.(threads := s.threads[0 := s.threads[0].(at := Caught)]);
    assert WorkerStep(c, 0, s, caught);
    assert Next(c, s, caught);
    ReachStep(Program(c), s, caught);
    s := RunToEnd(c, caught);
    NothingLeaks(c, s);
    ReleasedOnce(c, s, 0);
  }

  /** A complete run, with or without a request, in which worker 0 exits before it and frees its own buffer. */
  lemma RequestTooLate(c: Config) returns (s: State)
    requires c.n >= 1
    ensures Reachable(Program(c), s) && s.main.MainDone? && |s.threads| == c.n
    ensures var th := s.threads[0];
      th.at.Exited? && th.releases == [ByWorker] && th.iobuf == Mem(1, 1) && th.written == c.numio
  {
    s := WorkerAt(c, Exited);
    s := RunToEnd(c, s);
    ReleasedOnce(c, s, 0);
  }
}
