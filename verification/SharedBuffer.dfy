/** ch16/mt_iobuf_mtx.c: all threads read into and write from one buffer.  The lock is held during each
fread and each fwrite, but not from one to the other, so another thread's read may come in between. */
module SharedBuffer {
  import opened Files
  import opened IoBuffers
  import opened Runs

  /** One completed stream operation, in the order in which the lock was held. */
  datatype Event = Got(who: nat, block: Block) | Put(who: nat, block: Block)

  /** fnr: the count its last fread returned, while that is still to be written. */
  datatype Worker = Worker(rounds: nat, full: bool, fnr: nat)

  /** initial: what the buffer holds after its allocation. */
  datatype Setup = Setup(nthreads: nat, numio: nat, initial: seq<byte>)

  datatype Shared = Shared(gbuf: seq<byte>, workers: seq<Worker>, log: seq<Event>)

  ghost predicate Start(c: Setup, s: Shared) {
    |c.initial| == NREAD && s == Shared(c.initial, seq(c.nthreads, _ => Worker(0, false, 0)), [])
  }

  ghost predicate Fread(c: Setup, t: nat, b: Block, s: Shared, s': Shared) {
    && t < |s.workers| && !s.workers[t].full && s.workers[t].rounds < c.numio && Readable(b) && |s.gbuf| == NREAD
    && s' == Shared(Overlay(b, s.gbuf), s.workers[t := Worker(s.workers[t].rounds + 1, true, |b|)], s.log + [Got(t, b)])
  }

  ghost predicate Fwrite(t: nat, s: Shared, s': Shared) {
    && t < |s.workers| && s.workers[t].full && s.workers[t].fnr <= |s.gbuf|
    && s' == s.(workers := s.workers[t := s.workers[t].(full := false)],
                log := s.log + [Put(t, s.gbuf[..s.workers[t].fnr])])
  }

  ghost predicate Turn(c: Setup, s: Shared, s': Shared) {
    (exists t: nat, b: Block :: Fread(c, t, b, s, s')) || (exists t: nat :: Fwrite(t, s, s'))
  }

  ghost function OneBuffer(c: Setup): System<Shared> {
    System(s => Start(c, s), (s, s') => Turn(c, s, s'))
  }

  ghost predicate Finished(c: Setup, s: Shared) {
    forall t :: 0 <= t < |s.workers| ==> s.workers[t].rounds == c.numio && !s.workers[t].full
  }

  function Gets(log: seq<Event>): seq<Tagged> {
    if log == [] then []
    else
      var e := log[|log| - 1];
      if e.Got? then Gets(log[..|log| - 1]) + [Tagged(e.who, e.block)] else Gets(log[..|log| - 1])
  }

  function Puts(log: seq<Event>): seq<Tagged> {
    if log == [] then []
    else
      var e := log[|log| - 1];
      if e.Put? then Puts(log[..|log| - 1]) + [Tagged(e.who, e.block)] else Puts(log[..|log| - 1])
  }

  lemma LogAppend(log: seq<Event>, e: Event)
    ensures Gets(log + [e]) == if e.Got? then Gets(log) + [Tagged(e.who, e.block)] else Gets(log)
    ensures Puts(log + [e]) == if e.Put? then Puts(log) + [Tagged(e.who, e.block)] else Puts(log)
    ensures |Bytes(Gets(log + [e]))| == |Bytes(Gets(log))| + if e.Got? then |e.block| else 0
    ensures |Bytes(Puts(log + [e]))| == |Bytes(Puts(log))| + if e.Put? then |e.block| else 0
  {
    assert (log + [e])[..|log|] == log;
    BytesAppend(Gets(log), Tagged(e.who, e.block));
    BytesAppend(Puts(log), Tagged(e.who, e.block));
  }

  /** The block the latest read delivered. */
  function Latest(log: seq<Event>): Block {
    if log == [] then []
    else if log[|log| - 1].Got? then log[|log| - 1].block
    else Latest(log[..|log| - 1])
  }

  /** The contents of gbuf after these events: each read overwrites the start of it. */
  function BufferAfter(initial: seq<byte>, log: seq<Event>): seq<byte> {
    if log == [] then initial
    else
      var e, before := log[|log| - 1], BufferAfter(initial, log[..|log| - 1]);
      if e.Got? then Overlay(e.block, before) else before
  }

  /** The count the last fread of thread who returned; 0 before its first one. */
  function LastCount(log: seq<Event>, who: nat): nat {
    if log == [] then 0
    else
      var e := log[|log| - 1];
      if e.Got? && e.who == who then |e.block| else LastCount(log[..|log| - 1], who)
  }

  ghost predicate AllReadable(log: seq<Event>) {
    forall p :: 0 <= p < |log| && log[p].Got? ==> Readable(log[p].block)
  }

  /** A write at position p of the log: as many bytes as the writer itself read last, from the start of the
      buffer as all reads before it have left it. */
  ghost predicate WroteBuffer(initial: seq<byte>, log: seq<Event>, p: nat)
    requires p < |log|
  {
    log[p].Put? ==>
      var n, buffer := LastCount(log[..p], log[p].who), BufferAfter(initial, log[..p]);
      1 <= n <= |buffer| && log[p].block == buffer[..n]
  }

  /** As far as it reaches into the block most recently read by any thread, a write at position p repeats it. */
  ghost predicate WroteLatest(log: seq<Event>, p: nat)
    requires p < |log|
  {
    var latest, b := Latest(log[..p]), log[p].block;
    log[p].Put? ==> forall i :: 0 <= i < |b| && i < |latest| ==> b[i] == latest[i]
  }

  function Open(w: Worker): int { if w.full then 1 else 0 }

  function Owed(w: Worker): int { if w.full then w.fnr else 0 }

  function RoundsDone(w: Worker): int { w.rounds }

  /** What the buffer holds, and what was written from it. */
  ghost predicate BufferInv(initial: seq<byte>, gbuf: seq<byte>, log: seq<Event>) {
    && |initial| == |gbuf| == NREAD && gbuf == BufferAfter(initial, log)
    && AllReadable(log) && forall p :: 0 <= p < |log| ==> WroteBuffer(initial, log, p)
  }

  ghost predicate WorkerInv(c: Setup, t: nat, w: Worker, log: seq<Event>) {
    w.rounds <= c.numio && (w.full ==> 1 <= w.fnr <= NREAD && w.fnr == LastCount(log, t))
  }

  ghost predicate CountInv(workers: seq<Worker>, log: seq<Event>) {
    && |log| == |Gets(log)| + |Puts(log)|
    && |Gets(log)| == Total(workers, RoundsDone)
    && |Gets(log)| == |Puts(log)| + Total(workers, Open)
    && |Bytes(Gets(log))| == |Bytes(Puts(log))| + Total(workers, Owed)
  }

  ghost predicate SharedInv(c: Setup, s: Shared) {
    && |s.workers| == c.nthreads
    && BufferInv(c.initial, s.gbuf, s.log)
    && (forall t: nat :: t < |s.workers| ==> WorkerInv(c, t, s.workers[t], s.log))
    && CountInv(s.workers, s.log)
  }

  lemma WorkerTotals(ws: seq<Worker>, t: nat, w: Worker)
    requires t < |ws|
    ensures Total(ws[t := w], RoundsDone) == Total(ws, RoundsDone) - ws[t].rounds + w.rounds
    ensures Total(ws[t := w], Open) == Total(ws, Open) - Open(ws[t]) + Open(w)
    ensures Total(ws[t := w], Owed) == Total(ws, Owed) - Owed(ws[t]) + Owed(w)
  {
    TotalUpdate(ws, t, w, RoundsDone);
    TotalUpdate(ws, t, w, Open);
    TotalUpdate(ws, t, w, Owed);
  }

  lemma EventKeeps(initial: seq<byte>, gbuf: seq<byte>, log: seq<Event>, e: Event)
    requires BufferInv(initial, gbuf, log) && (e.Got? ==> Readable(e.block))
    requires e.Put? ==> var n := LastCount(log, e.who); 1 <= n <= |gbuf| && e.block == gbuf[..n]
    ensures BufferInv(initial, if e.Got? then Overlay(e.block, gbuf) else gbuf, log + [e])
  {
    var log' := log + [e];
    assert log'[..|log|] == log;
    forall p | 0 <= p < |log| ensures WroteBuffer(initial, log', p) {
      assert log'[..p] == log[..p];
      assert WroteBuffer(initial, log, p);
    }
  }

  lemma CountAppend(log: seq<Event>, e: Event, who: nat)
    ensures LastCount(log + [e], who) == if e.Got? && e.who == who then |e.block| else LastCount(log, who)
  {
    assert (log + [e])[..|log|] == log;
  }

  lemma FreadKeeps(c: Setup, t: nat, b: Block, s: Shared, s': Shared)
    requires SharedInv(c, s) && Fread(c, t, b, s, s')
    ensures SharedInv(c, s')
  {
    EventKeeps(c.initial, s.gbuf, s.log, Got(t, b));
    WorkerTotals(s.workers, t, s'.workers[t]);
    LogAppend(s.log, Got(t, b));
    forall u: nat | u < |s'.workers| ensures WorkerInv(c, u, s'.workers[u], s'.log) {
      assert WorkerInv(c, u, s.workers[u], s.log);
      CountAppend(s.log, Got(t, b), u);
    }
  }

  lemma FwriteKeeps(c: Setup, t: nat, s: Shared, s': Shared)
    requires SharedInv(c, s) && Fwrite(t, s, s')
    ensures SharedInv(c, s')
  {
    assert WorkerInv(c, t, s.workers[t], s.log);
    var e := Put(t, s.gbuf[..s.workers[t].fnr]);
    EventKeeps(c.initial, s.gbuf, s.log, e);
    WorkerTotals(s.workers, t, s'.workers[t]);
    LogAppend(s.log, e);
    forall u: nat | u < |s'.workers| ensures WorkerInv(c, u, s'.workers[u], s'.log) {
      assert WorkerInv(c, u, s.workers[u], s.log);
      CountAppend(s.log, e, u);
    }
  }

  lemma StartInv(c: Setup, s: Shared)
    requires Start(c, s)
    ensures SharedInv(c, s)
  {
    TotalUniform(s.workers, RoundsDone, 0);
    TotalUniform(s.workers, Open, 0);
    TotalUniform(s.workers, Owed, 0);
  }

  lemma SharedInvHolds(c: Setup, s: Shared)
    requires Reachable(OneBuffer(c), s)
    ensures SharedInv(c, s)
  {
    var m, inv := OneBuffer(c), s => SharedInv(c, s);
    forall s | m.init(s) ensures inv(s) {
      StartInv(c, s);
    }
    forall s, s' | inv(s) && m.next(s, s') ensures inv(s') {
      if t: nat, b: Block :| Fread(c, t, b, s, s') {
        FreadKeeps(c, t, b, s, s');
      } else {
        var t: nat :| Fwrite(t, s, s');
        FwriteKeeps(c, t, s, s');
      }
    }
    Invariant(m, inv, s);
  }

  /** The block read last is what the buffer starts with. */
  lemma {:induction false} LatestOnTop(initial: seq<byte>, log: seq<Event>)
    requires |initial| == NREAD && AllReadable(log)
    ensures var latest, buffer := Latest(log), BufferAfter(initial, log);
      |latest| <= |buffer| == NREAD && forall i :: 0 <= i < |latest| ==> buffer[i] == latest[i]
  {
    if log != [] {
      LatestOnTop(initial, log[..|log| - 1]);
    }
  }

  ghost predicate FullReads(log: seq<Event>) {
    forall p :: 0 <= p < |log| && log[p].Got? ==> |log[p].block| == NREAD
  }

  lemma {:induction false} FullLatest(log: seq<Event>, who: nat)
    requires FullReads(log) && LastCount(log, who) > 0
    ensures LastCount(log, who) == |Latest(log)| == NREAD
  {
    if log != [] {
      var e := log[|log| - 1];
      if e.Put? || e.who != who {
        FullLatest(log[..|log| - 1], who);
      }
    }
  }

  lemma WriteMeans(initial: seq<byte>, log: seq<Event>, p: nat)
    requires p < |log| && |initial| == NREAD && AllReadable(log) && WroteBuffer(initial, log, p)
    ensures WroteLatest(log, p)
    ensures log[p].Put? && FullReads(log) ==> p > 0 && log[p].block == Latest(log[..p])
  {
    LatestOnTop(initial, log[..p]);
    if log[p].Put? && FullReads(log) {
      FullLatest(log[..p], log[p].who);
    }
  }

  /** In every run every write is exactly as long as its own thread's last read and takes its bytes from the
      buffer as all reads before it have left it: first those of the block most recently read by any thread
      and, if that block was short, older ones behind them.  With full reads it is that block.  Once all
      threads are done there are as many writes as reads, and as many bytes. */
  lemma WritesFollowReads(c: Setup, s: Shared)
    requires Reachable(OneBuffer(c), s)
    ensures forall p :: 0 <= p < |s.log| ==> WroteBuffer(c.initial, s.log, p) && WroteLatest(s.log, p)
    ensures forall p :: 0 <= p < |s.log| && s.log[p].Put? ==>
      |s.log[p].block| == LastCount(s.log[..p], s.log[p].who) >= 1
    ensures FullReads(s.log) ==>
      forall p :: 0 <= p < |s.log| && s.log[p].Put? ==> p > 0 && s.log[p].block == Latest(s.log[..p])
    ensures Finished(c, s) ==>
      && |Gets(s.log)| == |Puts(s.log)| == c.numio * c.nthreads
      && |Bytes(Gets(s.log))| == |Bytes(Puts(s.log))|
  {
    SharedInvHolds(c, s);
    forall p | 0 <= p < |s.log|
      ensures WroteBuffer(c.initial, s.log, p) && WroteLatest(s.log, p)
      ensures s.log[p].Put? && FullReads(s.log) ==> p > 0 && s.log[p].block == Latest(s.log[..p])
    {
      WriteMeans(c.initial, s.log, p);
    }
    if Finished(c, s) {
      TotalUniform(s.workers, RoundsDone, c.numio);
      TotalUniform(s.workers, Open, 0);
      TotalUniform(s.workers, Owed, 0);
    }
  }

  // When is nothing lost?

  /** Full reads only: every write repeats the block of the event before it. */
  ghost predicate Chained(log: seq<Event>) {
    forall p :: 0 <= p < |log| && log[p].Put? ==> p > 0 && log[p].block == log[p - 1].block
  }

  ghost predicate DistinctReads(log: seq<Event>) {
    forall p, q :: 0 <= p < q < |log| && log[p].Got? && log[q].Got? ==> log[p].block != log[q].block
  }

  /** Each read is followed by exactly one write. */
  ghost predicate Alternates(log: seq<Event>) {
    |log| % 2 == 0 && forall p :: 0 <= p < |log| ==> (log[p].Got? <==> p % 2 == 0)
  }

  /** How many reads delivered b, and how many writes stored it. */
  function ReadCount(log: seq<Event>, b: Block): nat {
    if log == [] then 0
    else
      var e := log[|log| - 1];
      ReadCount(log[..|log| - 1], b) + if e.Got? && e.block == b then 1 else 0
  }

  function WriteCount(log: seq<Event>, b: Block): nat {
    if log == [] then 0
    else
      var e := log[|log| - 1];
      WriteCount(log[..|log| - 1], b) + if e.Put? && e.block == b then 1 else 0
  }

  /** The blocks written are a permutation of the blocks read. */
  ghost predicate Lossless(log: seq<Event>) {
    forall b :: WriteCount(log, b) == ReadCount(log, b)
  }

  ghost predicate WasRead(log: seq<Event>, b: Block) {
    exists p :: 0 <= p < |log| && log[p].Got? && log[p].block == b
  }

  lemma {:induction false} ReadOnce(log: seq<Event>, b: Block)
    requires DistinctReads(log)
    ensures ReadCount(log, b) == if WasRead(log, b) then 1 else 0
  {
    if log != [] {
      var front, e := log[..|log| - 1], log[|log| - 1];
      ReadOnce(front, b);
      assert WasRead(log, b) <==> WasRead(front, b) || (e.Got? && e.block == b) by {
        assert log == front + [e];
      }
      assert e.Got? && e.block == b ==> !WasRead(front, b);
    }
  }

  lemma {:induction false} WritesWereRead(log: seq<Event>, b: Block)
    requires Chained(log)
    ensures log != [] ==> WasRead(log, log[|log| - 1].block)
    ensures WriteCount(log, b) > 0 ==> WasRead(log, b)
  {
    if log != [] {
      var front, e := log[..|log| - 1], log[|log| - 1];
      WritesWereRead(front, b);
      assert forall x :: WasRead(front, x) ==> WasRead(log, x) by {
        assert log == front + [e];
      }
      if e.Put? {
        assert front[|front| - 1].block == e.block;
      } else {
        assert log[|log| - 1].Got?;
      }
    }
  }

  /** With full reads that all differ, the blocks written are a permutation of the blocks read if and only
      if every fread was followed by its fwrite before the next fread: the order the dropped lock does not
      enforce. */
  lemma {:induction false} LosslessIffAlternating(log: seq<Event>)
    requires Chained(log) && DistinctReads(log)
    ensures Lossless(log) <==> Alternates(log)
  {
    if log != [] {
      var front, e := log[..|log| - 1], log[|log| - 1];
      if e.Got? {
        EndsInRead(log);
      } else {
        assert |front| > 0 && front[|front| - 1].block == e.block;
        if front[|front| - 1].Put? {
          EndsInTwoWrites(log);
        } else {
          LosslessIffAlternating(log[..|log| - 2]);
          PairLossless(log);
          PairAlternates(log);
        }
      }
    }
  }

  /** A read and the write of its block at the end of the log. */
  ghost predicate EndsInPair(log: seq<Event>) {
    |log| >= 2 && log[|log| - 2].Got? && log[|log| - 1] == Put(log[|log| - 1].who, log[|log| - 2].block)
  }

  lemma PairCounts(log: seq<Event>, b: Block)
    requires EndsInPair(log)
    ensures var rest := log[..|log| - 2];
      WriteCount(log, b) - ReadCount(log, b) == WriteCount(rest, b) - ReadCount(rest, b)
  {
    assert log[..|log| - 1][..|log| - 2] == log[..|log| - 2];
  }

  lemma PairLossless(log: seq<Event>)
    requires EndsInPair(log)
    ensures Lossless(log) <==> Lossless(log[..|log| - 2])
  {
    var rest := log[..|log| - 2];
    forall b
      ensures WriteCount(log, b) - ReadCount(log, b) == WriteCount(rest, b) - ReadCount(rest, b)
    {
      PairCounts(log, b);
    }
    if Lossless(log) {
      forall b ensures WriteCount(rest, b) == ReadCount(rest, b) {
        assert WriteCount(log, b) == ReadCount(log, b);
      }
    }
  }

  lemma PairAlternates(log: seq<Event>)
    requires EndsInPair(log)
    ensures Alternates(log) <==> Alternates(log[..|log| - 2])
  {
    assert log == log[..|log| - 2] + [log[|log| - 2], log[|log| - 1]];
  }

  lemma EndsInRead(log: seq<Event>)
    requires Chained(log) && DistinctReads(log) && log != [] && log[|log| - 1].Got?
    ensures !Lossless(log) && !Alternates(log)
  {
    var front, b := log[..|log| - 1], log[|log| - 1].block;
    WritesWereRead(front, b);
    assert !WasRead(front, b);
    assert WriteCount(log, b) == 0 && ReadCount(log, b) >= 1;
  }

  lemma EndsInTwoWrites(log: seq<Event>)
    requires Chained(log) && DistinctReads(log) && |log| >= 2 && log[|log| - 1].Put? && log[|log| - 2].Put?
    ensures !Lossless(log) && !Alternates(log)
  {
    var front, b := log[..|log| - 1], log[|log| - 1].block;
    ReadOnce(log, b);
    assert front[|front| - 1].block == b;
    assert WriteCount(log, b) >= 2 > ReadCount(log, b);
  }

  lemma ChainedByLatest(log: seq<Event>)
    requires forall p :: 0 <= p < |log| && log[p].Put? ==> p > 0 && log[p].block == Latest(log[..p])
    ensures Chained(log)
  {
    forall p | 0 <= p < |log| && log[p].Put? ensures p > 0 && log[p].block == log[p - 1].block {
      assert log[..p][..p - 1] == log[..p - 1];
    }
  }

  /** In every run whose reads are all full and all differ, no block is lost or repeated if and only if each
      fread was followed by its fwrite before the next fread. */
  lemma LosslessRuns(c: Setup, s: Shared)
    requires Reachable(OneBuffer(c), s) && FullReads(s.log) && DistinctReads(s.log)
    ensures Lossless(s.log) <==> Alternates(s.log)
  {
    WritesFollowReads(c, s);
    ChainedByLatest(s.log);
    LosslessIffAlternating(s.log);
  }

  // Progress

  lemma StuckWhenDone(c: Setup, s: Shared)
    requires SharedInv(c, s)
    ensures Stuck(OneBuffer(c), s) <==> Finished(c, s)
  {
    forall t: nat | t < |s.workers| ensures s.workers[t].rounds <= c.numio {
      assert WorkerInv(c, t, s.workers[t], s.log);
    }
    if !Finished(c, s) {
      var t: nat :| t < |s.workers| && !(s.workers[t].rounds == c.numio && !s.workers[t].full);
      assert WorkerInv(c, t, s.workers[t], s.log);
      var s' := CanTurn(c, t, s);
      assert OneBuffer(c).next(s, s');
    }
  }

  lemma CanTurn(c: Setup, t: nat, s: Shared) returns (s': Shared)
    requires |s.gbuf| == NREAD && t < |s.workers|
    requires if s.workers[t].full then s.workers[t].fnr <= NREAD else s.workers[t].rounds < c.numio
    ensures Turn(c, s, s')
  {
    var w := s.workers[t];
    if w.full {
      s' := s.(workers := s.workers[t := w.(full := false)], log := s.log + [Put(t, s.gbuf[..w.fnr])]);
      assert Fwrite(t, s, s');
    } else {
      var b: Block := Zeros(NREAD);
      s' := Shared(Overlay(b, s.gbuf), s.workers[t := Worker(w.rounds + 1, true, |b|)], s.log + [Got(t, b)]);
      assert Fread(c, t, b, s, s');
    }
  }

  lemma LogBounded(c: Setup, s: Shared)
    requires SharedInv(c, s)
    ensures |s.log| <= 2 * (c.numio * c.nthreads)
  {
    forall t: nat | t < |s.workers| ensures RoundsDone(s.workers[t]) <= c.numio {
      assert WorkerInv(c, t, s.workers[t], s.log);
    }
    TotalBelow(s.workers, RoundsDone, c.numio);
    TotalNonNegative(s.workers, Open);
  }

  /** A run stops only with all threads done, after one step per event, at most 2 * nthreads * numio. */
  lemma {:induction false} RunsFinish(c: Setup, run: seq<Shared>)
    requires IsRun(OneBuffer(c), run)
    ensures var s := run[|run| - 1];
      && (Stuck(OneBuffer(c), s) <==> Finished(c, s))
      && |run| - 1 == |s.log| <= 2 * (c.numio * c.nthreads)
  {
    var k := |run| - 1;
    assert Reachable(OneBuffer(c), run[k]);
    SharedInvHolds(c, run[k]);
    StuckWhenDone(c, run[k]);
    LogBounded(c, run[k]);
    if k > 0 {
      var front := run[..k];
      assert IsRun(OneBuffer(c), front);
      RunsFinish(c, front);
      assert OneBuffer(c).next(run[k - 1], run[k]);
    }
  }

  // The smallest loss

  /** Two threads, one block each: the schedule read, read, write, write loses the first block and writes
      the second twice. */
  lemma LossyRun(initial: seq<byte>, b0: Block, b1: Block)
    requires |initial| == |b0| == |b1| == 512 && b0 != b1
    ensures exists s :: (
      && Reachable(OneBuffer(Setup(2, 1, initial)), s) && Finished(Setup(2, 1, initial), s)
      && s.log == [Got(0, b0), Got(1, b1), Put(0, b1), Put(1, b1)])
  {
    var c := Setup(2, 1, initial);
    var idle := Worker(0, false, 0);
    var s := Shared(initial, [idle, idle], []);
    assert s.workers == seq(2, _ => idle);
    ReachInit(OneBuffer(c), s);
    s := FullFreadReachable(c, 0, b0, s);
    s := FullFreadReachable(c, 1, b1, s);
    s := FullFwriteReachable(c, 0, s);
    s := FullFwriteReachable(c, 1, s);
    assert s.log == [Got(0, b0), Got(1, b1), Put(0, b1), Put(1, b1)];
  }

  lemma FullFreadReachable(c: Setup, t: nat, b: Block, s: Shared) returns (s': Shared)
    requires Reachable(OneBuffer(c), s) && t < |s.workers| && |s.gbuf| == |b| == NREAD
    requires !s.workers[t].full && s.workers[t].rounds < c.numio
    ensures Reachable(OneBuffer(c), s')
    ensures s' == Shared(b, s.workers[t := Worker(s.workers[t].rounds + 1, true, NREAD)], s.log + [Got(t, b)])
  {
    s' := Shared(b, s.workers[t := Worker(s.workers[t].rounds + 1, true, NREAD)], s.log + [Got(t, b)]);
    assert Overlay(b, s.gbuf) == b;
    assert Fread(c, t, b, s, s');
    ReachStep(OneBuffer(c), s, s');
  }

  lemma FullFwriteReachable(c: Setup, t: nat, s: Shared) returns (s': Shared)
    requires Reachable(OneBuffer(c), s) && t < |s.workers| && |s.gbuf| == NREAD
    requires s.workers[t].full && s.workers[t].fnr == NREAD
    ensures Reachable(OneBuffer(c), s')
    ensures s' == Shared(s.gbuf, s.workers[t := s.workers[t].(full := false)], s.log + [Put(t, s.gbuf)])
  {
    s' := Shared(s.gbuf, s.workers[t := s.workers[t].(full := false)], s.log + [Put(t, s.gbuf)]);
    assert s.gbuf[..NREAD] == s.gbuf;
    assert Fwrite(t, s, s');
    ReachStep(OneBuffer(c), s, s');
  }
}
