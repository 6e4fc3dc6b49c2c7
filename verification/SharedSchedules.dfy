/** ch16/mt_iobuf_mtx.c: which schedules of the shared buffer lose nothing, whatever the data.

A schedule says which thread reads or writes next; the data are the blocks the reads deliver. */
module SharedSchedules {
  import opened Files
  import opened IoBuffers
  import opened Runs
  import opened SharedBuffer

  /** The last operation of this thread was a read: its write is still to come. */
  function OpenIn(log: seq<Event>, who: nat): bool {
    if log == [] then false
    else if log[|log| - 1].who == who then log[|log| - 1].Got?
    else OpenIn(log[..|log| - 1], who)
  }

  /** Every thread writes only after a read of its own. */
  ghost predicate WritersOpen(log: seq<Event>) {
    forall p :: 0 <= p < |log| && log[p].Put? ==> OpenIn(log[..p], log[p].who)
  }

  ghost predicate OpenInv(s: Shared) {
    && WritersOpen(s.log)
    && forall t: nat :: t < |s.workers| ==> (s.workers[t].full <==> OpenIn(s.log, t))
  }

  lemma OpenAppend(log: seq<Event>, e: Event)
    requires WritersOpen(log) && (e.Put? ==> OpenIn(log, e.who))
    ensures WritersOpen(log + [e])
    ensures forall t :: OpenIn(log + [e], t) == if e.who == t then e.Got? else OpenIn(log, t)
  {
    var log' := log + [e];
    assert log'[..|log|] == log;
    forall p | 0 <= p < |log'| && log'[p].Put? ensures OpenIn(log'[..p], log'[p].who) {
      if p < |log| {
        assert log'[..p] == log[..p];
      }
    }
  }

  lemma OpenHolds(c: Setup, s: Shared)
    requires Reachable(OneBuffer(c), s)
    ensures OpenInv(s)
  {
    var m, inv := OneBuffer(c), s => OpenInv(s);
    forall s, s' | inv(s) && m.next(s, s') ensures inv(s') {
      OpenAppend(s.log, s'.log[|s.log|]);
    }
    Invariant(m, inv, s);
  }

  // Alternating schedules lose nothing

  /** What holds of the log of every run. */
  ghost predicate Genuine(initial: seq<byte>, log: seq<Event>) {
    && |initial| == NREAD && AllReadable(log) && WritersOpen(log)
    && forall p :: 0 <= p < |log| ==> WroteBuffer(initial, log, p)
  }

  lemma LogGenuine(c: Setup, s: Shared)
    requires Reachable(OneBuffer(c), s)
    ensures Genuine(c.initial, s.log)
  {
    SharedInvHolds(c, s);
    OpenHolds(c, s);
  }

  lemma GenuinePrefix(initial: seq<byte>, log: seq<Event>, k: nat)
    requires Genuine(initial, log) && k <= |log|
    ensures Genuine(initial, log[..k])
  {
    var front := log[..k];
    forall p | 0 <= p < k
      ensures WroteBuffer(initial, front, p) && (front[p].Put? ==> OpenIn(front[..p], front[p].who))
    {
      assert front[..p] == log[..p];
      assert WroteBuffer(initial, log, p);
    }
  }

  ghost predicate NobodyOpen(log: seq<Event>) {
    forall w :: !OpenIn(log, w)
  }

  /** When nobody has a read open before it, a read and the next write are a pair: same thread, same block. */
  lemma PairBlock(initial: seq<byte>, front: seq<Event>, e: Event)
    requires |initial| == NREAD && AllReadable(front)
    requires front != [] && front[|front| - 1].Got? && NobodyOpen(front[..|front| - 1])
    requires e.Put? && OpenIn(front, e.who)
    requires LastCount(front, e.who) <= |BufferAfter(initial, front)|
    requires e.block == BufferAfter(initial, front)[..LastCount(front, e.who)]
    ensures e == Put(front[|front| - 1].who, front[|front| - 1].block)
  {
    var g := front[|front| - 1];
    assert e.who == g.who;
    LatestOnTop(initial, front);
    assert Latest(front) == g.block && LastCount(front, e.who) == |g.block|;
  }

  lemma PairCloses(log: seq<Event>)
    requires |log| >= 2 && NobodyOpen(log[..|log| - 2])
    requires log[|log| - 1].Put? && log[|log| - 2].who == log[|log| - 1].who
    ensures NobodyOpen(log)
  {
    var front := log[..|log| - 1];
    assert front[..|log| - 2] == log[..|log| - 2];
    forall w ensures !OpenIn(log, w) {
      assert !OpenIn(log[..|log| - 2], w);
    }
  }

  lemma {:induction false} AlternatingPairs(initial: seq<byte>, log: seq<Event>)
    requires Genuine(initial, log) && Alternates(log)
    ensures Lossless(log) && NobodyOpen(log)
  {
    if log != [] {
      var n := |log|;
      var front := log[..n - 1];
      GenuinePrefix(initial, log, n - 2);
      AlternatingPairs(initial, log[..n - 2]);
      assert front[..n - 2] == log[..n - 2];
      assert WroteBuffer(initial, log, n - 1);
      PairBlock(initial, front, log[n - 1]);
      PairCloses(log);
      PairLossless(log);
    }
  }

  // Any other schedule loses a block for some data

  /** The same operations of the same threads, with other data. */
  ghost predicate SameSchedule(x: seq<Event>, y: seq<Event>) {
    |x| == |y| && forall p :: 0 <= p < |x| ==> x[p].who == y[p].who && (x[p].Got? <==> y[p].Got?)
  }

  /** In log every read at position p delivers data(p). */
  ghost predicate Delivers(data: nat -> Block, log: seq<Event>) {
    forall p: nat :: p < |log| && log[p].Got? ==> log[p].block == data(p)
  }

  /** s' is s with these data. */
  ghost predicate Replays(c: Setup, data: nat -> Block, s: Shared, s': Shared) {
    && Reachable(OneBuffer(c), s') && SameSchedule(s.log, s'.log) && Delivers(data, s'.log)
    && |s'.workers| == |s.workers| && |s'.gbuf| == NREAD
    && forall t :: 0 <= t < |s.workers| ==> (
         && s'.workers[t].rounds == s.workers[t].rounds && s'.workers[t].full == s.workers[t].full
         && (s'.workers[t].full ==> s'.workers[t].fnr <= NREAD))
  }

  ghost predicate Replayable(c: Setup, data: nat -> Block, s: Shared) {
    exists s' :: Replays(c, data, s, s')
  }

  ghost predicate AllFull(data: nat -> Block) {
    forall p :: |data(p)| == NREAD
  }

  lemma ScheduleGrows(data: nat -> Block, x: seq<Event>, y: seq<Event>, e: Event, f: Event)
    requires SameSchedule(x, y) && Delivers(data, y)
    requires e.who == f.who && (e.Got? <==> f.Got?) && (f.Got? ==> f.block == data(|y|))
    ensures SameSchedule(x + [e], y + [f]) && Delivers(data, y + [f])
  {
  }

  lemma ReplayRead(c: Setup, data: nat -> Block, t: nat, b: Block, s: Shared, next: Shared, s': Shared)
    requires AllFull(data) && Replays(c, data, s, s') && Fread(c, t, b, s, next)
    ensures Replayable(c, data, next)
  {
    var d := data(|s'.log|);
    var w := s'.workers[t];
    var after := Shared(Overlay(d, s'.gbuf), s'.workers[t := Worker(w.rounds + 1, true, |d|)], s'.log + [Got(t, d)]);
    assert Fread(c, t, d, s', after);
    ReachStep(OneBuffer(c), s', after);
    ScheduleGrows(data, s.log, s'.log, Got(t, b), Got(t, d));
    assert Replays(c, data, next, after);
  }

  lemma ReplayWrite(c: Setup, data: nat -> Block, t: nat, s: Shared, next: Shared, s': Shared)
    requires Replays(c, data, s, s') && Fwrite(t, s, next)
    ensures Replayable(c, data, next)
  {
    var w := s'.workers[t];
    var after := s'.(workers := s'.workers[t := w.(full := false)], log := s'.log + [Put(t, s'.gbuf[..w.fnr])]);
    assert Fwrite(t, s', after);
    ReachStep(OneBuffer(c), s', after);
    ScheduleGrows(data, s.log, s'.log, next.log[|s.log|], after.log[|s'.log|]);
    assert Replays(c, data, next, after);
  }

  /** Every schedule can happen with any data. */
  lemma Replay(c: Setup, data: nat -> Block, s: Shared) returns (s': Shared)
    requires AllFull(data) && Reachable(OneBuffer(c), s)
    ensures Replays(c, data, s, s')
  {
    var m, inv := OneBuffer(c), s => Replayable(c, data, s);
    forall s | m.init(s) ensures inv(s) {
      ReachInit(m, s);
      assert Replays(c, data, s, s);
    }
    forall s, next | inv(s) && m.next(s, next) ensures inv(next) {
      var r :| Replays(c, data, s, r);
      if t: nat, b: Block :| Fread(c, t, b, s, next) {
        ReplayRead(c, data, t, b, s, next, r);
      } else {
        var t: nat :| Fwrite(t, s, next);
        ReplayWrite(c, data, t, s, next, r);
      }
    }
    Invariant(m, inv, s);
    s' :| Replays(c, data, s, s');
  }

  /** A read whose block is gone before anyone can write it. */
  ghost predicate Overwritten(log: seq<Event>, p: nat) {
    p < |log| && log[p].Got? && (p + 1 < |log| ==> log[p + 1].Got?)
  }

  /** A log that does not alternate, although its first k events do, has an overwritten read. */
  lemma {:induction false} FindOverwritten(initial: seq<byte>, log: seq<Event>, k: nat) returns (p: nat)
    requires Genuine(initial, log) && !Alternates(log) && k <= |log| && Alternates(log[..k])
    ensures Overwritten(log, p)
    decreases |log| - k
  {
    assert k < |log| by {
      assert log[..|log|] == log;
    }
    GenuinePrefix(initial, log, k);
    AlternatingPairs(initial, log[..k]);
    assert log[k].Got?;
    if k + 1 < |log| && log[k + 1].Put? {
      assert forall q :: 0 <= q < k ==> log[..k + 2][q] == log[..k][q];
      p := FindOverwritten(initial, log, k + 2);
    } else {
      p := k;
    }
  }

  /** Where the latest block comes from. */
  lemma {:induction false} LatestAt(log: seq<Event>) returns (r: nat)
    requires exists p :: 0 <= p < |log| && log[p].Got?
    ensures r < |log| && log[r].Got? && Latest(log) == log[r].block
    ensures forall p :: r < p < |log| ==> log[p].Put?
  {
    if log[|log| - 1].Got? {
      r := |log| - 1;
    } else {
      var front := log[..|log| - 1];
      var p :| 0 <= p < |log| && log[p].Got?;
      assert front[p].Got?;
      r := LatestAt(front);
    }
  }

  lemma {:induction false} NeverWritten(log: seq<Event>, b: Block)
    requires forall p :: 0 <= p < |log| && log[p].Put? ==> log[p].block != b
    ensures WriteCount(log, b) == 0
  {
    if log != [] {
      NeverWritten(log[..|log| - 1], b);
    }
  }

  lemma {:induction false} ReadSomewhere(log: seq<Event>, b: Block, p: nat)
    requires p < |log| && log[p].Got? && log[p].block == b
    ensures ReadCount(log, b) >= 1
  {
    if p < |log| - 1 {
      ReadSomewhere(log[..|log| - 1], b, p);
    }
  }

  /** A block that only one read delivers, an overwritten one, is never written. */
  lemma OverwrittenLost(log: seq<Event>, p: nat)
    requires Overwritten(log, p)
    requires forall q :: 0 <= q < |log| && q != p && log[q].Got? ==> log[q].block != log[p].block
    requires forall q :: 0 <= q < |log| && log[q].Put? ==> q > 0 && log[q].block == Latest(log[..q])
    requires forall q :: 0 <= q < |log| && log[q].Put? ==> exists r :: 0 <= r < q && log[r].Got?
    ensures !Lossless(log)
  {
    var b := log[p].block;
    forall q | 0 <= q < |log| && log[q].Put? ensures log[q].block != b {
      var front := log[..q];
      var x :| 0 <= x < q && log[x].Got?;
      assert front[x].Got?;
      var r := LatestAt(front);
      assert p + 1 < q ==> front[p + 1] == log[p + 1];
    }
    NeverWritten(log, b);
    ReadSomewhere(log, b, p);
  }

  function Mark(p: nat): nat -> Block {
    q => seq(NREAD, _ => if q == p then 1 else 0)
  }

  lemma {:induction false} OpenHasRead(log: seq<Event>, who: nat) returns (r: nat)
    requires OpenIn(log, who)
    ensures r < |log| && log[r].Got?
  {
    if log[|log| - 1].who == who {
      r := |log| - 1;
    } else {
      r := OpenHasRead(log[..|log| - 1], who);
    }
  }

  lemma MarkedAlone(log: seq<Event>, p: nat)
    requires Delivers(Mark(p), log) && p < |log| && log[p].Got?
    ensures forall q :: 0 <= q < |log| && q != p && log[q].Got? ==> log[q].block != log[p].block
  {
    forall q | 0 <= q < |log| && q != p && log[q].Got? ensures log[q].block != log[p].block {
      assert log[q].block == Mark(p)(q) && log[p].block == Mark(p)(p);
      assert log[q].block[0] == 0 && log[p].block[0] == 1;
    }
  }

  lemma WritersHaveRead(log: seq<Event>)
    requires WritersOpen(log)
    ensures forall q :: 0 <= q < |log| && log[q].Put? ==> exists r :: 0 <= r < q && log[r].Got?
  {
    forall q | 0 <= q < |log| && log[q].Put? ensures exists r :: 0 <= r < q && log[r].Got? {
      var r := OpenHasRead(log[..q], log[q].who);
      assert log[r].Got?;
    }
  }

  /** The same schedule with data that mark one overwritten read loses the marked block. */
  lemma MarkedBlockLost(c: Setup, s: Shared) returns (s': Shared)
    requires Reachable(OneBuffer(c), s) && !Alternates(s.log)
    ensures Reachable(OneBuffer(c), s') && SameSchedule(s.log, s'.log) && !Lossless(s'.log)
  {
    LogGenuine(c, s);
    var p := FindOverwritten(c.initial, s.log, 0);
    s' := Replay(c, Mark(p), s);
    WritesFollowReads(c, s');
    LogGenuine(c, s');
    MarkedAlone(s'.log, p);
    WritersHaveRead(s'.log);
    OverwrittenLost(s'.log, p);
  }

  /** For every schedule, complete or not: it loses and repeats nothing, whatever the data, short reads and
      equal blocks included, if and only if each fread is followed by its fwrite before the next fread. */
  lemma SafeSchedules(c: Setup, s: Shared)
    requires Reachable(OneBuffer(c), s)
    ensures Alternates(s.log) <==>
      forall s' :: Reachable(OneBuffer(c), s') && SameSchedule(s.log, s'.log) ==> Lossless(s'.log)
  {
    if Alternates(s.log) {
      forall s' | Reachable(OneBuffer(c), s') && SameSchedule(s.log, s'.log) ensures Lossless(s'.log) {
        LogGenuine(c, s');
        AlternatingPairs(c.initial, s'.log);
      }
    } else {
      var s' := MarkedBlockLost(c, s);
    }
  }
}
