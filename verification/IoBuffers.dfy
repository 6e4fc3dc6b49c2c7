/** Threads that copy blocks from one stream to another.

ch16/mt_iobuf_rfct.c gives each thread a heap buffer and ch16/mt_iobuf_tls.c a thread-local one, which is
the same here: a buffer no other thread touches.  ch16/mt_iobuf_mtx.c shares one buffer and drops the lock
between fread and fwrite.  Each fread and each fwrite is one atomic step; the streams do not fail, and
fread may deliver fewer bytes than asked for, but not none. */
module IoBuffers {
  import opened Files
  import opened Runs

  const NREAD := 512

  type Block = seq<byte>

  /** A block and the thread that read or wrote it. */
  datatype Tagged = Tagged(who: nat, block: Block)

  ghost predicate Readable(b: Block) {
    1 <= |b| <= NREAD
  }

  /** The bytes of the output file after these writes. */
  function Bytes(ws: seq<Tagged>): seq<byte> {
    if ws == [] then [] else Bytes(ws[..|ws| - 1]) + ws[|ws| - 1].block
  }

  /** What thread t contributed, in order. */
  function Of(log: seq<Tagged>, t: nat): seq<Block> {
    if log == [] then []
    else if log[|log| - 1].who == t then Of(log[..|log| - 1], t) + [log[|log| - 1].block]
    else Of(log[..|log| - 1], t)
  }

  lemma OfAppend(log: seq<Tagged>, e: Tagged, t: nat)
    ensures Of(log + [e], t) == if e.who == t then Of(log, t) + [e.block] else Of(log, t)
  {
    assert (log + [e])[..|log|] == log;
  }

  lemma BytesAppend(log: seq<Tagged>, e: Tagged)
    ensures Bytes(log + [e]) == Bytes(log) + e.block
  {
    assert (log + [e])[..|log|] == log;
  }

  // Private buffers

  /** A thread that has done `rounds` reads; full tells whether the last one is still to be written. */
  datatype Thread = Thread(rounds: nat, full: bool, iobuf: Block)

  /** input and output are the history of the two streams, file the output itself. */
  datatype State = State(threads: seq<Thread>, input: seq<Tagged>, output: seq<Tagged>, file: seq<byte>)

  datatype Config = Config(nthreads: nat, numio: nat)

  ghost predicate Init(c: Config, s: State) {
    s == State(seq(c.nthreads, _ => Thread(0, false, [])), [], [], [])
  }

  ghost predicate ReadStep(c: Config, t: nat, b: Block, s: State, s': State) {
    && t < |s.threads| && !s.threads[t].full && s.threads[t].rounds < c.numio && Readable(b)
    && s' == s.(threads := s.threads[t := Thread(s.threads[t].rounds + 1, true, b)],
                input := s.input + [Tagged(t, b)])
  }

  ghost predicate WriteStep(t: nat, s: State, s': State) {
    && t < |s.threads| && s.threads[t].full
    && var b := s.threads[t].iobuf;
       s' == s.(threads := s.threads[t := s.threads[t].(full := false)],
                output := s.output + [Tagged(t, b)], file := s.file + b)
  }

  ghost predicate Next(c: Config, s: State, s': State) {
    (exists t: nat, b: Block :: ReadStep(c, t, b, s, s')) || (exists t: nat :: WriteStep(t, s, s'))
  }

  ghost function Private(c: Config): System<State> {
    System(s => Init(c, s), (s, s') => Next(c, s, s'))
  }

  ghost predicate AllDone(c: Config, s: State) {
    forall t :: 0 <= t < |s.threads| ==> s.threads[t].rounds == c.numio && !s.threads[t].full
  }

  ghost predicate ThreadInv(c: Config, s: State, t: nat)
    requires t < |s.threads|
  {
    var th := s.threads[t];
    && th.rounds <= c.numio && |Of(s.input, t)| == th.rounds
    && Of(s.input, t) == Of(s.output, t) + if th.full then [th.iobuf] else []
  }

  function Rounds(th: Thread): int { th.rounds }

  function InFlight(th: Thread): int { if th.full then 1 else 0 }

  ghost predicate Inv(c: Config, s: State) {
    && |s.threads| == c.nthreads
    && |s.input| == Total(s.threads, Rounds) == |s.output| + Total(s.threads, InFlight)
    && s.file == Bytes(s.output)
    && (forall t: nat :: t < |s.threads| ==> ThreadInv(c, s, t))
    && (forall i :: 0 <= i < |s.input| ==> s.input[i].who < c.nthreads && Readable(s.input[i].block))
    && (forall i :: 0 <= i < |s.output| ==> s.output[i].who < c.nthreads)
  }

  lemma ReadKeeps(c: Config, t: nat, b: Block, s: State, s': State)
    requires Inv(c, s) && ReadStep(c, t, b, s, s')
    ensures Inv(c, s')
  {
    TotalUpdate(s.threads, t, s'.threads[t], Rounds);
    TotalUpdate(s.threads, t, s'.threads[t], InFlight);
    forall u: nat | u < |s'.threads| ensures ThreadInv(c, s', u) {
      assert ThreadInv(c, s, u);
      OfAppend(s.input, Tagged(t, b), u);
      assert Of(s.output, u) + [] == Of(s.output, u);
    }
  }

  lemma WriteKeeps(c: Config, t: nat, s: State, s': State)
    requires Inv(c, s) && WriteStep(t, s, s')
    ensures Inv(c, s')
  {
    var e := Tagged(t, s.threads[t].iobuf);
    BytesAppend(s.output, e);
    TotalUpdate(s.threads, t, s'.threads[t], Rounds);
    TotalUpdate(s.threads, t, s'.threads[t], InFlight);
    forall u: nat | u < |s'.threads| ensures ThreadInv(c, s', u) {
      assert ThreadInv(c, s, u);
      OfAppend(s.output, e, u);
      assert Of(s'.output, u) + [] == Of(s'.output, u);
    }
  }

  lemma InvHolds(c: Config, s: State)
    requires Reachable(Private(c), s)
    ensures Inv(c, s)
  {
    var m, inv := Private(c), s => Inv(c, s);
    forall s | m.init(s) ensures inv(s) {
      TotalUniform(s.threads, Rounds, 0);
      TotalUniform(s.threads, InFlight, 0);
    }
    forall s, s' | inv(s) && m.next(s, s') ensures inv(s') {
      if t: nat, b: Block :| ReadStep(c, t, b, s, s') {
        ReadKeeps(c, t, b, s, s');
      } else {
        var t: nat :| WriteStep(t, s, s');
        WriteKeeps(c, t, s, s');
      }
    }
    Invariant(m, inv, s);
  }

  /** How often a tagged block occurs is decided by the thread's own sequence. */
  lemma {:induction false} CountOf(log: seq<Tagged>, e: Tagged)
    ensures multiset(log)[e] == multiset(Of(log, e.who))[e.block]
  {
    if log != [] {
      var front, last := log[..|log| - 1], log[|log| - 1];
      CountOf(front, e);
      assert log == front + [last];
    }
  }

  /** For every thread count, every numio and every schedule: each thread's blocks are written in the order
      it read them, so the blocks written are a permutation of the blocks read; and the file is their
      concatenation. */
  lemma NothingLost(c: Config, s: State)
    requires Reachable(Private(c), s) && AllDone(c, s)
    ensures forall t: nat :: t < c.nthreads ==> Of(s.output, t) == Of(s.input, t) && |Of(s.output, t)| == c.numio
    ensures multiset(s.output) == multiset(s.input)
    ensures s.file == Bytes(s.output)
  {
    InvHolds(c, s);
    forall t: nat | t < c.nthreads ensures Of(s.output, t) == Of(s.input, t) && |Of(s.output, t)| == c.numio {
      assert ThreadInv(c, s, t);
    }
    forall e ensures multiset(s.output)[e] == multiset(s.input)[e] {
      CountOf(s.output, e);
      CountOf(s.input, e);
      if e.who >= c.nthreads {
        assert forall i :: 0 <= i < |s.output| ==> s.output[i] != e;
        assert forall i :: 0 <= i < |s.input| ==> s.input[i] != e;
      }
    }
  }

  lemma {:induction false} BytesLength(ws: seq<Tagged>, n: nat)
    requires forall i :: 0 <= i < |ws| ==> |ws[i].block| == n
    ensures |Bytes(ws)| == |ws| * n
  {
    if ws != [] {
      BytesLength(ws[..|ws| - 1], n);
      assert |ws| * n == (|ws| - 1) * n + n;
    }
  }

  lemma SameLengths(xs: seq<Tagged>, ys: seq<Tagged>, n: nat)
    requires multiset(xs) == multiset(ys) && forall i :: 0 <= i < |ys| ==> |ys[i].block| == n
    ensures forall i :: 0 <= i < |xs| ==> |xs[i].block| == n
  {
    forall i | 0 <= i < |xs| ensures |xs[i].block| == n {
      assert xs[i] in multiset(xs);
      assert xs[i] in multiset(ys);
    }
  }

  lemma OutputCount(c: Config, s: State)
    requires Inv(c, s) && AllDone(c, s)
    ensures |s.output| == c.nthreads * c.numio
  {
    TotalUniform(s.threads, Rounds, c.numio);
    TotalUniform(s.threads, InFlight, 0);
  }

  /** With full reads the output has nthreads * numio * NREAD bytes. */
  lemma OutputLength(c: Config, s: State)
    requires Reachable(Private(c), s) && AllDone(c, s)
    requires forall i :: 0 <= i < |s.input| ==> |s.input[i].block| == 512
    ensures |s.file| == c.nthreads * c.numio * 512
  {
    InvHolds(c, s);
    NothingLost(c, s);
    SameLengths(s.output, s.input, NREAD);
    OutputCount(c, s);
    BytesLength(s.output, NREAD);
  }

  /** A run stops only with all threads done, after one step for each block read and each block written, so
      at most 2 * nthreads * numio of them: every schedule that keeps going gets there. */
  lemma {:induction false} RunsFinish(c: Config, run: seq<State>)
    requires IsRun(Private(c), run)
    ensures var s := run[|run| - 1];
      && (Stuck(Private(c), s) <==> AllDone(c, s))
      && |run| - 1 == |s.input| + |s.output| <= 2 * (c.numio * c.nthreads)
  {
    var k := |run| - 1;
    var s := run[k];
    assert Reachable(Private(c), s);
    InvHolds(c, s);
    StuckWhenDone(c, s);
    WorkBounded(c, s);
    if k > 0 {
      var front := run[..k];
      assert IsRun(Private(c), front);
      RunsFinish(c, front);
      assert Private(c).next(run[k - 1], run[k]);
    }
  }

  /** Every block of 1 to 512 bytes may be what a read delivers. */
  lemma AnyBlock(c: Config, t: nat, b: Block, s: State) returns (s': State)
    requires t < |s.threads| && !s.threads[t].full && s.threads[t].rounds < c.numio && 1 <= |b| <= 512
    ensures Next(c, s, s') && s'.input == s.input + [Tagged(t, b)]
  {
    s' := s.(threads := s.threads[t := Thread(s.threads[t].rounds + 1, true, b)], input := s.input + [Tagged(t, b)]);
    assert ReadStep(c, t, b, s, s');
  }

  lemma WorkBounded(c: Config, s: State)
    requires Inv(c, s)
    ensures |s.input| + |s.output| <= 2 * (c.numio * c.nthreads)
  {
    forall t: nat | t < |s.threads| ensures Rounds(s.threads[t]) <= c.numio {
      assert ThreadInv(c, s, t);
    }
    TotalBelow(s.threads, Rounds, c.numio);
    TotalNonNegative(s.threads, InFlight);
  }

  lemma StuckWhenDone(c: Config, s: State)
    requires Inv(c, s)
    ensures Stuck(Private(c), s) <==> AllDone(c, s)
  {
    forall t: nat | t < |s.threads| ensures s.threads[t].rounds <= c.numio {
      assert ThreadInv(c, s, t);
    }
    if !AllDone(c, s) {
      var t: nat :| t < |s.threads| && !(s.threads[t].rounds == c.numio && !s.threads[t].full);
      var s' := CanStep(c, t, s);
      assert Private(c).next(s, s');
    }
  }

  lemma CanStep(c: Config, t: nat, s: State) returns (s': State)
    requires t < |s.threads| && (s.threads[t].full || s.threads[t].rounds < c.numio)
    ensures Next(c, s, s')
  {
    var th := s.threads[t];
    if th.full {
      s' := s.(threads := s.threads[t := th.(full := false)],
               output := s.output + [Tagged(t, th.iobuf)], file := s.file + th.iobuf);
      assert WriteStep(t, s, s');
    } else {
      var b: Block := Zeros(NREAD);
      s' := s.(threads := s.threads[t := Thread(th.rounds + 1, true, b)], input := s.input + [Tagged(t, b)]);
      assert ReadStep(c, t, b, s, s');
    }
  }
}
