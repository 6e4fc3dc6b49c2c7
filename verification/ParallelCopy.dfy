/** solutions_to_assgn/ch18/mt_copy.c: N threads copy one segment of a file each, the last thread also
the remainder, by pread and pwrite at absolute offsets. */
module ParallelCopy {
  import opened Arith
  import opened Files
  import opened Heap
  import opened Runs
  import opened Transfers

  /** The parameter block of one worker (struct stToThread). */
  datatype Task = Task(thrdnum: nat, thrdtotal: nat, start: nat, len: nat, rem: nat)

  function TaskOf(i: nat, n: nat, fsize: nat): Task
    requires n >= 1
  {
    Task(i, n, i * (fsize / n), fsize / n, fsize % n)
  }

  // The split of [0, fsize)

  /** Segment i < n is thread i's main part; segment n is the remainder. */
  ghost predicate InSegment(fsize: nat, n: nat, i: nat, p: nat)
    requires n >= 1
  {
    var t := TaskOf(i, n, fsize);
    t.start <= p < t.start + if i < n then t.len else t.rem
  }

  /** The segments tile the file: every offset lies in exactly one of them. */
  lemma Tiling(fsize: nat, n: nat, p: nat) returns (i: nat)
    requires n >= 1 && p < fsize
    ensures i <= n && InSegment(fsize, n, i, p)
    ensures forall j: nat :: j <= n && InSegment(fsize, n, j, p) ==> j == i
  {
    i := SomeSegment(fsize, n, p);
    forall j: nat | j <= n && InSegment(fsize, n, j, p) ensures j == i {
      OneSegment(fsize, n, i, j, p);
    }
  }

  lemma SomeSegment(fsize: nat, n: nat, p: nat) returns (i: nat)
    requires n >= 1 && p < fsize
    ensures i <= n && InSegment(fsize, n, i, p)
  {
    var len := fsize / n;
    DivMod(fsize, n);
    if p < n * len {
      i := p / len;
      MulLess(i, n, len, p);
    } else {
      i := n;
    }
  }

  lemma OneSegment(fsize: nat, n: nat, i: nat, j: nat, p: nat)
    requires n >= 1 && i <= n && j <= n && InSegment(fsize, n, i, p) && InSegment(fsize, n, j, p)
    ensures i == j
  {
    var len := fsize / n;
    MulPred(i, len);
    MulPred(j, len);
    if i < n && j < n {
      SameBlock(i, j, len, p);
    } else if i < j {
      MulOrder(i + 1, j, len);
    } else if j < i {
      MulOrder(j + 1, i, len);
    }
  }

  /** Every segment lies inside the file. */
  lemma SegmentInside(fsize: nat, n: nat, i: nat)
    requires n >= 1 && i < n
    ensures var t := TaskOf(i, n, fsize);
      t.start + t.len <= n * t.len == fsize - t.rem && (i == n - 1 ==> t.start + t.len == n * t.len)
  {
    var len := fsize / n;
    DivMod(fsize, n);
    MulPred(i, len);
    MulOrder(i + 1, n, len);
  }

  /** The start offset i * fsize / n, which the program's comment rejects, lies beyond the right one by
      i * (fsize % n) / n; so it is right for all n threads just when fsize % n is 0 or 1. */
  lemma RejectedStart(i: nat, fsize: nat, n: nat)
    requires n >= 1
    ensures (i * fsize) / n - i * (fsize / n) == (i * (fsize % n)) / n
    ensures (forall k: nat :: k < n ==> Drift(k, fsize, n) == 0) <==> fsize % n <= 1
  {
    var q, r := fsize / n, fsize % n;
    assert i * fsize == (i * q) * n + i * r by {
      assert fsize == q * n + r;
      MulSplit(i, q, n, r);
    }
    DivShift(i * q, i * r, n);
    if r <= 1 {
      forall k: nat | k < n ensures Drift(k, fsize, n) == 0 {
        assert k * r < n;
        DivUnique(k * r, 0, k * r, n);
      }
    } else {
      LastDrifts(n, r);
      assert Drift(n - 1, fsize, n) != 0;
    }
  }

  lemma LastDrifts(n: nat, r: nat)
    requires 2 <= r < n
    ensures ((n - 1) * r) / n != 0
  {
    MulOrder(2, r, n - 1);
    var x := (n - 1) * r;
    assert x == (x / n) * n + x % n;
  }

  function Drift(i: nat, fsize: nat, n: nat): nat
    requires n >= 1
  {
    (i * (fsize % n)) / n
  }

  /** The thread creation loop of do_mt_copy, as far as it fills the parameter blocks. */
  method FillTasks(numthrds: nat, fsize: nat) returns (tasks: array<Task>)
    requires numthrds >= 1
    ensures fresh(tasks) && tasks.Length == numthrds
    ensures forall i :: 0 <= i < numthrds ==> tasks[i] == TaskOf(i, numthrds, fsize)
    ensures forall i :: 0 <= i < numthrds ==> tasks[i].thrdnum == i && tasks[i].thrdtotal == numthrds
    ensures forall i :: 0 <= i < numthrds ==>
      tasks[i].start == i * (fsize / numthrds) && tasks[i].len == fsize / numthrds && tasks[i].rem == fsize % numthrds
  {
    var rem := fsize % numthrds;
    tasks := new Task[numthrds](_ => Task(0, 0, 0, 0, 0));
    var i := 0;
    while i < numthrds
      invariant i <= numthrds
      invariant forall k :: 0 <= k < i ==> tasks[k] == TaskOf(k, numthrds, fsize)
    {
      tasks[i] := Task(i, numthrds, i * (fsize / numthrds), fsize / numthrds, rem);
      i := i + 1;
    }
  }

  /** fd_read of a segment inside the file when the kernel does not cut transfers short. */
  method ReadSegment(fd: Descriptor, buf: array<byte>, len: nat, start: nat) returns (nr: int)
    requires len == buf.Length && start + len <= |fd.contents| && WholeOrError(fd.grant, len)
    modifies fd`calls, buf
    ensures nr == -1 || (nr == len && buf[..] == ReadAt(fd.contents, start, len))
    ensures Whole(fd.grant, len) ==> nr != -1
    ensures fd.calls > old(fd.calls) && (nr == -1 ==> fd.grant(fd.calls - 1) < 0)
  {
    if len > 0 {
      ReadWhole(fd.contents, buf[..], len, start, false, fd.grant, fd.calls);
    }
    ReadFails(fd.contents, buf[..], len, start, false, fd.grant, fd.calls, 0);
    nr := fd.FdPread(buf, len, start);
    assert nr == len ==> buf[..][..len] == buf[..];
  }

  method WriteSegment(fd: Descriptor, buf: array<byte>, len: nat, start: nat) returns (nw: int)
    requires len == buf.Length && WholeOrError(fd.grant, len)
    modifies fd`contents, fd`calls
    ensures if nw == -1 then fd.contents == old(fd.contents)
      else nw == len && fd.contents == WriteAt(old(fd.contents), start, buf[..])
    ensures Whole(fd.grant, len) ==> nw != -1
    ensures fd.calls > old(fd.calls) && (nw == -1 ==> fd.grant(fd.calls - 1) < 0)
  {
    WriteWhole(fd.contents, buf[..], len, start, false, fd.grant, fd.calls);
    WriteFails(fd.contents, buf[..], len, start, false, fd.grant, fd.calls, 0);
    nw := fd.FdPwrite(buf, len, start);
    assert buf[..][..len] == buf[..];
  }

  /** __do_mt_copy, for a segment inside the file and a kernel that does not cut transfers short: on
      success the segment is written in place, on failure nothing is.  mem: what becomes of the buffer.  When
      nothing is read, which happens just for an empty segment, it is not freed. */
  method CopySegment(fd_src: Descriptor, fd_dest: Descriptor, start: nat, len: nat, mallocFails: bool)
    returns (r: int, mem: Mem)
    requires fd_src != fd_dest && start + len <= |fd_src.contents|
    requires WholeOrError(fd_src.grant, len) && WholeOrError(fd_dest.grant, len)
    modifies fd_src`calls, fd_dest`contents, fd_dest`calls
    ensures r == 0 || r == -2 || r == -3 || r == -4
    ensures r == -2 <==> mallocFails
    ensures mem == if r == -2 then Mem(0, 0) else if r == 0 && len == 0 then Mem(1, 0) else Mem(1, 1)
    ensures r == 0 ==>
      fd_dest.contents == WriteAt(old(fd_dest.contents), start, ReadAt(fd_src.contents, start, len))
    ensures r != 0 ==> fd_dest.contents == old(fd_dest.contents)
    ensures (Whole(fd_src.grant, len) ==> r != -3) && (Whole(fd_dest.grant, len) ==> r != -4)
    ensures r == -3 ==> fd_src.calls > old(fd_src.calls) && fd_src.grant(fd_src.calls - 1) < 0
    ensures r == -4 ==> fd_dest.calls > old(fd_dest.calls) && fd_dest.grant(fd_dest.calls - 1) < 0
  {
    if mallocFails {
      return -2, UNBORN;
    }
    mem := Allocate(UNBORN);
    var buf := new byte[len];
    var nr := ReadSegment(fd_src, buf, len, start);
    if nr < 0 {
      return -3, Free(mem);
    } else if nr == 0 {
      return 0, mem;
    }
    var nw := WriteSegment(fd_dest, buf, nr, start);
    if nw < 0 {
      return -4, Free(mem);
    }
    return 0, Free(mem);
  }

  // All workers at once; a step is one complete pread or pwrite

  datatype Pc = Read | Write(buf: seq<byte>) | ReadRem | WriteRem(buf: seq<byte>) | Done

  datatype State = State(dest: seq<byte>, pcs: seq<Pc>)

  datatype Config = Config(src: seq<byte>, n: nat, dest: seq<byte>)

  ghost predicate Init(c: Config, s: State) {
    c.n >= 1 && s == State(c.dest, seq(c.n, _ => Read))
  }

  /** What a worker does after its main part: its parameter block tells whether the remainder is its own. */
  function AfterMain(c: Config, t: nat): Pc
    requires c.n >= 1
  {
    var task := TaskOf(t, c.n, |c.src|);
    if task.rem != 0 && task.thrdnum == task.thrdtotal - 1 then ReadRem else Done
  }

  function StepThread(c: Config, t: nat, s: State): State
    requires t < |s.pcs| == c.n
  {
    var task := TaskOf(t, c.n, |c.src|);
    match s.pcs[t]
    case Read =>
      var buf := ReadAt(c.src, task.start, task.len);
      s.(pcs := s.pcs[t := if buf == [] then AfterMain(c, t) else Write(buf)])
    case Write(buf) =>
      State(WriteAt(s.dest, task.start, buf), s.pcs[t := AfterMain(c, t)])
    case ReadRem =>
      var buf := ReadAt(c.src, task.start + task.len, task.rem);
      s.(pcs := s.pcs[t := if buf == [] then Done else WriteRem(buf)])
    case WriteRem(buf) =>
      State(WriteAt(s.dest, task.start + task.len, buf), s.pcs[t := Done])
    case Done => s
  }

  ghost predicate Next(c: Config, s: State, s': State) {
    exists t: nat :: t < |s.pcs| == c.n && !s.pcs[t].Done? && s' == StepThread(c, t, s)
  }

  ghost function Copier(c: Config): System<State> {
    System(s => Init(c, s), (s, s') => Next(c, s, s'))
  }

  ghost predicate AllDone(s: State) {
    forall t :: 0 <= t < |s.pcs| ==> s.pcs[t].Done?
  }

  /** [lo, hi) has been copied. */
  ghost predicate CopiedRange(src: seq<byte>, dest: seq<byte>, lo: nat, hi: nat) {
    && (lo < hi ==> hi <= |src| && hi <= |dest|)
    && forall p :: lo <= p < hi ==> dest[p] == src[p]
  }

  ghost predicate ThreadInv(c: Config, t: nat, pc: Pc, dest: seq<byte>)
    requires c.n >= 1
  {
    var task := TaskOf(t, c.n, |c.src|);
    && (pc.Write? ==> pc.buf == ReadAt(c.src, task.start, task.len))
    && (pc.WriteRem? ==> pc.buf == ReadAt(c.src, task.start + task.len, task.rem))
    && (pc.ReadRem? || pc.WriteRem? ==> t == c.n - 1)
    && (pc.ReadRem? || pc.WriteRem? || pc.Done? ==> CopiedRange(c.src, dest, task.start, task.start + task.len))
    && (pc.Done? && t == c.n - 1 ==>
          CopiedRange(c.src, dest, task.start + task.len, task.start + task.len + task.rem))
  }

  ghost predicate Inv(c: Config, s: State) {
    && c.n >= 1 && |s.pcs| == c.n
    && |c.dest| <= |s.dest| <= Max(|c.dest|, |c.src|)
    && (forall p :: |c.src| <= p < |s.dest| ==> s.dest[p] == c.dest[p])
    && (forall t: nat :: t < |s.pcs| ==> ThreadInv(c, t, s.pcs[t], s.dest))
  }

  /** Every offset that holds its source byte in dest still does in dest'. */
  ghost predicate Extends(src: seq<byte>, dest: seq<byte>, dest': seq<byte>) {
    |dest| <= |dest'| && forall p :: 0 <= p < |src| && p < |dest| && dest[p] == src[p] ==> dest'[p] == src[p]
  }

  /** Writing source bytes in their place undoes no copied range and reaches nothing beyond the source. */
  lemma WriteSource(c: Config, dest: seq<byte>, off: nat, n: nat)
    requires off + n <= |c.src| && |c.dest| <= |dest| <= Max(|c.dest|, |c.src|)
    requires forall p :: |c.src| <= p < |dest| ==> dest[p] == c.dest[p]
    ensures var dest' := WriteAt(dest, off, ReadAt(c.src, off, n));
      && Extends(c.src, dest, dest') && |dest'| <= Max(|c.dest|, |c.src|)
      && (forall p :: |c.src| <= p < |dest'| ==> dest'[p] == c.dest[p])
      && CopiedRange(c.src, dest', off, off + n)
  {
  }

  lemma ThreadKept(c: Config, u: nat, pc: Pc, dest: seq<byte>, dest': seq<byte>)
    requires c.n >= 1 && ThreadInv(c, u, pc, dest) && Extends(c.src, dest, dest')
    ensures ThreadInv(c, u, pc, dest')
  {
  }

  lemma ReadKeeps(c: Config, t: nat, s: State)
    requires Inv(c, s) && t < |s.pcs| && (s.pcs[t].Read? || s.pcs[t].ReadRem?)
    ensures Inv(c, StepThread(c, t, s))
  {
    var s' := StepThread(c, t, s);
    var task := TaskOf(t, c.n, |c.src|);
    SegmentInside(|c.src|, c.n, t);
    assert ThreadInv(c, t, s.pcs[t], s.dest);
    assert ThreadInv(c, t, s'.pcs[t], s'.dest);
  }

  /** A write by thread t: what it does to the file, and the thread's own new state. */
  lemma WriteEffect(c: Config, t: nat, s: State)
    requires Inv(c, s) && t < |s.pcs| && (s.pcs[t].Write? || s.pcs[t].WriteRem?)
    ensures var s' := StepThread(c, t, s);
      && Extends(c.src, s.dest, s'.dest) && |s'.dest| <= Max(|c.dest|, |c.src|)
      && (forall p :: |c.src| <= p < |s'.dest| ==> s'.dest[p] == c.dest[p])
      && ThreadInv(c, t, s'.pcs[t], s'.dest)
  {
    var task := TaskOf(t, c.n, |c.src|);
    SegmentInside(|c.src|, c.n, t);
    assert ThreadInv(c, t, s.pcs[t], s.dest);
    if s.pcs[t].Write? {
      WriteSource(c, s.dest, task.start, task.len);
    } else {
      WriteSource(c, s.dest, task.start + task.len, task.rem);
    }
  }

  lemma WriteKeeps(c: Config, t: nat, s: State)
    requires Inv(c, s) && t < |s.pcs| && (s.pcs[t].Write? || s.pcs[t].WriteRem?)
    ensures Inv(c, StepThread(c, t, s))
  {
    var s' := StepThread(c, t, s);
    WriteEffect(c, t, s);
    forall u: nat | u < |s'.pcs| && u != t ensures ThreadInv(c, u, s'.pcs[u], s'.dest) {
      assert s'.pcs[u] == s.pcs[u];
      ThreadKept(c, u, s.pcs[u], s.dest, s'.dest);
    }
  }

  lemma InvHolds(c: Config, s: State)
    requires Reachable(Copier(c), s)
    ensures Inv(c, s)
  {
    var m, inv := Copier(c), s => Inv(c, s);
    forall s, s' | inv(s) && m.next(s, s') ensures inv(s') {
      var t: nat :| t < |s.pcs| == c.n && !s.pcs[t].Done? && s' == StepThread(c, t, s);
      if s.pcs[t].Read? || s.pcs[t].ReadRem? {
        ReadKeeps(c, t, s);
      } else {
        WriteKeeps(c, t, s);
      }
    }
    Invariant(m, inv, s);
  }

  lemma ByteCopied(c: Config, s: State, p: nat)
    requires Inv(c, s) && AllDone(s) && p < |c.src|
    ensures p < |s.dest| && s.dest[p] == c.src[p]
  {
    var i := Tiling(|c.src|, c.n, p);
    var t := if i < c.n then i else c.n - 1;
    SegmentInside(|c.src|, c.n, t);
    assert s.pcs[t].Done? && ThreadInv(c, t, s.pcs[t], s.dest);
  }

  /** For every source, every number of threads and every interleaving: when all workers are done the
      destination is the source, followed by what the destination had beyond that length. */
  lemma CopyComplete(c: Config, s: State)
    requires Reachable(Copier(c), s) && AllDone(s)
    ensures s.dest == Overlay(c.src, c.dest)
  {
    InvHolds(c, s);
    forall p: nat | p < |c.src| ensures p < |s.dest| && s.dest[p] == c.src[p] {
      ByteCopied(c, s, p);
    }
    if |c.src| > 0 {
      ByteCopied(c, s, |c.src| - 1);
    }
  }

  /** At every moment of every run the bytes beyond the source are untouched and finished threads have
      delivered their segments. */
  lemma CopySafe(c: Config, s: State, t: nat)
    requires Reachable(Copier(c), s) && t < |s.pcs|
    ensures c.n >= 1 && forall p :: |c.src| <= p < |s.dest| ==> p < |c.dest| && s.dest[p] == c.dest[p]
    ensures s.pcs[t].Done? ==>
      var task := TaskOf(t, c.n, |c.src|);
      CopiedRange(c.src, s.dest, task.start, task.start + task.len)
  {
    InvHolds(c, s);
    assert ThreadInv(c, t, s.pcs[t], s.dest);
  }

  function Left(pc: Pc): nat {
    match pc case Read => 4 case Write(_) => 3 case ReadRem => 2 case WriteRem(_) => 1 case Done => 0
  }

  ghost function Ranks(s: State): seq<nat> {
    seq(|s.pcs|, t requires 0 <= t < |s.pcs| => Left(s.pcs[t]))
  }

  /** No worker ever waits for another, and every step lowers the work left: every schedule that keeps
      going gets to the end. */
  lemma CopyFinishes(c: Config, s: State)
    requires Reachable(Copier(c), s)
    ensures Stuck(Copier(c), s) <==> AllDone(s)
    ensures forall s' :: Copier(c).next(s, s') ==> Sum(Ranks(s')) < Sum(Ranks(s))
  {
    InvHolds(c, s);
    var m := Copier(c);
    if !AllDone(s) {
      var t :| 0 <= t < |s.pcs| && !s.pcs[t].Done?;
      assert m.next(s, StepThread(c, t, s));
    }
    forall s' | m.next(s, s') ensures Sum(Ranks(s')) < Sum(Ranks(s)) {
      var t: nat :| t < |s.pcs| == c.n && !s.pcs[t].Done? && s' == StepThread(c, t, s);
      WorkUsed(c, t, s);
    }
  }

  lemma WorkUsed(c: Config, t: nat, s: State)
    requires t < |s.pcs| == c.n && !s.pcs[t].Done?
    ensures Sum(Ranks(StepThread(c, t, s))) < Sum(Ranks(s))
  {
    var low := Left(StepThread(c, t, s).pcs[t]);
    assert Ranks(StepThread(c, t, s)) == Ranks(s)[t := low];
    SumLowered(Ranks(s), t, low);
  }
}
