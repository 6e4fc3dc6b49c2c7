/** Transition systems and their runs.

Every concurrent program of this project is a System: a predicate for the initial states and a
relation for one atomic step of one thread or process.  A run is any schedule of such steps, so a
statement about all runs is a statement about all interleavings. */
module Runs {

  datatype System<!S> = System(init: S -> bool, next: (S, S) -> bool)

  ghost predicate IsRun<S(!new)>(m: System<S>, run: seq<S>) {
    && |run| > 0
    && m.init(run[0])
    && forall i :: 0 < i < |run| ==> m.next(run[i - 1], run[i])
  }

  ghost predicate Reachable<S(!new)>(m: System<S>, s: S) {
    exists run :: IsRun(m, run) && run[|run| - 1] == s
  }

  /** No step leads out of s. */
  ghost predicate Stuck<S(!new)>(m: System<S>, s: S) {
    forall s' :: !m.next(s, s')
  }

  ghost predicate Inductive<S(!new)>(m: System<S>, inv: S -> bool) {
    && (forall s :: m.init(s) ==> inv(s))
    && (forall s, s' :: inv(s) && m.next(s, s') ==> inv(s'))
  }

  /** An inductive predicate holds in every state of every run. */
  lemma {:induction false} InvariantOnRun<S(!new)>(m: System<S>, inv: S -> bool, run: seq<S>, i: nat)
    requires Inductive(m, inv) && IsRun(m, run) && i < |run|
    ensures inv(run[i])
  {
    if i > 0 {
      InvariantOnRun(m, inv, run, i - 1);
      assert m.next(run[i - 1], run[i]);
    }
  }

  lemma Invariant<S(!new)>(m: System<S>, inv: S -> bool, s: S)
    requires Inductive(m, inv) && Reachable(m, s)
    ensures inv(s)
  {
    var run :| IsRun(m, run) && run[|run| - 1] == s;
    InvariantOnRun(m, inv, run, |run| - 1);
  }

  lemma ReachInit<S(!new)>(m: System<S>, s: S)
    requires m.init(s)
    ensures Reachable(m, s)
  {
    assert IsRun(m, [s]);
  }

  lemma ReachStep<S(!new)>(m: System<S>, s: S, s': S)
    requires Reachable(m, s) && m.next(s, s')
    ensures Reachable(m, s')
  {
    var run :| IsRun(m, run) && run[|run| - 1] == s;
    assert IsRun(m, run + [s']);
  }

  /** When every step from an invariant state lowers a rank, the rank of its first state bounds the
      number of steps of a run. */
  lemma {:induction false} RankBoundsRun<S(!new)>(m: System<S>, inv: S -> bool, rank: S -> nat, run: seq<S>)
    requires Inductive(m, inv) && IsRun(m, run)
    requires forall s, s' :: inv(s) && m.next(s, s') ==> rank(s') < rank(s)
    ensures rank(run[|run| - 1]) + |run| - 1 <= rank(run[0])
  {
    var n := |run| - 1;
    if n > 0 {
      var front := run[..n];
      assert IsRun(m, front);
      RankBoundsRun(m, inv, rank, front);
      InvariantOnRun(m, inv, run, n - 1);
      assert m.next(run[n - 1], run[n]);
    }
  }

  // Sums of a measure over all threads or processes

  function Total<T>(xs: seq<T>, f: T -> int): int {
    if xs == [] then 0 else f(xs[0]) + Total(xs[1..], f)
  }

  lemma {:induction false} TotalAppend<T>(xs: seq<T>, ys: seq<T>, f: T -> int)
    ensures Total(xs + ys, f) == Total(xs, f) + Total(ys, f)
  {
    if xs == [] {
      assert xs + ys == ys;
    } else {
      assert (xs + ys)[1..] == xs[1..] + ys;
      TotalAppend(xs[1..], ys, f);
    }
  }

  lemma TotalUpdate<T>(xs: seq<T>, i: nat, x: T, f: T -> int)
    requires i < |xs|
    ensures Total(xs[i := x], f) == Total(xs, f) - f(xs[i]) + f(x)
  {
    assert xs == xs[..i] + ([xs[i]] + xs[i + 1..]);
    assert xs[i := x] == xs[..i] + ([x] + xs[i + 1..]);
    TotalAppend(xs[..i], [xs[i]] + xs[i + 1..], f);
    TotalAppend(xs[..i], [x] + xs[i + 1..], f);
  }

  lemma {:induction false} TotalUniform<T>(xs: seq<T>, f: T -> int, c: int)
    requires forall i :: 0 <= i < |xs| ==> f(xs[i]) == c
    ensures Total(xs, f) == c * |xs|
  {
    if xs != [] {
      TotalUniform(xs[1..], f, c);
    }
  }

  lemma {:induction false} TotalBelow<T>(xs: seq<T>, f: T -> int, c: int)
    requires forall i :: 0 <= i < |xs| ==> f(xs[i]) <= c
    ensures Total(xs, f) <= c * |xs|
  {
    if xs != [] {
      TotalBelow(xs[1..], f, c);
    }
  }

  lemma {:induction false} TotalNonNegative<T>(xs: seq<T>, f: T -> int)
    requires forall i :: 0 <= i < |xs| ==> f(xs[i]) >= 0
    ensures Total(xs, f) >= 0
  {
    if xs != [] {
      TotalNonNegative(xs[1..], f);
    }
  }

  // Per-thread ranks: lowering one of them lowers their sum

  function Sum(ranks: seq<nat>): nat {
    if ranks == [] then 0 else ranks[0] + Sum(ranks[1..])
  }

  lemma {:induction false} SumLowered(ranks: seq<nat>, i: nat, low: nat)
    requires i < |ranks| && low < ranks[i]
    ensures Sum(ranks[i := low]) < Sum(ranks)
  {
    if i == 0 {
      assert ranks[0 := low][1..] == ranks[1..];
    } else {
      assert ranks[i := low][1..] == ranks[1..][i - 1 := low];
      SumLowered(ranks[1..], i - 1, low);
    }
  }

  lemma {:induction false} SumUniform(ranks: seq<nat>, c: nat)
    requires forall i :: 0 <= i < |ranks| ==> ranks[i] == c
    ensures Sum(ranks) == c * |ranks|
  {
    if ranks != [] {
      SumUniform(ranks[1..], c);
    }
  }
}
