/** solutions_to_assgn/ch10/smallbomb.c: n fork-and-print steps, run by a growing set of processes. */
module ForkTree {
  import opened Runs

  /** AtFork(r): r macro steps are left; with r == 0 the process sits in pause().
      AtPrint(r): forked, not yet printed, r macro steps left after the print. */
  datatype Proc = AtFork(left: nat) | AtPrint(left: nat)

  datatype State = State(procs: seq<Proc>, lines: nat)

  ghost predicate Init(n: nat, s: State) {
    s == State([AtFork(n)], 0)
  }

  ghost predicate ForkStep(i: nat, s: State, s': State) {
    && i < |s.procs| && s.procs[i].AtFork? && s.procs[i].left > 0
    && var p := AtPrint(s.procs[i].left - 1);
       s' == s.(procs := s.procs[i := p] + [p])
  }

  ghost predicate PrintStep(i: nat, s: State, s': State) {
    && i < |s.procs| && s.procs[i].AtPrint?
    && s' == State(s.procs[i := AtFork(s.procs[i].left)], s.lines + 1)
  }

  ghost predicate Next(s: State, s': State) {
    exists i: nat :: ForkStep(i, s, s') || PrintStep(i, s, s')
  }

  ghost function Bomb(n: nat): System<State> {
    System(s => Init(n, s), (s, s') => Next(s, s'))
  }

  ghost predicate Complete(s: State) {
    forall i :: 0 <= i < |s.procs| ==> s.procs[i] == AtFork(0)
  }

  function Pow2(k: nat): nat {
    if k == 0 then 1 else 2 * Pow2(k - 1)
  }

  // What one process still contributes, counting all its descendants to come

  function Leaves(p: Proc): int { Pow2(p.left) }

  function LinesDue(p: Proc): int {
    2 * Pow2(p.left) - if p.AtFork? then 2 else 1
  }

  function StepsDue(p: Proc): int {
    3 * Pow2(p.left) - if p.AtFork? then 3 else 2
  }

  ghost predicate Balanced(n: nat, s: State) {
    && Total(s.procs, Leaves) == Pow2(n)
    && s.lines + Total(s.procs, LinesDue) == Pow2(n + 1) - 2
  }

  /** One step of any process keeps the weight of the tree and the lines to come, and uses up
      exactly one unit of the work due. */
  lemma StepBalance(s: State, s': State)
    requires Next(s, s')
    ensures Total(s'.procs, Leaves) == Total(s.procs, Leaves)
    ensures s'.lines + Total(s'.procs, LinesDue) == s.lines + Total(s.procs, LinesDue)
    ensures Total(s'.procs, StepsDue) == Total(s.procs, StepsDue) - 1
  {
    var i: nat :| ForkStep(i, s, s') || PrintStep(i, s, s');
    if ForkStep(i, s, s') {
      var p := AtPrint(s.procs[i].left - 1);
      StepTotals(s.procs, i, p, [p], Leaves);
      StepTotals(s.procs, i, p, [p], LinesDue);
      StepTotals(s.procs, i, p, [p], StepsDue);
    } else {
      var p := AtFork(s.procs[i].left);
      TotalUpdate(s.procs, i, p, Leaves);
      TotalUpdate(s.procs, i, p, LinesDue);
      TotalUpdate(s.procs, i, p, StepsDue);
    }
  }

  lemma StepTotals(procs: seq<Proc>, i: nat, p: Proc, born: seq<Proc>, f: Proc -> int)
    requires i < |procs| && |born| == 1
    ensures Total(procs[i := p] + born, f) == Total(procs, f) - f(procs[i]) + f(p) + f(born[0])
  {
    TotalAppend(procs[i := p], born, f);
    TotalUpdate(procs, i, p, f);
  }

  /** In every reachable state the sum over live processes of 2^(forks left) is 2^n. */
  lemma WeightConserved(n: nat, s: State)
    requires Reachable(Bomb(n), s)
    ensures Balanced(n, s)
  {
    var m, inv := Bomb(n), s => Balanced(n, s);
    forall s | m.init(s) ensures inv(s) {
      InitialTotals(n);
    }
    forall s, s' | inv(s) && m.next(s, s') ensures inv(s') {
      StepBalance(s, s');
    }
    Invariant(m, inv, s);
  }

  lemma InitialTotals(n: nat)
    ensures Balanced(n, State([AtFork(n)], 0))
    ensures Total([AtFork(n)], StepsDue) == 3 * Pow2(n) - 3
  {
    TotalUniform([AtFork(n)], Leaves, Pow2(n));
    TotalUniform([AtFork(n)], LinesDue, LinesDue(AtFork(n)));
    TotalUniform([AtFork(n)], StepsDue, StepsDue(AtFork(n)));
  }

  /** After k steps exactly 3 * 2^n - 3 - k steps are due. */
  lemma {:induction false} StepsOnRun(n: nat, run: seq<State>)
    requires IsRun(Bomb(n), run)
    ensures |run| - 1 + Total(run[|run| - 1].procs, StepsDue) == 3 * Pow2(n) - 3
  {
    var k := |run| - 1;
    if k == 0 {
      InitialTotals(n);
    } else {
      var front := run[..k];
      assert IsRun(Bomb(n), front);
      StepsOnRun(n, front);
      assert Bomb(n).next(run[k - 1], run[k]);
      StepBalance(run[k - 1], run[k]);
    }
  }

  /** Every complete run ends with 2^n processes and 2^(n+1) - 2 printed lines, after exactly
      2^n - 1 forks and that many prints. */
  lemma CompleteRun(n: nat, run: seq<State>)
    requires IsRun(Bomb(n), run) && Complete(run[|run| - 1])
    ensures var s := run[|run| - 1];
      && |s.procs| == Pow2(n)
      && s.lines == Pow2(n + 1) - 2
      && |run| - 1 == Pow2(n) - 1 + s.lines
  {
    var s := run[|run| - 1];
    assert Reachable(Bomb(n), s);
    WeightConserved(n, s);
    StepsOnRun(n, run);
    TotalUniform(s.procs, Leaves, 1);
    TotalUniform(s.procs, LinesDue, 0);
    TotalUniform(s.procs, StepsDue, 0);
  }

  /** A run can only stop in a complete state, and no run is longer than 3 * 2^n - 3 steps: every
      schedule that keeps going completes. */
  lemma RunsComplete(n: nat, run: seq<State>)
    requires IsRun(Bomb(n), run)
    ensures Stuck(Bomb(n), run[|run| - 1]) <==> Complete(run[|run| - 1])
    ensures |run| - 1 <= 3 * Pow2(n) - 3
  {
    var s := run[|run| - 1];
    StepsOnRun(n, run);
    forall i | 0 <= i < |s.procs| ensures StepsDue(s.procs[i]) >= 0 {
      Pow2Positive(s.procs[i].left);
    }
    TotalNonNegative(s.procs, StepsDue);
    StuckWhenComplete(n, s);
  }

  lemma StuckWhenComplete(n: nat, s: State)
    ensures Stuck(Bomb(n), s) <==> Complete(s)
  {
    if !Complete(s) {
      var i :| 0 <= i < |s.procs| && s.procs[i] != AtFork(0);
      var p := if s.procs[i].AtFork? then AtPrint(s.procs[i].left - 1) else AtFork(s.procs[i].left);
      var s' := if s.procs[i].AtFork? then s.(procs := s.procs[i := p] + [p])
                else State(s.procs[i := p], s.lines + 1);
      assert ForkStep(i, s, s') || PrintStep(i, s, s');
      assert Bomb(n).next(s, s');
    }
  }

  lemma {:induction false} Pow2Positive(k: nat)
    ensures Pow2(k) >= 1
  {
    if k > 0 {
      Pow2Positive(k - 1);
    }
  }

  /** smallbomb.c has three macro calls: 8 processes and 14 lines. */
  lemma ThreeForks(run: seq<State>)
    requires IsRun(Bomb(3), run) && Complete(run[|run| - 1])
    ensures |run[|run| - 1].procs| == 8 && run[|run| - 1].lines == 14
  {
    CompleteRun(3, run);
  }
}
