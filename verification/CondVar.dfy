/** ch15/cv_simple.c: thread A waits on a condition variable until thread B has done its work.

Waiting follows pthread_cond_wait of POSIX.1-2017 (System Interfaces): the mutex is released and the
thread blocked in one step, a wakeup may be spurious, and the mutex is taken again before the call
returns.  A signal with no waiter has no effect. */
module CondVar {
  import opened Runs

  datatype Owner = Free | HeldByA | HeldByB

  /** AWait: holds the mutex, about to call pthread_cond_wait.  ABlocked: asleep in it.
      AWoken: must take the mutex again.  ACheck: back from the call, about to test gWorkDone.
      ALeft: broke out of the loop, still holding the mutex. */
  datatype PcA = AStart | AWait | ABlocked | AWoken | ACheck | ALeft | AFinished

  datatype PcB = BWork | BLocked | BSet | BSignalled | BFinished

  /** aFirst, delivered and spurious record the history: A took the mutex before B did, the signal
      found A asleep, and the number of spurious wakeups so far. */
  datatype State = State(
    mutex: Owner, done: bool, a: PcA, b: PcB,
    aFirst: bool, delivered: bool, spurious: nat)

  ghost predicate Init(s: State) {
    s == State(Free, false, AStart, BWork, false, false, 0)
  }

  ghost predicate StepA(s: State, s': State) {
    match s.a
    case AStart =>
      s.mutex.Free? && s' == s.(mutex := HeldByA, a := AWait, aFirst := s.b.BWork?)
    case AWait =>
      s' == s.(mutex := Free, a := ABlocked)
    case ABlocked => false
    case AWoken =>
      s.mutex.Free? && s' == s.(mutex := HeldByA, a := ACheck)
    case ACheck =>
      s' == s.(a := if s.done then ALeft else AWait)
    case ALeft =>
      s' == s.(mutex := Free, a := AFinished)
    case AFinished => false
  }

  ghost predicate StepB(s: State, s': State) {
    match s.b
    case BWork => s.mutex.Free? && s' == s.(mutex := HeldByB, b := BLocked)
    case BLocked => s' == s.(done := true, b := BSet)
    case BSet =>
      s' == s.(b := BSignalled,
               a := if s.a.ABlocked? then AWoken else s.a,
               delivered := s.a.ABlocked?)
    case BSignalled => s' == s.(mutex := Free, b := BFinished)
    case BFinished => false
  }

  ghost predicate SpuriousWakeup(s: State, s': State) {
    s.a.ABlocked? && s' == s.(a := AWoken, spurious := s.spurious + 1)
  }

  /** The program's own steps, without the spurious wakeups the system may add. */
  ghost predicate OwnStep(s: State, s': State) {
    StepA(s, s') || StepB(s, s')
  }

  ghost function Handshake(): System<State> {
    System(s => Init(s), (s, s') => OwnStep(s, s') || SpuriousWakeup(s, s'))
  }

  ghost predicate Final(s: State) {
    s.a.AFinished? && s.b.BFinished?
  }

  ghost predicate Inv(s: State) {
    // the mutex excludes
    && (s.mutex == HeldByA <==> s.a in {AWait, ACheck, ALeft})
    && (s.mutex == HeldByB <==> s.b in {BLocked, BSet, BSignalled})
    && (s.done <==> s.b in {BSet, BSignalled, BFinished})
    && (s.delivered ==> s.b in {BSignalled, BFinished})
    // A leaves the loop only on the predicate, and returns from a wait only when woken
    && (s.a in {ALeft, AFinished} ==> s.done)
    && (s.a in {AStart, AWait, ABlocked} || s.spurious > 0 || s.delivered)
    && (s.aFirst ==> !s.a.AStart?)
    && (s.a.AStart? ==> !s.aFirst && !s.delivered && s.spurious == 0)
    // once B has signalled, A is past its wait if it came first
    && (s.aFirst && s.b in {BSignalled, BFinished} ==> s.a in {AWoken, ACheck, ALeft, AFinished})
    && (s.aFirst && s.done ==> !s.a.AWait?)
    // if A came second the signal found no waiter
    && (!s.aFirst && !s.a.AStart? ==> s.b.BFinished?)
    && (!s.aFirst ==> !s.delivered)
  }

  lemma InvKeptByA(s: State, s': State)
    requires Inv(s) && StepA(s, s')
    ensures Inv(s')
  {
  }

  lemma InvKeptByB(s: State, s': State)
    requires Inv(s) && StepB(s, s')
    ensures Inv(s')
  {
  }

  lemma InvHolds(s: State)
    requires Reachable(Handshake(), s)
    ensures Inv(s)
  {
    var m, inv := Handshake(), s => Inv(s);
    forall s, s' | inv(s) && m.next(s, s') ensures inv(s') {
      if StepA(s, s') {
        InvKeptByA(s, s');
      } else if StepB(s, s') {
        InvKeptByB(s, s');
      }
    }
    Invariant(m, inv, s);
  }

  /** In every run, whatever the number of spurious wakeups, A is out of its loop only after B set
      gWorkDone while holding the mutex; and never do both threads hold the mutex. */
  lemma LeavesOnlyWhenDone(s: State)
    requires Reachable(Handshake(), s)
    ensures s.a in {ALeft, AFinished} ==> s.done && s.b in {BSet, BSignalled, BFinished}
    ensures s.b in {BLocked, BSet, BSignalled} ==> s.a !in {AWait, ACheck, ALeft}
    ensures s.done ==> s.b !in {BWork, BLocked}
  {
    InvHolds(s);
  }

  /** The state the wait-before-test order can fall into: B is through, A asleep. */
  ghost predicate LostWakeup(s: State) {
    s.a.ABlocked? && s.b.BFinished?
  }

  /** A reachable state has no step of the program left exactly when it is final or B's signal was
      lost; and the signal is lost only in runs where B took the mutex first. */
  lemma DeadlockExactly(s: State)
    requires Reachable(Handshake(), s)
    ensures (forall s' :: !OwnStep(s, s')) <==> Final(s) || LostWakeup(s)
    ensures s.aFirst ==> !LostWakeup(s)
  {
    InvHolds(s);
    var byA :=
      match s.a
      case AStart => s.(mutex := HeldByA, a := AWait, aFirst := s.b.BWork?)
      case AWait => s.(mutex := Free, a := ABlocked)
      case AWoken => s.(mutex := HeldByA, a := ACheck)
      case ACheck => s.(a := if s.done then ALeft else AWait)
      case _ => s.(mutex := Free, a := AFinished);
    var byB :=
      match s.b
      case BWork => s.(mutex := HeldByB, b := BLocked)
      case BLocked => s.(done := true, b := BSet)
      case BSet => s.(b := BSignalled, a := if s.a.ABlocked? then AWoken else s.a, delivered := s.a.ABlocked?)
      case _ => s.(mutex := Free, b := BFinished);
    if !Final(s) && !LostWakeup(s) {
      assert OwnStep(s, byA) || OwnStep(s, byB);
    }
  }

  /** If B came first, its signal is never delivered, so A leaves only after a spurious wakeup. */
  lemma SignalFirstNeedsSpurious(s: State)
    requires Reachable(Handshake(), s) && !s.aFirst
    ensures s.a in {ALeft, AFinished} ==> s.spurious > 0
    ensures s.a.ABlocked? ==> LostWakeup(s)
  {
    InvHolds(s);
  }

  /** The lost wakeup does happen: B runs to its end before A starts. */
  lemma LostWakeupReachable()
    ensures exists s :: Reachable(Handshake(), s) && LostWakeup(s)
  {
    var s0 := State(Free, false, AStart, BWork, false, false, 0);
    var s1 := s0.(mutex := HeldByB, b := BLocked);
    var s2 := s1.(done := true, b := BSet);
    var s3 := s2.(b := BSignalled);
    var s4 := s3.(mutex := Free, b := BFinished);
    var s5 := s4.(mutex := HeldByA, a := AWait);
    var s6 := s5.(mutex := Free, a := ABlocked);
    var m := Handshake();
    ReachInit(m, s0);
    ReachStep(m, s0, s1);
    ReachStep(m, s1, s2);
    ReachStep(m, s2, s3);
    ReachStep(m, s3, s4);
    ReachStep(m, s4, s5);
    ReachStep(m, s5, s6);
  }

  /** The handshake can end as intended: A first, B's signal delivered, no spurious wakeup. */
  lemma HandshakeCompletes()
    ensures exists s :: Reachable(Handshake(), s) && Final(s) && s.aFirst && s.delivered && s.spurious == 0
  {
    var s0 := State(Free, false, AStart, BWork, false, false, 0);
    var s1 := s0.(mutex := HeldByA, a := AWait, aFirst := true);
    var s2 := s1.(mutex := Free, a := ABlocked);
    var s3 := s2.(mutex := HeldByB, b := BLocked);
    var s4 := s3.(done := true, b := BSet);
    var s5 := s4.(b := BSignalled, a := AWoken, delivered := true);
    var s6 := s5.(mutex := Free, b := BFinished);
    var s7 := s6.(mutex := HeldByA, a := ACheck);
    var s8 := s7.(a := ALeft);
    var s9 := s8.(mutex := Free, a := AFinished);
    var m := Handshake();
    ReachInit(m, s0);
    ReachStep(m, s0, s1);
    ReachStep(m, s1, s2);
    ReachStep(m, s2, s3);
    ReachStep(m, s3, s4);
    ReachStep(m, s4, s5);
    ReachStep(m, s5, s6);
    ReachStep(m, s6, s7);
    ReachStep(m, s7, s8);
    ReachStep(m, s8, s9);
  }

  /** After a lost wakeup a spurious one can still end it. */
  lemma SpuriousWakeupEnds(s: State)
    requires Reachable(Handshake(), s) && LostWakeup(s)
    ensures exists e :: Reachable(Handshake(), e) && Final(e) && e.spurious == s.spurious + 1
  {
    InvHolds(s);
    var m := Handshake();
    var s1 := s.(a := AWoken, spurious := s.spurious + 1);
    var s2 := s1.(mutex := HeldByA, a := ACheck);
    var s3 := s2.(a := ALeft);
    var s4 := s3.(mutex := Free, a := AFinished);
    ReachStep(m, s, s1);
    ReachStep(m, s1, s2);
    ReachStep(m, s2, s3);
    ReachStep(m, s3, s4);
  }

  // Progress

  function Rank(s: State): nat {
    (match s.b case BWork => 40 case BLocked => 30 case BSet => 20 case BSignalled => 10 case BFinished => 0)
    + (match s.a case AStart => 7 case AWait => 6 case ABlocked => 5 case AWoken => 8 case ACheck => 7
                 case ALeft => 1 case AFinished => 0)
  }

  lemma OwnStepLowers(s: State, s': State)
    requires Inv(s) && OwnStep(s, s')
    ensures Rank(s') < Rank(s) && s'.spurious == s.spurious
  {
  }

  /** A run with k spurious wakeups has at most 47 + 4 * k steps.  So every schedule with finitely many of
      them stops, by DeadlockExactly in the final state if A came first. */
  lemma {:induction false} RunsEnd(run: seq<State>)
    requires IsRun(Handshake(), run)
    ensures |run| - 1 + Rank(run[|run| - 1]) <= 47 + 4 * run[|run| - 1].spurious
  {
    var k := |run| - 1;
    if k > 0 {
      var front := run[..k];
      assert IsRun(Handshake(), front);
      RunsEnd(front);
      assert Reachable(Handshake(), run[k - 1]);
      InvHolds(run[k - 1]);
      assert Handshake().next(run[k - 1], run[k]);
      if OwnStep(run[k - 1], run[k]) {
        OwnStepLowers(run[k - 1], run[k]);
      }
    }
  }
}
