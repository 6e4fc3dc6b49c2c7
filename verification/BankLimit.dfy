/** solutions_to_assgn/ch15/bankacc.c: exactly when the balance never drops below the credit limit, with and
without locking. */
module BankLimit {
  import opened Bank
  import opened BankRace
  import opened Runs

  ghost predicate KeepsLimit(c: Config) {
    forall s :: Reachable(Teller(c), s) ==> s.balance >= MIN_CREDIT
  }

  // The same threads with two steps to an operation: the credit test with the load, and the store

  /** Idle(k): about to begin operation k.  Holds(k, reg): its store still to come. */
  datatype Half = Idle(k: nat) | Holds(k: nat, reg: int)

  datatype Halves = Halves(balance: int, at: seq<Half>)

  function NextHalf(script: seq<Op>, h: Half, balance: int): Half
    requires h.k < |script|
  {
    if h.Idle? && Accepted(script[h.k], balance) then Holds(h.k, balance) else Idle(h.k + 1)
  }

  function NextBalance(script: seq<Op>, h: Half, balance: int): int
    requires h.k < |script|
  {
    if h.Holds? then h.reg + Change(script[h.k]) else balance
  }

  ghost predicate HalfStep(c: Config, t: nat, g: Halves, g': Halves) {
    && t < |g.at| == |c.scripts| && g.at[t].k < |c.scripts[t]|
    && g' == Halves(NextBalance(c.scripts[t], g.at[t], g.balance),
                    g.at[t := NextHalf(c.scripts[t], g.at[t], g.balance)])
  }

  ghost predicate AnyHalfStep(c: Config, g: Halves, g': Halves) {
    exists t: nat :: HalfStep(c, t, g, g')
  }

  ghost function ByHalves(c: Config): System<Halves> {
    System(g => g == Halves(c.opening, seq(|c.scripts|, _ => Idle(0))), (g, g') => AnyHalfStep(c, g, g'))
  }

  ghost predicate OtherHalfStep(c: Config, t: nat, g: Halves, g': Halves) {
    exists u: nat :: u != t && HalfStep(c, u, g, g')
  }

  /** What the other threads can do from g on while thread t stands still. */
  ghost function Others(c: Config, t: nat, g: Halves): System<Halves> {
    System(h => h == g, (h, h') => OtherHalfStep(c, t, h, h'))
  }

  /** In g thread t is about to begin a withdrawal that would be accepted, and the others lead on to h. */
  ghost predicate Overtakes(c: Config, t: nat, g: Halves, h: Halves) {
    && t < |g.at| == |c.scripts| && g.at[t].Idle? && g.at[t].k < |c.scripts[t]|
    && c.scripts[t][g.at[t].k].Withdraw? && Accepted(c.scripts[t][g.at[t].k], g.balance)
    && Reachable(Others(c, t, g), h)
  }

  /** A thread passes the credit test of a withdrawal, and the others lead on to a balance at which that
      withdrawal would be refused. */
  ghost predicate Overtaken(c: Config) {
    exists g, h, t: nat :: (
      && Reachable(ByHalves(c), g) && Overtakes(c, t, g, h)
      && !Accepted(c.scripts[t][g.at[t].k], h.balance))
  }

  lemma StandsStill(c: Config, t: nat, g: Halves, h: Halves)
    requires t < |g.at| && Reachable(Others(c, t, g), h)
    ensures |h.at| == |g.at| && h.at[t] == g.at[t]
  {
    var inv := (x: Halves) => |x.at| == |g.at| && x.at[t] == g.at[t];
    Invariant(Others(c, t, g), inv, h);
  }

  // Every run by halves is a schedule of the program

  function PcOf(h: Half): Pc {
    match h
    case Idle(k) => Run(k, Begin)
    case Holds(k, reg) => Run(k, Loaded(reg))
  }

  lemma LiftStep(c: Config, u: nat, g: Halves, g': Halves, s: State) returns (s': State)
    requires HalfStep(c, u, g, g') && Reachable(Teller(c), s) && |s.pcs| == |c.scripts|
    requires s.balance == g.balance && s.pcs[u] == PcOf(g.at[u])
    ensures Reachable(Teller(c), s')
    ensures s'.balance == g'.balance && s'.pcs == s.pcs[u := PcOf(g'.at[u])]
  {
    var h := g.at[u];
    var op := c.scripts[u][h.k];
    AcceptedByAll(u, Books(s.balance, s.log), op);
    if h.Holds? {
      s' := StoreBalance(c, u, h.k, h.reg, s);
    } else if Accepted(op, s.balance) {
      var p := PassTest(c, u, h.k, s);
      s' := LoadBalance(c, u, h.k, p);
    } else {
      s' := OneOp(c, u, h.k, s);
    }
  }

  /** s is g, with every thread at the same point; except that thread t may have passed its test. */
  ghost predicate Lifted(c: Config, g: Halves, s: State, t: nat) {
    && Reachable(Teller(c), s) && |s.pcs| == |c.scripts| == |g.at| && s.balance == g.balance
    && (forall i :: 0 <= i < |s.pcs| && i != t ==> s.pcs[i] == PcOf(g.at[i]))
    && (t < |s.pcs| ==> g.at[t].Idle? && s.pcs[t] == Run(g.at[t].k, Passed))
  }

  ghost predicate Liftable(c: Config, g: Halves, t: nat) {
    exists s :: Lifted(c, g, s, t)
  }

  lemma LiftNext(c: Config, u: nat, g: Halves, g': Halves, t: nat)
    requires Liftable(c, g, t) && HalfStep(c, u, g, g') && u != t
    ensures Liftable(c, g', t)
  {
    var s :| Lifted(c, g, s, t);
    var s' := LiftStep(c, u, g, g', s);
    assert Lifted(c, g', s', t);
  }

  lemma LiftRun(c: Config, g: Halves) returns (s: State)
    requires !c.locking && Reachable(ByHalves(c), g)
    ensures Lifted(c, g, s, |c.scripts|)
  {
    var n := |c.scripts|;
    var m, inv := ByHalves(c), g => Liftable(c, g, n);
    forall g | m.init(g) ensures inv(g) {
      var s0 := StartAll(c, n);
      assert Lifted(c, g, s0, n);
    }
    forall g, g' | inv(g) && m.next(g, g') ensures inv(g') {
      var u: nat :| HalfStep(c, u, g, g');
      LiftNext(c, u, g, g', n);
    }
    Invariant(m, inv, g);
    s :| Lifted(c, g, s, n);
  }

  lemma LiftOthers(c: Config, t: nat, g: Halves, h: Halves) returns (s: State)
    requires Liftable(c, g, t) && Reachable(Others(c, t, g), h)
    ensures Lifted(c, h, s, t)
  {
    var m, inv := Others(c, t, g), h => Liftable(c, h, t);
    forall h, h' | inv(h) && m.next(h, h') ensures inv(h') {
      var u: nat :| u != t && HalfStep(c, u, h, h');
      LiftNext(c, u, h, h', t);
    }
    Invariant(m, inv, h);
    s :| Lifted(c, h, s, t);
  }

  /** An overtaken withdrawal goes through below the limit: the thread passes its test, the others run, and
      the thread loads what they left. */
  lemma OvertakenBreaksLimit(c: Config)
    requires !c.locking && Overtaken(c)
    ensures !KeepsLimit(c)
  {
    var g, h, t: nat :| Reachable(ByHalves(c), g) && Overtakes(c, t, g, h)
      && !Accepted(c.scripts[t][g.at[t].k], h.balance);
    var k := g.at[t].k;
    var s := LiftRun(c, g);
    AcceptedByAll(t, Books(s.balance, s.log), c.scripts[t][k]);
    s := PassTest(c, t, k, s);
    assert Lifted(c, g, s, t);
    StandsStill(c, t, g, h);
    s := LiftOthers(c, t, g, h);
    s := LoadBalance(c, t, k, s);
    s := StoreBalance(c, t, k, s.balance, s);
  }

  // Without overtaking every schedule is a run by halves, and every store respects the limit

  function HalfOf(script: seq<Op>, pc: Pc): Half {
    match pc
    case Ready => Idle(0)
    case Run(k, at) =>
      if at.Loaded? then Holds(k, at.reg) else if at.Stored? || at.Tested? then Idle(k + 1) else Idle(k)
    case Finished => Idle(|script|)
  }

  ghost function View(c: Config, s: State): Halves
    requires |s.pcs| == |c.scripts|
  {
    Halves(s.balance, seq(|s.pcs|, t requires 0 <= t < |s.pcs| => HalfOf(c.scripts[t], s.pcs[t])))
  }

  predicate HasPassed(pc: Pc) { pc.Run? && pc.at.Passed? }

  /** The withdrawal whose test thread t has passed was accepted when it began, and the others led on from
      there. */
  ghost predicate Witnessed(c: Config, t: nat, h: Halves) {
    exists g :: Reachable(ByHalves(c), g) && Overtakes(c, t, g, h)
  }

  ghost predicate LimitInv(c: Config, s: State) {
    && |s.pcs| == |c.scripts| && s.balance >= MIN_CREDIT
    && Reachable(ByHalves(c), View(c, s))
    && (forall t :: 0 <= t < |s.pcs| ==> Storing(c.scripts[t], s.pcs[t]))
    && (forall t :: 0 <= t < |s.pcs| && HasLoaded(s.pcs[t]) ==>
          s.pcs[t].at.reg + Change(c.scripts[t][s.pcs[t].k]) >= MIN_CREDIT)
    && (forall t: nat :: t < |s.pcs| && HasPassed(s.pcs[t]) && c.scripts[t][s.pcs[t].k].Withdraw? ==>
          Witnessed(c, t, View(c, s)))
  }

  lemma StillAccepted(c: Config, t: nat, s: State)
    requires LimitInv(c, s) && !Overtaken(c) && t < |s.pcs| && HasPassed(s.pcs[t])
    ensures Accepted(c.scripts[t][s.pcs[t].k], s.balance)
  {
    if c.scripts[t][s.pcs[t].k].Withdraw? {
      var h := View(c, s);
      var g :| Reachable(ByHalves(c), g) && Overtakes(c, t, g, h);
      StandsStill(c, t, g, h);
    }
  }

  /** One step of the program is one step by halves or none. */
  lemma ViewMoves(c: Config, t: nat, s: State, s': State)
    requires Enabled(c, t, s) && s' == StepThread(c, t, s) && Storing(c.scripts[t], s.pcs[t])
    requires HasPassed(s.pcs[t]) ==> Accepted(c.scripts[t][s.pcs[t].k], s.balance)
    ensures |s'.pcs| == |c.scripts|
    ensures View(c, s') == View(c, s) || HalfStep(c, t, View(c, s), View(c, s'))
  {
    var script, pc, pc' := c.scripts[t], s.pcs[t], s'.pcs[t];
    assert s'.pcs == s.pcs[t := pc'];
    assert View(c, s').at == View(c, s).at[t := HalfOf(script, pc')];
    if pc.Run? && pc.k < |script| {
      AcceptedByAll(t, Books(s.balance, s.log), script[pc.k]);
    }
  }

  lemma WitnessKept(c: Config, t: nat, u: nat, h: Halves, h': Halves)
    requires Witnessed(c, u, h) && u != t && (h' == h || HalfStep(c, t, h, h'))
    ensures Witnessed(c, u, h')
  {
    var g :| Reachable(ByHalves(c), g) && Overtakes(c, u, g, h);
    if h' != h {
      ReachStep(Others(c, u, g), h, h');
    }
    assert Overtakes(c, u, g, h');
  }

  lemma NewWitness(c: Config, t: nat, s: State, s': State)
    requires LimitInv(c, s) && Enabled(c, t, s) && s' == StepThread(c, t, s)
    requires HasPassed(s'.pcs[t]) && c.scripts[t][s'.pcs[t].k].Withdraw?
    ensures Witnessed(c, t, View(c, s'))
  {
    var g := View(c, s);
    assert View(c, s') == g;
    ReachInit(Others(c, t, g), g);
    assert Overtakes(c, t, g, g);
  }

  /** The balance and the register of the thread that moved. */
  lemma OwnLimit(c: Config, t: nat, s: State, s': State)
    requires LimitInv(c, s) && !Overtaken(c) && Enabled(c, t, s) && s' == StepThread(c, t, s)
    ensures s'.balance >= MIN_CREDIT
    ensures HasLoaded(s'.pcs[t]) ==> (
      s'.pcs[t].k < |c.scripts[t]| && s'.pcs[t].at.reg + Change(c.scripts[t][s'.pcs[t].k]) >= MIN_CREDIT)
  {
    if HasPassed(s.pcs[t]) {
      StillAccepted(c, t, s);
    }
  }

  lemma LimitKept(c: Config, t: nat, s: State, s': State)
    requires LimitInv(c, s) && !Overtaken(c) && Enabled(c, t, s) && s' == StepThread(c, t, s)
    ensures LimitInv(c, s')
  {
    if HasPassed(s.pcs[t]) {
      StillAccepted(c, t, s);
    }
    StepMoves(c, t, s);
    ViewMoves(c, t, s, s');
    OwnLimit(c, t, s, s');
    var h, h' := View(c, s), View(c, s');
    if h' != h {
      ReachStep(ByHalves(c), h, h');
    }
    forall u: nat | u < |s'.pcs| && HasPassed(s'.pcs[u]) && c.scripts[u][s'.pcs[u].k].Withdraw?
      ensures Witnessed(c, u, h')
    {
      if u == t {
        NewWitness(c, t, s, s');
      } else {
        WitnessKept(c, t, u, h, h');
      }
    }
  }

  lemma LimitHolds(c: Config, s: State)
    requires !c.locking && !Overtaken(c) && c.opening >= MIN_CREDIT && Reachable(Teller(c), s)
    ensures LimitInv(c, s)
  {
    var m, inv := Teller(c), s => LimitInv(c, s);
    forall s | m.init(s) ensures inv(s) {
      var g := Halves(c.opening, seq(|c.scripts|, _ => Idle(0)));
      ReachInit(ByHalves(c), g);
      assert View(c, s) == g;
    }
    forall s, s' | inv(s) && m.next(s, s') ensures inv(s') {
      var t: nat :| Enabled(c, t, s) && s' == StepThread(c, t, s);
      LimitKept(c, t, s, s');
    }
    Invariant(m, inv, s);
  }

  /** For all threads, scripts and opening balances: the balance is at least the minimum credit in every
      schedule if and only if the opening balance is, and locking is on or no thread that begins an accepted
      withdrawal can be overtaken by the others until that withdrawal would be refused. */
  lemma KeepsLimitExactly(c: Config)
    ensures KeepsLimit(c) <==> c.opening >= MIN_CREDIT && (c.locking || !Overtaken(c))
  {
    if c.opening < MIN_CREDIT {
      ReachInit(Teller(c), State(c.opening, [], {}, seq(|c.scripts|, _ => Ready), []));
    } else if c.locking {
      forall s | Reachable(Teller(c), s) ensures s.balance >= MIN_CREDIT {
        BalanceConserved(c, s);
      }
    } else if Overtaken(c) {
      OvertakenBreaksLimit(c);
    } else {
      forall s | Reachable(Teller(c), s) ensures s.balance >= MIN_CREDIT {
        LimitHolds(c, s);
      }
    }
  }

  // Conditions that can be read off the scripts

  /** What a thread has taken out of the account so far, at most. */
  function Taken(d: Desk): int {
    var k := Touched(d.script, d.pc);
    if k <= |d.script| then SpentBy(d.script, k) else 0
  }

  /** Balance and registers are never lower than the opening balance less all that was taken out. */
  ghost predicate Floor(c: Config, s: State) {
    && |s.pcs| == |c.scripts|
    && (forall t :: 0 <= t < |s.pcs| ==> Storing(c.scripts[t], s.pcs[t]))
    && var least := c.opening - Total(Desks(c, s), Taken);
       && s.balance >= least
       && (forall t :: 0 <= t < |s.pcs| && HasLoaded(s.pcs[t]) ==> s.pcs[t].at.reg >= least)
  }

  lemma FloorKept(c: Config, t: nat, s: State, s': State)
    requires Floor(c, s) && Moved(c, t, s, s')
    ensures Floor(c, s')
  {
    var script := c.scripts[t];
    var desk := Desk(script, s'.pcs[t]);
    SpentGrows(script, Touched(script, s.pcs[t]), Touched(script, s'.pcs[t]));
    assert Desks(c, s') == Desks(c, s)[t := desk];
    TotalUpdate(Desks(c, s), t, desk, Taken);
  }

  lemma {:induction false} TakenTotal(ds: seq<Desk>, scripts: seq<seq<Op>>)
    requires |ds| == |scripts| && forall i :: 0 <= i < |ds| ==> ds[i].script == scripts[i]
    ensures Total(ds, Taken) <= Total(scripts, Spent)
  {
    if ds != [] {
      var script, k := scripts[0], Touched(scripts[0], ds[0].pc);
      SpentGrows(script, if k <= |script| then k else 0, |script|);
      TakenTotal(ds[1..], scripts[1..]);
    }
  }

  /** In every schedule, locked or not, the balance is at least the opening balance less all withdrawals;
      so funded scripts keep the credit limit even when updates are lost. */
  lemma NeverBelowAllWithdrawals(c: Config, s: State)
    requires Reachable(Teller(c), s)
    ensures s.balance >= c.opening - Total(c.scripts, Spent)
  {
    var m, inv := Teller(c), s => Floor(c, s);
    forall s | m.init(s) ensures inv(s) {
      TotalUniform(Desks(c, s), Taken, 0);
    }
    forall s, s' | inv(s) && m.next(s, s') ensures inv(s') {
      var t: nat :| Enabled(c, t, s) && s' == StepThread(c, t, s);
      StepMoves(c, t, s);
      FloorKept(c, t, s, s');
    }
    Invariant(m, inv, s);
    TakenTotal(Desks(c, s), c.scripts);
  }

  /** Without the lock, for any threads, scripts and opening balance: two withdrawals of different threads
      that each pass the credit test after the operations before them both go through, also when together
      they overdraw the account. */
  lemma UnlockedBreaksLimit(c: Config, t: nat, u: nat, j: nat, k: nat) returns (s: State)
    requires !c.locking && t != u && t < |c.scripts| && u < |c.scripts|
    requires j < |c.scripts[t]| && k < |c.scripts[u]| && c.scripts[t][j].Withdraw? && c.scripts[u][k].Withdraw?
    requires Accepts(t, Before(c, t, u, j, k), c.scripts[t][j])
    requires Accepts(u, Before(c, t, u, j, k), c.scripts[u][k])
    ensures Reachable(Teller(c), s) && Quiet(s)
    ensures s.balance == Before(c, t, u, j, k).balance - c.scripts[t][j].amt - c.scripts[u][k].amt
  {
    s := BeforeReached(c, t, u, j, k);
    s := PassTest(c, t, j, s);
    s := PassTest(c, u, k, s);
    s := LoadBalance(c, t, j, s);
    s := StoreBalance(c, t, j, s.balance, s);
    s := LoadBalance(c, u, k, s);
    s := StoreBalance(c, u, k, s.balance, s);
  }

  /** Each thread makes one withdrawal that the opening balance allows on its own. */
  predicate OneEach(c: Config) {
    forall t :: 0 <= t < |c.scripts| ==> (
      |c.scripts[t]| == 1 && c.scripts[t][0].Withdraw? && 0 <= c.scripts[t][0].amt <= c.opening - MIN_CREDIT)
  }

  /** n threads have passed the credit test, the others not started. */
  lemma {:induction false} AllPass(c: Config, n: nat) returns (s: State)
    requires !c.locking && OneEach(c) && n <= |c.scripts|
    ensures Reachable(Teller(c), s)
    ensures s == State(c.opening, [], {}, seq(|c.scripts|, i => if i < n then Run(0, Passed) else Ready), [])
  {
    if n == 0 {
      s := State(c.opening, [], {}, seq(|c.scripts|, _ => Ready), []);
      ReachInit(Teller(c), s);
    } else {
      s := AllPass(c, n - 1);
      s := Advance(c, n - 1, s);
      s := PassTest(c, n - 1, 0, s);
    }
  }

  /** Then n of them have made their withdrawal. */
  lemma {:induction false} AllTakeOut(c: Config, n: nat) returns (s: State)
    requires !c.locking && OneEach(c) && n <= |c.scripts|
    ensures Reachable(Teller(c), s) && s.balance == c.opening - Total(c.scripts[..n], Spent)
    ensures s.pcs == seq(|c.scripts|, i => if i < n then Run(1, Begin) else Run(0, Passed))
  {
    if n == 0 {
      s := AllPass(c, |c.scripts|);
      assert s.pcs == seq(|c.scripts|, i => if i < n then Run(1, Begin) else Run(0, Passed));
    } else {
      s := AllTakeOut(c, n - 1);
      s := LoadBalance(c, n - 1, 0, s);
      s := StoreBalance(c, n - 1, 0, s.balance, s);
      TotalNext(c.scripts, n - 1);
      assert SpentBy(c.scripts[n - 1], 0) == 0;
    }
  }

  lemma TotalNext(scripts: seq<seq<Op>>, k: nat)
    requires k < |scripts|
    ensures Total(scripts[..k + 1], Spent) == Total(scripts[..k], Spent) + Spent(scripts[k])
  {
    assert scripts[..k + 1] == scripts[..k] + [scripts[k]];
    TotalAppend(scripts[..k], [scripts[k]], Spent);
  }

  /** A class of scripts for which the condition is a sum: when each of any number of threads makes one
      withdrawal it could make alone, the limit holds in every schedule if and only if locking is on or all
      the withdrawals together respect it. */
  lemma OneEachKeepsLimit(c: Config)
    requires OneEach(c) && c.opening >= MIN_CREDIT
    ensures KeepsLimit(c) <==> c.locking || c.opening - Total(c.scripts, Spent) >= MIN_CREDIT
  {
    forall s | Reachable(Teller(c), s)
      ensures s.balance >= c.opening - Total(c.scripts, Spent) && (c.locking ==> s.balance >= MIN_CREDIT)
    {
      NeverBelowAllWithdrawals(c, s);
      if c.locking {
        BalanceConserved(c, s);
      }
    }
    if !c.locking {
      var s := AllTakeOut(c, |c.scripts|);
      assert c.scripts[..|c.scripts|] == c.scripts;
    }
  }

  /** An instance: bankacc.c's own scripts never drop below 2750, so keep the limit even without the lock. */
  lemma OwnScriptsKeepLimit(locking: bool, s: State)
    requires Reachable(Teller(Config(locking, 12000, OWN_SCRIPTS)), s)
    ensures s.balance >= 2750 >= MIN_CREDIT
  {
    var c := Config(locking, 12000, OWN_SCRIPTS);
    NeverBelowAllWithdrawals(c, s);
    var a, b := OWN_SCRIPTS[0], OWN_SCRIPTS[1];
    assert SpentBy(a, 1) == 0 && Spent(a) == 250;
    assert SpentBy(b, 1) == 9000 && Spent(b) == 9000;
    assert OWN_SCRIPTS == [a] + [b];
    TotalAppend([a], [b], Spent);
    assert Total([a], Spent) == 250 && Total([b], Spent) == 9000;
  }
}
