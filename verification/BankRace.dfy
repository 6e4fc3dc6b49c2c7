/** solutions_to_assgn/ch15/bankacc.c with locking off: exactly when an update can be lost. */
module BankRace {
  import opened Bank
  import opened Runs

  // Single steps, operations and scripts of one thread while the others stand still

  lemma Advance(c: Config, t: nat, s: State) returns (s': State)
    requires Reachable(Teller(c), s) && Enabled(c, t, s)
    ensures Reachable(Teller(c), s') && s' == StepThread(c, t, s)
  {
    s' := StepThread(c, t, s);
    ReachStep(Teller(c), s, s');
  }

  ghost predicate AtOp(c: Config, t: nat, k: nat, at: Micro, s: State) {
    && Reachable(Teller(c), s) && t < |s.pcs| == |c.scripts| && k < |c.scripts[t]|
    && s.pcs[t] == Run(k, at)
  }

  lemma PassTest(c: Config, t: nat, k: nat, s: State) returns (s': State)
    requires AtOp(c, t, k, Begin, s) && Accepts(t, Books(s.balance, s.log), c.scripts[t][k])
    ensures AtOp(c, t, k, Passed, s') && s' == s.(pcs := s.pcs[t := Run(k, Passed)])
  {
    s' := Advance(c, t, s);
  }

  lemma LoadBalance(c: Config, t: nat, k: nat, s: State) returns (s': State)
    requires AtOp(c, t, k, Passed, s)
    ensures AtOp(c, t, k, Loaded(s.balance), s') && s' == s.(pcs := s.pcs[t := Run(k, Loaded(s.balance))])
  {
    s' := Advance(c, t, s);
  }

  function Report(who: nat, op: Op, balance: int): Entry {
    match op
    case Deposit(amt) => Deposited(who, amt, balance, balance >= HIGH_BALANCE)
    case Withdraw(amt) => Withdrawn(who, amt, balance)
  }

  /** From the loaded register to the report, whatever happened to the balance in between. */
  lemma StoreBalance(c: Config, t: nat, k: nat, reg: int, s: State) returns (s': State)
    requires AtOp(c, t, k, Loaded(reg), s)
    ensures Reachable(Teller(c), s')
    ensures var op, now := c.scripts[t][k], reg + Change(c.scripts[t][k]);
      s' == State(now, s.log + [Report(t, op, now)], s.holder, s.pcs[t := Run(k + 1, Begin)], s.order)
  {
    s' := Advance(c, t, s);
    s' := Advance(c, t, s');
    if c.scripts[t][k].Deposit? {
      s' := Advance(c, t, s');
    }
  }

  lemma OneOp(c: Config, t: nat, k: nat, s: State) returns (s': State)
    requires AtOp(c, t, k, Begin, s)
    ensures Reachable(Teller(c), s')
    ensures var b := Do(t, Books(s.balance, s.log), c.scripts[t][k]);
      s' == State(b.balance, b.log, s.holder, s.pcs[t := Run(k + 1, Begin)], s.order)
  {
    if Accepts(t, Books(s.balance, s.log), c.scripts[t][k]) {
      s' := PassTest(c, t, k, s);
      s' := LoadBalance(c, t, k, s');
      s' := StoreBalance(c, t, k, s.balance, s');
    } else {
      s' := Advance(c, t, s);
      assert s.log + [] == s.log;
    }
  }

  lemma {:induction false} SomeOps(c: Config, t: nat, j: nat, k: nat, s: State) returns (s': State)
    requires Reachable(Teller(c), s) && t < |s.pcs| == |c.scripts| && j <= k <= |c.scripts[t]|
    requires s.pcs[t] == Run(j, Begin)
    ensures Reachable(Teller(c), s')
    ensures var b := DoAll(t, Books(s.balance, s.log), c.scripts[t][j..k]);
      s' == State(b.balance, b.log, s.holder, s.pcs[t := Run(k, Begin)], s.order)
    decreases k
  {
    if j == k {
      s' := s;
    } else {
      s' := SomeOps(c, t, j, k - 1, s);
      s' := OneOp(c, t, k - 1, s');
      assert c.scripts[t][j..k][..k - 1 - j] == c.scripts[t][j..k - 1];
    }
  }

  // The lost update

  /** No thread is inside an operation. */
  ghost predicate Quiet(s: State) {
    forall t :: 0 <= t < |s.pcs| && s.pcs[t].Run? ==> s.pcs[t].at.Begin?
  }

  /** In every schedule, whenever no operation is under way, the reports explain the balance. */
  ghost predicate Conserves(c: Config) {
    forall s :: Reachable(Teller(c), s) && Quiet(s) ==> s.balance == c.opening + Net(s.log)
  }

  lemma NetReport(log: seq<Entry>, who: nat, op: Op, balance: int)
    ensures Net(log + [Report(who, op, balance)]) == Net(log) + Change(op)
  {
    assert (log + [Report(who, op, balance)])[..|log|] == log;
  }

  lemma {:induction false} SerialKeepsGap(who: nat, b: Books, ops: seq<Op>)
    ensures var b' := DoAll(who, b, ops); b'.balance - Net(b'.log) == b.balance - Net(b.log)
  {
    if ops != [] {
      var front := ops[..|ops| - 1];
      SerialKeepsGap(who, b, front);
      KeepsBooks(who, DoAll(who, b, front), ops[|ops| - 1]);
    }
  }

  /** From any state between operations all scripts can be run to their end, one after the other; what
      separates the balance from the reports stays as it is. */
  lemma {:induction false} FinishAll(c: Config, n: nat, s: State) returns (s': State)
    requires Reachable(Teller(c), s) && Quiet(s) && !c.locking && n <= |s.pcs| == |c.scripts|
    requires forall t :: 0 <= t < n ==> s.pcs[t].Finished?
    requires forall t :: 0 <= t < |s.pcs| && s.pcs[t].Run? ==> s.pcs[t].k <= |c.scripts[t]|
    ensures Reachable(Teller(c), s') && AllFinished(s')
    ensures s'.balance - Net(s'.log) == s.balance - Net(s.log)
    decreases |s.pcs| - n
  {
    if n == |s.pcs| {
      s' := s;
    } else if s.pcs[n].Finished? {
      s' := FinishAll(c, n + 1, s);
    } else {
      var at := s;
      if s.pcs[n].Ready? {
        at := Advance(c, n, s);
      }
      var k, size := at.pcs[n].k, |c.scripts[n]|;
      SerialKeepsGap(n, Books(at.balance, at.log), c.scripts[n][k..size]);
      s' := SomeOps(c, n, k, size, at);
      s' := Advance(c, n, s');
      s' := FinishAll(c, n + 1, s');
    }
  }

  /** The books after the first j operations of thread t and then the first k of thread u. */
  function Before(c: Config, t: nat, u: nat, j: nat, k: nat): Books
    requires t < |c.scripts| && u < |c.scripts| && j <= |c.scripts[t]| && k <= |c.scripts[u]|
  {
    DoAll(u, DoAll(t, Books(c.opening, []), c.scripts[t][..j]), c.scripts[u][..k])
  }

  lemma BeforeReached(c: Config, t: nat, u: nat, j: nat, k: nat) returns (s: State)
    requires !c.locking && t != u && t < |c.scripts| && u < |c.scripts|
    requires j <= |c.scripts[t]| && k <= |c.scripts[u]|
    ensures Reachable(Teller(c), s)
    ensures var b, ready := Before(c, t, u, j, k), seq(|c.scripts|, _ => Ready);
      s == State(b.balance, b.log, {}, ready[t := Run(j, Begin)][u := Run(k, Begin)], [])
  {
    s := State(c.opening, [], {}, seq(|c.scripts|, _ => Ready), []);
    ReachInit(Teller(c), s);
    s := Advance(c, t, s);
    assert c.scripts[t][0..j] == c.scripts[t][..j] && c.scripts[u][0..k] == c.scripts[u][..k];
    s := SomeOps(c, t, 0, j, s);
    s := Advance(c, u, s);
    s := SomeOps(c, u, 0, k, s);
  }

  lemma BothLoad(c: Config, t: nat, u: nat, j: nat, k: nat, s: State) returns (s': State)
    requires t != u && AtOp(c, t, j, Begin, s) && AtOp(c, u, k, Begin, s)
    requires Accepts(t, Books(s.balance, s.log), c.scripts[t][j])
    requires Accepts(u, Books(s.balance, s.log), c.scripts[u][k])
    ensures Reachable(Teller(c), s')
    ensures s' == s.(pcs := s.pcs[t := Run(j, Loaded(s.balance))][u := Run(k, Loaded(s.balance))])
  {
    var p := PassTest(c, t, j, s);
    var q := PassTest(c, u, k, p);
    var r := LoadBalance(c, t, j, q);
    s' := LoadBalance(c, u, k, r);
    assert s'.pcs == s.pcs[t := Run(j, Loaded(s.balance))][u := Run(k, Loaded(s.balance))];
  }

  /** Both load the same balance; the store of t then wipes out that of u. */
  lemma Overlap(c: Config, t: nat, u: nat, j: nat, k: nat, s: State) returns (s': State)
    requires t != u && AtOp(c, t, j, Begin, s) && AtOp(c, u, k, Begin, s)
    requires Accepts(t, Books(s.balance, s.log), c.scripts[t][j])
    requires Accepts(u, Books(s.balance, s.log), c.scripts[u][k])
    ensures Reachable(Teller(c), s')
    ensures s'.pcs == s.pcs[t := Run(j + 1, Begin)][u := Run(k + 1, Begin)]
    ensures s'.balance == s.balance + Change(c.scripts[t][j])
    ensures Net(s'.log) == Net(s.log) + Change(c.scripts[t][j]) + Change(c.scripts[u][k])
  {
    var both := BothLoad(c, t, u, j, k, s);
    var one := StoreBalance(c, u, k, s.balance, both);
    s' := StoreBalance(c, t, j, s.balance, one);
    NetReport(s.log, u, c.scripts[u][k], one.balance);
    NetReport(one.log, t, c.scripts[t][j], s'.balance);
    assert s'.pcs == s.pcs[t := Run(j + 1, Begin)][u := Run(k + 1, Begin)];
  }

  /** Without the lock, for any threads, scripts and opening balance: if two operations of different threads
      would both be accepted after the operations before them, a complete run loses the effect of the
      second one, although it is reported. */
  lemma UnlockedLosesUpdate(c: Config, t: nat, u: nat, j: nat, k: nat)
    requires !c.locking && t != u && t < |c.scripts| && u < |c.scripts|
    requires j < |c.scripts[t]| && k < |c.scripts[u]|
    requires Accepts(t, Before(c, t, u, j, k), c.scripts[t][j])
    requires Accepts(u, Before(c, t, u, j, k), c.scripts[u][k])
    ensures exists s :: (
      && Reachable(Teller(c), s) && AllFinished(s)
      && s.balance == c.opening + Net(s.log) - Change(c.scripts[u][k]))
  {
    var first := DoAll(t, Books(c.opening, []), c.scripts[t][..j]);
    SerialKeepsGap(t, Books(c.opening, []), c.scripts[t][..j]);
    SerialKeepsGap(u, first, c.scripts[u][..k]);
    var s := BeforeReached(c, t, u, j, k);
    s := Overlap(c, t, u, j, k, s);
    s := FinishAll(c, 0, s);
  }

  /** In particular two effective deposits anywhere in the scripts of two threads. */
  lemma TwoDepositsRace(c: Config, t: nat, u: nat, j: nat, k: nat)
    requires !c.locking && t != u && t < |c.scripts| && u < |c.scripts|
    requires j < |c.scripts[t]| && c.scripts[t][j].Deposit? && c.scripts[t][j].amt > 0
    requires k < |c.scripts[u]| && c.scripts[u][k].Deposit? && c.scripts[u][k].amt > 0
    ensures !Conserves(c)
  {
    UnlockedLosesUpdate(c, t, u, j, k);
  }

  // When is nothing lost?

  /** Accepted operations of this kind store the balance; a withdrawal of 0 stores it unchanged. */
  predicate Stores(op: Op) { op.Withdraw? || op.amt > 0 }

  predicate Changes(op: Op) { Stores(op) && op.amt != 0 }

  predicate AnyStore(script: seq<Op>) {
    exists k :: 0 <= k < |script| && Stores(script[k])
  }

  predicate AnyChange(script: seq<Op>) {
    exists k :: 0 <= k < |script| && Changes(script[k])
  }

  /** Some thread stores the balance while another one changes it. */
  predicate Race(c: Config) {
    exists t, u :: (
      && 0 <= t < |c.scripts| && 0 <= u < |c.scripts| && t != u
      && AnyStore(c.scripts[t]) && AnyChange(c.scripts[u]))
  }

  /** Inside an operation only when it stores. */
  ghost predicate Storing(script: seq<Op>, pc: Pc) {
    && (pc.Run? ==> pc.k <= |script|)
    && (pc.Run? && !pc.at.Begin? ==> pc.k < |script| && Stores(script[pc.k]))
  }

  predicate HasLoaded(pc: Pc) { pc.Run? && pc.at.Loaded? }

  /** Past the test of an operation, its store still to come. */
  predicate Inside(pc: Pc) { pc.Run? && (pc.at.Passed? || pc.at.Loaded?) }

  predicate Accepted(op: Op, balance: int) {
    Accepts(0, Books(balance, []), op)
  }

  /** The change a thread has stored but not yet reported. */
  function Pending(script: seq<Op>, pc: Pc): int {
    if pc.Run? && pc.k < |script| && (pc.at.Stored? || pc.at.Tested?) then Change(script[pc.k]) else 0
  }

  /** How many operations of the script may have changed the balance. */
  function Touched(script: seq<Op>, pc: Pc): nat {
    match pc
    case Ready => 0
    case Run(k, at) => if at.Stored? || at.Tested? then k + 1 else k
    case Finished => |script|
  }

  /** What every step of thread t does, as far as balance and reports are concerned. */
  ghost predicate Moved(c: Config, t: nat, s: State, s': State) {
    && t < |s.pcs| == |c.scripts|
    && var script, pc, pc' := c.scripts[t], s.pcs[t], if t < |s'.pcs| then s'.pcs[t] else Ready;
       && s'.pcs == s.pcs[t := pc'] && Storing(script, pc) && Storing(script, pc')
       && (HasLoaded(pc') ==> pc'.at.reg == s.balance == s'.balance)
       && Touched(script, pc) <= Touched(script, pc') <= |script|
       && (Inside(pc') ==> (Inside(pc) && pc'.k == pc.k) || Accepted(script[pc'.k], s.balance))
       && (if HasLoaded(pc) then
             && !Inside(pc') && s'.balance == pc.at.reg + Change(script[pc.k])
             && Net(s'.log) + Pending(script, pc') == Net(s.log) + Change(script[pc.k])
             && Touched(script, pc) == pc.k && Touched(script, pc') == pc.k + 1
           else
             && s'.balance == s.balance
             && Net(s'.log) + Pending(script, pc') == Net(s.log) + Pending(script, pc)
             && (Touched(script, pc') == Touched(script, pc)
                 || (Touched(script, pc') == Touched(script, pc) + 1
                     && !Accepted(script[Touched(script, pc)], s.balance))))
  }

  lemma NetEntry(log: seq<Entry>, entries: seq<Entry>)
    requires |entries| <= 1
    ensures Net(log + entries) == Net(log) + if entries == [] then 0 else match entries[0]
      case Deposited(_, amt, _, _) => amt
      case Withdrawn(_, amt, _) => -amt
      case Refused(_, _) => 0
  {
    if entries == [] {
      assert log + entries == log;
    } else {
      assert (log + entries)[..|log|] == log;
    }
  }

  lemma StepMoves(c: Config, t: nat, s: State)
    requires Enabled(c, t, s) && Storing(c.scripts[t], s.pcs[t])
    ensures Moved(c, t, s, StepThread(c, t, s))
  {
    var pc := s.pcs[t];
    if pc.Run? && pc.k < |c.scripts[t]| {
      var step := StepOp(t, c.scripts[t][pc.k], pc.at, s.balance);
      if step.Done? {
        NetEntry(s.log, step.entries);
      }
    }
  }

  // The same threads with whole operations as steps

  /** done: how many operations of each script have been carried out. */
  datatype Ops = Ops(balance: int, done: seq<nat>)

  function Apply(op: Op, balance: int): int {
    if Accepted(op, balance) then balance + Change(op) else balance
  }

  predicate HasNext(c: Config, o: Ops, t: nat) {
    t < |o.done| == |c.scripts| && o.done[t] < |c.scripts[t]|
  }

  function NextOp(c: Config, o: Ops, t: nat): Op
    requires HasNext(c, o, t)
  {
    c.scripts[t][o.done[t]]
  }

  ghost predicate OpStep(c: Config, t: nat, o: Ops, o': Ops) {
    HasNext(c, o, t) && o' == Ops(Apply(NextOp(c, o, t), o.balance), o.done[t := o.done[t] + 1])
  }

  ghost function ByOperation(c: Config): System<Ops> {
    System(o => o == Ops(c.opening, seq(|c.scripts|, _ => 0)), (o, o') => exists t: nat :: OpStep(c, t, o, o'))
  }

  /** Thread t and thread u are both about to begin an operation that would be accepted, and that of u changes
      the balance. */
  ghost predicate ContendedAt(c: Config, o: Ops, t: nat, u: nat) {
    && t != u && HasNext(c, o, t) && HasNext(c, o, u)
    && Accepted(NextOp(c, o, t), o.balance) && Accepted(NextOp(c, o, u), o.balance)
    && Change(NextOp(c, o, u)) != 0
  }

  /** Some order of whole operations leads to such a state. */
  ghost predicate Contended(c: Config) {
    exists o, t: nat, u: nat :: Reachable(ByOperation(c), o) && ContendedAt(c, o, t, u)
  }

  // Every order of whole operations is a schedule of the program

  lemma {:induction false} StartAll(c: Config, n: nat) returns (s: State)
    requires !c.locking && n <= |c.scripts|
    ensures Reachable(Teller(c), s)
    ensures s == State(c.opening, [], {}, seq(|c.scripts|, i => if i < n then Run(0, Begin) else Ready), [])
  {
    if n == 0 {
      s := State(c.opening, [], {}, seq(|c.scripts|, _ => Ready), []);
      ReachInit(Teller(c), s);
    } else {
      s := StartAll(c, n - 1);
      s := Advance(c, n - 1, s);
    }
  }

  ghost predicate Realizes(c: Config, o: Ops, s: State) {
    && Reachable(Teller(c), s) && |s.pcs| == |c.scripts| == |o.done|
    && (forall t :: 0 <= t < |s.pcs| ==> o.done[t] <= |c.scripts[t]| && s.pcs[t] == Run(o.done[t], Begin))
    && s.balance == o.balance == c.opening + Net(s.log)
  }

  ghost predicate Realizable(c: Config, o: Ops) {
    exists s :: Realizes(c, o, s)
  }

  lemma RealizeStep(c: Config, t: nat, o: Ops, o': Ops, s: State) returns (s': State)
    requires Realizes(c, o, s) && OpStep(c, t, o, o')
    ensures Realizes(c, o', s')
  {
    var op, b := NextOp(c, o, t), Books(s.balance, s.log);
    assert s.pcs[t] == Run(o.done[t], Begin);
    s' := OneOp(c, t, o.done[t], s);
    KeepsBooks(t, b, op);
    assert Do(t, b, op).balance == Apply(op, o.balance);
  }

  lemma Realized(c: Config, o: Ops) returns (s: State)
    requires !c.locking && Reachable(ByOperation(c), o)
    ensures Realizes(c, o, s)
  {
    var m, inv := ByOperation(c), o => Realizable(c, o);
    forall o | m.init(o) ensures inv(o) {
      var s0 := StartAll(c, |c.scripts|);
      assert Realizes(c, o, s0);
    }
    forall o, o' | inv(o) && m.next(o, o') ensures inv(o') {
      var t: nat :| OpStep(c, t, o, o');
      var s0 :| Realizes(c, o, s0);
      var s1 := RealizeStep(c, t, o, o', s0);
    }
    Invariant(m, inv, o);
    s :| Realizes(c, o, s);
  }

  /** Without the lock a contended program has a complete run that does not conserve. */
  lemma ContentionLosesUpdate(c: Config)
    requires !c.locking && Contended(c)
    ensures exists s :: Reachable(Teller(c), s) && AllFinished(s) && s.balance != c.opening + Net(s.log)
  {
    var o, t: nat, u: nat :| Reachable(ByOperation(c), o) && ContendedAt(c, o, t, u);
    var s := Realized(c, o);
    s := LosesAt(c, o, t, u, s);
  }

  lemma LosesAt(c: Config, o: Ops, t: nat, u: nat, s: State) returns (s': State)
    requires !c.locking && Realizes(c, o, s) && ContendedAt(c, o, t, u)
    ensures Reachable(Teller(c), s') && AllFinished(s')
    ensures s'.balance - c.opening - Net(s'.log) == -Change(NextOp(c, o, u))
  {
    var j, k := o.done[t], o.done[u];
    assert s.pcs[t] == Run(j, Begin) && s.pcs[u] == Run(k, Begin);
    AcceptedByAll(t, Books(s.balance, s.log), c.scripts[t][j]);
    AcceptedByAll(u, Books(s.balance, s.log), c.scripts[u][k]);
    var lost := Overlap(c, t, u, j, k, s);
    s' := FinishAll(c, 0, lost);
  }

  lemma AcceptedByAll(who: nat, b: Books, op: Op)
    ensures Accepts(who, b, op) == Accepted(op, b.balance)
  {
  }

  // Without contention every schedule is an order of whole operations

  datatype Desk = Desk(script: seq<Op>, pc: Pc)

  ghost function Desks(c: Config, s: State): seq<Desk>
    requires |s.pcs| == |c.scripts|
  {
    seq(|s.pcs|, t requires 0 <= t < |s.pcs| => Desk(c.scripts[t], s.pcs[t]))
  }

  function PendingAt(d: Desk): int { Pending(d.script, d.pc) }

  ghost function Abstract(c: Config, s: State): Ops
    requires |s.pcs| == |c.scripts|
  {
    Ops(s.balance, seq(|s.pcs|, t requires 0 <= t < |s.pcs| => Touched(c.scripts[t], s.pcs[t])))
  }

  /** Who is past the test would still pass it, and has loaded the balance as it is. */
  ghost predicate Current(script: seq<Op>, pc: Pc, balance: int)
    requires Storing(script, pc)
  {
    && (Inside(pc) ==> Accepted(script[pc.k], balance))
    && (HasLoaded(pc) ==> pc.at.reg == balance)
  }

  ghost predicate Orderly(c: Config, s: State) {
    && |s.pcs| == |c.scripts|
    && Reachable(ByOperation(c), Abstract(c, s))
    && (forall t :: 0 <= t < |s.pcs| ==> Storing(c.scripts[t], s.pcs[t]))
    && (forall t :: 0 <= t < |s.pcs| ==> Current(c.scripts[t], s.pcs[t], s.balance))
    && s.balance == c.opening + Net(s.log) + Total(Desks(c, s), PendingAt)
  }

  lemma AccountKept(c: Config, t: nat, s: State, s': State)
    requires Orderly(c, s) && Moved(c, t, s, s')
    ensures s'.balance == c.opening + Net(s'.log) + Total(Desks(c, s'), PendingAt)
  {
    var desk := Desk(c.scripts[t], s'.pcs[t]);
    assert Desks(c, s') == Desks(c, s)[t := desk];
    TotalUpdate(Desks(c, s), t, desk, PendingAt);
  }

  lemma AbstractStep(c: Config, t: nat, s: State, s': State)
    requires Orderly(c, s) && Moved(c, t, s, s')
    ensures Reachable(ByOperation(c), Abstract(c, s'))
  {
    var o, o' := Abstract(c, s), Abstract(c, s');
    var script, pc, pc' := c.scripts[t], s.pcs[t], s'.pcs[t];
    assert Current(script, pc, s.balance);
    assert o'.done == o.done[t := Touched(script, pc')];
    if Touched(script, pc') == Touched(script, pc) {
      assert o' == o;
    } else {
      assert OpStep(c, t, o, o');
      ReachStep(ByOperation(c), o, o');
    }
  }

  /** While one thread is past its test, an uncontended store of another leaves the balance alone. */
  lemma OthersCurrent(c: Config, t: nat, s: State, s': State, u: nat)
    requires Orderly(c, s) && Moved(c, t, s, s') && !Contended(c) && u < |s.pcs| && u != t
    ensures Storing(c.scripts[u], s'.pcs[u]) && Current(c.scripts[u], s'.pcs[u], s'.balance)
  {
    assert Current(c.scripts[u], s.pcs[u], s.balance) && Current(c.scripts[t], s.pcs[t], s.balance);
    if HasLoaded(s.pcs[t]) && Inside(s.pcs[u]) {
      assert !ContendedAt(c, Abstract(c, s), u, t);
    }
  }

  lemma OrderlyKept(c: Config, t: nat, s: State, s': State)
    requires Orderly(c, s) && Moved(c, t, s, s') && !Contended(c)
    ensures Orderly(c, s')
  {
    AccountKept(c, t, s, s');
    AbstractStep(c, t, s, s');
    assert Current(c.scripts[t], s.pcs[t], s.balance);
    forall u: nat | u < |s'.pcs|
      ensures Storing(c.scripts[u], s'.pcs[u]) && Current(c.scripts[u], s'.pcs[u], s'.balance)
    {
      if u != t {
        OthersCurrent(c, t, s, s', u);
      }
    }
  }

  lemma OrderlyInit(c: Config, s: State)
    requires Init(c, s)
    ensures Orderly(c, s)
  {
    TotalUniform(Desks(c, s), PendingAt, 0);
    var o := Ops(c.opening, seq(|c.scripts|, _ => 0));
    ReachInit(ByOperation(c), o);
    assert Abstract(c, s) == o;
  }

  lemma OrderlyHolds(c: Config, s: State)
    requires !c.locking && !Contended(c) && Reachable(Teller(c), s)
    ensures Orderly(c, s)
  {
    var m, inv := Teller(c), s => Orderly(c, s);
    forall s | m.init(s) ensures inv(s) {
      OrderlyInit(c, s);
    }
    forall s, s' | inv(s) && m.next(s, s') ensures inv(s') {
      var t: nat :| Enabled(c, t, s) && s' == StepThread(c, t, s);
      StepMoves(c, t, s);
      OrderlyKept(c, t, s, s');
    }
    Invariant(m, inv, s);
  }

  /** For all threads and scripts: the program conserves in every schedule if and only if locking is on or no
      order of whole operations leads to a state in which two threads are about to begin operations that would
      both be accepted, one of them changing the balance. */
  lemma ConservesExactly(c: Config)
    ensures Conserves(c) <==> c.locking || !Contended(c)
  {
    if c.locking {
      forall s | Reachable(Teller(c), s) && Quiet(s) ensures s.balance == c.opening + Net(s.log) {
        BalanceConserved(c, s);
        if s.holder != {} {
          var t :| t in s.holder;
        }
      }
    } else if Contended(c) {
      ContentionLosesUpdate(c);
    } else {
      forall s | Reachable(Teller(c), s) && Quiet(s) ensures s.balance == c.opening + Net(s.log) {
        OrderlyHolds(c, s);
        TotalUniform(Desks(c, s), PendingAt, 0);
      }
    }
  }

  /** In particular when no thread stores the balance while another one changes it. */
  lemma NoRaceConserves(c: Config)
    requires !Race(c)
    ensures Conserves(c)
  {
    if o, t: nat, u: nat :| Reachable(ByOperation(c), o) && ContendedAt(c, o, t, u) {
      assert Stores(NextOp(c, o, t)) && Changes(NextOp(c, o, u));
      assert AnyStore(c.scripts[t]) && AnyChange(c.scripts[u]);
    }
    ConservesExactly(c);
  }

  // Scripts no withdrawal of which can be refused

  /** What the withdrawals among the first k operations take out at most. */
  function SpentBy(ops: seq<Op>, k: nat): nat
    requires k <= |ops|
  {
    if k == 0 then 0
    else SpentBy(ops, k - 1) + if ops[k - 1].Withdraw? && ops[k - 1].amt > 0 then ops[k - 1].amt else 0
  }

  function Spent(ops: seq<Op>): int { SpentBy(ops, |ops|) }

  predicate OnlyDeposits(c: Config) {
    forall t, k :: 0 <= t < |c.scripts| && 0 <= k < |c.scripts[t]| ==> c.scripts[t][k].Deposit?
  }

  /** All withdrawals of all scripts together leave the minimum credit; or there are none. */
  predicate Funded(c: Config) {
    OnlyDeposits(c) || c.opening - Total(c.scripts, Spent) >= MIN_CREDIT
  }

  lemma {:induction false} SpentGrows(ops: seq<Op>, j: nat, k: nat)
    requires j <= k <= |ops|
    ensures SpentBy(ops, j) <= SpentBy(ops, k)
  {
    if j < k {
      SpentGrows(ops, j, k - 1);
    }
  }

  lemma {:induction false} BalanceAfter(who: nat, b: Books, ops: seq<Op>, k: nat)
    requires k <= |ops|
    ensures DoAll(who, b, ops[..k]).balance >= b.balance - SpentBy(ops, k)
  {
    if k > 0 {
      BalanceAfter(who, b, ops, k - 1);
      assert ops[..k][..k - 1] == ops[..k - 1];
    }
  }

  lemma TwoScripts(scripts: seq<seq<Op>>, t: nat, u: nat)
    requires t < |scripts| && u < |scripts| && t != u
    ensures Spent(scripts[t]) + Spent(scripts[u]) <= Total(scripts, Spent)
  {
    var one := scripts[t := []];
    var two := one[u := []];
    TotalUpdate(scripts, t, [], Spent);
    TotalUpdate(one, u, [], Spent);
    TotalNonNegative(two, Spent);
  }

  lemma FundedAccepts(c: Config, t: nat, u: nat, j: nat, k: nat)
    requires Funded(c) && t != u && t < |c.scripts| && u < |c.scripts|
    requires j < |c.scripts[t]| && k < |c.scripts[u]| && Stores(c.scripts[t][j]) && Stores(c.scripts[u][k])
    ensures Accepts(t, Before(c, t, u, j, k), c.scripts[t][j])
    ensures Accepts(u, Before(c, t, u, j, k), c.scripts[u][k])
  {
    var xs, ys := c.scripts[t], c.scripts[u];
    BalanceAfter(t, Books(c.opening, []), xs, j);
    BalanceAfter(u, DoAll(t, Books(c.opening, []), xs[..j]), ys, k);
    SpentGrows(xs, j + 1, |xs|);
    SpentGrows(ys, k + 1, |ys|);
    TwoScripts(c.scripts, t, u);
  }

  /** For funded scripts, deposits only among them, the condition can be read off the scripts: every schedule
      conserves if and only if locking is on or no thread stores the balance while another one changes it. */
  lemma FundedConserves(c: Config)
    requires Funded(c)
    ensures Conserves(c) <==> c.locking || !Race(c)
  {
    if c.locking {
      ConservesExactly(c);
    } else if !Race(c) {
      NoRaceConserves(c);
    } else {
      var t: nat, u: nat :| t < |c.scripts| && u < |c.scripts| && t != u
        && AnyStore(c.scripts[t]) && AnyChange(c.scripts[u]);
      var j: nat :| j < |c.scripts[t]| && Stores(c.scripts[t][j]);
      var k: nat :| k < |c.scripts[u]| && Changes(c.scripts[u][k]);
      FundedAccepts(c, t, u, j, k);
      UnlockedLosesUpdate(c, t, u, j, k);
    }
  }

  /** An instance: bankacc.c's own scripts without the lock.  A complete run keeps the 9000 that it reports as
      withdrawn. */
  lemma OwnScriptsCanFail()
    ensures var c := Config(false, 12000, OWN_SCRIPTS);
      && !Conserves(c)
      && exists s :: Reachable(Teller(c), s) && AllFinished(s) && s.balance == 12000 + Net(s.log) + 9000
  {
    var c := Config(false, 12000, OWN_SCRIPTS);
    assert c.scripts[0][..0] == [] && c.scripts[1][..0] == [];
    UnlockedLosesUpdate(c, 0, 1, 0, 0);
  }
}
