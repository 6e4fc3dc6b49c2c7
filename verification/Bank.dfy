/** solutions_to_assgn/ch15/bankacc.c: threads run scripts of deposits and withdrawals on one balance,
each script inside one critical section (or, with locking off, unprotected). */
module Bank {
  import opened Runs

  const MIN_CREDIT := 500
  const HIGH_BALANCE := 1000000

  datatype Op = Deposit(amt: int) | Withdraw(amt: int)

  /** What the program reports.  high: the high-balance circuit breaker message was printed. */
  datatype Entry =
    | Deposited(who: nat, amt: int, balance: int, high: bool)
    | Withdrawn(who: nat, amt: int, balance: int)
    | Refused(who: nat, amt: int)

  // The sequential meaning of an operation, a script and an order of scripts

  datatype Books = Books(balance: int, log: seq<Entry>)

  function Do(who: nat, b: Books, op: Op): Books {
    match op
    case Deposit(amt) =>
      if amt <= 0 then b
      else Books(b.balance + amt, b.log + [Deposited(who, amt, b.balance + amt, b.balance + amt >= HIGH_BALANCE)])
    case Withdraw(amt) =>
      if b.balance - amt < MIN_CREDIT then b.(log := b.log + [Refused(who, amt)])
      else Books(b.balance - amt, b.log + [Withdrawn(who, amt, b.balance - amt)])
  }

  function DoAll(who: nat, b: Books, ops: seq<Op>): Books {
    if ops == [] then b else Do(who, DoAll(who, b, ops[..|ops| - 1]), ops[|ops| - 1])
  }

  /** The scripts named by order, one whole script after the other. */
  function Serial(scripts: seq<seq<Op>>, order: seq<nat>, opening: int): Books
    requires forall i :: 0 <= i < |order| ==> order[i] < |scripts|
  {
    if order == [] then Books(opening, [])
    else
      var t := order[|order| - 1];
      DoAll(t, Serial(scripts, order[..|order| - 1], opening), scripts[t])
  }

  /** Deposits minus accepted withdrawals on record. */
  function Net(log: seq<Entry>): int {
    if log == [] then 0
    else Net(log[..|log| - 1]) + match log[|log| - 1]
      case Deposited(_, amt, _, _) => amt
      case Withdrawn(_, amt, _) => -amt
      case Refused(_, _) => 0
  }

  /** The global balance and the two functions that update it. */
  class Account {
    var gBalance: int
    ghost var log: seq<Entry>

    ghost function View(): Books reads this { Books(gBalance, log) }

    constructor (opening: int)
      ensures View() == Books(opening, [])
    {
      gBalance := opening;
      log := [];
    }

    /** An effective deposit adds its amount and one report, any other does nothing; either way the reports
        explain the balance as well as before, and the credit limit stays safe. */
    method Deposit(thrdnum: nat, amt: int)
      modifies this
      ensures View() == Do(thrdnum, old(View()), Op.Deposit(amt))
      ensures gBalance - old(gBalance) == Net(log) - Net(old(log)) == if amt > 0 then amt else 0
      ensures log == old(log) +
        if amt > 0 then [Deposited(thrdnum, amt, old(gBalance) + amt, old(gBalance) + amt >= 1000000)] else []
      ensures forall opening :: Sound(opening, old(View())) ==> Sound(opening, View())
    {
      KeepsBooks(thrdnum, View(), Op.Deposit(amt));
      if amt <= 0 {
        return;
      }
      gBalance := gBalance + amt;
      var high := gBalance >= HIGH_BALANCE;
      log := log + [Deposited(thrdnum, amt, gBalance, high)];
    }

    /** A withdrawal takes its amount out exactly if the minimum credit remains, and is reported either way;
        the reports explain the balance as well as before, and the credit limit stays safe. */
    method Withdraw(thrdnum: nat, amt: int)
      modifies this
      ensures View() == Do(thrdnum, old(View()), Op.Withdraw(amt))
      ensures gBalance - old(gBalance) == Net(log) - Net(old(log))
           == if old(gBalance) - amt >= 500 then -amt else 0
      ensures log == old(log) + [
        if old(gBalance) - amt >= 500 then Withdrawn(thrdnum, amt, old(gBalance) - amt) else Refused(thrdnum, amt)]
      ensures forall opening :: Sound(opening, old(View())) ==> Sound(opening, View())
    {
      KeepsBooks(thrdnum, View(), Op.Withdraw(amt));
      if gBalance - amt < MIN_CREDIT {
        log := log + [Refused(thrdnum, amt)];
        return;
      }
      gBalance := gBalance - amt;
      log := log + [Withdrawn(thrdnum, amt, gBalance)];
    }

    /** The cases of worker, between LOCK and UNLOCK. */
    method Worker(data: nat)
      modifies this
      ensures View() == DoAll(data, old(View()), if data < |OWN_SCRIPTS| then OWN_SCRIPTS[data] else [])
      ensures forall opening :: Sound(opening, old(View())) ==> Sound(opening, View())
      ensures data == 0 && old(gBalance) >= 500 ==> gBalance == old(gBalance) + 2750 && log == old(log) + [
        Deposited(0, 3000, old(gBalance) + 3000, old(gBalance) + 3000 >= 1000000),
        Withdrawn(0, 250, old(gBalance) + 2750)]
      ensures data == 1 && old(gBalance) >= 9500 ==> gBalance == old(gBalance) - 8000 && log == old(log) + [
        Withdrawn(1, 9000, old(gBalance) - 9000),
        Deposited(1, 1000, old(gBalance) - 8000, old(gBalance) - 8000 >= 1000000)]
      ensures data == 1 && old(gBalance) < 9500 ==> gBalance == old(gBalance) + 1000 && log == old(log) + [
        Refused(1, 9000),
        Deposited(1, 1000, old(gBalance) + 1000, old(gBalance) + 1000 >= 1000000)]
    {
      ghost var before := View();
      if data == 0 {
        Deposit(data, 3000);
        Withdraw(data, 250);
        DoTwo(data, before, Op.Deposit(3000), Op.Withdraw(250));
      } else if data == 1 {
        Withdraw(data, 9000);
        Deposit(data, 1000);
        DoTwo(data, before, Op.Withdraw(9000), Op.Deposit(1000));
      }
    }
  }

  /** The two scripts of the program. */
  const OWN_SCRIPTS: seq<seq<Op>> := [[Deposit(3000), Withdraw(250)], [Withdraw(9000), Deposit(1000)]]

  lemma DoTwo(who: nat, b: Books, first: Op, second: Op)
    ensures DoAll(who, b, [first, second]) == Do(who, Do(who, b, first), second)
  {
    assert [first, second][..1] == [first] && [first][..0] == [];
    assert DoAll(who, b, [first]) == Do(who, DoAll(who, b, []), first);
  }

  /** One operation changes balance and reports alike. */
  lemma KeepsBooks(who: nat, b: Books, op: Op)
    ensures var b' := Do(who, b, op);
      && b'.balance - Net(b'.log) == b.balance - Net(b.log)
      && forall opening :: Sound(opening, b) ==> Sound(opening, b')
  {
    var b' := Do(who, b, op);
    if b'.log != b.log {
      assert b'.log[..|b.log|] == b.log;
    }
  }

  // The threads, one load or store of gBalance at a time

  /** Progress inside one operation: its guard passed, the balance loaded into a register, the
      changed value stored, the high-balance test made. */
  datatype Micro = Begin | Passed | Loaded(reg: int) | Stored | Tested(high: bool)

  datatype Pc = Ready | Run(k: nat, at: Micro) | Finished

  /** order is history: the threads whose scripts are complete, in order of completion. */
  datatype State = State(balance: int, log: seq<Entry>, holder: set<nat>, pcs: seq<Pc>, order: seq<nat>)

  datatype Config = Config(locking: bool, opening: int, scripts: seq<seq<Op>>)

  datatype OpStep = Go(at: Micro, balance: int) | Done(entries: seq<Entry>)

  function StepOp(who: nat, op: Op, at: Micro, balance: int): OpStep {
    match op
    case Deposit(amt) => (
      match at
      case Begin => if amt <= 0 then Done([]) else Go(Passed, balance)
      case Passed => Go(Loaded(balance), balance)
      case Loaded(reg) => Go(Stored, reg + amt)
      case Stored => Go(Tested(balance >= HIGH_BALANCE), balance)
      case Tested(high) => Done([Deposited(who, amt, balance, high)]))
    case Withdraw(amt) => (
      match at
      case Begin => if balance - amt < MIN_CREDIT then Done([Refused(who, amt)]) else Go(Passed, balance)
      case Passed => Go(Loaded(balance), balance)
      case Loaded(reg) => Go(Stored, reg - amt)
      case _ => Done([Withdrawn(who, amt, balance)]))
  }

  ghost predicate Init(c: Config, s: State) {
    s == State(c.opening, [], {}, seq(|c.scripts|, _ => Ready), [])
  }

  /** What thread t does next; with locking on it enters only when no thread holds the mutex. */
  function StepThread(c: Config, t: nat, s: State): State
    requires t < |s.pcs| == |c.scripts|
  {
    match s.pcs[t]
    case Ready =>
      s.(holder := if c.locking then {t} else {}, pcs := s.pcs[t := Run(0, Begin)])
    case Run(k, at) =>
      if k >= |c.scripts[t]| then
        s.(holder := {}, pcs := s.pcs[t := Finished], order := s.order + [t])
      else (
        match StepOp(t, c.scripts[t][k], at, s.balance)
        case Go(at', balance') => s.(balance := balance', pcs := s.pcs[t := Run(k, at')])
        case Done(entries) => s.(log := s.log + entries, pcs := s.pcs[t := Run(k + 1, Begin)]))
    case Finished => s
  }

  ghost predicate Enabled(c: Config, t: nat, s: State) {
    t < |s.pcs| == |c.scripts| && !s.pcs[t].Finished? && (c.locking && s.pcs[t].Ready? ==> s.holder == {})
  }

  ghost predicate Next(c: Config, s: State, s': State) {
    exists t: nat :: Enabled(c, t, s) && s' == StepThread(c, t, s)
  }

  ghost function Teller(c: Config): System<State> {
    System(s => Init(c, s), (s, s') => Next(c, s, s'))
  }

  ghost predicate AllFinished(s: State) {
    forall t :: 0 <= t < |s.pcs| ==> s.pcs[t].Finished?
  }

  // Locking on

  /** What thread t has done so far of its script, given the books it found on entry. */
  ghost predicate InSection(script: seq<Op>, t: nat, entry: Books, k: nat, at: Micro, now: Books) {
    && k <= |script|
    && var before := DoAll(t, entry, script[..k]);
       if k == |script| then at.Begin? && now == before
       else
         var after := Do(t, before, script[k]);
         match at
         case Begin => now == before
         case Passed =>
           && now == before && Accepts(t, before, script[k])
           && after.balance == before.balance + Change(script[k])
         case Loaded(reg) => now == before && reg == before.balance && Accepts(t, before, script[k])
         case Stored => now == Books(after.balance, before.log) && Accepts(t, before, script[k])
         case Tested(high) =>
           && now == Books(after.balance, before.log) && Accepts(t, before, script[k])
           && script[k].Deposit? && high == (after.balance >= HIGH_BALANCE)
  }

  function Change(op: Op): int {
    if op.Deposit? then op.amt else -op.amt
  }

  predicate Accepts(who: nat, b: Books, op: Op) {
    if op.Deposit? then op.amt > 0 else b.balance - op.amt >= MIN_CREDIT
  }

  /** order lists the finished threads, each once. */
  ghost predicate OrderInv(order: seq<nat>, pcs: seq<Pc>) {
    && (forall i :: 0 <= i < |order| ==> order[i] < |pcs| && pcs[order[i]].Finished?)
    && (forall i, j :: 0 <= i < j < |order| ==> order[i] != order[j])
    && (forall t: nat :: t < |pcs| && pcs[t].Finished? ==> t in order)
  }

  lemma OrderGrows(order: seq<nat>, pcs: seq<Pc>, t: nat)
    requires OrderInv(order, pcs) && t < |pcs| && !pcs[t].Finished?
    ensures OrderInv(order + [t], pcs[t := Finished])
  {
    var order' := order + [t];
    assert order'[|order|] == t;
    assert forall u :: u in order ==> u in order';
  }

  lemma OrderKept(order: seq<nat>, pcs: seq<Pc>, t: nat, pc: Pc)
    requires OrderInv(order, pcs) && t < |pcs| && !pcs[t].Finished? && !pc.Finished?
    ensures OrderInv(order, pcs[t := pc])
  {
  }

  ghost predicate Inv(c: Config, s: State) {
    && c.locking
    && |s.pcs| == |c.scripts|
    && OrderInv(s.order, s.pcs)
    && (forall t :: 0 <= t < |s.pcs| && s.pcs[t].Run? ==> s.holder == {t})
    && (forall t :: t in s.holder ==> t < |s.pcs| && s.pcs[t].Run?)
    && var entry := Serial(c.scripts, s.order, c.opening);
       && (s.holder == {} ==> Books(s.balance, s.log) == entry)
       && (forall t :: 0 <= t < |s.pcs| && s.pcs[t].Run? ==>
             InSection(c.scripts[t], t, entry, s.pcs[t].k, s.pcs[t].at, Books(s.balance, s.log)))
  }

  lemma SectionStep(script: seq<Op>, t: nat, entry: Books, k: nat, at: Micro, now: Books)
    requires InSection(script, t, entry, k, at, now) && k < |script|
    ensures match StepOp(t, script[k], at, now.balance)
      case Go(at', balance') => InSection(script, t, entry, k, at', Books(balance', now.log))
      case Done(entries) => InSection(script, t, entry, k + 1, Begin, Books(now.balance, now.log + entries))
  {
    assert script[..k + 1][..k] == script[..k];
    assert now.log + [] == now.log;
  }

  lemma InvEnter(c: Config, t: nat, s: State)
    requires Inv(c, s) && Enabled(c, t, s) && s.pcs[t].Ready?
    ensures Inv(c, StepThread(c, t, s))
  {
    assert c.scripts[t][..0] == [];
    OrderKept(s.order, s.pcs, t, Run(0, Begin));
  }

  lemma InvOp(c: Config, t: nat, s: State)
    requires Inv(c, s) && Enabled(c, t, s) && s.pcs[t].Run? && s.pcs[t].k < |c.scripts[t]|
    ensures Inv(c, StepThread(c, t, s))
  {
    var s' := StepThread(c, t, s);
    assert s'.order == s.order && s'.holder == s.holder == {t};
    SectionStep(c.scripts[t], t, Serial(c.scripts, s.order, c.opening), s.pcs[t].k, s.pcs[t].at,
      Books(s.balance, s.log));
    OrderKept(s.order, s.pcs, t, s'.pcs[t]);
  }

  lemma SerialNext(scripts: seq<seq<Op>>, order: seq<nat>, t: nat, opening: int)
    requires t < |scripts| && forall i :: 0 <= i < |order| ==> order[i] < |scripts|
    ensures Serial(scripts, order + [t], opening) == DoAll(t, Serial(scripts, order, opening), scripts[t])
  {
    assert (order + [t])[..|order|] == order;
  }

  lemma InvLeave(c: Config, t: nat, s: State)
    requires Inv(c, s) && Enabled(c, t, s) && s.pcs[t].Run? && s.pcs[t].k >= |c.scripts[t]|
    ensures Inv(c, StepThread(c, t, s))
  {
    var s' := StepThread(c, t, s);
    assert s.holder == {t} && c.scripts[t][..s.pcs[t].k] == c.scripts[t];
    SerialNext(c.scripts, s.order, t, c.opening);
    OrderGrows(s.order, s.pcs, t);
  }

  lemma InvHolds(c: Config, s: State)
    requires c.locking && Reachable(Teller(c), s)
    ensures Inv(c, s)
  {
    var m, inv := Teller(c), s => Inv(c, s);
    forall s, s' | inv(s) && m.next(s, s') ensures inv(s') {
      var t: nat :| Enabled(c, t, s) && s' == StepThread(c, t, s);
      if s.pcs[t].Ready? {
        InvEnter(c, t, s);
      } else if s.pcs[t].k < |c.scripts[t]| {
        InvOp(c, t, s);
      } else {
        InvLeave(c, t, s);
      }
    }
    Invariant(m, inv, s);
  }

  /** Every interleaving of the locked program is a serial order of the whole scripts: same balance
      and the same reports in the same sequence. */
  lemma Serializable(c: Config, s: State)
    requires c.locking && Reachable(Teller(c), s) && AllFinished(s)
    ensures |s.order| == |c.scripts|
    ensures forall i :: 0 <= i < |s.order| ==> s.order[i] < |c.scripts|
    ensures forall t: nat :: t in s.order <==> t < |c.scripts|
    ensures forall i, j :: 0 <= i < j < |s.order| ==> s.order[i] != s.order[j]
    ensures Books(s.balance, s.log) == Serial(c.scripts, s.order, c.opening)
  {
    InvHolds(c, s);
    assert s.holder == {};
    DistinctBelow(s.order, |c.scripts|);
  }

  /** A sequence that lists each number below n exactly once has length n. */
  lemma {:induction false} DistinctBelow(xs: seq<nat>, n: nat)
    requires forall t: nat :: t in xs <==> t < n
    requires forall i, j :: 0 <= i < j < |xs| ==> xs[i] != xs[j]
    ensures |xs| == n
  {
    if n > 0 {
      assert n - 1 in xs;
      var i :| 0 <= i < |xs| && xs[i] == n - 1;
      var rest := xs[..i] + xs[i + 1..];
      forall t: nat ensures t in rest <==> t < n - 1 {
        assert t in xs <==> t < n;
        if t < n - 1 {
          var j :| 0 <= j < |xs| && xs[j] == t;
          assert rest[if j < i then j else j - 1] == t;
        }
      }
      DistinctBelow(rest, n - 1);
    } else if xs != [] {
      FirstElement(xs);
    }
  }

  lemma FirstElement(xs: seq<nat>)
    requires xs != []
    ensures xs[0] in xs
  {
  }

  // Conservation and the credit limit, first of the serial meaning

  ghost predicate Sound(opening: int, b: Books) {
    && b.balance == opening + Net(b.log)
    && b.balance >= if opening < MIN_CREDIT then opening else MIN_CREDIT
  }

  lemma {:induction false} SoundDoAll(opening: int, who: nat, b: Books, ops: seq<Op>)
    requires Sound(opening, b)
    ensures Sound(opening, DoAll(who, b, ops))
  {
    if ops != [] {
      var front := ops[..|ops| - 1];
      SoundDoAll(opening, who, b, front);
      KeepsBooks(who, DoAll(who, b, front), ops[|ops| - 1]);
    }
  }

  lemma {:induction false} SoundSerial(scripts: seq<seq<Op>>, order: seq<nat>, opening: int)
    requires forall i :: 0 <= i < |order| ==> order[i] < |scripts|
    ensures Sound(opening, Serial(scripts, order, opening))
  {
    if order != [] {
      var front, t := order[..|order| - 1], order[|order| - 1];
      SoundSerial(scripts, front, opening);
      SoundDoAll(opening, t, Serial(scripts, front, opening), scripts[t]);
    }
  }

  /** The change already stored but not yet reported, if the thread is at that point. */
  function Unreported(c: Config, t: nat, s: State): int
    requires t < |s.pcs| == |c.scripts|
  {
    if s.pcs[t].Run? && s.pcs[t].k < |c.scripts[t]| && (s.pcs[t].at.Stored? || s.pcs[t].at.Tested?)
    then Change(c.scripts[t][s.pcs[t].k]) else 0
  }

  /** In every reachable state, also inside a critical section: the balance is the opening balance
      plus deposits minus accepted withdrawals, and it never drops below the credit limit (or the
      opening balance, if that is lower still). */
  lemma BalanceConserved(c: Config, s: State)
    requires c.locking && Reachable(Teller(c), s)
    ensures |s.pcs| == |c.scripts|
    ensures s.holder == {} ==> s.balance == c.opening + Net(s.log)
    ensures forall t :: t in s.holder ==>
      t < |s.pcs| && s.balance == c.opening + Net(s.log) + Unreported(c, t, s)
    ensures s.balance >= if c.opening < MIN_CREDIT then c.opening else MIN_CREDIT
  {
    InvHolds(c, s);
    SoundSerial(c.scripts, s.order, c.opening);
    if s.holder != {} {
      var t :| t in s.holder;
      assert s.holder == {t};
      SectionSound(c.scripts[t], t, Serial(c.scripts, s.order, c.opening), s.pcs[t].k, s.pcs[t].at,
        Books(s.balance, s.log), c.opening);
    }
  }

  lemma SectionSound(script: seq<Op>, t: nat, entry: Books, k: nat, at: Micro, now: Books, opening: int)
    requires InSection(script, t, entry, k, at, now) && Sound(opening, entry)
    ensures now.balance >= if opening < MIN_CREDIT then opening else MIN_CREDIT
    ensures now.balance == opening + Net(now.log) + (
      if k < |script| && (at.Stored? || at.Tested?) then Change(script[k]) else 0)
  {
    SoundDoAll(opening, t, entry, script[..k]);
    if k < |script| {
      KeepsBooks(t, DoAll(t, entry, script[..k]), script[k]);
    }
  }

  // Progress

  function Left(script: seq<Op>, pc: Pc): nat {
    match pc
    case Ready => 6 * |script| + 2
    case Run(k, at) =>
      if k >= |script| then 1 else
      6 * (|script| - k) + 1
        - (match at case Begin => 0 case Passed => 1 case Loaded(_) => 2 case Stored => 3 case Tested(_) => 4)
    case Finished => 0
  }

  ghost function Ranks(c: Config, s: State): seq<nat>
    requires |s.pcs| == |c.scripts|
  {
    seq(|s.pcs|, t requires 0 <= t < |s.pcs| => Left(c.scripts[t], s.pcs[t]))
  }

  ghost function Work(c: Config, s: State): nat
    requires |s.pcs| == |c.scripts|
  {
    Sum(Ranks(c, s))
  }

  /** With locking on no thread is ever blocked for good, and every step uses up work: every
      schedule that keeps going finishes all scripts. */
  lemma LockedRunsFinish(c: Config, s: State)
    requires c.locking && Reachable(Teller(c), s)
    ensures Stuck(Teller(c), s) <==> AllFinished(s)
    ensures |s.pcs| == |c.scripts|
    ensures forall s' :: Teller(c).next(s, s') ==> |s'.pcs| == |c.scripts| && Work(c, s') < Work(c, s)
  {
    InvHolds(c, s);
    var m := Teller(c);
    if !AllFinished(s) {
      var t :| 0 <= t < |s.pcs| && !s.pcs[t].Finished?;
      if s.holder != {} {
        t :| t in s.holder;
      }
      assert Enabled(c, t, s);
      assert m.next(s, StepThread(c, t, s));
    }
    forall s' | m.next(s, s') ensures |s'.pcs| == |c.scripts| && Work(c, s') < Work(c, s) {
      var t: nat :| Enabled(c, t, s) && s' == StepThread(c, t, s);
      WorkUsed(c, t, s);
    }
  }

  lemma WorkUsed(c: Config, t: nat, s: State)
    requires Inv(c, s) && Enabled(c, t, s)
    ensures var s' := StepThread(c, t, s); |s'.pcs| == |c.scripts| && Work(c, s') < Work(c, s)
  {
    var s' := StepThread(c, t, s);
    var low := Left(c.scripts[t], s'.pcs[t]);
    assert low < Left(c.scripts[t], s.pcs[t]);
    assert Ranks(c, s') == Ranks(c, s)[t := low];
    SumLowered(Ranks(c, s), t, low);
  }

  /** An instance: bankacc.c's own scripts.  Every locked run closes at 6750 with one of two reports. */
  lemma OwnScripts(s: State)
    requires Reachable(Teller(Config(true, 12000, OWN_SCRIPTS)), s) && AllFinished(s)
    ensures s.balance == 6750
    ensures s.log == [Deposited(0, 3000, 15000, false), Withdrawn(0, 250, 14750),
                      Withdrawn(1, 9000, 5750), Deposited(1, 1000, 6750, false)]
         || s.log == [Withdrawn(1, 9000, 3000), Deposited(1, 1000, 4000, false),
                      Deposited(0, 3000, 7000, false), Withdrawn(0, 250, 6750)]
  {
    Serializable(Config(true, 12000, OWN_SCRIPTS), s);
    assert s.order[0] in s.order && s.order[1] in s.order;
    SerialTwo(OWN_SCRIPTS, s.order[0], s.order[1], 12000);
    assert s.order == [s.order[0], s.order[1]];
    OwnOrders();
  }

  lemma SerialTwo(scripts: seq<seq<Op>>, a: nat, b: nat, opening: int)
    requires a < |scripts| && b < |scripts|
    ensures Serial(scripts, [a, b], opening) == DoAll(b, DoAll(a, Books(opening, []), scripts[a]), scripts[b])
  {
    SerialNext(scripts, [], a, opening);
    SerialNext(scripts, [a], b, opening);
    assert [] + [a] == [a] && [a] + [b] == [a, b];
  }

  lemma OwnOrders()
    ensures DoAll(1, DoAll(0, Books(12000, []), OWN_SCRIPTS[0]), OWN_SCRIPTS[1]) == Books(6750,
      [Deposited(0, 3000, 15000, false), Withdrawn(0, 250, 14750),
       Withdrawn(1, 9000, 5750), Deposited(1, 1000, 6750, false)])
    ensures DoAll(0, DoAll(1, Books(12000, []), OWN_SCRIPTS[1]), OWN_SCRIPTS[0]) == Books(6750,
      [Withdrawn(1, 9000, 3000), Deposited(1, 1000, 4000, false),
       Deposited(0, 3000, 7000, false), Withdrawn(0, 250, 6750)])
  {
    OwnScript(0, Books(12000, []), Deposit(3000), Withdraw(250));
    OwnScript(1, DoAll(0, Books(12000, []), OWN_SCRIPTS[0]), Withdraw(9000), Deposit(1000));
    OwnScript(1, Books(12000, []), Withdraw(9000), Deposit(1000));
    OwnScript(0, DoAll(1, Books(12000, []), OWN_SCRIPTS[1]), Deposit(3000), Withdraw(250));
  }

  lemma OwnScript(t: nat, b: Books, first: Op, second: Op)
    requires t < 2 && OWN_SCRIPTS[t] == [first, second]
    ensures DoAll(t, b, OWN_SCRIPTS[t]) == Do(t, Do(t, b, first), second)
  {
    DoTwo(t, b, first, second);
  }
}
