/** ch15/facto.c: threads compute factorials in one shared 64-bit accumulator, under a lock or not. */
module Factorial {
  import opened Arith
  import opened Runs

  /** unsigned long long wraps around at 2^64. */
  const WIDTH := 0x1_0000_0000_0000_0000

  function Fact(n: nat): nat {
    if n == 0 then 1 else Fact(n - 1) * n
  }

  /** What factorize leaves in gFactorial for num: 1 when num <= 0. */
  function Result(num: int): nat {
    (if num <= 0 then 1 else Fact(num)) % WIDTH
  }

  lemma WrapMultiply(x: nat, i: nat)
    ensures ((x % WIDTH) * i) % WIDTH == (x * i) % WIDTH
  {
    var q, r := x / WIDTH, x % WIDTH;
    assert x * i == (q * i) * WIDTH + r * i by {
      assert x == q * WIDTH + r;
      MulSplit(i, q, WIDTH, r);
    }
    var d, e := (r * i) / WIDTH, (r * i) % WIDTH;
    assert x * i == (q * i + d) * WIDTH + e;
    DivUnique(x * i, q * i + d, e, WIDTH);
  }

  /** Up to 20 the factorial fits (even the signed "%lld" of the print), so the result is exact. */
  lemma SmallFactorials(num: int)
    requires num <= 20
    ensures Result(num) == (if num <= 0 then 1 else Fact(num)) < 9223372036854775808
  {
    if num > 0 {
      FactMonotone(num, 20);
      assert Fact(20) == 2432902008176640000 by {
        assert Fact(5) == 120;
        assert Fact(10) == 3628800;
        assert Fact(15) == 1307674368000;
      }
    }
  }

  lemma {:induction false} FactMonotone(m: nat, n: nat)
    requires m <= n
    ensures 1 <= Fact(m) <= Fact(n)
  {
    if n == 0 {
    } else if m == n {
      FactMonotone(n - 1, n - 1);
      MulOrder(1, Fact(n - 1), n);
    } else {
      FactMonotone(m, n - 1);
      MulOrder(1, n, Fact(n - 1));
    }
  }

  /** The global accumulator and factorize. */
  class Accumulator {
    var gFactorial: nat

    constructor ()
      ensures gFactorial == 1
    {
      gFactorial := 1;
    }

    method Factorize(num: int)
      modifies this
      ensures gFactorial == Result(num)
    {
      gFactorial := 1;
      if num <= 0 {
        return;
      }
      var i := 1;
      while i <= num
        invariant 1 <= i <= num + 1
        invariant gFactorial == Fact(i - 1) % WIDTH
      {
        WrapMultiply(Fact(i - 1), i);
        gFactorial := (gFactorial * i) % WIDTH;
        i := i + 1;
      }
    }
  }

  // The threads; loading and storing gFactorial are separate steps

  /** Reset: about to set gFactorial to 1.  Loop(i): at the test for i.  Loaded(i, reg): about to store
      reg * i.  Print: about to print gFactorial. */
  datatype Pc = Start | Reset | Loop(i: nat) | Loaded(i: nat, reg: nat) | Print | Unlock | Finished

  /** printed: the value each thread printed. */
  datatype State = State(gFactorial: nat, holder: set<nat>, pcs: seq<Pc>, printed: map<nat, nat>)

  datatype Config = Config(locking: bool, nums: seq<int>)

  ghost predicate Init(c: Config, s: State) {
    s == State(1, {}, seq(|c.nums|, _ => Start), map[])
  }

  ghost predicate Enabled(c: Config, t: nat, s: State) {
    t < |s.pcs| == |c.nums| && !s.pcs[t].Finished? && (c.locking && s.pcs[t].Start? ==> s.holder == {})
  }

  function StepThread(c: Config, t: nat, s: State): State
    requires t < |s.pcs| == |c.nums|
  {
    match s.pcs[t]
    case Start => s.(holder := if c.locking then {t} else {}, pcs := s.pcs[t := Reset])
    case Reset => s.(gFactorial := 1, pcs := s.pcs[t := if c.nums[t] <= 0 then Print else Loop(1)])
    case Loop(i) => s.(pcs := s.pcs[t := if i > c.nums[t] then Print else Loaded(i, s.gFactorial)])
    case Loaded(i, reg) => s.(gFactorial := (reg * i) % WIDTH, pcs := s.pcs[t := Loop(i + 1)])
    case Print => s.(printed := s.printed[t := s.gFactorial], pcs := s.pcs[t := Unlock])
    case Unlock => s.(holder := {}, pcs := s.pcs[t := Finished])
    case Finished => s
  }

  ghost predicate Next(c: Config, s: State, s': State) {
    exists t: nat :: Enabled(c, t, s) && s' == StepThread(c, t, s)
  }

  ghost function Threads(c: Config): System<State> {
    System(s => Init(c, s), (s, s') => Next(c, s, s'))
  }

  /** Thread t inside its critical section: the accumulator is its own partial product. */
  ghost predicate InSection(num: int, pc: Pc, acc: nat) {
    match pc
    case Loop(i) => 1 <= i <= num + 1 && acc == Fact(i - 1) % WIDTH
    case Loaded(i, reg) => 1 <= i <= num && acc == reg == Fact(i - 1) % WIDTH
    case Print => acc == Result(num)
    case _ => true
  }

  predicate Outside(pc: Pc) { pc.Start? || pc.Finished? }

  ghost predicate Inv(c: Config, s: State) {
    && |s.pcs| == |c.nums|
    && (forall t :: 0 <= t < |s.pcs| && !Outside(s.pcs[t]) ==>
          s.holder == {t} && InSection(c.nums[t], s.pcs[t], s.gFactorial))
    && (forall t :: t in s.holder ==> t < |s.pcs| && !Outside(s.pcs[t]))
    && (forall t :: t in s.printed ==> t < |c.nums| && s.printed[t] == Result(c.nums[t]))
    && (forall t :: 0 <= t < |s.pcs| && (s.pcs[t].Unlock? || s.pcs[t].Finished?) ==> t in s.printed)
  }

  /** Steps inside the critical section; the other threads are outside it. */
  lemma InvInside(c: Config, t: nat, s: State)
    requires c.locking && Inv(c, s) && Enabled(c, t, s) && (s.pcs[t].Reset? || s.pcs[t].Loop? || s.pcs[t].Loaded?)
    ensures Inv(c, StepThread(c, t, s))
  {
    var s' := StepThread(c, t, s);
    if s.pcs[t].Loaded? {
      WrapMultiply(Fact(s.pcs[t].i - 1), s.pcs[t].i);
    }
    assert InSection(c.nums[t], s'.pcs[t], s'.gFactorial);
  }

  lemma InvEdge(c: Config, t: nat, s: State)
    requires c.locking && Inv(c, s) && Enabled(c, t, s) && (s.pcs[t].Start? || s.pcs[t].Print? || s.pcs[t].Unlock?)
    ensures Inv(c, StepThread(c, t, s))
  {
  }

  lemma InvHolds(c: Config, s: State)
    requires c.locking && Reachable(Threads(c), s)
    ensures Inv(c, s)
  {
    var m, inv := Threads(c), s => Inv(c, s);
    forall s, s' | inv(s) && m.next(s, s') ensures inv(s') {
      var t: nat :| Enabled(c, t, s) && s' == StepThread(c, t, s);
      if s.pcs[t].Reset? || s.pcs[t].Loop? || s.pcs[t].Loaded? {
        InvInside(c, t, s);
      } else {
        InvEdge(c, t, s);
      }
    }
    Invariant(m, inv, s);
  }

  /** With locking on, in every schedule: every value printed is the factorial of that thread's number, mod
      2^64 and exactly if the number is at most 20; and every finished thread has printed. */
  lemma PrintedExact(c: Config, s: State, t: nat)
    requires c.locking && Reachable(Threads(c), s) && t < |c.nums|
    ensures t in s.printed ==> s.printed[t] == Result(c.nums[t])
    ensures t in s.printed && 0 <= c.nums[t] <= 20 ==> s.printed[t] == Fact(c.nums[t])
    ensures |s.pcs| == |c.nums| && (s.pcs[t].Finished? ==> t in s.printed)
  {
    InvHolds(c, s);
    if c.nums[t] <= 20 {
      SmallFactorials(c.nums[t]);
    }
  }

  /** An instance: with locking on the program prints 3628800 for 10 and 479001600 for 12. */
  lemma OwnNumbers(s: State)
    requires Reachable(Threads(Config(true, [10, 12])), s)
    ensures 0 in s.printed ==> s.printed[0] == 3628800
    ensures 1 in s.printed ==> s.printed[1] == 479001600
  {
    var c := Config(true, [10, 12]);
    PrintedExact(c, s, 0);
    PrintedExact(c, s, 1);
    assert Fact(5) == 120;
    assert Fact(10) == 3628800;
  }

  /** No overflow: if all numbers are at most 20, no store of any reachable state wraps. */
  lemma NoOverflow(c: Config, s: State, t: nat)
    requires c.locking && Reachable(Threads(c), s) && t < |s.pcs| && s.pcs[t].Loaded?
    requires forall u :: 0 <= u < |c.nums| ==> c.nums[u] <= 20
    ensures s.pcs[t].reg * s.pcs[t].i < 18446744073709551616
  {
    InvHolds(c, s);
    var i := s.pcs[t].i;
    SmallFactorials(i - 1);
    SmallFactorials(i);
  }

  /** With locking on some thread can always go on until all have finished. */
  lemma NeverStuck(c: Config, s: State)
    requires c.locking && Reachable(Threads(c), s)
    ensures Stuck(Threads(c), s) <==> forall t :: 0 <= t < |s.pcs| ==> s.pcs[t].Finished?
  {
    InvHolds(c, s);
    var m := Threads(c);
    if !(forall t :: 0 <= t < |s.pcs| ==> s.pcs[t].Finished?) {
      var t :| 0 <= t < |s.pcs| && !s.pcs[t].Finished?;
      if s.holder != {} {
        t :| t in s.holder;
      }
      assert Enabled(c, t, s);
      assert m.next(s, StepThread(c, t, s));
    }
  }

  function Left(num: int, pc: Pc): nat {
    var n := if num <= 0 then 0 else num;
    match pc
    case Start => 2 * n + 6
    case Reset => 2 * n + 5
    case Loop(i) => if i <= n then 2 * (n + 1 - i) + 3 else 3
    case Loaded(i, _) => if i <= n then 2 * (n + 1 - i) + 2 else 4
    case Print => 2
    case Unlock => 1
    case Finished => 0
  }

  ghost function Ranks(c: Config, s: State): seq<nat>
    requires |s.pcs| == |c.nums|
  {
    seq(|s.pcs|, t requires 0 <= t < |s.pcs| => Left(c.nums[t], s.pcs[t]))
  }

  /** Every step uses up work, so with NeverStuck every schedule that keeps going finishes. */
  lemma WorkUsed(c: Config, t: nat, s: State)
    requires Enabled(c, t, s)
    ensures Sum(Ranks(c, StepThread(c, t, s))) < Sum(Ranks(c, s))
  {
    var s' := StepThread(c, t, s);
    var low := Left(c.nums[t], s'.pcs[t]);
    assert Ranks(c, s') == Ranks(c, s)[t := low];
    SumLowered(Ranks(c, s), t, low);
  }

  // Locking off

  lemma Advance(c: Config, t: nat, s: State) returns (s': State)
    requires Reachable(Threads(c), s) && Enabled(c, t, s)
    ensures s' == StepThread(c, t, s) && Reachable(Threads(c), s')
  {
    s' := StepThread(c, t, s);
    ReachStep(Threads(c), s, s');
  }

  function AllAtStart(c: Config): seq<Pc> {
    seq(|c.nums|, _ => Start)
  }

  /** Thread t goes from its start to the test for 1. */
  lemma Begin(c: Config, t: nat, s: State) returns (s': State)
    requires Reachable(Threads(c), s) && !c.locking && t < |s.pcs| == |c.nums|
    requires s.pcs[t].Start? && c.nums[t] >= 1
    ensures Reachable(Threads(c), s')
    ensures s' == State(1, {}, s.pcs[t := Loop(1)], s.printed)
  {
    s' := Advance(c, t, s);
    s' := Advance(c, t, s');
  }

  /** Undisturbed, thread t multiplies whatever it finds in the accumulator by its whole factorial. */
  lemma {:induction false} Multiplies(c: Config, t: nat, s: State, x: nat, i: nat) returns (s': State)
    requires Reachable(Threads(c), s) && t < |s.pcs| == |c.nums|
    requires s.pcs[t] == Loop(1) && s.gFactorial == x % WIDTH && 1 <= i <= c.nums[t] + 1
    ensures Reachable(Threads(c), s')
    ensures s' == s.(gFactorial := (x * Fact(i - 1)) % WIDTH, pcs := s.pcs[t := Loop(i)])
  {
    if i == 1 {
      s' := s;
    } else {
      s' := Multiplies(c, t, s, x, i - 1);
      s' := Advance(c, t, s');
      s' := Advance(c, t, s');
      WrapMultiply(x * Fact(i - 2), i - 1);
      assert (x * Fact(i - 2)) * (i - 1) == x * Fact(i - 1) by {
        MulAssociates(x, Fact(i - 2), i - 1);
      }
    }
  }

  lemma MulAssociates(x: nat, y: nat, z: nat)
    ensures (x * y) * z == x * (y * z)
  {
  }

  /** With locking off, for any threads and any two of them with positive numbers, some schedule prints the
      product of both factorials as the factorial of the first: it has reset the accumulator and waits at
      its first test while the second one runs. */
  lemma UnlockedPrintsProduct(c: Config, a: nat, b: nat)
    requires !c.locking && a < |c.nums| && b < |c.nums| && a != b && c.nums[a] >= 1 && c.nums[b] >= 1
    ensures exists s :: (
      && Reachable(Threads(c), s)
      && a in s.printed && s.printed[a] == (Fact(c.nums[a]) * Fact(c.nums[b])) % WIDTH)
  {
    var s := State(1, {}, AllAtStart(c), map[]);
    ReachInit(Threads(c), s);
    s := Begin(c, a, s);
    s := Begin(c, b, s);
    s := Multiplies(c, b, s, 1, c.nums[b] + 1);
    s := Multiplies(c, a, s, Fact(c.nums[b]), c.nums[a] + 1);
    s := Advance(c, a, s);
    s := Advance(c, a, s);
    assert Fact(c.nums[b]) * Fact(c.nums[a]) == Fact(c.nums[a]) * Fact(c.nums[b]);
  }

  /** Whatever the others compute: a thread that starts while another is about to print makes it print 1. */
  lemma UnlockedPrintsOne(c: Config, a: nat, b: nat)
    requires !c.locking && a < |c.nums| && b < |c.nums| && a != b && c.nums[a] >= 1
    ensures exists s :: Reachable(Threads(c), s) && a in s.printed && s.printed[a] == 1
  {
    var s := State(1, {}, AllAtStart(c), map[]);
    ReachInit(Threads(c), s);
    s := Begin(c, a, s);
    s := Multiplies(c, a, s, 1, c.nums[a] + 1);
    s := Advance(c, a, s);
    s := Advance(c, b, s);
    s := Advance(c, b, s);
    s := Advance(c, a, s);
  }

  lemma {:induction false} FactEven(n: nat)
    requires n >= 2
    ensures Fact(n) % 2 == 0
  {
    if n == 2 {
      assert Fact(1) == 1;
    } else {
      FactEven(n - 1);
      var h := Fact(n - 1) / 2;
      assert Fact(n) == (2 * h) * n == 2 * (h * n);
    }
  }

  lemma ResultNotOne(num: int)
    requires num >= 2
    ensures Result(num) != 1
  {
    FactEven(num);
    var f := Fact(num);
    assert f == (f / WIDTH) * WIDTH + f % WIDTH;
  }

  /** One thread alone is always in its own section. */
  ghost predicate Alone(c: Config, s: State) {
    && |s.pcs| == |c.nums| <= 1
    && (forall t :: 0 <= t < |s.pcs| ==> InSection(c.nums[t], s.pcs[t], s.gFactorial))
    && (forall t :: t in s.printed ==> t < |c.nums| && s.printed[t] == Result(c.nums[t]))
  }

  lemma AloneKept(c: Config, t: nat, s: State)
    requires Alone(c, s) && Enabled(c, t, s)
    ensures Alone(c, StepThread(c, t, s))
  {
    if s.pcs[t].Loaded? {
      WrapMultiply(Fact(s.pcs[t].i - 1), s.pcs[t].i);
    }
  }

  predicate AllSmall(c: Config) {
    forall t :: 0 <= t < |c.nums| ==> c.nums[t] <= 1
  }

  /** With numbers up to 1 the accumulator never leaves 1. */
  ghost predicate AlwaysOne(c: Config, s: State) {
    && |s.pcs| == |c.nums| && s.gFactorial == 1
    && (forall t :: 0 <= t < |s.pcs| && s.pcs[t].Loop? ==> s.pcs[t].i >= 1)
    && (forall t :: 0 <= t < |s.pcs| && s.pcs[t].Loaded? ==> s.pcs[t].i == s.pcs[t].reg == 1)
    && (forall t :: t in s.printed ==> t < |c.nums| && s.printed[t] == 1)
  }

  lemma OneKept(c: Config, t: nat, s: State)
    requires AllSmall(c) && AlwaysOne(c, s) && Enabled(c, t, s)
    ensures AlwaysOne(c, StepThread(c, t, s))
  {
  }

  /** In every schedule every printed value is the factorial of the thread that printed it. */
  ghost predicate PrintsRight(c: Config) {
    forall s, t: nat :: Reachable(Threads(c), s) && t < |c.nums| && t in s.printed ==> s.printed[t] == Result(c.nums[t])
  }

  lemma RightWithoutLock(c: Config)
    requires |c.nums| <= 1 || AllSmall(c)
    ensures PrintsRight(c)
  {
    var m := Threads(c);
    var alone, one := s => Alone(c, s), s => AlwaysOne(c, s);
    forall s, s' | m.next(s, s') ensures (alone(s) ==> alone(s')) && (AllSmall(c) && one(s) ==> one(s')) {
      var t: nat :| Enabled(c, t, s) && s' == StepThread(c, t, s);
      if alone(s) {
        AloneKept(c, t, s);
      }
      if AllSmall(c) && one(s) {
        OneKept(c, t, s);
      }
    }
    forall s, t: nat | Reachable(m, s) && t < |c.nums| && t in s.printed
      ensures s.printed[t] == Result(c.nums[t])
    {
      if |c.nums| <= 1 {
        Invariant(m, alone, s);
      } else {
        Invariant(m, one, s);
        assert Fact(1) == 1;
      }
    }
  }

  /** Every value printed in every schedule is right if and only if locking is on, or there is at most one
      thread, or no number exceeds 1. */
  lemma PrintsRightExactly(c: Config)
    ensures PrintsRight(c) <==> c.locking || |c.nums| <= 1 || AllSmall(c)
  {
    if c.locking {
      forall s, t: nat | Reachable(Threads(c), s) && t < |c.nums| && t in s.printed
        ensures s.printed[t] == Result(c.nums[t])
      {
        PrintedExact(c, s, t);
      }
    } else if |c.nums| <= 1 || AllSmall(c) {
      RightWithoutLock(c);
    } else {
      var a: nat :| a < |c.nums| && c.nums[a] >= 2;
      UnlockedPrintsOne(c, a, if a == 0 then 1 else 0);
      ResultNotOne(c.nums[a]);
    }
  }

  /** The program's own numbers, 10 and 12: without the lock a schedule prints a wrong value for 10. */
  lemma OwnNumbersCanFail()
    ensures exists s :: (
      Reachable(Threads(Config(false, [10, 12])), s) && 0 in s.printed && s.printed[0] != Fact(10))
    ensures !PrintsRight(Config(false, [10, 12]))
  {
    var c := Config(false, [10, 12]);
    UnlockedPrintsOne(c, 0, 1);
    FactEven(10);
    assert c.nums[0] == 10;
    PrintsRightExactly(c);
  }
}
