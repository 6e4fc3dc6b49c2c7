/** ch14/speed_multiprcs_vs_multithrd_simple/matrixmul: the sequential triple loop and the version with
one block of rows per thread.

Cells are 32-bit; a sum out of range is taken to wrap around (two's complement). */
module MatrixMul {
  import opened Arith
  import opened Runs

  type Matrix = seq<seq<int>>

  ghost predicate Square(m: Matrix, n: nat) {
    |m| == n && forall i :: 0 <= i < n ==> |m[i]| == n
  }

  function Wrap32(x: int): int {
    (x + 0x8000_0000) % 0x1_0000_0000 - 0x8000_0000
  }

  /** The first k terms of the inner product, in exact arithmetic. */
  function Dot(a: Matrix, b: Matrix, i: nat, j: nat, k: nat): int
    requires i < |a| && k <= |a[i]| && k <= |b|
    requires forall r :: 0 <= r < |b| ==> j < |b[r]|
  {
    if k == 0 then 0 else Dot(a, b, i, j, k - 1) + a[i][k - 1] * b[k - 1][j]
  }

  /** Accumulating one more term into a wrapped partial sum gives the wrapped longer sum. */
  lemma WrapAccumulates(s: int, p: int)
    ensures Wrap32(Wrap32(s) + p) == Wrap32(s + p)
  {
    var q := (s + 0x8000_0000) / 0x1_0000_0000;
    assert Wrap32(s) == s - q * 0x1_0000_0000;
    WrapShift(s + p, -q);
  }

  lemma WrapShift(x: int, q: int)
    ensures Wrap32(x + q * 0x1_0000_0000) == Wrap32(x)
  {
    ModShift(x + 0x8000_0000, q, 0x1_0000_0000);
  }

  lemma ModShift(x: int, q: int, m: int)
    requires m > 0
    ensures (x + q * m) % m == x % m
  {
    var d, r := x / m, x % m;
    assert x + q * m == (d + q) * m + r;
    var d', r' := (x + q * m) / m, (x + q * m) % m;
    assert (d' - d - q) * m == r - r';
    if d' - d - q >= 1 {
      MulOrder(1, d' - d - q, m);
    } else if d' - d - q <= -1 {
      MulOrder(d' - d - q, -1, m);
    }
  }

  /** The product matrix as 32-bit cells. */
  ghost function Product(a: Matrix, b: Matrix, n: nat): Matrix
    requires Square(a, n) && Square(b, n)
  {
    seq(n, i requires 0 <= i < n => seq(n, j requires 0 <= j < n => Wrap32(Dot(a, b, i, j, n))))
  }

  /** A cell holds a 32-bit number congruent to the exact value. */
  lemma WrapExact(x: int)
    ensures -0x8000_0000 <= Wrap32(x) < 0x8000_0000 && (x - Wrap32(x)) % 0x1_0000_0000 == 0
    ensures -0x8000_0000 <= x < 0x8000_0000 ==> Wrap32(x) == x
  {
  }

  function Same(x: int): int { x }

  /** The products of row i of a with column j of b, one by one. */
  ghost function Factors(a: Matrix, b: Matrix, i: nat, j: nat, k: nat): seq<int>
    requires i < |a| && k <= |a[i]| && k <= |b|
    requires forall r :: 0 <= r < |b| ==> j < |b[r]|
  {
    seq(k, t requires 0 <= t < k => a[i][t] * b[t][j])
  }

  /** The inner product is their sum. */
  lemma {:induction false} DotIsSum(a: Matrix, b: Matrix, i: nat, j: nat, k: nat)
    requires i < |a| && k <= |a[i]| && k <= |b|
    requires forall r :: 0 <= r < |b| ==> j < |b[r]|
    ensures Dot(a, b, i, j, k) == Total(Factors(a, b, i, j, k), Same)
  {
    if k > 0 {
      DotIsSum(a, b, i, j, k - 1);
      var front, last := Factors(a, b, i, j, k - 1), [a[i][k - 1] * b[k - 1][j]];
      assert Factors(a, b, i, j, k) == front + last;
      TotalAppend(front, last, Same);
      assert Total(last[1..], Same) == 0;
    }
  }

  lemma {:induction false} DotUnit(a: Matrix, b: Matrix, i: nat, j: nat, k: nat)
    requires i < |a| && k <= |a[i]| && k <= |b| && j < |a[i]|
    requires forall r :: 0 <= r < |b| ==> j < |b[r]|
    requires forall r :: 0 <= r < |b| ==> b[r][j] == if r == j then 1 else 0
    ensures Dot(a, b, i, j, k) == if j < k then a[i][j] else 0
  {
    if k > 0 {
      DotUnit(a, b, i, j, k - 1);
    }
  }

  /** The unit matrix on the right changes nothing. */
  lemma ProductUnit(a: Matrix, b: Matrix, n: nat, i: nat, j: nat)
    requires Square(a, n) && Square(b, n) && i < n && j < n
    requires forall r, col :: 0 <= r < n && 0 <= col < n ==> b[r][col] == if r == col then 1 else 0
    ensures Product(a, b, n)[i][j] == Wrap32(a[i][j])
  {
    DotUnit(a, b, i, j, n);
  }

  lemma {:induction false} DotConstant(a: Matrix, b: Matrix, i: nat, j: nat, k: nat)
    requires i < |a| && k <= |a[i]| && k <= |b|
    requires forall r :: 0 <= r < |b| ==> j < |b[r]| && b[r][j] == 3
    requires forall t :: 0 <= t < |a[i]| ==> a[i][t] == 2
    ensures Dot(a, b, i, j, k) == 6 * k
  {
    if k > 0 {
      DotConstant(a, b, i, j, k - 1);
    }
  }

  /** An instance: the programs' own matrices, all 2 and all 3, of 1024 rows give 6144 in every cell. */
  lemma OwnMatrices(a: Matrix, b: Matrix, i: nat, j: nat)
    requires Square(a, 1024) && Square(b, 1024) && i < 1024 && j < 1024
    requires forall r, col :: 0 <= r < 1024 && 0 <= col < 1024 ==> a[r][col] == 2 && b[r][col] == 3
    ensures Product(a, b, 1024)[i][j] == 6144
  {
    DotConstant(a, b, i, j, 1024);
  }

  lemma {:induction false} DotBounded(a: Matrix, b: Matrix, i: nat, j: nat, k: nat, x: int)
    requires i < |a| && k <= |a[i]| && k <= |b|
    requires forall r :: 0 <= r < |b| ==> j < |b[r]|
    requires forall t :: 0 <= t < k ==> -x <= a[i][t] * b[t][j] <= x
    ensures -(k * x) <= Dot(a, b, i, j, k) <= k * x
  {
    if k > 0 {
      DotBounded(a, b, i, j, k - 1, x);
      assert k * x == (k - 1) * x + x;
    }
  }

  /** When n products of bounded size cannot leave the 32-bit range, no cell wraps: the cells are the
      exact matrix product. */
  lemma ProductExact(a: Matrix, b: Matrix, n: nat, x: int, i: nat, j: nat)
    requires Square(a, n) && Square(b, n) && i < n && j < n && n * x < 0x8000_0000
    requires forall t :: 0 <= t < n ==> -x <= a[i][t] * b[t][j] <= x
    ensures Product(a, b, n)[i][j] == Dot(a, b, i, j, n)
  {
    DotBounded(a, b, i, j, n, x);
  }

  /** main of prcs_matrixmul.c from the initialised matrices on: c starts out all zero. */
  method Multiply(a: Matrix, b: Matrix, n: nat, c: array2<int>)
    requires Square(a, n) && Square(b, n) && c.Length0 == n && c.Length1 == n
    requires forall i, j :: 0 <= i < n && 0 <= j < n ==> c[i, j] == 0
    modifies c
    ensures forall i, j :: 0 <= i < n && 0 <= j < n ==> c[i, j] == Product(a, b, n)[i][j]
  {
    for i := 0 to n
      invariant forall r, s :: 0 <= r < n && 0 <= s < n ==>
        c[r, s] == if r < i then Product(a, b, n)[r][s] else 0
    {
      for j := 0 to n
        invariant forall r, s :: 0 <= r < n && 0 <= s < n ==>
          c[r, s] == if r < i || (r == i && s < j) then Product(a, b, n)[r][s] else 0
      {
        for k := 0 to n
          invariant c[i, j] == Wrap32(Dot(a, b, i, j, k))
          invariant forall r, s :: 0 <= r < n && 0 <= s < n && (r != i || s != j) ==>
            c[r, s] == if r < i || (r == i && s < j) then Product(a, b, n)[r][s] else 0
        {
          WrapAccumulates(Dot(a, b, i, j, k), a[i][k] * b[k][j]);
          c[i, j] := Wrap32(c[i, j] + a[i][k] * b[k][j]);
        }
      }
    }
  }

  // The threads; loading a cell and storing it are separate steps

  datatype Pc = Loop(i: nat, j: nat, k: nat) | Loaded(i: nat, j: nat, k: nat, reg: int) | Done

  datatype State = State(c: Matrix, pcs: seq<Pc>)

  datatype Config = Config(a: Matrix, b: Matrix, n: nat, ncores: nat)

  ghost predicate WellFormed(f: Config) {
    f.ncores >= 1 && Square(f.a, f.n) && Square(f.b, f.n)
  }

  /** First row of thread t: row[t] in main. */
  function Row(f: Config, t: nat): nat
    requires f.ncores >= 1
  {
    t * (f.n / f.ncores)
  }

  /** The rows of all threads together end at n - n % ncores. */
  lemma RowsInside(f: Config, t: nat)
    requires f.ncores >= 1 && t < f.ncores
    ensures Row(f, t) + f.n / f.ncores <= Row(f, f.ncores) == f.n - f.n % f.ncores
  {
    var rows := f.n / f.ncores;
    DivMod(f.n, f.ncores);
    MulPred(t, rows);
    MulOrder(t + 1, f.ncores, rows);
  }

  ghost predicate Init(f: Config, s: State) {
    && WellFormed(f)
    && s.c == seq(f.n, _ => seq(f.n, _ => 0))
    && s.pcs == seq(f.ncores, t requires 0 <= t => Loop(Row(f, t), 0, 0))
  }

  /** One loop test, load or store of threadfun in thread t. */
  ghost predicate Step(f: Config, t: nat, s: State, s': State)
    requires WellFormed(f)
  {
    && t < |s.pcs| == f.ncores && Square(s.c, f.n)
    && (RowsInside(f, t);
       match s.pcs[t]
       case Loop(i, j, k) =>
         && s'.c == s.c
         && s'.pcs == s.pcs[t :=
              if i >= Row(f, t) + f.n / f.ncores then Done
              else if j >= f.n then Loop(i + 1, 0, 0)
              else if k >= f.n then Loop(i, j + 1, 0)
              else Loaded(i, j, k, s.c[i][j])]
       case Loaded(i, j, k, reg) =>
         && i < f.n && j < f.n && k < f.n
         && s'.c == s.c[i := s.c[i][j := Wrap32(reg + f.a[i][k] * f.b[k][j])]]
         && s'.pcs == s.pcs[t := Loop(i, j, k + 1)]
       case Done => false)
  }

  ghost predicate Next(f: Config, s: State, s': State) {
    WellFormed(f) && exists t: nat :: Step(f, t, s, s')
  }

  ghost function Threads(f: Config): System<State> {
    System(s => Init(f, s), (s, s') => Next(f, s, s'))
  }

  ghost predicate AllDone(s: State) {
    forall t :: 0 <= t < |s.pcs| ==> s.pcs[t].Done?
  }

  /** How many terms a thread at pc has accumulated into cell (r, col) of its own rows. */
  function Terms(pc: Pc, n: nat, r: nat, col: nat): nat {
    if pc.Done? || r < pc.i || (r == pc.i && col < pc.j) then n
    else if r == pc.i && col == pc.j && pc.k <= n then pc.k else 0
  }

  ghost predicate ThreadInv(f: Config, t: nat, pc: Pc, c: Matrix)
    requires WellFormed(f) && Square(c, f.n)
  {
    var lo, hi := Row(f, t), Row(f, t) + f.n / f.ncores;
    && (!pc.Done? ==> lo <= pc.i <= hi && pc.j <= f.n && pc.k <= f.n)
    && (!pc.Done? && (pc.i == hi || pc.j == f.n) ==> pc.k == 0 && (pc.i == hi ==> pc.j == 0))
    && (pc.Loaded? ==> pc.i < hi && pc.j < f.n && pc.k < f.n && pc.i < f.n && pc.reg == c[pc.i][pc.j])
    && forall r, col :: lo <= r < hi && r < f.n && 0 <= col < f.n ==>
         c[r][col] == Wrap32(Dot(f.a, f.b, r, col, Terms(pc, f.n, r, col)))
  }

  ghost predicate Inv(f: Config, s: State) {
    && WellFormed(f) && |s.pcs| == f.ncores && Square(s.c, f.n)
    && (forall t: nat :: t < f.ncores ==> ThreadInv(f, t, s.pcs[t], s.c))
    && forall r, col :: Row(f, f.ncores) <= r < f.n && 0 <= col < f.n ==> s.c[r][col] == 0
  }

  lemma LoopKeeps(f: Config, t: nat, s: State, s': State)
    requires Inv(f, s) && Step(f, t, s, s') && s.pcs[t].Loop?
    ensures Inv(f, s')
  {
    RowsInside(f, t);
    assert ThreadInv(f, t, s.pcs[t], s.c);
    assert ThreadInv(f, t, s'.pcs[t], s'.c);
  }

  lemma StoreThisCell(f: Config, t: nat, s: State, s': State)
    requires Inv(f, s) && Step(f, t, s, s') && s.pcs[t].Loaded?
    ensures var i, j, k := s.pcs[t].i, s.pcs[t].j, s.pcs[t].k;
      && Square(s'.c, f.n) && i < f.n && j < f.n && k < f.n
      && s'.c[i][j] == Wrap32(Dot(f.a, f.b, i, j, k + 1))
  {
    var Loaded(i, j, k, reg) := s.pcs[t];
    assert ThreadInv(f, t, s.pcs[t], s.c);
    WrapAccumulates(Dot(f.a, f.b, i, j, k), f.a[i][k] * f.b[k][j]);
  }

  lemma OtherTerms(i: nat, j: nat, k: nat, reg: int, n: nat, r: nat, col: nat)
    requires (r != i || col != j) && k < n
    ensures Terms(Loop(i, j, k + 1), n, r, col) == Terms(Loaded(i, j, k, reg), n, r, col)
  {
  }

  lemma StoreCell(f: Config, t: nat, s: State, s': State, r: nat, col: nat)
    requires Inv(f, s) && Step(f, t, s, s') && s.pcs[t].Loaded?
    requires Row(f, t) <= r < Row(f, t) + f.n / f.ncores && r < f.n && col < f.n
    ensures Square(s'.c, f.n) && s'.c[r][col] == Wrap32(Dot(f.a, f.b, r, col, Terms(s'.pcs[t], f.n, r, col)))
  {
    var Loaded(i, j, k, reg) := s.pcs[t];
    StoreThisCell(f, t, s, s');
    if r != i || col != j {
      assert ThreadInv(f, t, s.pcs[t], s.c);
      OtherTerms(i, j, k, reg, f.n, r, col);
      assert s'.c[r][col] == s.c[r][col];
    }
  }

  lemma StoreOwn(f: Config, t: nat, s: State, s': State)
    requires Inv(f, s) && Step(f, t, s, s') && s.pcs[t].Loaded?
    ensures Square(s'.c, f.n) && ThreadInv(f, t, s'.pcs[t], s'.c)
  {
    assert ThreadInv(f, t, s.pcs[t], s.c);
    forall r: nat, col: nat | Row(f, t) <= r < Row(f, t) + f.n / f.ncores && r < f.n && col < f.n
      ensures s'.c[r][col] == Wrap32(Dot(f.a, f.b, r, col, Terms(s'.pcs[t], f.n, r, col)))
    {
      StoreCell(f, t, s, s', r, col);
    }
  }

  lemma StoreOther(f: Config, t: nat, s: State, s': State, u: nat)
    requires Inv(f, s) && Step(f, t, s, s') && s.pcs[t].Loaded? && u < f.ncores && u != t
    ensures Square(s'.c, f.n) && ThreadInv(f, u, s'.pcs[u], s'.c)
  {
    assert ThreadInv(f, t, s.pcs[t], s.c) && ThreadInv(f, u, s.pcs[u], s.c);
    OtherRows(f, t, u, s.pcs[t].i);
    RowsInside(f, u);
  }

  lemma StoreKeeps(f: Config, t: nat, s: State, s': State)
    requires Inv(f, s) && Step(f, t, s, s') && s.pcs[t].Loaded?
    ensures Inv(f, s')
  {
    StoreOwn(f, t, s, s');
    RowsInside(f, t);
    assert ThreadInv(f, t, s.pcs[t], s.c);
    forall u: nat | u < f.ncores && u != t ensures ThreadInv(f, u, s'.pcs[u], s'.c) {
      StoreOther(f, t, s, s', u);
    }
  }

  lemma OtherRows(f: Config, t: nat, u: nat, r: nat)
    requires f.ncores >= 1 && t != u && Row(f, t) <= r < Row(f, t) + f.n / f.ncores
    ensures !(Row(f, u) <= r < Row(f, u) + f.n / f.ncores)
  {
    if Row(f, u) <= r < Row(f, u) + f.n / f.ncores {
      SameBlock(t, u, f.n / f.ncores, r);
    }
  }

  lemma InvHolds(f: Config, s: State)
    requires Reachable(Threads(f), s)
    ensures Inv(f, s)
  {
    var m, inv := Threads(f), s => Inv(f, s);
    forall s | m.init(s) ensures inv(s) {
      forall t: nat | t < f.ncores ensures ThreadInv(f, t, s.pcs[t], s.c) {
        RowsInside(f, t);
      }
    }
    forall s, s' | inv(s) && m.next(s, s') ensures inv(s') {
      var t: nat :| Step(f, t, s, s');
      if s.pcs[t].Loop? {
        LoopKeeps(f, t, s, s');
      } else {
        StoreKeeps(f, t, s, s');
      }
    }
    Invariant(m, inv, s);
  }

  /** For all matrices, every thread count and every interleaving of loads and stores: when all threads
      are done the rows they cover hold the product and exactly the last n % ncores rows are zero. */
  lemma ThreadedResult(f: Config, s: State, r: nat, col: nat)
    requires Reachable(Threads(f), s) && AllDone(s) && r < f.n && col < f.n
    ensures WellFormed(f) && Square(s.c, f.n)
    ensures s.c[r][col] == if r < f.n - f.n % f.ncores then Product(f.a, f.b, f.n)[r][col] else 0
  {
    InvHolds(f, s);
    RowsInside(f, f.ncores - 1);
    if r < f.n - f.n % f.ncores {
      var t := RowOwner(f, r);
      CoveredCell(f, s, t, r, col);
    }
  }

  lemma RowOwner(f: Config, r: nat) returns (t: nat)
    requires f.ncores >= 1 && r < f.n - f.n % f.ncores
    ensures t < f.ncores && Row(f, t) <= r < Row(f, t) + f.n / f.ncores
  {
    var rows := f.n / f.ncores;
    t := r / rows;
    MulLess(t, f.ncores, rows, r);
  }

  lemma CoveredCell(f: Config, s: State, t: nat, r: nat, col: nat)
    requires Inv(f, s) && AllDone(s) && t < f.ncores && r < f.n && col < f.n
    requires Row(f, t) <= r < Row(f, t) + f.n / f.ncores
    ensures s.c[r][col] == Product(f.a, f.b, f.n)[r][col]
  {
    assert s.pcs[t].Done? && ThreadInv(f, t, s.pcs[t], s.c);
  }

  /** The rows from cut on are zero. */
  ghost predicate ZeroFrom(m: Matrix, n: nat, cut: nat)
    requires Square(m, n)
  {
    forall r: nat, col: nat :: cut <= r < n && col < n ==> m[r][col] == 0
  }

  ghost predicate LeftoverZero(f: Config)
    requires WellFormed(f)
  {
    ZeroFrom(Product(f.a, f.b, f.n), f.n, f.n - f.n % f.ncores)
  }

  /** The threaded program computes the sequential result if and only if the rows it leaves out are zero
      in the product; so always when the thread count divides n. */
  lemma ThreadedEqualsSequential(f: Config, s: State)
    requires Reachable(Threads(f), s) && AllDone(s)
    ensures WellFormed(f)
    ensures s.c == Product(f.a, f.b, f.n) <==> LeftoverZero(f)
    ensures f.n % f.ncores == 0 ==> s.c == Product(f.a, f.b, f.n)
  {
    ThreadedCells(f, s);
    SameUpTo(s.c, Product(f.a, f.b, f.n), f.n, f.n - f.n % f.ncores);
  }

  lemma ThreadedCells(f: Config, s: State)
    requires Reachable(Threads(f), s) && AllDone(s)
    ensures WellFormed(f) && Square(s.c, f.n)
    ensures forall r: nat, col: nat :: r < f.n && col < f.n ==>
      s.c[r][col] == if r < f.n - f.n % f.ncores then Product(f.a, f.b, f.n)[r][col] else 0
  {
    InvHolds(f, s);
    forall r: nat, col: nat | r < f.n && col < f.n
      ensures s.c[r][col] == if r < f.n - f.n % f.ncores then Product(f.a, f.b, f.n)[r][col] else 0
    {
      ThreadedResult(f, s, r, col);
    }
  }

  /** A matrix that agrees with p up to row cut and is zero from there on. */
  lemma SameUpTo(x: Matrix, p: Matrix, n: nat, cut: nat)
    requires Square(x, n) && Square(p, n) && cut <= n
    requires forall r: nat, col: nat :: r < n && col < n ==> x[r][col] == if r < cut then p[r][col] else 0
    ensures x == p <==> ZeroFrom(p, n, cut)
    ensures cut == n ==> x == p
  {
    if ZeroFrom(p, n, cut) {
      forall r | 0 <= r < n ensures x[r] == p[r] {
        assert forall col: nat :: col < n ==> x[r][col] == p[r][col];
      }
    }
  }

  // Progress

  function Times(a: nat, b: nat): nat {
    a * b
  }

  lemma TimesPred(a: nat, b: nat)
    requires a > 0
    ensures Times(a, b) == Times(a - 1, b) + b
  {
    MulPred(a, b);
  }

  /** An upper bound on the steps a thread still takes. */
  ghost function Left(f: Config, t: nat, pc: Pc): nat
    requires f.ncores >= 1
  {
    var row := 2 * f.n + 2;
    var hi := Row(f, t) + f.n / f.ncores;
    if pc.Done? || pc.i > hi || pc.j > f.n || pc.k > f.n then 0
    else
      1 + Times(hi - pc.i, Times(f.n, row) + 1) + Times(f.n - pc.j, row) + 2 * (f.n - pc.k)
        + if pc.Loop? then 1 else 0
  }

  lemma StepLowers(f: Config, t: nat, s: State, s': State)
    requires Inv(f, s) && Step(f, t, s, s')
    ensures Left(f, t, s'.pcs[t]) < Left(f, t, s.pcs[t])
  {
    assert ThreadInv(f, t, s.pcs[t], s.c);
    var pc := s.pcs[t];
    var row, rest := 2 * f.n + 2, Row(f, t) + f.n / f.ncores - pc.i;
    if rest > 0 {
      TimesPred(rest, Times(f.n, row) + 1);
    }
    if pc.j < f.n {
      TimesPred(f.n - pc.j, row);
    }
  }

  ghost function Ranks(f: Config, s: State): seq<nat>
    requires f.ncores >= 1
  {
    seq(|s.pcs|, t requires 0 <= t < |s.pcs| => Left(f, t, s.pcs[t]))
  }

  /** No thread ever waits for another and every step lowers the work left, so every schedule that keeps
      going finishes. */
  lemma ThreadsFinish(f: Config, s: State)
    requires Reachable(Threads(f), s)
    ensures WellFormed(f)
    ensures Stuck(Threads(f), s) <==> AllDone(s)
    ensures forall s' :: Threads(f).next(s, s') ==> Sum(Ranks(f, s')) < Sum(Ranks(f, s))
  {
    InvHolds(f, s);
    var m := Threads(f);
    if !AllDone(s) {
      var t :| 0 <= t < |s.pcs| && !s.pcs[t].Done?;
      var s' := CanStep(f, t, s);
      assert m.next(s, s');
    }
    forall s' | m.next(s, s') ensures Sum(Ranks(f, s')) < Sum(Ranks(f, s)) {
      var t: nat :| Step(f, t, s, s');
      WorkUsed(f, t, s, s');
    }
  }

  lemma WorkUsed(f: Config, t: nat, s: State, s': State)
    requires Inv(f, s) && Step(f, t, s, s')
    ensures Sum(Ranks(f, s')) < Sum(Ranks(f, s))
  {
    var low := Left(f, t, s'.pcs[t]);
    StepLowers(f, t, s, s');
    assert Ranks(f, s') == Ranks(f, s)[t := low];
    SumLowered(Ranks(f, s), t, low);
  }

  lemma CanStep(f: Config, t: nat, s: State) returns (s': State)
    requires Inv(f, s) && t < |s.pcs| && !s.pcs[t].Done?
    ensures Step(f, t, s, s')
  {
    RowsInside(f, t);
    assert ThreadInv(f, t, s.pcs[t], s.c);
    match s.pcs[t] {
      case Loop(i, j, k) =>
        s' := State(s.c, s.pcs[t :=
              if i >= Row(f, t) + f.n / f.ncores then Done
              else if j >= f.n then Loop(i + 1, 0, 0)
              else if k >= f.n then Loop(i, j + 1, 0)
              else Loaded(i, j, k, s.c[i][j])]);
      case Loaded(i, j, k, reg) =>
        s' := State(s.c[i := s.c[i][j := Wrap32(reg + f.a[i][k] * f.b[k][j])]], s.pcs[t := Loop(i, j, k + 1)]);
    }
  }
}
