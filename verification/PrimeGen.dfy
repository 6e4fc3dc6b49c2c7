/** The trial-division loop of solutions_to_assgn/ch16/mt_primes2.c, mt_primes1.c (with a text buffer)
and of ch3/rlimit_primes.c, which stops at divisors below limit / 2. */
module PrimeGen {
  import opened Arith
  import opened Text

  predicate Divides(d: nat, n: nat)
    requires d >= 1
  {
    n % d == 0
  }

  /** A prime number, by its definition: no product of two numbers from 2 up. */
  ghost predicate Prime(n: nat) {
    n >= 2 && forall a: nat, b: nat :: a >= 2 && b >= 2 ==> a * b != n
  }

  ghost predicate Undivided(n: nat) {
    n >= 2 && forall d: nat :: 2 <= d < n ==> !Divides(d, n)
  }

  lemma FactorDivides(a: nat, b: nat, n: nat)
    requires a >= 2 && b >= 2 && a * b == n
    ensures a < n && Divides(a, n)
  {
    MulOrder(2, b, a);
    DivUnique(n, b, 0, a);
    DivMod(n, a);
  }

  lemma DivisorFactors(d: nat, n: nat) returns (b: nat)
    requires 2 <= d < n && Divides(d, n)
    ensures b >= 2 && d * b == n
  {
    b := n / d;
    DivMod(n, d);
    MulOrder(b, 1, d);
  }

  /** Having no proper divisor is the same as being no product. */
  lemma PrimeExactly(n: nat)
    ensures Prime(n) <==> Undivided(n)
  {
    if Prime(n) {
      forall d: nat | 2 <= d < n ensures !Divides(d, n) {
        if Divides(d, n) {
          var b := DivisorFactors(d, n);
        }
      }
    }
    if Undivided(n) {
      forall a: nat, b: nat | a >= 2 && b >= 2 ensures a * b != n {
        if a * b == n {
          FactorDivides(a, b, n);
        }
      }
    }
  }

  /** The test the inner loop makes. */
  ghost predicate Passes(i: nat, limit: nat) {
    forall j: nat :: 2 <= j < limit / 2 && i != j ==> !Divides(j, i)
  }

  /** What the loop lets through, for all numbers up to the limit: primes, 1, and below a limit of 6 also
      4 and 0. */
  lemma PassesExactly(i: nat, limit: nat)
    requires i <= limit
    ensures Passes(i, limit) <==> Prime(i) || i == 1 || (limit < 6 && (i == 4 || i == 0))
  {
    PrimeExactly(i);
    if limit < 6 {
      SmallLimit(i, limit);
    } else {
      if Passes(i, limit) && i != 1 {
        assert Divides(2, 0);
        forall d: nat | 2 <= d < i ensures !Divides(d, i) {
          if Divides(d, i) {
            SmallDivisor(d, i, limit);
          }
        }
      }
      if i == 1 || Undivided(i) {
        NoOtherDivisor(i, limit);
      }
    }
  }

  /** Below a limit of 6 no divisor is tried at all. */
  lemma SmallLimit(i: nat, limit: nat)
    requires i <= limit < 6
    ensures Passes(i, limit) && (Undivided(i) || i == 1 || i == 4 || i == 0)
  {
    assert i == 0 || i == 1 || i == 2 || i == 3 || i == 4 || i == 5;
  }

  lemma NoOtherDivisor(i: nat, limit: nat)
    requires i == 1 || Undivided(i)
    ensures Passes(i, limit)
  {
    forall j: nat | 2 <= j < limit / 2 && i != j ensures !Divides(j, i) {
      if j > i {
        ModSmall(i, j);
      }
    }
  }

  /** A number up to limit >= 6 with a proper divisor has one below limit / 2. */
  lemma SmallDivisor(d: nat, i: nat, limit: nat)
    requires 2 <= d < i <= limit && limit >= 6 && Divides(d, i)
    ensures exists j: nat :: 2 <= j < limit / 2 && i != j && Divides(j, i)
  {
    var e, h := i / d, limit / 2;
    assert i == d * e;
    MulOrder(e, 1, d);
    MulOrder(2, d, e);
    DivUnique(i, d, 0, e);
    assert Divides(d, i) && Divides(e, i);
    MulOrder(h, d, e);
    MulOrder(3, h, e);
  }

  /** Numbers of [start, limit] that pass, in order. */
  ghost function Emitted(start: nat, limit: nat, upto: nat): seq<nat>
    requires start <= upto
  {
    if upto == start then []
    else if Passes(upto - 1, limit) then Emitted(start, limit, upto - 1) + [upto - 1]
    else Emitted(start, limit, upto - 1)
  }

  ghost predicate Increasing(s: seq<nat>) {
    forall i, j :: 0 <= i < j < |s| ==> s[i] < s[j]
  }

  lemma {:induction false} EmittedOrdered(start: nat, limit: nat, upto: nat)
    requires start <= upto
    ensures var e := Emitted(start, limit, upto);
      && Increasing(e)
      && (forall i :: 0 <= i < |e| ==> start <= e[i] < upto)
      && (forall x: nat :: x in e <==> start <= x < upto && Passes(x, limit))
      && |e| <= upto - start
  {
    if upto > start {
      EmittedOrdered(start, limit, upto - 1);
    }
  }

  /** All numbers the program emits for a range. */
  ghost function Primes(start: nat, limit: nat): seq<nat>
    requires start <= limit
  {
    Emitted(start, limit, limit + 1)
  }

  /** The emitted list is increasing and holds exactly the primes of the range, with 1 as the only extra
      from limit 6 up, and also 4 (limit 4 or 5) and 0 below. */
  lemma EmitsPrimes(start: nat, limit: nat)
    requires start <= limit
    ensures Increasing(Primes(start, limit))
    ensures forall x: nat :: x in Primes(start, limit) <==>
      start <= x <= limit && (Prime(x) || x == 1 || (limit < 6 && (x == 4 || x == 0)))
    ensures start >= 2 && limit >= 6 ==>
      forall x: nat :: x in Primes(start, limit) <==> (
        start <= x <= limit && forall a: nat, b: nat :: a >= 2 && b >= 2 ==> a * b != x)
  {
    EmittedOrdered(start, limit, limit + 1);
    forall x: nat | x <= limit
      ensures Passes(x, limit) <==> Prime(x) || x == 1 || (limit < 6 && (x == 4 || x == 0))
    {
      PassesExactly(x, limit);
    }
  }

  // The text buffer

  /** "%6d, " */
  function Field(n: nat): string {
    PadLeft(Decimal(n), 6, ' ') + ", "
  }

  /** The characters of a field of 8: the number at the right of the first six, blanks before it, then a comma
      and a blank. */
  lemma FieldExact(n: nat, k: nat)
    requires n < 1000000 && k < 6
    ensures |Field(n)| == 8 && Field(n)[6] == ',' && Field(n)[7] == ' '
    ensures Field(n)[5 - k] == if k > 0 && Tens(n, k) == 0 then ' ' else "0123456789"[Tens(n, k) % 10]
  {
    DecimalLength(n, 6);
    assert Pow10(6) == 1000000 by {
      assert Pow10(3) == 1000;
    }
    PaddedAt(n, 6, ' ', k);
  }

  function Fields(s: seq<nat>): string {
    if s == [] then "" else Fields(s[..|s| - 1]) + Field(s[|s| - 1])
  }

  /** buf holds the C string s. */
  ghost predicate Holds(buf: array<char>, s: string)
    reads buf
  {
    && |s| < buf.Length && buf[..|s|] == s && buf[|s|] == '\0'
    && forall i :: 0 <= i < |s| ==> s[i] != '\0'
  }

  /** strncat of a string shorter than the bound: append at the terminator.  The ghost argument is the
      string there now. */
  method Append(buf: array<char>, s: string, ghost content: string)
    requires Holds(buf, content) && |content| + |s| < buf.Length
    requires forall i :: 0 <= i < |s| ==> s[i] != '\0'
    modifies buf
    ensures Holds(buf, content + s)
  {
    var len := 0;
    assert forall k :: 0 <= k < |content| ==> content[k] == buf[..|content|][k] == buf[k];
    while buf[len] != '\0'
      invariant len <= |content|
      decreases |content| - len
    {
      len := len + 1;
    }
    forall i | 0 <= i < |s| {
      buf[len + i] := s[i];
    }
    buf[len + |s|] := '\0';
    assert buf[..|content + s|] == content + s;
  }

  lemma FieldPrintable(n: nat)
    ensures forall i :: 0 <= i < |Field(n)| ==> Field(n)[i] != '\0' && Field(n)[i] != '\n'
  {
  }

  /** The inner loop. */
  method TrialDivision(i: nat, limit: nat) returns (isprime: bool)
    ensures isprime <==> Passes(i, limit)
    ensures isprime <==> forall j: nat :: 2 <= j < limit / 2 && j != i ==> i % j != 0
  {
    isprime := true;
    var j := 2;
    while j < limit / 2
      invariant j >= 2 && isprime
      invariant forall d: nat :: 2 <= d < j && i != d ==> !Divides(d, i)
      invariant forall d: nat :: 2 <= d < j && i != d ==> i % d != 0
    {
      if i != j && i % j == 0 {
        isprime := false;
        assert Divides(j, i);
        break;
      }
      j := j + 1;
    }
  }

  /** Room for the text is what the caller must provide: the program's own note that buf may overflow. */
  ghost predicate Fits(start: nat, limit: nat, room: nat)
    requires start <= limit
  {
    |Fields(Primes(start, limit))| < room
  }

  /** simple_primegen of mt_primes2.c and mt_primes1.c, on a zeroed buffer. */
  method SimplePrimegen(start: nat, limit: nat, buf: array<char>) returns (num_primes: nat)
    requires start <= limit < 0x8000_0000
    requires Holds(buf, "") && Fits(start, limit, buf.Length)
    modifies buf
    ensures num_primes == |Primes(start, limit)|
    ensures Holds(buf, Fields(Primes(start, limit)))
  {
    num_primes := 0;
    var i := start;
    while i <= limit
      invariant start <= i <= limit + 1
      invariant num_primes == |Emitted(start, limit, i)|
      invariant Holds(buf, Fields(Emitted(start, limit, i)))
    {
      var isprime := TrialDivision(i, limit);
      if isprime {
        num_primes := num_primes + 1;
        AppendNumber(start, limit, i, buf);
      }
      i := i + 1;
    }
  }

  /** snprintf of one number and strncat of it. */
  method AppendNumber(start: nat, limit: nat, i: nat, buf: array<char>)
    requires start <= i <= limit && Passes(i, limit)
    requires Holds(buf, Fields(Emitted(start, limit, i))) && Fits(start, limit, buf.Length)
    modifies buf
    ensures Holds(buf, Fields(Emitted(start, limit, i + 1)))
    ensures |Emitted(start, limit, i + 1)| == |Emitted(start, limit, i)| + 1
  {
    RoomForNext(start, limit, i);
    FieldPrintable(i);
    Append(buf, Field(i), Fields(Emitted(start, limit, i)));
  }

  lemma RoomForNext(start: nat, limit: nat, i: nat)
    requires start <= i <= limit && Passes(i, limit)
    ensures Emitted(start, limit, i + 1) == Emitted(start, limit, i) + [i]
    ensures Fields(Emitted(start, limit, i + 1)) == Fields(Emitted(start, limit, i)) + Field(i)
    ensures |Fields(Emitted(start, limit, i))| + |Field(i)| <= |Fields(Primes(start, limit))|
  {
    FieldsGrow(Emitted(start, limit, i), i);
    EmittedPrefix(start, limit, i + 1, limit + 1);
    FieldsPrefix(Primes(start, limit), Emitted(start, limit, i + 1));
  }

  lemma FieldsGrow(s: seq<nat>, n: nat)
    ensures Fields(s + [n]) == Fields(s) + Field(n)
  {
    assert (s + [n])[..|s|] == s;
  }

  lemma {:induction false} EmittedPrefix(start: nat, limit: nat, upto: nat, end: nat)
    requires start <= upto <= end
    ensures Emitted(start, limit, upto) <= Emitted(start, limit, end)
  {
    if upto < end {
      EmittedPrefix(start, limit, upto, end - 1);
    }
  }

  lemma {:induction false} FieldsPrefix(s: seq<nat>, front: seq<nat>)
    requires front <= s
    ensures |Fields(front)| <= |Fields(s)|
  {
    if |front| < |s| {
      FieldsPrefix(s[..|s| - 1], front);
    } else {
      assert front == s;
    }
  }

  const WRAP := 16

  const HEAD := "  2,  3, "

  function Break(k: nat): string { if k % WRAP == 0 then "\n" else "" }

  /** The program's text for the first k numbers of a list, 2 and 3 included: a line break after every 16th. */
  function Listing(s: seq<nat>, k: nat): string
    requires k <= |s|
  {
    if k <= 2 then HEAD else Listing(s, k - 1) + Field(s[k - 1]) + Break(k)
  }

  /** The first k characters of a text without the line breaks among them. */
  function UnwrappedTo(text: string, k: nat): string
    requires k <= |text|
  {
    if k == 0 then "" else UnwrappedTo(text, k - 1) + if text[k - 1] == '\n' then "" else [text[k - 1]]
  }

  function Unwrapped(text: string): string { UnwrappedTo(text, |text|) }

  lemma {:induction false} UnwrappedFront(x: string, y: string, k: nat)
    requires k <= |x|
    ensures UnwrappedTo(x + y, k) == UnwrappedTo(x, k)
  {
    if k > 0 {
      UnwrappedFront(x, y, k - 1);
    }
  }

  lemma {:induction false} UnwrappedPlain(x: string, y: string, k: nat)
    requires k <= |y| && forall i :: 0 <= i < |y| ==> y[i] != '\n'
    ensures UnwrappedTo(x + y, |x| + k) == Unwrapped(x) + y[..k]
  {
    if k == 0 {
      UnwrappedFront(x, y, |x|);
      assert Unwrapped(x) + y[..0] == Unwrapped(x);
    } else {
      UnwrappedPlain(x, y, k - 1);
      ThreeParts(Unwrapped(x), y[..k - 1], [y[k - 1]]);
      assert y[..k] == y[..k - 1] + [y[k - 1]];
    }
  }

  lemma ThreeParts(x: string, y: string, z: string)
    ensures (x + y) + z == x + (y + z) && x + "" == x
  {
  }

  lemma UnwrappedNext(text: string, n: nat, k: nat)
    ensures Unwrapped((text + Field(n)) + Break(k)) == Unwrapped(text) + Field(n)
  {
    var f, longer := Field(n), text + Field(n);
    FieldPrintable(n);
    UnwrappedPlain(text, f, |f|);
    assert f[..|f|] == f;
    UnwrappedFront(longer, Break(k), |longer|);
    if k % WRAP == 0 {
      assert (longer + Break(k))[|longer|] == '\n';
      ThreeParts(Unwrapped(longer), "", "");
    } else {
      assert longer + Break(k) == longer;
    }
  }

  lemma HeadUnwrapped()
    ensures Unwrapped(HEAD) == HEAD
  {
    var head := HEAD;
    UnwrappedPlain("", head, |head|);
    assert "" + head == head && head[..|head|] == head;
  }

  lemma FieldsNext(s: seq<nat>, k: nat)
    requires 2 < k <= |s|
    ensures Fields(s[2..k]) == Fields(s[2..k - 1]) + Field(s[k - 1])
  {
    assert s[2..k] == s[2..k - 1] + [s[k - 1]];
    FieldsGrow(s[2..k - 1], s[k - 1]);
  }

  lemma {:induction false} ListingUnwrapped(s: seq<nat>, k: nat)
    requires 2 <= k <= |s|
    ensures Unwrapped(Listing(s, k)) == HEAD + Fields(s[2..k])
  {
    if k == 2 {
      HeadUnwrapped();
      ThreeParts(HEAD, "", "");
    } else {
      ListingUnwrapped(s, k - 1);
      FieldsNext(s, k);
      NextUnwrapped(Listing(s, k - 1), Fields(s[2..k - 1]), s[k - 1], k);
    }
  }

  lemma NextUnwrapped(text: string, fields: string, n: nat, k: nat)
    requires Unwrapped(text) == HEAD + fields
    ensures Unwrapped((text + Field(n)) + Break(k)) == HEAD + (fields + Field(n))
  {
    UnwrappedNext(text, n, k);
    ThreeParts(HEAD, fields, Field(n));
  }

  lemma {:induction false} ListingLength(s: seq<nat>, k: nat)
    requires 2 <= k <= |s|
    ensures |Listing(s, k)| == |HEAD + Fields(s[2..k])| + k / WRAP
  {
    if k > 2 {
      ListingLength(s, k - 1);
      FieldsNext(s, k);
    }
  }

  /** The listing without its line breaks is the first two numbers and then the fields of the others; it has
      one line break for every 16 numbers. */
  lemma ListingReads(s: seq<nat>, k: nat)
    requires 2 <= k <= |s|
    ensures Unwrapped(Listing(s, k)) == "  2,  3, " + Fields(s[2..k])
    ensures |Listing(s, k)| == |Unwrapped(Listing(s, k))| + k / 16
    ensures Listing(s, k)[|Listing(s, k)| - 1] == if k % 16 == 0 then '\n' else ' '
  {
    ListingUnwrapped(s, k);
    ListingLength(s, k);
    ListingEnd(s, k);
  }

  lemma ListingEnd(s: seq<nat>, k: nat)
    requires 2 <= k <= |s|
    ensures |Listing(s, k)| > 0
    ensures Listing(s, k)[|Listing(s, k)| - 1] == if k % WRAP == 0 then '\n' else ' '
  {
    if k > 2 {
      var text, f := Listing(s, k - 1), Field(s[k - 1]);
      assert f[|f| - 1] == ' ';
      assert Listing(s, k) == (text + f) + Break(k);
    }
  }

  lemma {:induction false} ListingPrefix(s: seq<nat>, t: seq<nat>, k: nat)
    requires k <= |s| && s <= t
    ensures Listing(s, k) == Listing(t, k)
  {
    if k > 2 {
      ListingPrefix(s, t, k - 1);
    }
  }

  /** 2, 3 and what the loop of rlimit_primes.c emits. */
  ghost function Listed(limit: nat, upto: nat): seq<nat>
    requires 4 <= upto
  {
    [2, 3] + Emitted(4, limit, upto)
  }

  lemma ListedNext(limit: nat, upto: nat)
    requires 4 <= upto && Passes(upto, limit)
    ensures var s := Listed(limit, upto);
      && |Listed(limit, upto + 1)| == |s| + 1
      && Listing(Listed(limit, upto + 1), |s| + 1) == Listing(s, |s|) + Field(upto) + Break(|s| + 1)
  {
    var s := Listed(limit, upto);
    assert Listed(limit, upto + 1) == s + [upto];
    ListingPrefix(s, s + [upto], |s|);
  }

  /** They are exactly the primes up to the limit, and 4 when it is 5. */
  lemma ListedPrimes(limit: nat)
    requires limit > 4
    ensures var s := Listed(limit, limit + 1);
      && Increasing(s)
      && forall x: nat :: x in s <==> (
           2 <= x <= limit
           && ((forall a: nat, b: nat :: a >= 2 && b >= 2 ==> a * b != x) || (x == 4 && limit == 5)))
  {
    EmitsPrimes(4, limit);
    EmittedOrdered(4, limit, limit + 1);
    TwoAndThree();
  }

  /** simple_primegen of rlimit_primes.c: 2 and 3 are printed outright, the loop starts at 4. */
  method RlimitPrimegen(limit: nat) returns (num: nat, text: string)
    requires 4 < limit < 0x8000_0000
    ensures num == |Listed(limit, limit + 1)|
    ensures text == Listing(Listed(limit, limit + 1), num) + "\n"
  {
    num, text := 2, HEAD;
    var i := 4;
    while i <= limit
      invariant 4 <= i <= limit + 1
      invariant num == |Listed(limit, i)| && text == Listing(Listed(limit, i), num)
    {
      var isprime := TrialDivision(i, limit);
      if isprime {
        num := num + 1;
        text := text + Field(i) + Break(num);
        ListedNext(limit, i);
      } else {
        assert Listed(limit, i + 1) == Listed(limit, i);
      }
      i := i + 1;
    }
    text := text + "\n";
  }

  lemma TwoAndThree()
    ensures Prime(2) && Prime(3)
  {
    PrimeExactly(2);
    PrimeExactly(3);
  }
}
