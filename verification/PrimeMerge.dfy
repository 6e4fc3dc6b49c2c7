/** The text form of a prime list and its merge into one file: solutions_to_assgn/ch16/mt_primes2.c. */
module PrimeMerge {
  import opened Files
  import opened PrimeGen
  import opened Text

  const MEM_SIZE := 100000

  /** Every field is 8 characters wide exactly while the number is below 1000000. */
  lemma FieldWidth(n: nat)
    ensures |Field(n)| >= 8
    ensures |Field(n)| == 8 <==> n < 1000000
  {
    DecimalLength(n, 6);
    assert Pow10(6) == 1000000 by {
      assert Pow10(3) == 1000;
    }
  }

  ghost predicate Below(s: seq<nat>, bound: nat) {
    forall i :: 0 <= i < |s| ==> s[i] < bound
  }

  /** strlen(buf) == 8 * num_primes. */
  lemma {:induction false} FieldsLength(s: seq<nat>)
    requires Below(s, 1000000)
    ensures |Fields(s)| == 8 * |s|
  {
    if s != [] {
      FieldsLength(s[..|s| - 1]);
      FieldWidth(s[|s| - 1]);
    }
  }

  /** Character p of the i-th field of the text is that of the i-th number. */
  lemma {:induction false} FieldsAt(s: seq<nat>, i: nat, p: nat)
    requires Below(s, 1000000) && i < |s| && p < 8
    ensures |Fields(s)| == 8 * |s| && |Field(s[i])| == 8 && Fields(s)[8 * i + p] == Field(s[i])[p]
  {
    var k := |s| - 1;
    FieldsLength(s);
    FieldsLength(s[..k]);
    FieldWidth(s[k]);
    if i < k {
      FieldsAt(s[..k], i, p);
    }
  }

  /** A range below 1000000 fits the buffer of MEM_SIZE bytes exactly when it emits at most 12499 numbers;
      so any range of at most 12499 numbers fits. */
  lemma BufferSuffices(start: nat, limit: nat)
    requires start <= limit < 1000000
    ensures Fits(start, limit, 100000) <==> |Primes(start, limit)| <= 12499
    ensures limit - start + 1 <= 12499 ==> Fits(start, limit, 100000)
  {
    EmittedOrdered(start, limit, limit + 1);
    FieldsLength(Primes(start, limit));
  }

  // Reading the text back

  function SkipSpaces(s: string): string {
    if s != [] && s[0] == ' ' then SkipSpaces(s[1..]) else s
  }

  /** The number in one 8-byte field. */
  function ParseField(f: string): nat {
    if |f| < 2 then 0 else Value(SkipSpaces(f[..|f| - 2]))
  }

  function Parse(text: string): seq<nat> {
    if |text| < 8 then [] else [ParseField(text[..8])] + Parse(text[8..])
  }

  lemma {:induction false} SkipPadding(k: nat, s: string)
    requires s != [] && s[0] != ' '
    ensures SkipSpaces(seq(k, _ => ' ') + s) == s
  {
    var p := seq(k, _ => ' ') + s;
    if k == 0 {
      assert p == s;
    } else {
      assert p[1..] == seq(k - 1, _ => ' ') + s;
      SkipPadding(k - 1, s);
    }
  }

  lemma ParseOneField(n: nat)
    ensures ParseField(Field(n)) == n
  {
    var d := Decimal(n);
    var p := PadLeft(d, 6, ' ');
    assert Field(n)[..|Field(n)| - 2] == p;
    assert IsDigit(d[0]);
    SkipPadding(if |d| < 6 then 6 - |d| else 0, d);
    assert seq(0, _ => ' ') + d == d;
    ValueDecimal(n);
  }

  lemma ParseHead(f: string, rest: string)
    requires |f| == 8
    ensures Parse(f + rest) == [ParseField(f)] + Parse(rest)
  {
    assert (f + rest)[..8] == f && (f + rest)[8..] == rest;
  }

  /** Splitting into 8-byte fields recovers the emitted list, also when more text follows. */
  lemma {:induction false} ParseFields(s: seq<nat>, rest: string)
    requires Below(s, 1000000)
    ensures Parse(Fields(s) + rest) == s + Parse(rest)
  {
    if s == [] {
      assert Fields(s) + rest == rest;
    } else {
      var front, n := s[..|s| - 1], s[|s| - 1];
      FieldWidth(n);
      ParseOneField(n);
      Associate(Fields(front), Field(n), rest);
      ParseFields(front, Field(n) + rest);
      ParseHead(Field(n), rest);
      Associate(front, [n], Parse(rest));
      assert front + [n] == s;
    }
  }

  lemma Associate<T>(a: seq<T>, b: seq<T>, c: seq<T>)
    ensures (a + b) + c == a + (b + c)
  {
  }

  // write_the_primes: the buffers of all threads but one, in thread order

  datatype Range = Range(start: nat, limit: nat)

  ghost predicate ValidRanges(ranges: seq<Range>) {
    && (forall i :: 0 <= i < |ranges| ==> ranges[i].start <= ranges[i].limit < 1000000)
    && forall i, j :: 0 <= i < j < |ranges| ==> ranges[i].limit < ranges[j].start
  }

  /** main's three ranges are increasing and disjoint, and each one's text fits its buffer. */
  lemma OwnRanges(ranges: seq<Range>)
    requires ranges == [Range(1, 5000), Range(5001, 10000), Range(20000, 20101)]
    ensures ValidRanges(ranges)
    ensures forall i :: 0 <= i < |ranges| ==> Fits(ranges[i].start, ranges[i].limit, MEM_SIZE)
  {
    forall i | 0 <= i < |ranges| ensures Fits(ranges[i].start, ranges[i].limit, MEM_SIZE) {
      ShortRangeFits(ranges[i]);
    }
  }

  lemma ShortRangeFits(r: Range)
    requires r.start <= r.limit < 1000000 && r.limit - r.start < 12499
    ensures Fits(r.start, r.limit, MEM_SIZE)
  {
    BufferSuffices(r.start, r.limit);
  }

  /** The text in the buffer of a thread that ran to its end. */
  ghost function TextOf(r: Range): string {
    if r.start <= r.limit then Fields(Primes(r.start, r.limit)) else ""
  }

  function Merge(texts: seq<string>, skip: nat): string {
    if texts == [] then ""
    else Merge(texts[..|texts| - 1], skip) + if |texts| - 1 == skip then "" else texts[|texts| - 1]
  }

  /** write(2) of data at position pos. */
  function Overwrite(file: string, pos: nat, data: string): string {
    if data == "" then file
    else
      seq(Max(|file|, pos + |data|), i =>
        if pos <= i < pos + |data| then data[i - pos] else if 0 <= i < |file| then file[i] else '\0')
  }

  lemma OverwriteExtends(text: string, old_: string, data: string)
    ensures Overwrite(Overlay(text, old_), |text|, data) == Overlay(text + data, old_)
  {
  }

  /** write_the_primes, on complete writes from position 0 of a file with old contents. */
  method WriteThePrimes(iobufs: seq<string>, gCanceledThread: nat, old_: string) returns (file: string)
    ensures file == Overlay(Merge(iobufs, gCanceledThread), old_)
  {
    file := old_;
    var pos := 0;
    for i := 0 to |iobufs|
      invariant pos == |Merge(iobufs[..i], gCanceledThread)|
      invariant file == Overlay(Merge(iobufs[..i], gCanceledThread), old_)
    {
      assert iobufs[..i + 1][..i] == iobufs[..i];
      ghost var sofar := Merge(iobufs[..i], gCanceledThread);
      assert sofar + "" == sofar;
      OverwriteExtends(sofar, old_, iobufs[i]);
      if i != gCanceledThread {
        file := Overwrite(file, pos, iobufs[i]);
        pos := pos + |iobufs[i]|;
      }
    }
    assert iobufs[..|iobufs|] == iobufs;
  }

  ghost function Texts(ranges: seq<Range>): seq<string> {
    seq(|ranges|, i requires 0 <= i < |ranges| => TextOf(ranges[i]))
  }

  /** The lists of the threads that are not skipped, one after the other. */
  ghost function Lists(ranges: seq<Range>, skip: nat): seq<nat> {
    if ranges == [] then []
    else
      var k := |ranges| - 1;
      if k == skip || ranges[k].start > ranges[k].limit then Lists(ranges[..k], skip)
      else Lists(ranges[..k], skip) + Primes(ranges[k].start, ranges[k].limit)
  }

  /** The last thread's share of the text and of the lists. */
  lemma LastShare(ranges: seq<Range>, skip: nat)
    requires ranges != [] && ValidRanges(ranges)
    ensures var k := |ranges| - 1;
      && Merge(Texts(ranges), skip) == Merge(Texts(ranges[..k]), skip) + (if k == skip then "" else TextOf(ranges[k]))
      && Lists(ranges, skip)
           == Lists(ranges[..k], skip) + (if k == skip then [] else Primes(ranges[k].start, ranges[k].limit))
  {
    var k := |ranges| - 1;
    assert Texts(ranges)[..k] == Texts(ranges[..k]);
    assert Lists(ranges[..k], skip) + [] == Lists(ranges[..k], skip);
  }

  lemma {:induction false} MergeIsLists(ranges: seq<Range>, skip: nat, rest: string)
    requires ValidRanges(ranges)
    ensures Parse(Merge(Texts(ranges), skip) + rest) == Lists(ranges, skip) + Parse(rest)
  {
    if ranges == [] {
      assert Merge(Texts(ranges), skip) + rest == rest;
    } else {
      var k := |ranges| - 1;
      var r := ranges[k];
      var text := if k == skip then "" else TextOf(r);
      var list := if k == skip then [] else Primes(r.start, r.limit);
      LastShare(ranges, skip);
      Associate(Merge(Texts(ranges[..k]), skip), text, rest);
      MergeIsLists(ranges[..k], skip, text + rest);
      TextParses(r, k == skip, rest);
      Associate(Lists(ranges[..k], skip), list, Parse(rest));
    }
  }

  lemma TextParses(r: Range, skipped: bool, rest: string)
    requires r.start <= r.limit < 1000000
    ensures Parse((if skipped then "" else TextOf(r)) + rest)
         == (if skipped then [] else Primes(r.start, r.limit)) + Parse(rest)
  {
    if skipped {
      assert "" + rest == rest;
    } else {
      EmittedOrdered(r.start, r.limit, r.limit + 1);
      ParseFields(Primes(r.start, r.limit), rest);
    }
  }

  lemma {:induction false} ListsIncreasing(ranges: seq<Range>, skip: nat)
    requires ValidRanges(ranges)
    ensures Increasing(Lists(ranges, skip))
    ensures forall i :: 0 <= i < |Lists(ranges, skip)| ==>
      |ranges| > 0 && Lists(ranges, skip)[i] <= ranges[|ranges| - 1].limit
  {
    if ranges != [] {
      var k := |ranges| - 1;
      var list := Primes(ranges[k].start, ranges[k].limit);
      ListsIncreasing(ranges[..k], skip);
      EmittedOrdered(ranges[k].start, ranges[k].limit, ranges[k].limit + 1);
      if k > 0 {
        assert ranges[k - 1].limit < ranges[k].start;
      }
      var front := Lists(ranges[..k], skip);
      assert forall i, j :: 0 <= i < |front| && 0 <= j < |list| ==> front[i] < list[j];
    }
  }

  ghost predicate EmittedBy(ranges: seq<Range>, t: nat, x: nat) {
    t < |ranges| && ranges[t].start <= ranges[t].limit && x in Primes(ranges[t].start, ranges[t].limit)
  }

  ghost predicate EmittedUnskipped(ranges: seq<Range>, skip: nat, x: nat) {
    exists t: nat :: t != skip && EmittedBy(ranges, t, x)
  }

  lemma EmittedLast(ranges: seq<Range>, skip: nat, x: nat)
    requires ranges != []
    ensures var k := |ranges| - 1;
      EmittedUnskipped(ranges, skip, x) <==>
        EmittedUnskipped(ranges[..k], skip, x) || (k != skip && EmittedBy(ranges, k, x))
  {
    var k := |ranges| - 1;
    var front := ranges[..k];
    if EmittedUnskipped(front, skip, x) {
      var t: nat :| t != skip && EmittedBy(front, t, x);
      assert EmittedBy(ranges, t, x);
    }
    if EmittedUnskipped(ranges, skip, x) {
      var t: nat :| t != skip && EmittedBy(ranges, t, x);
      assert t < k ==> EmittedBy(front, t, x);
    }
  }

  lemma InEither<T>(x: T, a: seq<T>, b: seq<T>)
    ensures x in a + b <==> x in a || x in b
  {
  }

  lemma {:induction false} ListsMembers(ranges: seq<Range>, skip: nat, x: nat)
    requires ValidRanges(ranges)
    ensures x in Lists(ranges, skip) <==> EmittedUnskipped(ranges, skip, x)
  {
    if ranges != [] {
      var k := |ranges| - 1;
      ListsMembers(ranges[..k], skip, x);
      EmittedLast(ranges, skip, x);
      LastShare(ranges, skip);
      var list := if k == skip then [] else Primes(ranges[k].start, ranges[k].limit);
      InEither(x, Lists(ranges[..k], skip), list);
    }
  }

  /** With increasing disjoint ranges below 1000000 the merged text parses to one strictly increasing
      list: exactly the numbers emitted by the threads that are not skipped. */
  lemma MergedFile(ranges: seq<Range>, skip: nat)
    requires ValidRanges(ranges)
    ensures var primes := Parse(Merge(Texts(ranges), skip));
      && Increasing(primes)
      && forall x: nat :: x in primes <==> EmittedUnskipped(ranges, skip, x)
  {
    var text := Merge(Texts(ranges), skip);
    MergeIsLists(ranges, skip, "");
    assert text + "" == text;
    assert Lists(ranges, skip) + Parse("") == Lists(ranges, skip);
    ListsIncreasing(ranges, skip);
    forall x: nat ensures x in Lists(ranges, skip) <==> EmittedUnskipped(ranges, skip, x) {
      ListsMembers(ranges, skip, x);
    }
  }
}
