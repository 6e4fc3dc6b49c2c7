/** ch18/sgio_simple.c: build a file of data separated by holes, either by seek and write for each piece
or by one gathered write in which the holes are pieces of zeros. */
module ScatterGather {
  import opened Files
  import opened Heap

  /** A hole followed by data. */
  datatype Segment = Segment(hole: nat, data: seq<byte>)

  /** Where the data of the first k segments ends, which is where the next hole starts. */
  function EndOf(segs: seq<Segment>, k: nat): nat
    requires k <= |segs|
  {
    if k == 0 then 0 else EndOf(segs, k - 1) + segs[k - 1].hole + |segs[k - 1].data|
  }

  /** Prefix sums: the start offset of the data of segment k. */
  function StartOf(segs: seq<Segment>, k: nat): nat
    requires k < |segs|
  {
    EndOf(segs, k) + segs[k].hole
  }

  /** The file after seeking to and writing the first k data pieces. */
  function Sought(file: seq<byte>, segs: seq<Segment>, k: nat): seq<byte>
    requires k <= |segs|
  {
    if k == 0 then file else WriteAt(Sought(file, segs, k - 1), StartOf(segs, k - 1), segs[k - 1].data)
  }

  /** The bytes of one gathered write. */
  function Gathered(segs: seq<Segment>, k: nat): seq<byte>
    requires k <= |segs|
  {
    if k == 0 then [] else Gathered(segs, k - 1) + Zeros(segs[k - 1].hole) + segs[k - 1].data
  }

  /** An open file with its seek position. */
  class Stream {
    var contents: seq<byte>
    var pos: nat

    constructor (contents: seq<byte>)
      ensures this.contents == contents && pos == 0
    {
      this.contents := contents;
      pos := 0;
    }

    method Seek(off: nat)
      modifies this`pos
      ensures pos == off
    {
      pos := off;
    }

    /** A complete write(2). */
    method Write(data: seq<byte>)
      modifies this
      ensures contents == WriteAt(old(contents), old(pos), data) && pos == old(pos) + |data|
    {
      contents := WriteAt(contents, pos, data);
      pos := pos + |data|;
    }

    /** A complete writev(2): the pieces in order, as one write. */
    method Writev(iov: array<seq<byte>>, n: nat)
      requires n <= iov.Length
      modifies this
      ensures contents == WriteAt(old(contents), old(pos), Flatten(iov[..n]))
    {
      var all: seq<byte> := [];
      for i := 0 to n
        invariant all == Flatten(iov[..i])
      {
        assert iov[..i + 1][..i] == iov[..i];
        all := all + iov[i];
      }
      contents := WriteAt(contents, pos, all);
      pos := pos + |all|;
    }
  }

  function Flatten(pieces: seq<seq<byte>>): seq<byte> {
    if pieces == [] then [] else Flatten(pieces[..|pieces| - 1]) + pieces[|pieces| - 1]
  }

  /** wr_discontig_the_normal_way, for any segments: one seek and one write each, at precomputed offsets. */
  method NormalWay(fd: Stream, segs: seq<Segment>)
    modifies fd
    ensures fd.contents == Sought(old(fd.contents), segs, |segs|)
  {
    for k := 0 to |segs|
      invariant fd.contents == Sought(old(fd.contents), segs, k)
    {
      fd.Seek(StartOf(segs, k));
      fd.Write(segs[k].data);
    }
  }

  /** wr_discontig_the_better_SGIO_way: fill the iovec array by index, hole and data in turn, then write it
      in one call from the start of the file. */
  method GatherWay(fd: Stream, segs: seq<Segment>)
    requires fd.pos == 0
    modifies fd
    ensures fd.contents == WriteAt(old(fd.contents), 0, Gathered(segs, |segs|))
  {
    var iov := new seq<byte>[2 * |segs|](_ => []);
    var i := 0;
    for k := 0 to |segs|
      invariant i == 2 * k && unchanged(fd)
      invariant Flatten(iov[..i]) == Gathered(segs, k)
    {
      FlattenTwo(iov[..i], Zeros(segs[k].hole), segs[k].data);
      ghost var next := iov[..i] + [Zeros(segs[k].hole), segs[k].data];
      iov[i] := Zeros(segs[k].hole);
      i := i + 1;
      iov[i] := segs[k].data;
      i := i + 1;
      assert iov[..i] == next;
    }
    fd.Writev(iov, i);
  }

  lemma FlattenTwo(pieces: seq<seq<byte>>, a: seq<byte>, b: seq<byte>)
    ensures Flatten(pieces + [a, b]) == Flatten(pieces) + a + b
  {
    var two := pieces + [a, b];
    assert two[..|two| - 1] == pieces + [a];
    assert (pieces + [a])[..|pieces|] == pieces;
  }

  // Where do the two ways agree?

  /** Offset p belongs to the data of one of the first k segments. */
  ghost predicate InData(segs: seq<Segment>, k: nat, p: nat)
    requires k <= |segs|
  {
    exists j :: 0 <= j < k && StartOf(segs, j) <= p < EndOf(segs, j + 1)
  }

  /** End of the last data that is not empty: trailing holes are not counted. */
  function DataEnd(segs: seq<Segment>, k: nat): nat
    requires k <= |segs|
  {
    if k == 0 then 0 else if segs[k - 1].data == [] then DataEnd(segs, k - 1) else EndOf(segs, k)
  }

  lemma InDataNext(segs: seq<Segment>, k: nat, p: nat)
    requires k < |segs|
    ensures InData(segs, k + 1, p) <==> InData(segs, k, p) || StartOf(segs, k) <= p < EndOf(segs, k + 1)
  {
    if InData(segs, k + 1, p) {
      var j :| 0 <= j < k + 1 && StartOf(segs, j) <= p < EndOf(segs, j + 1);
    }
  }

  /** One segment more of the gathered bytes. */
  lemma GatheredNext(segs: seq<Segment>, k: nat, p: nat)
    requires k < |segs| && |Gathered(segs, k)| == EndOf(segs, k)
    ensures |Gathered(segs, k + 1)| == EndOf(segs, k + 1)
    ensures p < EndOf(segs, k) ==> Gathered(segs, k + 1)[p] == Gathered(segs, k)[p]
    ensures EndOf(segs, k) <= p < StartOf(segs, k) ==> Gathered(segs, k + 1)[p] == 0
    ensures StartOf(segs, k) <= p < EndOf(segs, k + 1) ==>
      Gathered(segs, k + 1)[p] == segs[k].data[p - StartOf(segs, k)]
  {
    var g := Gathered(segs, k) + Zeros(segs[k].hole);
    assert Gathered(segs, k + 1) == g + segs[k].data;
    assert |g| == StartOf(segs, k);
  }

  /** The gathered bytes: zeros in the holes. */
  lemma {:induction false} GatheredAt(segs: seq<Segment>, k: nat, p: nat)
    requires k <= |segs|
    ensures |Gathered(segs, k)| == EndOf(segs, k)
    ensures p < EndOf(segs, k) && !InData(segs, k, p) ==> Gathered(segs, k)[p] == 0
    ensures InData(segs, k, p) ==> p < EndOf(segs, k)
  {
    if k > 0 {
      GatheredAt(segs, k - 1, p);
      GatheredNext(segs, k - 1, p);
      InDataNext(segs, k - 1, p);
    }
  }

  lemma {:induction false} SoughtLength(file: seq<byte>, segs: seq<Segment>, k: nat)
    requires k <= |segs|
    ensures |Sought(file, segs, k)| == Max(|file|, DataEnd(segs, k)) && DataEnd(segs, k) <= EndOf(segs, k)
  {
    if k > 0 {
      SoughtLength(file, segs, k - 1);
    }
  }

  /** What one write does to the byte at p. */
  lemma WriteByte(file: seq<byte>, off: nat, data: seq<byte>, p: nat)
    ensures var s := WriteAt(file, off, data);
      && |file| <= |s|
      && (off <= p < off + |data| ==> p < |s| && s[p] == data[p - off])
      && (p < |s| && !(off <= p < off + |data|) ==> s[p] == if p < |file| then file[p] else 0)
  {
  }

  /** The byte at p of the file sought and written: the gathered one where there is data, that of the old
      file (zero beyond its end) elsewhere. */
  ghost predicate SoughtByte(file: seq<byte>, segs: seq<Segment>, k: nat, p: nat)
    requires k <= |segs|
  {
    var s := Sought(file, segs, k);
    && |Gathered(segs, k)| == EndOf(segs, k) && |file| <= |s|
    && (InData(segs, k, p) ==> p < |s| && p < EndOf(segs, k) && s[p] == Gathered(segs, k)[p])
    && (p < |s| && !InData(segs, k, p) ==> s[p] == if p < |file| then file[p] else 0)
  }

  lemma {:induction false} SoughtAt(file: seq<byte>, segs: seq<Segment>, k: nat, p: nat)
    requires k <= |segs|
    ensures SoughtByte(file, segs, k, p)
  {
    if k > 0 {
      SoughtAt(file, segs, k - 1, p);
      SoughtNext(file, segs, k - 1, p);
    }
  }

  lemma SoughtNext(file: seq<byte>, segs: seq<Segment>, k: nat, p: nat)
    requires k < |segs| && SoughtByte(file, segs, k, p)
    ensures SoughtByte(file, segs, k + 1, p)
  {
    var before, start := Sought(file, segs, k), StartOf(segs, k);
    InDataNext(segs, k, p);
    GatheredNext(segs, k, p);
    WriteByte(before, start, segs[k].data, p);
  }

  /** On any old file the two ways differ only inside the holes, where seeking keeps the old byte and
      gathering writes zero; and the gathered file is longer by the trailing holes, if those reach beyond
      the old end. */
  lemma DifferOnlyInHoles(file: seq<byte>, segs: seq<Segment>, p: nat)
    ensures var sought, gathered := Sought(file, segs, |segs|), WriteAt(file, 0, Gathered(segs, |segs|));
      && |sought| == Max(|file|, DataEnd(segs, |segs|)) && |gathered| == Max(|file|, EndOf(segs, |segs|))
      && |sought| <= |gathered|
      && (p < |sought| && (InData(segs, |segs|, p) || p >= EndOf(segs, |segs|)) ==> sought[p] == gathered[p])
      && (p < |sought| && p < EndOf(segs, |segs|) && !InData(segs, |segs|, p) ==>
            gathered[p] == 0 && sought[p] == if p < |file| then file[p] else 0)
  {
    GatheredAt(segs, |segs|, p);
    SoughtLength(file, segs, |segs|);
    SoughtAt(file, segs, |segs|, p);
  }

  /** No hole follows the last data. */
  predicate NoTrailingHole(segs: seq<Segment>) {
    DataEnd(segs, |segs|) == EndOf(segs, |segs|)
  }

  /** On a new file the two ways give the same file if and only if no hole trails the last data; in
      particular when every data piece is non-empty, as in the program. */
  lemma SameOnNewFile(segs: seq<Segment>)
    ensures Sought([], segs, |segs|) == WriteAt([], 0, Gathered(segs, |segs|)) <==> NoTrailingHole(segs)
    ensures (forall k :: 0 <= k < |segs| ==> segs[k].data != []) ==> NoTrailingHole(segs)
  {
    var sought, gathered := Sought([], segs, |segs|), WriteAt([], 0, Gathered(segs, |segs|));
    DifferOnlyInHoles([], segs, 0);
    if NoTrailingHole(segs) {
      forall p: nat | p < |sought| ensures sought[p] == gathered[p] {
        DifferOnlyInHoles([], segs, p);
      }
    }
  }

  /** The program's three pieces and the offsets of its A_START_OFF, B_START_OFF and C_START_OFF. */
  lemma OwnOffsets(a: seq<byte>, b: seq<byte>, c: seq<byte>)
    requires |a| == 20 && |b| == 30 && |c| == 42
    ensures var segs := [Segment(10, a), Segment(100, b), Segment(20, c)];
      StartOf(segs, 0) == 10 && StartOf(segs, 1) == 10 + 20 + 100 && StartOf(segs, 2) == 10 + 20 + 100 + 30 + 20
  {
    var segs := [Segment(10, a), Segment(100, b), Segment(20, c)];
    assert EndOf(segs, 1) == 30 && EndOf(segs, 2) == 160;
  }

  /** The program's segments: 20 'A', 30 'B' and 42 'C' behind holes of 10, 100 and 20. */
  function OwnSegments(): seq<Segment> {
    [Segment(10, seq(20, _ => 65)), Segment(100, seq(30, _ => 66)), Segment(20, seq(42, _ => 67))]
  }

  lemma OwnGathered()
    ensures var segs := OwnSegments();
      Gathered(segs, 3) ==
        Zeros(10) + segs[0].data + Zeros(100) + segs[1].data + Zeros(20) + segs[2].data
  {
    var segs := OwnSegments();
    assert Gathered(segs, 0) == [];
    assert Gathered(segs, 1) == Zeros(10) + segs[0].data;
    assert Gathered(segs, 2) == Gathered(segs, 1) + Zeros(100) + segs[1].data;
  }

  function OwnByte(p: nat): byte {
    if 10 <= p < 30 then 65 else if 130 <= p < 160 then 66 else if 180 <= p < 222 then 67 else 0
  }

  /** An instance: on a new file both ways leave these 222 bytes. */
  lemma OwnFile()
    ensures var file := Sought([], OwnSegments(), 3);
      && file == WriteAt([], 0, Gathered(OwnSegments(), 3))
      && |file| == 222 && forall p :: 0 <= p < 222 ==> file[p] == OwnByte(p)
  {
    SameOnNewFile(OwnSegments());
    OwnGathered();
  }

  // setup_buffers_goto: four allocations, released in reverse order when a later one fails

  datatype Buffers = Buffers(a: Mem, b: Mem, c: Mem, hole: Mem)

  /** fails: which malloc fails, if any (0 to 3).  On failure nothing stays allocated and the result tells
      which allocation it was; on success all four buffers are live, and text holds what memset put into them.
      No buffer is freed twice. */
  method SetupBuffers(fails: int) returns (ret: int, m: Buffers, text: seq<seq<byte>>)
    ensures 0 <= fails < 4 ==> ret == -1 - fails
    ensures !(0 <= fails < 4) ==> ret == 0 && m == Buffers(Mem(1, 0), Mem(1, 0), Mem(1, 0), Mem(1, 0))
    ensures ret != 0 ==>
      && m.a == (if fails > 0 then Mem(1, 1) else Mem(0, 0)) && m.b == (if fails > 1 then Mem(1, 1) else Mem(0, 0))
      && m.c == (if fails > 2 then Mem(1, 1) else Mem(0, 0)) && m.hole == Mem(0, 0)
    ensures ret == 0 ==>
      text == [OwnSegments()[0].data, OwnSegments()[1].data, OwnSegments()[2].data, Zeros(130)]
  {
    m := Buffers(UNBORN, UNBORN, UNBORN, UNBORN);
    text := [];
    label out: {
      label outFreeA: {
        label outFreeB: {
          label outFreeC: {
            ret := -1;
            if fails == 0 { break out; }
            m := m.(a := Allocate(m.a));
            text := text + [seq(20, _ => 65)];
            ret := -2;
            if fails == 1 { break outFreeA; }
            m := m.(b := Allocate(m.b));
            text := text + [seq(30, _ => 66)];
            ret := -3;
            if fails == 2 { break outFreeB; }
            m := m.(c := Allocate(m.c));
            text := text + [seq(42, _ => 67)];
            ret := -4;
            if fails == 3 { break outFreeC; }
            m := m.(hole := Allocate(m.hole));
            text := text + [seq(130, _ => 0)];
            return 0, m, text;
          }
          m := m.(c := Free(m.c));
        }
        m := m.(b := Free(m.b));
      }
      m := m.(a := Free(m.a));
    }
  }
}
