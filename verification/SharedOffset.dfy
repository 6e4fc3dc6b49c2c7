/** ch10/fork_r6_of.c: parent and child each seek in the same open file and then write numlines lines; the
seek position is shared.  A seek is one step, and so is a write with the advance of the position. */
module SharedOffset {
  import opened Files
  import opened Runs

  const SEEK_TO := 10
  const LINE_SIZE := 80

  datatype Who = Child | Parent

  /** calloc and memset of the line buffer: lnsize - 1 letters and a newline. */
  function LineOf(w: Who): seq<byte> {
    seq(LINE_SIZE - 1, _ => if w.Child? then 99 else 112) + [10]
  }

  /** Ready: not yet in its seek; Writing(i): after the seek, i lines written. */
  datatype Pc = Ready | Writing(i: nat)

  datatype State = State(off: nat, file: seq<byte>, child: Pc, parent: Pc)

  function At(s: State, w: Who): Pc { if w.Child? then s.child else s.parent }

  function Move(s: State, w: Who, pc: Pc): State { if w.Child? then s.(child := pc) else s.(parent := pc) }

  ghost predicate Init(s: State) {
    s == State(0, [], Ready, Ready)
  }

  /** Where w seeks to. */
  function Target(lines: nat, w: Who): nat {
    if w.Child? then SEEK_TO else SEEK_TO + LINE_SIZE * lines
  }

  ghost predicate Step(lines: nat, w: Who, s: State, s': State) {
    match At(s, w)
    case Ready => s' == Move(s, w, Writing(0)).(off := Target(lines, w))
    case Writing(i) =>
      && i < lines
      && s' == Move(s, w, Writing(i + 1)).(off := s.off + LINE_SIZE, file := WriteAt(s.file, s.off, LineOf(w)))
  }

  ghost predicate Next(lines: nat, s: State, s': State) {
    exists w :: Step(lines, w, s, s')
  }

  ghost function Forked(lines: nat): System<State> {
    System(s => Init(s), (s, s') => Next(lines, s, s'))
  }

  ghost predicate Done(lines: nat, s: State) {
    s.child == s.parent == Writing(lines)
  }

  // The file as a sequence of 80-byte slots behind the first 10 bytes

  datatype Slot = Hole | Filled(who: Who)

  function SlotBytes(x: Slot): (r: seq<byte>)
    ensures |r| == LINE_SIZE
  {
    match x
    case Hole => Zeros(LINE_SIZE)
    case Filled(w) => LineOf(w)
  }

  function ByteOf(slots: seq<Slot>, p: nat): byte
    requires p < SEEK_TO + LINE_SIZE * |slots|
  {
    if p < SEEK_TO then 0 else SlotBytes(slots[(p - SEEK_TO) / LINE_SIZE])[(p - SEEK_TO) % LINE_SIZE]
  }

  /** The file with these slots; with none of them nothing has been written at all. */
  function FileOf(slots: seq<Slot>): seq<byte> {
    if slots == [] then []
    else seq(SEEK_TO + LINE_SIZE * |slots|, p requires 0 <= p < SEEK_TO + LINE_SIZE * |slots| => ByteOf(slots, p))
  }

  function PutSlot(slots: seq<Slot>, k: nat, x: Slot): seq<Slot> {
    if k < |slots| then slots[k := x] else slots + seq(k - |slots|, _ => Hole) + [x]
  }

  lemma OneByte(slots: seq<Slot>, k: nat, w: Who, p: nat)
    requires p < SEEK_TO + LINE_SIZE * |PutSlot(slots, k, Filled(w))|
    ensures var off := SEEK_TO + LINE_SIZE * k;
      ByteOf(PutSlot(slots, k, Filled(w)), p) ==
        if off <= p < off + LINE_SIZE then LineOf(w)[p - off]
        else if slots != [] && p < SEEK_TO + LINE_SIZE * |slots| then ByteOf(slots, p) else 0
  {
    if p >= SEEK_TO {
      var q := (p - SEEK_TO) / LINE_SIZE;
      assert SEEK_TO + LINE_SIZE * q <= p < SEEK_TO + LINE_SIZE * (q + 1);
    }
  }

  /** A write at the start of slot k fills exactly that slot. */
  lemma WriteFillsSlot(slots: seq<Slot>, k: nat, w: Who)
    ensures WriteAt(FileOf(slots), SEEK_TO + LINE_SIZE * k, LineOf(w)) == FileOf(PutSlot(slots, k, Filled(w)))
  {
    var r := WriteAt(FileOf(slots), SEEK_TO + LINE_SIZE * k, LineOf(w));
    var r' := FileOf(PutSlot(slots, k, Filled(w)));
    assert |r| == |r'|;
    forall p | 0 <= p < |r| ensures r[p] == r'[p] {
      OneByte(slots, k, w, p);
    }
  }

  // The same program on slots, and the simulation that connects the two

  datatype View = View(off: nat, slots: seq<Slot>, child: Pc, parent: Pc)

  function Bytes(v: View): State {
    State(v.off, FileOf(v.slots), v.child, v.parent)
  }

  function PcOf(v: View, w: Who): Pc { if w.Child? then v.child else v.parent }

  function SetPc(v: View, w: Who, pc: Pc): View { if w.Child? then v.(child := pc) else v.(parent := pc) }

  function SlotOf(off: nat): nat {
    if off < SEEK_TO then 0 else (off - SEEK_TO) / LINE_SIZE
  }

  /** Off 10 mod 80 once a process has sought. */
  predicate Aligned(v: View) {
    v.child.Writing? || v.parent.Writing? ==> v.off == SEEK_TO + LINE_SIZE * SlotOf(v.off)
  }

  predicate Enabled(lines: nat, w: Who, v: View) {
    PcOf(v, w).Ready? || PcOf(v, w).i < lines
  }

  function StepView(lines: nat, w: Who, v: View): View {
    match PcOf(v, w)
    case Ready => SetPc(v, w, Writing(0)).(off := Target(lines, w))
    case Writing(i) =>
      SetPc(v, w, Writing(i + 1)).(off := v.off + LINE_SIZE, slots := PutSlot(v.slots, SlotOf(v.off), Filled(w)))
  }

  lemma AlignedWrite(slots: seq<Slot>, off: nat, w: Who)
    requires off == SEEK_TO + LINE_SIZE * SlotOf(off)
    ensures WriteAt(FileOf(slots), off, LineOf(w)) == FileOf(PutSlot(slots, SlotOf(off), Filled(w)))
  {
    WriteFillsSlot(slots, SlotOf(off), w);
  }

  /** Each step on bytes is the same step on slots. */
  lemma Simulation(lines: nat, w: Who, v: View, s': State)
    requires Aligned(v)
    ensures Step(lines, w, Bytes(v), s') <==> Enabled(lines, w, v) && s' == Bytes(StepView(lines, w, v))
  {
    if PcOf(v, w).Writing? {
      AlignedWrite(v.slots, v.off, w);
    }
  }

  function Count(pc: Pc): nat { if pc.Writing? then pc.i else 0 }

  /** Upper limit of the slots in use. */
  function Reach(lines: nat, v: View): nat {
    (if v.parent.Writing? then lines else 0) + Count(v.child) + Count(v.parent)
  }

  predicate Inv(lines: nat, v: View) {
    && Count(v.child) <= lines && Count(v.parent) <= lines
    && Aligned(v) && |v.slots| <= Reach(lines, v)
    && (v.child.Writing? || v.parent.Writing? ==> SlotOf(v.off) <= Reach(lines, v))
  }

  ghost predicate SomeView(lines: nat, s: State) {
    exists v :: Inv(lines, v) && s == Bytes(v)
  }

  lemma InvStep(lines: nat, w: Who, v: View)
    requires Inv(lines, v) && Enabled(lines, w, v)
    ensures Inv(lines, StepView(lines, w, v))
  {
  }

  lemma ViewHolds(lines: nat, s: State) returns (v: View)
    requires Reachable(Forked(lines), s)
    ensures Inv(lines, v) && s == Bytes(v)
  {
    var m, inv := Forked(lines), s => SomeView(lines, s);
    forall s | m.init(s) ensures inv(s) {
      assert s == Bytes(View(0, [], Ready, Ready));
    }
    forall s, s' | inv(s) && m.next(s, s') ensures inv(s') {
      var w :| Step(lines, w, s, s');
      var v :| Inv(lines, v) && s == Bytes(v);
      Simulation(lines, w, v, s');
      InvStep(lines, w, v);
    }
    Invariant(m, inv, s);
    v :| Inv(lines, v) && s == Bytes(v);
  }

  // What the slots are, byte by byte: 'c' is 99, 'p' is 112, the newline 10

  /** Slot k of the file holds 79 times this letter and a newline. */
  ghost predicate LineSlot(file: seq<byte>, k: nat, letter: byte) {
    && 10 + 80 * k + 80 <= |file| && file[10 + 80 * k + 79] == 10
    && forall p :: 10 + 80 * k <= p < 10 + 80 * k + 79 ==> file[p] == letter
  }

  ghost predicate ZeroSlot(file: seq<byte>, k: nat) {
    10 + 80 * k + 80 <= |file| && forall p :: 10 + 80 * k <= p < 10 + 80 * k + 80 ==> file[p] == 0
  }

  /** The file consists of n slots behind 10 zero bytes, or of nothing at all. */
  ghost predicate Slotted(file: seq<byte>, n: nat) {
    && |file| == (if n == 0 then 0 else 10 + 80 * n)
    && (n > 0 ==> forall p :: 0 <= p < 10 ==> file[p] == 0)
  }

  lemma SlotByte(slots: seq<Slot>, k: nat, p: nat)
    requires k < |slots| && 10 + 80 * k <= p < 10 + 80 * k + 80
    ensures p < |FileOf(slots)| && FileOf(slots)[p] == SlotBytes(slots[k])[p - 10 - 80 * k]
  {
    assert (p - SEEK_TO) / LINE_SIZE == k && (p - SEEK_TO) % LINE_SIZE == p - 10 - 80 * k;
  }

  ghost predicate Shape(file: seq<byte>, k: nat, x: Slot) {
    match x
    case Hole => ZeroSlot(file, k)
    case Filled(Child) => LineSlot(file, k, 99)
    case Filled(Parent) => LineSlot(file, k, 112)
  }

  ghost predicate Shapes(file: seq<byte>, slots: seq<Slot>) {
    Slotted(file, |slots|) && forall k: nat :: k < |slots| ==> Shape(file, k, slots[k])
  }

  lemma SlotContents(slots: seq<Slot>, k: nat)
    requires k < |slots|
    ensures Shape(FileOf(slots), k, slots[k])
  {
    var file := FileOf(slots);
    forall p | 10 + 80 * k <= p < 10 + 80 * k + 80
      ensures p < |file| && file[p] == SlotBytes(slots[k])[p - 10 - 80 * k]
    {
      SlotByte(slots, k, p);
    }
    SlotByte(slots, k, 10 + 80 * k + 79);
  }

  lemma FileSlotted(slots: seq<Slot>)
    ensures Slotted(FileOf(slots), |slots|)
  {
  }

  lemma FileShapes(slots: seq<Slot>)
    ensures Shapes(FileOf(slots), slots)
  {
    FileSlotted(slots);
    forall k: nat | k < |slots| ensures Shape(FileOf(slots), k, slots[k]) {
      SlotContents(slots, k);
    }
  }

  lemma NothingElse(file: seq<byte>, slots: seq<Slot>)
    requires Shapes(file, slots)
    ensures Slotted(file, |slots|)
    ensures forall k: nat :: k < |slots| ==> ZeroSlot(file, k) || LineSlot(file, k, 99) || LineSlot(file, k, 112)
  {
    forall k: nat | k < |slots| ensures ZeroSlot(file, k) || LineSlot(file, k, 99) || LineSlot(file, k, 112) {
      assert Shape(file, k, slots[k]);
    }
  }

  /** In every interleaving, at every moment: once a process has sought, the position is 10 mod 80; the file
      consists of whole slots, each a hole, a whole line of the child's 'c' or a whole line of the parent's 'p',
      at most three times as many as one process has lines. */
  lemma NeverTorn(lines: nat, s: State) returns (slots: seq<Slot>)
    requires Reachable(Forked(lines), s)
    ensures s.file == FileOf(slots) && |slots| <= 3 * lines && Slotted(s.file, |slots|)
    ensures forall k: nat :: k < |slots| ==> ZeroSlot(s.file, k) || LineSlot(s.file, k, 99) || LineSlot(s.file, k, 112)
    ensures s.child.Writing? || s.parent.Writing? ==> s.off % 80 == 10
  {
    var v := ViewHolds(lines, s);
    slots := v.slots;
    OffsetAndReach(lines, v);
    FileNothingElse(slots);
  }

  lemma FileNothingElse(slots: seq<Slot>)
    ensures var file := FileOf(slots);
      && Slotted(file, |slots|)
      && forall k: nat :: k < |slots| ==> ZeroSlot(file, k) || LineSlot(file, k, 99) || LineSlot(file, k, 112)
  {
    FileShapes(slots);
    NothingElse(FileOf(slots), slots);
  }

  lemma OffsetAndReach(lines: nat, v: View)
    requires Inv(lines, v)
    ensures |v.slots| <= 3 * lines
    ensures v.child.Writing? || v.parent.Writing? ==> v.off % LINE_SIZE == SEEK_TO
  {
    OffsetMod(SlotOf(v.off));
  }

  lemma OffsetMod(k: nat)
    ensures (SEEK_TO + LINE_SIZE * k) % LINE_SIZE == SEEK_TO
  {
  }

  // Exactly which runs give the intended layout

  /** After the seek, before the last write. */
  predicate Busy(lines: nat, pc: Pc) {
    pc.Writing? && pc.i < lines
  }

  /** After the first write, before the last one. */
  predicate Midway(lines: nat, pc: Pc) {
    pc.Writing? && 0 < pc.i < lines
  }

  /** A parent step comes between the child's seek and its last write, or a child step between the parent's
      first and last write. */
  predicate Disturbs(lines: nat, w: Who, child: Pc, parent: Pc) {
    if w.Child? then Midway(lines, parent) else Busy(lines, child)
  }

  ghost predicate Disturbing(lines: nat, s: State, s': State) {
    exists w :: Step(lines, w, s, s') && Disturbs(lines, w, s.child, s.parent)
  }

  ghost predicate Undisturbed(lines: nat, run: seq<State>) {
    forall i :: 0 < i < |run| ==> !Disturbing(lines, run[i - 1], run[i])
  }

  /** All child lines, then all parent lines. */
  function Intended(lines: nat): seq<Slot> {
    seq(lines, _ => Filled(Child)) + seq(lines, _ => Filled(Parent))
  }

  /** Child lines from slot 0, parent lines from slot `lines`. */
  function Layout(lines: nat, c: nat, p: nat): seq<Slot> {
    seq(if p > 0 then lines + p else c,
        k => if k < c then Filled(Child) else if k >= lines then Filled(Parent) else Hole)
  }

  lemma LayoutGrows(lines: nat, c: nat, p: nat)
    requires c <= lines
    ensures c < lines ==> PutSlot(Layout(lines, c, p), c, Filled(Child)) == Layout(lines, c + 1, p)
    ensures PutSlot(Layout(lines, c, p), lines + p, Filled(Parent)) == Layout(lines, c, p + 1)
  {
  }

  /** Every line so far is where it should be, and so is the position for whoever may write next. */
  predicate OnTrack(lines: nat, v: View) {
    && Inv(lines, v)
    && v.slots == Layout(lines, Count(v.child), Count(v.parent))
    && (Busy(lines, v.child) ==> SlotOf(v.off) == Count(v.child) && !Midway(lines, v.parent))
    && (Busy(lines, v.parent) && !Busy(lines, v.child) ==> SlotOf(v.off) == lines + Count(v.parent))
  }

  predicate Missing(slots: seq<Slot>, k: nat) {
    k < |slots| ==> slots[k] != Filled(Child)
  }

  /** Both processes have sought, and either a slot of the child's area lies behind the position without a
      child line, or the lines still to come cannot reach the end of the intended file. */
  ghost predicate Lost(lines: nat, v: View) {
    && Inv(lines, v) && v.child.Writing? && v.parent.Writing?
    && (|| (exists k :: 0 <= k < lines && k < SlotOf(v.off) && Missing(v.slots, k))
        || (|v.slots| < 2 * lines && SlotOf(v.off) < v.child.i + v.parent.i))
  }

  lemma TrackKept(lines: nat, w: Who, v: View)
    requires OnTrack(lines, v) && Enabled(lines, w, v) && !Disturbs(lines, w, v.child, v.parent)
    ensures OnTrack(lines, StepView(lines, w, v))
  {
    InvStep(lines, w, v);
    LayoutGrows(lines, Count(v.child), Count(v.parent));
  }

  lemma TrackLost(lines: nat, w: Who, v: View)
    requires OnTrack(lines, v) && Enabled(lines, w, v) && Disturbs(lines, w, v.child, v.parent)
    ensures Lost(lines, StepView(lines, w, v))
  {
    InvStep(lines, w, v);
    var v' := StepView(lines, w, v);
    if w.Parent? {
      assert Missing(v'.slots, v.child.i);
    }
  }

  lemma LostKept(lines: nat, w: Who, v: View)
    requires Lost(lines, v) && Enabled(lines, w, v)
    ensures Lost(lines, StepView(lines, w, v))
  {
    InvStep(lines, w, v);
    if k :| 0 <= k < lines && k < SlotOf(v.off) && Missing(v.slots, k) {
      assert Missing(StepView(lines, w, v).slots, k);
    }
  }

  lemma TurnLeads(lines: nat, w: Who, v: View, good: bool)
    requires Enabled(lines, w, v) && if good then OnTrack(lines, v) else Lost(lines, v)
    ensures if good && !Disturbs(lines, w, v.child, v.parent) then OnTrack(lines, StepView(lines, w, v))
      else Lost(lines, StepView(lines, w, v))
  {
    if !good {
      LostKept(lines, w, v);
    } else if Disturbs(lines, w, v.child, v.parent) {
      TrackLost(lines, w, v);
    } else {
      TrackKept(lines, w, v);
    }
  }

  /** Where a run leads: on the track as long as no step disturbs, lost for good from the first that does. */
  lemma {:induction false} RunLeads(lines: nat, run: seq<State>) returns (v: View)
    requires IsRun(Forked(lines), run)
    ensures run[|run| - 1] == Bytes(v)
    ensures if Undisturbed(lines, run) then OnTrack(lines, v) else Lost(lines, v)
  {
    var n := |run| - 1;
    if n == 0 {
      v := View(0, [], Ready, Ready);
      assert Layout(lines, 0, 0) == [];
    } else {
      var front := run[..n];
      assert IsRun(Forked(lines), front);
      var u := RunLeads(lines, front);
      assert Forked(lines).next(run[n - 1], run[n]);
      var w :| Step(lines, w, run[n - 1], run[n]);
      Simulation(lines, w, u, run[n]);
      v := StepView(lines, w, u);
      LastStep(lines, run, w);
      TurnLeads(lines, w, u, Undisturbed(lines, front));
    }
  }

  lemma LastStep(lines: nat, run: seq<State>, w: Who)
    requires |run| > 1 && Step(lines, w, run[|run| - 2], run[|run| - 1])
    ensures var before := run[|run| - 2];
      Undisturbed(lines, run) <==>
        Undisturbed(lines, run[..|run| - 1]) && !Disturbs(lines, w, before.child, before.parent)
  {
    var n := |run| - 1;
    var front, s, s' := run[..n], run[n - 1], run[n];
    assert forall i :: 0 <= i < n ==> front[i] == run[i];
    assert Disturbing(lines, s, s') <==> Disturbs(lines, w, s.child, s.parent) by {
      if x :| Step(lines, x, s, s') && Disturbs(lines, x, s.child, s.parent) {
        assert x == w;
      }
    }
    if Undisturbed(lines, front) && !Disturbing(lines, s, s') {
      forall i | 0 < i < |run| ensures !Disturbing(lines, run[i - 1], run[i]) {
        if i < n {
          assert !Disturbing(lines, front[i - 1], front[i]);
        }
      }
    }
  }

  /** The slots of a file can be read off its bytes. */
  lemma SlotsDecided(a: seq<Slot>, b: seq<Slot>)
    requires FileOf(a) == FileOf(b)
    ensures a == b
  {
    assert |FileOf(a)| == if a == [] then 0 else SEEK_TO + LINE_SIZE * |a|;
    assert |FileOf(b)| == if b == [] then 0 else SEEK_TO + LINE_SIZE * |b|;
    forall k | 0 <= k < |a| ensures a[k] == b[k] {
      var p := SEEK_TO + LINE_SIZE * k;
      assert (p - SEEK_TO) / LINE_SIZE == k && (p - SEEK_TO) % LINE_SIZE == 0;
      assert FileOf(a)[p] == ByteOf(a, p) == SlotBytes(a[k])[0];
      assert FileOf(b)[p] == ByteOf(b, p) == SlotBytes(b[k])[0];
    }
  }

  /** `lines` lines of 'c' and then as many of 'p'. */
  ghost predicate IntendedFile(lines: nat, file: seq<byte>) {
    && Slotted(file, 2 * lines)
    && (forall k: nat :: k < lines ==> LineSlot(file, k, 99))
    && (forall k: nat :: lines <= k < 2 * lines ==> LineSlot(file, k, 112))
  }

  lemma IntendedShapes(lines: nat, file: seq<byte>)
    requires Shapes(file, Intended(lines))
    ensures IntendedFile(lines, file)
  {
    forall k: nat | k < 2 * lines
      ensures (k < lines ==> LineSlot(file, k, 99)) && (k >= lines ==> LineSlot(file, k, 112))
    {
      assert Shape(file, k, Intended(lines)[k]);
    }
  }

  lemma IntendedBytes(lines: nat)
    ensures IntendedFile(lines, FileOf(Intended(lines)))
  {
    FileShapes(Intended(lines));
    IntendedShapes(lines, FileOf(Intended(lines)));
  }

  lemma SlotOfByte(p: nat) returns (k: nat)
    requires p >= 10
    ensures 10 + 80 * k <= p < 10 + 80 * k + 80
  {
    k := (p - 10) / 80;
  }

  /** The description is complete: it leaves no byte open. */
  lemma OneIntendedFile(lines: nat, x: seq<byte>, y: seq<byte>)
    requires IntendedFile(lines, x) && IntendedFile(lines, y)
    ensures x == y
  {
    forall p: nat | p < |x| ensures x[p] == y[p] {
      if p >= 10 {
        var k := SlotOfByte(p);
        var letter: byte := if k < lines then 99 else 112;
        assert LineSlot(x, k, letter) && LineSlot(y, k, letter);
      }
    }
  }

  /** A complete run leaves the intended file, the child's lines of 'c' from byte 10 on and then the parent's
      lines of 'p', if and only if no parent step came between the child's seek and its last write and no child
      step between the parent's first and last write.  The two phases may overlap: parent seeks, child seeks
      and writes, parent writes is such a run too. */
  lemma IntendedLayout(lines: nat, run: seq<State>)
    requires IsRun(Forked(lines), run) && Done(lines, run[|run| - 1])
    ensures IntendedFile(lines, run[|run| - 1].file) <==> Undisturbed(lines, run)
    ensures run[|run| - 1].file == FileOf(Intended(lines)) <==> Undisturbed(lines, run)
  {
    var v := RunLeads(lines, run);
    IntendedBytes(lines);
    if Undisturbed(lines, run) {
      TrackEnds(lines, v);
    } else {
      LostEnds(lines, v);
      if IntendedFile(lines, FileOf(v.slots)) {
        OneIntendedFile(lines, FileOf(v.slots), FileOf(Intended(lines)));
      }
    }
  }

  lemma TrackEnds(lines: nat, v: View)
    requires OnTrack(lines, v) && v.child == v.parent == Writing(lines)
    ensures FileOf(v.slots) == FileOf(Intended(lines))
  {
    assert Layout(lines, lines, lines) == Intended(lines);
  }

  lemma LostEnds(lines: nat, v: View)
    requires Lost(lines, v) && v.child == v.parent == Writing(lines)
    ensures FileOf(v.slots) != FileOf(Intended(lines))
  {
    assert v.slots != Intended(lines) by {
      if k :| 0 <= k < lines && k < SlotOf(v.off) && Missing(v.slots, k) {
        assert Intended(lines)[k] == Filled(Child);
      }
    }
    if FileOf(v.slots) == FileOf(Intended(lines)) {
      SlotsDecided(v.slots, Intended(lines));
    }
  }

  function StepsTaken(pc: Pc): nat { if pc.Writing? then pc.i + 1 else 0 }

  lemma StuckWhenDone(lines: nat, s: State)
    requires Reachable(Forked(lines), s)
    ensures Stuck(Forked(lines), s) <==> Done(lines, s)
    ensures StepsTaken(s.child) + StepsTaken(s.parent) <= 2 * lines + 2
  {
    var v := ViewHolds(lines, s);
    if !Done(lines, s) {
      var w := if s.child == Writing(lines) then Parent else Child;
      var s' := Bytes(StepView(lines, w, v));
      Simulation(lines, w, v, s');
      assert Forked(lines).next(s, s');
    }
  }

  lemma StepCounts(lines: nat, s: State, s': State)
    requires Next(lines, s, s')
    ensures StepsTaken(s'.child) + StepsTaken(s'.parent) == StepsTaken(s.child) + StepsTaken(s.parent) + 1
  {
  }

  /** A run stops only when both processes are through, after 2 * lines + 2 steps. */
  lemma {:induction false} RunsFinish(lines: nat, run: seq<State>)
    requires IsRun(Forked(lines), run)
    ensures var s := run[|run| - 1];
      && (Stuck(Forked(lines), s) <==> Done(lines, s))
      && |run| - 1 == StepsTaken(s.child) + StepsTaken(s.parent) <= 2 * lines + 2
  {
    var n := |run| - 1;
    assert Reachable(Forked(lines), run[n]);
    StuckWhenDone(lines, run[n]);
    if n > 0 {
      var front := run[..n];
      assert IsRun(Forked(lines), front);
      RunsFinish(lines, front);
      assert Forked(lines).next(run[n - 1], run[n]);
      StepCounts(lines, run[n - 1], run[n]);
    }
  }

  // The worst overlap: both seek before either writes

  /** c child lines and p parent lines, all behind the child's area. */
  function Spoiled(lines: nat, c: nat, p: nat): View {
    View(SEEK_TO + LINE_SIZE * (lines + c + p),
         seq(if c + p == 0 then 0 else lines + c + p,
             k => if k < lines then Hole else if k < lines + c then Filled(Child) else Filled(Parent)),
         Writing(c), Writing(p))
  }

  lemma SpoiledStep(lines: nat, c: nat, p: nat)
    ensures p == 0 ==> StepView(lines, Child, Spoiled(lines, c, p)) == Spoiled(lines, c + 1, p)
    ensures StepView(lines, Parent, Spoiled(lines, c, p)) == Spoiled(lines, c, p + 1)
  {
    var v := Spoiled(lines, c, p);
    assert SlotOf(v.off) == lines + c + p;
    assert PutSlot(v.slots, lines + c + p, Filled(Parent)) == Spoiled(lines, c, p + 1).slots;
    if p == 0 {
      assert PutSlot(v.slots, lines + c, Filled(Child)) == Spoiled(lines, c + 1, p).slots;
    }
  }

  lemma ViewStep(lines: nat, w: Who, v: View, v': View)
    requires Aligned(v) && Enabled(lines, w, v) && v' == StepView(lines, w, v)
    requires Reachable(Forked(lines), Bytes(v))
    ensures Reachable(Forked(lines), Bytes(v'))
  {
    Simulation(lines, w, v, Bytes(v'));
    ReachStep(Forked(lines), Bytes(v), Bytes(v'));
  }

  lemma BothSought(lines: nat)
    ensures Reachable(Forked(lines), Bytes(Spoiled(lines, 0, 0)))
  {
    var v := View(0, [], Ready, Ready);
    var v' := StepView(lines, Child, v);
    ReachInit(Forked(lines), Bytes(v));
    ViewStep(lines, Child, v, v');
    ViewStep(lines, Parent, v', Spoiled(lines, 0, 0));
  }

  lemma {:induction false} ThenChildWrites(lines: nat, c: nat)
    requires c <= lines
    ensures Reachable(Forked(lines), Bytes(Spoiled(lines, c, 0)))
  {
    if c == 0 {
      BothSought(lines);
    } else {
      ThenChildWrites(lines, c - 1);
      SpoiledStep(lines, c - 1, 0);
      ViewStep(lines, Child, Spoiled(lines, c - 1, 0), Spoiled(lines, c, 0));
    }
  }

  lemma {:induction false} ThenParentWrites(lines: nat, p: nat)
    requires p <= lines
    ensures Reachable(Forked(lines), Bytes(Spoiled(lines, lines, p)))
  {
    if p == 0 {
      ThenChildWrites(lines, lines);
    } else {
      ThenParentWrites(lines, p - 1);
      SpoiledStep(lines, lines, p - 1);
      ViewStep(lines, Parent, Spoiled(lines, lines, p - 1), Spoiled(lines, lines, p));
    }
  }

  /** Overlapping phases can spoil the file: a run exists that leaves the child's whole area a hole and
      needs all 3 * lines slots (300 in the program). */
  lemma OverlapSpoils(lines: nat)
    requires lines > 0
    ensures exists s :: Reachable(Forked(lines), s) && Done(lines, s) && SpoiledFile(lines, s.file)
  {
    ThenParentWrites(lines, lines);
    var v := Spoiled(lines, lines, lines);
    assert v.slots == seq(lines, _ => Hole) + seq(lines, _ => Filled(Child)) + seq(lines, _ => Filled(Parent));
    assert Done(lines, Bytes(v));
    FileShapes(v.slots);
    SpoiledShapes(lines, Bytes(v).file, v.slots);
    assert SpoiledFile(lines, Bytes(v).file);
  }

  lemma SpoiledShapes(lines: nat, file: seq<byte>, slots: seq<Slot>)
    requires Shapes(file, slots)
    requires slots == seq(lines, _ => Hole) + seq(lines, _ => Filled(Child)) + seq(lines, _ => Filled(Parent))
    ensures SpoiledFile(lines, file)
  {
    forall k: nat | k < 3 * lines
      ensures (k < lines ==> ZeroSlot(file, k)) && (lines <= k < 2 * lines ==> LineSlot(file, k, 99))
      ensures 2 * lines <= k ==> LineSlot(file, k, 112)
    {
      assert Shape(file, k, slots[k]);
    }
  }

  /** A hole of `lines` slots, then the child's lines, then the parent's. */
  ghost predicate SpoiledFile(lines: nat, file: seq<byte>) {
    && Slotted(file, 3 * lines)
    && (forall k: nat :: k < lines ==> ZeroSlot(file, k))
    && (forall k: nat :: lines <= k < 2 * lines ==> LineSlot(file, k, 99))
    && (forall k: nat :: 2 * lines <= k < 3 * lines ==> LineSlot(file, k, 112))
  }
}
